/** Every interleaving of spawns, closes, exits and audits. One step is one lock section or one
    registry operation; faults (a registry entry lost, an exit that unwinds) are steps too. */
module ExitRuns {
  import opened ExitAudit

  /** Where the thread that creates a session stands. */
  datatype Worker = Starting | SinkIn | BothIn | SinkOut | Over

  /** Where the exit callback of a session stands (sink.rs, on_exit). */
  datatype Exit = Quiet | Begun | Passed(adopted: bool) | Marked | Updated | SinkDropped | Dropped | Finished

  /** `tab` is the tab the spawn was asked for; `adopted` says the model took the session. */
  datatype Rec = Rec(tab: nat, worker: Worker, exit: Exit, adopted: bool)

  datatype Holder = Free | Spawning(id: nat) | Entered | HaveMarks(marks: set<nat>)
    | HaveSessions(marks: set<nat>, sessions: set<nat>)
    | HaveBoth(marks: set<nat>, sessions: set<nat>, sinks: set<nat>)

  /** `faulty` remembers the sessions a fault touched. */
  datatype World = World(
    recs: seq<Rec>, tabs: map<nat, nat>, sessions: set<nat>, sinks: set<nat>, marks: set<nat>,
    lock: Holder, releasing: set<nat>, faulty: set<nat>)

  datatype Move =
    | SpawnBegin(tab: nat) | AddSink(id: nat) | AddSession(id: nat) | SpawnOk | SpawnTimeout | SpawnError(id: nat)
    | CleanSink(id: nat) | CleanSession(id: nat) | CloseTab(tab: nat)
    | ExitBegin(id: nat) | Barrier(id: nat) | Mark(id: nat) | Update(id: nat)
    | DropSink(id: nat) | DropSession(id: nat) | Unmark(id: nat)
    | AuditEnter | ReadMarks | ReadSessions | ReadSinks | Classify
    | ReleaseSink(id: nat) | ReleaseSession(id: nat)
    | Lose(id: nat, sink: bool) | Unwind(id: nat)

  const INITIAL := World([], map[], {}, {}, {}, Free, {}, {})

  // ----- what one audit concludes from what it has read -----

  function OrphanSessions(w: World): set<nat>
    requires w.lock.HaveBoth?
  {
    Orphans(w.lock.sessions, w.lock.sinks, w.tabs.Values, w.lock.marks)
  }

  function OrphanSinks(w: World): set<nat>
    requires w.lock.HaveBoth?
  {
    Orphans(w.lock.sinks, w.lock.sessions, w.tabs.Values, w.lock.marks)
  }

  predicate Dangles(w: World, tab: nat)
    requires w.lock.HaveBoth?
  {
    tab in w.tabs && !(w.tabs[tab] in w.lock.sessions && w.tabs[tab] in w.lock.sinks)
  }

  // ----- steps -----

  predicate WorkerAt(w: World, id: nat, at: Worker) { id < |w.recs| && w.recs[id].worker == at }

  predicate ExitAt(w: World, id: nat, at: Exit) { id < |w.recs| && w.recs[id].exit == at }

  predicate Enabled(w: World, m: Move) {
    match m
    case SpawnBegin(tab) => w.lock == Free
    case AddSink(id) => WorkerAt(w, id, Starting)
    case AddSession(id) => WorkerAt(w, id, SinkIn)
    case SpawnOk => w.lock.Spawning? && WorkerAt(w, w.lock.id, BothIn)
    case SpawnTimeout => w.lock.Spawning?
    case SpawnError(id) => WorkerAt(w, id, SinkIn)
    case CleanSink(id) => WorkerAt(w, id, BothIn) && w.lock != Spawning(id)
    case CleanSession(id) => WorkerAt(w, id, SinkOut)
    case CloseTab(tab) => w.lock == Free && tab in w.tabs
    case ExitBegin(id) => id < |w.recs| && w.recs[id].worker != Starting && w.recs[id].exit == Quiet
    case Barrier(id) => w.lock == Free && ExitAt(w, id, Begun)
    case Mark(id) => id < |w.recs| && w.recs[id].exit.Passed?
    case Update(id) => w.lock == Free && ExitAt(w, id, Marked)
    case DropSink(id) => ExitAt(w, id, Updated)
    case DropSession(id) => ExitAt(w, id, SinkDropped)
    case Unmark(id) => ExitAt(w, id, Dropped)
    case AuditEnter => w.lock == Free
    case ReadMarks => w.lock == Entered
    case ReadSessions => w.lock.HaveMarks?
    case ReadSinks => w.lock.HaveSessions?
    case Classify => w.lock.HaveBoth?
    case ReleaseSink(id) => id in w.releasing
    case ReleaseSession(id) => id in w.releasing
    case Lose(id, sink) => id < |w.recs|
    case Unwind(id) => ExitAt(w, id, Marked) || ExitAt(w, id, Updated) || ExitAt(w, id, SinkDropped)
  }

  function WithWorker(w: World, id: nat, worker: Worker): World
    requires id < |w.recs|
  {
    w.(recs := w.recs[id := w.recs[id].(worker := worker)])
  }

  function WithExit(w: World, id: nat, exit: Exit): World
    requires id < |w.recs|
  {
    w.(recs := w.recs[id := w.recs[id].(exit := exit)])
  }

  function Kill(w: World, id: nat): World { w.(sinks := w.sinks - {id}, sessions := w.sessions - {id}) }

  function Next(w: World, m: Move): World
    requires Enabled(w, m)
  {
    match m
    case SpawnBegin(tab) =>
      // a restart first kills the session its tab still holds
      var cleaned := if tab in w.tabs then Kill(w, w.tabs[tab]) else w;
      cleaned.(recs := w.recs + [Rec(tab, Starting, Quiet, false)], tabs := w.tabs - {tab}, lock := Spawning(|w.recs|))
    case AddSink(id) => WithWorker(w, id, SinkIn).(sinks := w.sinks + {id})
    case AddSession(id) => WithWorker(w, id, BothIn).(sessions := w.sessions + {id})
    case SpawnOk =>
      var id := w.lock.id;
      w.(recs := w.recs[id := w.recs[id].(worker := Over, adopted := true)], tabs := w.tabs[w.recs[id].tab := id], lock := Free)
    case SpawnTimeout => w.(lock := Free)
    case SpawnError(id) => WithWorker(w, id, Over).(sinks := w.sinks - {id}, lock := if w.lock == Spawning(id) then Free else w.lock)
    case CleanSink(id) => WithWorker(w, id, SinkOut).(sinks := w.sinks - {id})
    case CleanSession(id) => WithWorker(w, id, Over).(sessions := w.sessions - {id})
    case CloseTab(tab) => Kill(w, w.tabs[tab]).(tabs := w.tabs - {tab})
    case ExitBegin(id) => WithExit(w, id, Begun)
    case Barrier(id) =>
      var tab := w.recs[id].tab;
      WithExit(w, id, Passed(tab in w.tabs && w.tabs[tab] == id))
    case Mark(id) => WithExit(w, id, Marked).(marks := w.marks + {id})
    case Update(id) => WithExit(w, id, Updated).(tabs := map t | t in w.tabs && w.tabs[t] != id :: w.tabs[t])
    case DropSink(id) => WithExit(w, id, SinkDropped).(sinks := w.sinks - {id})
    case DropSession(id) => WithExit(w, id, Dropped).(sessions := w.sessions - {id})
    case Unmark(id) => WithExit(w, id, Finished).(marks := w.marks - {id})
    case AuditEnter => w.(lock := Entered)
    case ReadMarks => w.(lock := HaveMarks(w.marks))
    case ReadSessions => w.(lock := HaveSessions(w.lock.marks, w.sessions))
    case ReadSinks => w.(lock := HaveBoth(w.lock.marks, w.lock.sessions, w.sinks))
    case Classify =>
      w.(tabs := map t | t in w.tabs && !Dangles(w, t) :: w.tabs[t], lock := Free,
         releasing := w.releasing + OrphanSessions(w) + OrphanSinks(w))
    case ReleaseSink(id) => w.(sinks := w.sinks - {id})
    case ReleaseSession(id) => w.(sessions := w.sessions - {id})
    case Lose(id, sink) =>
      if sink then w.(sinks := w.sinks - {id}, faulty := w.faulty + {id})
      else w.(sessions := w.sessions - {id}, faulty := w.faulty + {id})
    case Unwind(id) => WithExit(w, id, Finished).(marks := w.marks - {id}, faulty := w.faulty + {id})
  }

  predicate Run(w: World, moves: seq<Move>)
    decreases |moves|
  {
    moves == [] || (Enabled(w, moves[0]) && Run(Next(w, moves[0]), moves[1..]))
  }

  function After(w: World, moves: seq<Move>): World
    requires Run(w, moves)
    decreases |moves|
  {
    if moves == [] then w else After(Next(w, moves[0]), moves[1..])
  }

  // ----- what every run keeps -----

  /** Between the model update and the registry release. */
  predicate InWindow(e: Exit) { e.Updated? || e.SinkDropped? || e.Dropped? }

  predicate LetGoAlready(e: Exit) { InWindow(e) || e.Finished? }

  /** The tab a session was spawned for holds it. */
  predicate Holds(w: World, id: nat)
    requires id < |w.recs|
  {
    w.recs[id].tab in w.tabs && w.tabs[w.recs[id].tab] == id
  }

  /** Each tab has a session of its own, adopted, not yet let go and in both registries. */
  ghost predicate TabsOk(w: World) {
    && (forall t :: t in w.tabs ==>
          var id := w.tabs[t];
          && id < |w.recs| && w.recs[id].adopted && w.recs[id].tab == t
          && id !in w.releasing
          && (id in w.faulty || (!LetGoAlready(w.recs[id].exit) && id in w.sessions && id in w.sinks)))
  }

  /** The marks are exactly the exits past their mark and not yet finished. */
  ghost predicate MarksOk(w: World) {
    forall id: nat :: id in w.marks <==> id < |w.recs| && (w.recs[id].exit.Marked? || InWindow(w.recs[id].exit))
  }

  /** An adopted session that no tab holds any more is still registered only while its exit
      is on its way to release it. */
  ghost predicate ReleasedOk(w: World) {
    forall id :: 0 <= id < |w.recs| && w.recs[id].adopted && id !in w.faulty ==>
      && (id in w.sessions && !Holds(w, id) ==> w.recs[id].exit.Updated? || w.recs[id].exit.SinkDropped?)
      && (id in w.sinks && !Holds(w, id) ==> w.recs[id].exit.Updated?)
  }

  /** Bookkeeping of the creating thread, of the lock and of the pending releases. */
  ghost predicate WorkersOk(w: World) {
    && (forall id :: 0 <= id < |w.recs| && w.recs[id].adopted ==> w.recs[id].worker.Over?)
    && (forall id :: 0 <= id < |w.recs| && w.recs[id].exit.Passed? && w.recs[id].exit.adopted ==> w.recs[id].adopted)
    && (forall id :: id in w.sessions || id in w.sinks || id in w.releasing ==> id < |w.recs|)
    && (w.lock.Spawning? ==> w.lock.id < |w.recs| && !w.recs[w.lock.id].adopted && !w.recs[w.lock.id].worker.Over?
                             && !w.recs[w.lock.id].worker.SinkOut? && w.recs[w.lock.id].tab !in w.tabs
                             && w.lock.id !in w.releasing
                             && (w.recs[w.lock.id].exit.Quiet? || w.recs[w.lock.id].exit.Begun?)
                             && (w.lock.id in w.faulty || w.recs[w.lock.id].worker.Starting? || w.lock.id in w.sinks)
                             && (w.lock.id in w.faulty || !w.recs[w.lock.id].worker.BothIn? || w.lock.id in w.sessions))
  }

  /** What the marks read by an audit know while it holds the lock. */
  ghost predicate MarksKnow(w: World, marks: set<nat>) {
    forall id: nat :: id < |w.recs| && InWindow(w.recs[id].exit) ==> id in marks
  }

  /** What a registry snapshot taken under the lock, after the marks, knows. */
  ghost predicate SnapshotKnows(w: World, marks: set<nat>, ids: set<nat>) {
    && (forall id :: id in ids ==> id < |w.recs|)
    && (forall id: nat :: id < |w.recs| && w.recs[id].adopted && id !in w.faulty ==>
          && (Holds(w, id) ==> id in ids)
          && (id in ids ==> Holds(w, id) || id in marks))
  }

  ghost predicate AuditOk(w: World) {
    match w.lock
    case Free => true
    case Spawning(_) => true
    case Entered => true
    case HaveMarks(marks) => MarksKnow(w, marks)
    case HaveSessions(marks, sessions) => MarksKnow(w, marks) && SnapshotKnows(w, marks, sessions)
    case HaveBoth(marks, sessions, sinks) =>
      MarksKnow(w, marks) && SnapshotKnows(w, marks, sessions) && SnapshotKnows(w, marks, sinks)
  }

  ghost predicate Inv(w: World) { TabsOk(w) && MarksOk(w) && ReleasedOk(w) && WorkersOk(w) && AuditOk(w) }

  // The invariants, step by step: sections under the dispatcher lock, the thread that creates
  // a session, the rest of an exit, audits and faults apart.

  predicate OfSections(m: Move) {
    m.SpawnBegin? || m.SpawnOk? || m.SpawnTimeout? || m.CloseTab? || m.Barrier? || m.Update?
  }

  predicate OfMakers(m: Move) {
    m.AddSink? || m.AddSession? || m.SpawnError? || m.CleanSink? || m.CleanSession?
  }

  predicate OfExits(m: Move) {
    m.ExitBegin? || m.Mark? || m.DropSink? || m.DropSession? || m.Unmark? || m.Unwind?
  }

  predicate OfAudits(m: Move) { !OfSections(m) && !OfMakers(m) && !OfExits(m) }

  lemma TabsOverSections(w: World, m: Move)
    requires Inv(w) && Enabled(w, m) && OfSections(m)
    ensures TabsOk(Next(w, m))
  {
    hide MarksOk, ReleasedOk, AuditOk;
  }

  lemma TabsOverMakers(w: World, m: Move)
    requires Inv(w) && Enabled(w, m) && OfMakers(m)
    ensures TabsOk(Next(w, m))
  {
    hide MarksOk, ReleasedOk, AuditOk;
  }

  lemma TabsOverExits(w: World, m: Move)
    requires Inv(w) && Enabled(w, m) && OfExits(m)
    ensures TabsOk(Next(w, m))
  {
    hide MarksOk, ReleasedOk, AuditOk;
  }

  lemma TabsOverAudits(w: World, m: Move)
    requires Inv(w) && Enabled(w, m) && OfAudits(m)
    ensures TabsOk(Next(w, m))
  {
    hide MarksOk, ReleasedOk;
  }

  lemma ReleasedOverSections(w: World, m: Move)
    requires Inv(w) && Enabled(w, m) && OfSections(m)
    ensures ReleasedOk(Next(w, m))
  {
    hide MarksOk, AuditOk;
  }

  lemma ReleasedOverMakers(w: World, m: Move)
    requires Inv(w) && Enabled(w, m) && OfMakers(m)
    ensures ReleasedOk(Next(w, m))
  {
    hide MarksOk, AuditOk;
  }

  lemma ReleasedOverExits(w: World, m: Move)
    requires Inv(w) && Enabled(w, m) && OfExits(m)
    ensures ReleasedOk(Next(w, m))
  {
    hide MarksOk, AuditOk;
  }

  lemma ReleasedOverAudits(w: World, m: Move)
    requires Inv(w) && Enabled(w, m) && OfAudits(m)
    ensures ReleasedOk(Next(w, m))
  {
    hide MarksOk;
  }

  lemma WorkersOverSections(w: World, m: Move)
    requires Inv(w) && Enabled(w, m) && OfSections(m)
    ensures WorkersOk(Next(w, m))
  {
    hide MarksOk, ReleasedOk, AuditOk;
  }

  lemma WorkersOverMakers(w: World, m: Move)
    requires Inv(w) && Enabled(w, m) && OfMakers(m)
    ensures WorkersOk(Next(w, m))
  {
    hide MarksOk, ReleasedOk, AuditOk, TabsOk;
  }

  lemma WorkersOverExits(w: World, m: Move)
    requires Inv(w) && Enabled(w, m) && OfExits(m)
    ensures WorkersOk(Next(w, m))
  {
    hide MarksOk, ReleasedOk, AuditOk, TabsOk;
  }

  lemma WorkersOverAudits(w: World, m: Move)
    requires Inv(w) && Enabled(w, m) && OfAudits(m)
    ensures WorkersOk(Next(w, m))
  {
    hide MarksOk, ReleasedOk;
  }

  /** Steps that need no lock leave alone what an audit under way has read. */
  lemma MarksStillKnow(w: World, m: Move, marks: set<nat>)
    requires Enabled(w, m) && (OfMakers(m) || OfExits(m)) && MarksKnow(w, marks)
    ensures MarksKnow(Next(w, m), marks)
  {
  }

  lemma NothingAdopted(w: World, m: Move)
    requires Enabled(w, m) && (OfMakers(m) || OfExits(m))
    ensures var t := Next(w, m);
            && t.tabs == w.tabs && |t.recs| == |w.recs| && w.faulty <= t.faulty
            && forall id: nat :: id < |w.recs| ==> t.recs[id].tab == w.recs[id].tab && t.recs[id].adopted == w.recs[id].adopted
  {
  }

  lemma SnapshotStillKnows(w: World, m: Move, marks: set<nat>, ids: set<nat>)
    requires Enabled(w, m) && (OfMakers(m) || OfExits(m)) && SnapshotKnows(w, marks, ids)
    ensures SnapshotKnows(Next(w, m), marks, ids)
  {
    NothingAdopted(w, m);
    hide Next, Enabled;
  }

  lemma LockKept(w: World, m: Move)
    requires Enabled(w, m) && (OfMakers(m) || OfExits(m))
    ensures Next(w, m).lock == w.lock || Next(w, m).lock == Free
  {
  }

  lemma AuditOverUnlocked(w: World, m: Move)
    requires Inv(w) && Enabled(w, m) && (OfMakers(m) || OfExits(m))
    ensures AuditOk(Next(w, m))
  {
    hide Next, Enabled, OfMakers, OfExits, MarksKnow, SnapshotKnows, TabsOk, MarksOk, ReleasedOk, WorkersOk;
    LockKept(w, m);
    match w.lock
    case HaveMarks(marks) =>
      MarksStillKnow(w, m, marks);
    case HaveSessions(marks, sessions) =>
      MarksStillKnow(w, m, marks);
      SnapshotStillKnows(w, m, marks, sessions);
    case HaveBoth(marks, sessions, sinks) =>
      MarksStillKnow(w, m, marks);
      SnapshotStillKnows(w, m, marks, sessions);
      SnapshotStillKnows(w, m, marks, sinks);
    case _ =>
  }

  lemma AuditOverSections(w: World, m: Move)
    requires Inv(w) && Enabled(w, m) && OfSections(m)
    ensures AuditOk(Next(w, m))
  {
    hide TabsOk, MarksOk, ReleasedOk, WorkersOk, MarksKnow, SnapshotKnows;
  }

  lemma AuditOverAudits(w: World, m: Move)
    requires Inv(w) && Enabled(w, m) && OfAudits(m)
    ensures AuditOk(Next(w, m))
  {
  }

  lemma MarksOverExits(w: World, m: Move)
    requires MarksOk(w) && Enabled(w, m) && OfExits(m)
    ensures MarksOk(Next(w, m))
  {
  }

  lemma MarksOverOthers(w: World, m: Move)
    requires MarksOk(w) && Enabled(w, m) && !OfExits(m)
    ensures MarksOk(Next(w, m))
  {
    hide Dangles, OrphanSessions, OrphanSinks;
  }

  lemma Step(w: World, m: Move)
    requires Inv(w) && Enabled(w, m)
    ensures Inv(Next(w, m))
  {
    hide Next, Enabled, TabsOk, MarksOk, ReleasedOk, WorkersOk, AuditOk;
    if OfSections(m) {
      TabsOverSections(w, m);
      ReleasedOverSections(w, m);
      WorkersOverSections(w, m);
      AuditOverSections(w, m);
      MarksOverOthers(w, m);
    } else if OfMakers(m) {
      TabsOverMakers(w, m);
      ReleasedOverMakers(w, m);
      WorkersOverMakers(w, m);
      AuditOverUnlocked(w, m);
      MarksOverOthers(w, m);
    } else if OfExits(m) {
      TabsOverExits(w, m);
      ReleasedOverExits(w, m);
      WorkersOverExits(w, m);
      AuditOverUnlocked(w, m);
      MarksOverExits(w, m);
    } else {
      TabsOverAudits(w, m);
      ReleasedOverAudits(w, m);
      WorkersOverAudits(w, m);
      AuditOverAudits(w, m);
      MarksOverOthers(w, m);
    }
  }

  lemma {:induction false} EveryRun(w: World, moves: seq<Move>)
    requires Inv(w) && Run(w, moves)
    ensures Inv(After(w, moves))
    decreases |moves|
  {
    hide Inv, Enabled, Next;
    if moves != [] {
      Step(w, moves[0]);
      EveryRun(Next(w, moves[0]), moves[1..]);
    }
  }

  /** The invariant holds of the start. */
  lemma Start(moves: seq<Move>)
    requires Run(INITIAL, moves)
    ensures Inv(After(INITIAL, moves))
  {
    assert Inv(INITIAL);
    EveryRun(INITIAL, moves);
  }

  /** Whatever the interleaving, when an audit classifies:
      no session whose exit lies between its model update and its registry release is an
      orphan; every orphan is a spawn the model never took, or was touched by a fault; and no
      tab is called dangling whose session no fault touched. */
  lemma NoFalseOrphan(moves: seq<Move>)
    requires Run(INITIAL, moves) && After(INITIAL, moves).lock.HaveBoth?
    ensures var w := After(INITIAL, moves);
            && (forall id: nat :: id in OrphanSessions(w) + OrphanSinks(w) ==>
                  && id < |w.recs| && !InWindow(w.recs[id].exit)
                  && (!w.recs[id].adopted || id in w.faulty))
            && (forall t :: Dangles(w, t) ==> w.tabs[t] in w.faulty)
  {
    Start(moves);
    hide Run, After, MarksOk, ReleasedOk, WorkersOk;
  }

  predicate NeverTaken(w: World, id: nat) { id < |w.recs| && !w.recs[id].adopted }

  /** Nor does it miss one: of the sessions it saw registered, it releases exactly the spawns
      the model never took whose exit was not in flight when it looked. */
  lemma OrphansExactly(moves: seq<Move>, id: nat)
    requires Run(INITIAL, moves) && After(INITIAL, moves).lock.HaveBoth?
    requires id !in After(INITIAL, moves).faulty
    ensures var w := After(INITIAL, moves);
            && (id in OrphanSessions(w) <==> id in w.lock.sessions && id !in w.lock.marks && NeverTaken(w, id))
            && (id in OrphanSinks(w) <==> id in w.lock.sinks && id !in w.lock.marks && NeverTaken(w, id))
  {
    Start(moves);
    hide Run, After, MarksOk, ReleasedOk, WorkersOk;
    var w := After(INITIAL, moves);
    if id < |w.recs| && w.recs[id].adopted && Holds(w, id) {
      assert id in w.tabs.Values;
    }
  }

  /** Releasing orphans, outside the lock and whenever it happens, never takes a session from
      a tab: no tab holds a session that any audit set out to release, then or later. And a
      tab's session stays in both registries unless a fault removes it. */
  lemma ReleaseIsHarmless(moves: seq<Move>)
    requires Run(INITIAL, moves)
    ensures var w := After(INITIAL, moves);
            forall t :: t in w.tabs ==>
              && w.tabs[t] !in w.releasing
              && (w.tabs[t] in w.faulty || (w.tabs[t] in w.sessions && w.tabs[t] in w.sinks))
  {
    Start(moves);
    hide Run, After, MarksOk, ReleasedOk, WorkersOk, AuditOk;
  }

  /** A finished exit leaves nothing behind: no mark, and for a session the model took no
      entry in either registry, for good. A session closed from outside is gone at once. */
  lemma NothingLeaks(moves: seq<Move>, id: nat)
    requires Run(INITIAL, moves) && id < |After(INITIAL, moves).recs|
    ensures var w := After(INITIAL, moves);
            && (w.recs[id].exit.Finished? ==> id !in w.marks)
            && (w.recs[id].adopted && id !in w.faulty && !Holds(w, id) && !InWindow(w.recs[id].exit) ==>
                  id !in w.sessions && id !in w.sinks)
            && (w.recs[id].adopted && id !in w.faulty && w.recs[id].exit.Finished? ==>
                  id !in w.sessions && id !in w.sinks && !Holds(w, id))
  {
    Start(moves);
    hide Run, After, AuditOk;
  }

  /** Only a session the model took may write its tab's record: the late exit of an abandoned
      spawn leaves the record of the shell before it alone. */
  lemma OnlyAdoptedWrite(moves: seq<Move>, id: nat)
    requires Run(INITIAL, moves) && id < |After(INITIAL, moves).recs|
    ensures var r := After(INITIAL, moves).recs[id];
            r.exit.Passed? && r.exit.adopted ==> r.adopted
  {
    Start(moves);
    hide Run, After, TabsOk, MarksOk, ReleasedOk, AuditOk;
  }

  /** The test before a record is written succeeds exactly when some tab still holds the session:
      its own tab, for no other can. */
  lemma BarrierExactly(w: World, id: nat)
    requires Inv(w) && Enabled(w, Barrier(id))
    ensures Next(w, Barrier(id)).recs[id].exit == Passed(exists t :: t in w.tabs && w.tabs[t] == id)
    ensures (exists t :: t in w.tabs && w.tabs[t] == id) ==> w.recs[id].adopted
  {
    hide MarksOk, ReleasedOk, WorkersOk, AuditOk;
    if t :| t in w.tabs && w.tabs[t] == id {
      assert w.recs[id].tab == t;
    }
  }

  /** A thread that creates a session registers it step by step, and one whose spawn the model
      did not take has cleaned up after itself when it is over. */
  ghost predicate MakersOk(w: World) {
    forall id: nat :: id < |w.recs| && !w.recs[id].adopted ==>
      && (id in w.sinks ==> w.recs[id].worker.SinkIn? || w.recs[id].worker.BothIn?)
      && (id in w.sessions ==> w.recs[id].worker.BothIn? || w.recs[id].worker.SinkOut?)
  }

  lemma MakersOverMakers(w: World, m: Move)
    requires WorkersOk(w) && MakersOk(w) && Enabled(w, m) && OfMakers(m)
    ensures MakersOk(Next(w, m))
  {
  }

  lemma MakersOverSections(w: World, m: Move)
    requires WorkersOk(w) && MakersOk(w) && Enabled(w, m) && OfSections(m)
    ensures MakersOk(Next(w, m))
  {
  }

  lemma MakersOverOthers(w: World, m: Move)
    requires WorkersOk(w) && MakersOk(w) && Enabled(w, m) && !OfMakers(m) && !OfSections(m)
    ensures MakersOk(Next(w, m))
  {
    hide WorkersOk, OrphanSessions, OrphanSinks, Dangles;
  }

  lemma MakersStep(w: World, m: Move)
    requires WorkersOk(w) && MakersOk(w) && Enabled(w, m)
    ensures MakersOk(Next(w, m))
  {
    hide WorkersOk, MakersOk, Enabled, Next, OfMakers, OfSections;
    if OfMakers(m) {
      MakersOverMakers(w, m);
    } else if OfSections(m) {
      MakersOverSections(w, m);
    } else {
      MakersOverOthers(w, m);
    }
  }

  lemma {:induction false} MakersRun(w: World, moves: seq<Move>)
    requires Inv(w) && MakersOk(w) && Run(w, moves)
    ensures MakersOk(After(w, moves))
    decreases |moves|
  {
    hide Enabled, Next, MakersOk, TabsOk, MarksOk, ReleasedOk, WorkersOk, AuditOk;
    if moves != [] {
      MakersStep(w, moves[0]);
      Step(w, moves[0]);
      MakersRun(Next(w, moves[0]), moves[1..]);
    }
  }

  /** In every run a spawn that failed, or came too late, leaves nothing registered once its
      thread is over. */
  lemma AbandonedSpawnsCleanUp(moves: seq<Move>, id: nat)
    requires Run(INITIAL, moves) && NeverTaken(After(INITIAL, moves), id)
    ensures var w := After(INITIAL, moves);
            w.recs[id].worker.Over? ==> id !in w.sinks && id !in w.sessions
  {
    hide Run, After, Next, Enabled;
    assert Inv(INITIAL) && MakersOk(INITIAL);
    MakersRun(INITIAL, moves);
  }

  /** The one lock is taken by a spawn or an audit only when it is free, held through the spawn or
      the whole audit, and given back by its own holder, whatever others do meanwhile. */
  lemma LockDiscipline(w: World, m: Move)
    requires Enabled(w, m)
    ensures var t := Next(w, m);
            && (w.lock == Free ==> (t.lock != Free <==> m.SpawnBegin? || m.AuditEnter?))
            && (w.lock.Spawning? ==>
                  t.lock == if m.SpawnOk? || m.SpawnTimeout? || m == SpawnError(w.lock.id) then Free else w.lock)
            && (w.lock != Free && !w.lock.Spawning? ==>
                  || t.lock == w.lock
                  || (m.Classify? && t.lock == Free)
                  || m.ReadMarks? || m.ReadSessions? || m.ReadSinks?)
            && (m.SpawnBegin? ==> t.lock == Spawning(|w.recs|))
            && (m.Classify? || m.SpawnOk? || m.SpawnTimeout? ==> t.lock == Free)
  {
    hide OrphanSessions, OrphanSinks, Dangles;
  }

  /** What an audit changes: a tab keeps its session exactly when both registries had it, and the
      orphans are set out to be released, besides those of earlier audits. */
  lemma ClassifyExactly(w: World)
    requires w.lock.HaveBoth?
    ensures var t := Next(w, Classify);
            && (forall tab, id :: tab in t.tabs && t.tabs[tab] == id <==>
                  tab in w.tabs && w.tabs[tab] == id && id in w.lock.sessions && id in w.lock.sinks)
            && (forall id :: id in t.releasing <==> id in w.releasing || id in OrphanSessions(w) || id in OrphanSinks(w))
            && t.lock == Free && t.sessions == w.sessions && t.sinks == w.sinks && t.marks == w.marks
  {
  }

  /** Why the marks are read first. Take any session whose exit has just updated the model.
      Three of its own steps later it is gone and unmarked, so an audit that had copied the
      registries first and read the marks then would call it an orphan; an audit that read
      the marks first does not. */
  lemma OrderMatters(w: World, id: nat)
    requires Inv(w) && ExitAt(w, id, Updated) && id !in w.faulty && id in w.sessions
    ensures var rest := [DropSink(id), DropSession(id), Unmark(id)];
            && Run(w, rest)
            && var late := After(w, rest);
               && id in Orphans(w.sessions, w.sinks, late.tabs.Values, late.marks)
               && id !in late.sessions && id !in late.sinks
    ensures id !in Orphans(w.sessions, w.sinks, w.tabs.Values, w.marks)
  {
    var w1 := Next(w, DropSink(id));
    var w2 := Next(w1, DropSession(id));
    var w3 := Next(w2, Unmark(id));
    var last: seq<Move> := [Unmark(id)];
    var two: seq<Move> := [DropSession(id), Unmark(id)];
    var all: seq<Move> := [DropSink(id), DropSession(id), Unmark(id)];
    assert all[1..] == two && two[1..] == last && last[1..] == [];
    assert Run(w3, []) && After(w3, []) == w3;
    assert Run(w2, last) && After(w2, last) == w3;
    assert Run(w1, two) && After(w1, two) == w3;
    assert id !in w3.tabs.Values;
  }
}
