/** The debounced background saver of persist.rs: producers, flushers and one worker around
    a one-place mailbox with generation counters. */
module Saver {
  import opened Bytes

  /** A saved application state; only its identity matters here. */
  type AppState = nat

  datatype Slot = Slot(
    pending: Option<AppState>, deadline: nat, scheduled: nat, written: nat,
    flushTarget: nat, closed: bool, workerDead: bool)

  datatype Verdict = Take(generation: nat, state: AppState) | Exit | WaitTimed | WaitForever

  // ----- the lock sections on values -----

  function Scheduled(s: Slot, state: AppState, now: nat, debounce: nat): Slot {
    if s.workerDead then s
    else s.(deadline := if s.pending.None? then now + debounce else s.deadline,
            scheduled := s.scheduled + 1, pending := Some(state))
  }

  /** The generation a flush now waits for; None when there is nothing to wait for. */
  function FlushGoal(s: Slot): Option<nat> {
    if s.workerDead || s.written >= s.scheduled then None else Some(s.scheduled)
  }

  function FlushAsked(s: Slot): Slot {
    if FlushGoal(s).None? then s else s.(flushTarget := Max(s.flushTarget, s.scheduled))
  }

  predicate FlushWanted(s: Slot) { s.written < s.flushTarget }

  function Decide(s: Slot, now: nat): Verdict {
    if s.pending.Some? && (FlushWanted(s) || s.closed || now >= s.deadline) then Take(s.scheduled, s.pending.value)
    else if s.closed then Exit
    else if s.pending.Some? then WaitTimed
    else WaitForever
  }

  function Taken(s: Slot, now: nat): Slot {
    if Decide(s, now).Take? then s.(pending := None) else s
  }

  function Wrote(s: Slot, generation: nat): Slot { s.(written := generation) }

  // ----- the slot object -----

  class SaverSlot {
    var pending: Option<AppState>
    var deadline: nat
    var scheduled: nat
    var written: nat
    var flushTarget: nat
    var closed: bool
    var workerDead: bool

    ghost function Model(): Slot reads this {
      Slot(pending, deadline, scheduled, written, flushTarget, closed, workerDead)
    }

    constructor (now: nat)
      ensures Model() == Slot(None, now, 0, 0, 0, false, false)
    {
      pending, deadline, scheduled, written, flushTarget := None, now, 0, 0, 0;
      closed, workerDead := false, false;
    }

    method Schedule(state: AppState, now: nat, debounce: nat)
      modifies this
      ensures Model() == Scheduled(old(Model()), state, now, debounce)
    {
      if workerDead {
        return;
      }
      if pending.None? {
        deadline := now + debounce;
      }
      scheduled := scheduled + 1;
      pending := Some(state);
    }

    method AskFlush() returns (goal: Option<nat>)
      modifies this
      ensures Model() == FlushAsked(old(Model())) && goal == FlushGoal(old(Model()))
    {
      if workerDead {
        return None;
      }
      var target := scheduled;
      if written >= target {
        return None;
      }
      flushTarget := Max(flushTarget, target);
      goal := Some(target);
    }

    /** One turn of the worker's loop, up to releasing the lock. */
    method WorkerTurn(now: nat) returns (verdict: Verdict)
      modifies this
      ensures verdict == Decide(old(Model()), now) && Model() == Taken(old(Model()), now)
    {
      var flushWanted := written < flushTarget;
      var due := pending.Some? && (flushWanted || closed || now >= deadline);
      if due {
        verdict := Take(scheduled, pending.value);
        pending := None;
      } else if closed {
        verdict := Exit;
      } else {
        verdict := if pending.Some? then WaitTimed else WaitForever;
      }
    }

    method NoteWritten(generation: nat)
      modifies this
      ensures Model() == Wrote(old(Model()), generation)
    {
      written := generation;
    }
  }

  // ----- threads around the slot -----

  datatype Worker =
    | Top                                        // holds the lock, about to decide
    | Waiting(timed: bool)
    | Writing(generation: nat, state: AppState)
    | Dead

  /** Where a flush call stands: about to test its condition, asleep, or returned. */
  datatype Phase = Checking | Asleep | Acked | GaveUp

  /** A flush call; `seen` counts the worker's writes completed while it waits. */
  datatype Flusher = Flusher(target: nat, seen: nat, phase: Phase)

  /** A completed write, and whether it reached the disk. */
  datatype Write = Write(generation: nat, ok: bool)

  /** `history` lists every scheduled state, `times` when each was scheduled, and
      `writes` every completed write; `diskGen` is the generation the disk holds (0 before
      any); `owed` counts notifications whose lock is already released. */
  datatype Sys = Sys(
    slot: Slot, worker: Worker, flushers: seq<Flusher>, owed: nat, clock: nat, debounce: nat,
    history: seq<AppState>, times: seq<nat>, disk: Option<AppState>, diskGen: nat, writes: seq<Write>)

  datatype Move =
    | Schedule(state: AppState)
    | FlushCall
    | FlushCheck(i: nat)
    | Close
    | Turn
    | WriteDone(ok: bool)
    | NotifyAll
    | Timeout
    | SpuriousWake
    | Tick(now: nat)
    | Panic

  function Start(debounce: nat): Sys {
    Sys(Slot(None, 0, 0, 0, 0, false, false), Top, [], 0, 0, debounce, [], [], None, 0, [])
  }

  predicate Waits(f: Flusher) { f.phase.Checking? || f.phase.Asleep? }

  /** Dropping a Saver takes it exclusively, so nobody schedules or flushes after Close. */
  predicate Enabled(s: Sys, m: Move) {
    match m
    case Schedule(_) => !s.slot.closed
    case FlushCall => !s.slot.closed
    case FlushCheck(i) => i < |s.flushers| && s.flushers[i].phase.Checking?
    case Close => !s.slot.closed
    case Turn => s.worker.Top?
    case WriteDone(_) => s.worker.Writing?
    case NotifyAll => s.owed > 0
    case Timeout => s.worker.Waiting? && s.worker.timed && s.clock >= s.slot.deadline
    case SpuriousWake => true
    case Tick(now) => now >= s.clock
    case Panic => !s.worker.Dead?
  }

  function Woken(w: Worker): Worker { if w.Waiting? then Top else w }

  /** The one condition variable wakes every flusher along with the worker. */
  function Roused(flushers: seq<Flusher>): (r: seq<Flusher>)
    ensures |r| == |flushers|
    ensures forall i :: 0 <= i < |r| ==>
      r[i] == if flushers[i].phase.Asleep? then flushers[i].(phase := Checking) else flushers[i]
  {
    seq(|flushers|, i requires 0 <= i < |flushers| =>
      if flushers[i].phase.Asleep? then flushers[i].(phase := Checking) else flushers[i])
  }

  /** Counts one more completed write for every flush still waiting. */
  function Counted(flushers: seq<Flusher>): (r: seq<Flusher>)
    ensures |r| == |flushers|
    ensures forall i :: 0 <= i < |r| ==>
      r[i] == if Waits(flushers[i]) then flushers[i].(seen := flushers[i].seen + 1) else flushers[i]
  {
    seq(|flushers|, i requires 0 <= i < |flushers| =>
      if Waits(flushers[i]) then flushers[i].(seen := flushers[i].seen + 1) else flushers[i])
  }

  function Notified(s: Sys): Sys { s.(worker := Woken(s.worker), flushers := Roused(s.flushers)) }

  /** The test of the wait loop: return, give up, or sleep. */
  function Tested(f: Flusher, slot: Slot): Flusher {
    f.(phase := if slot.written >= f.target then Acked else if slot.workerDead then GaveUp else Asleep)
  }

  function Next(s: Sys, m: Move): Sys
    requires Enabled(s, m)
  {
    match m
    case Schedule(state) =>
      var slot := Scheduled(s.slot, state, s.clock, s.debounce);
      if s.slot.workerDead then s.(slot := slot)
      else s.(slot := slot, owed := s.owed + 1,
              history := s.history + [state],
              times := s.times + [s.clock])
    case FlushCall =>
      var goal := FlushGoal(s.slot);
      if goal.None? then
        s.(flushers := s.flushers + [Flusher(s.slot.scheduled, 0, if s.slot.workerDead then GaveUp else Acked)])
      else
        // notified, tested and asleep under one lock
        var t := Notified(s);
        t.(slot := FlushAsked(s.slot), flushers := t.flushers + [Flusher(goal.value, 0, Asleep)])
    case FlushCheck(i) => s.(flushers := s.flushers[i := Tested(s.flushers[i], s.slot)])
    case Close => s.(slot := s.slot.(closed := true), owed := s.owed + 1)
    case Turn =>
      var verdict := Decide(s.slot, s.clock);
      var slot := Taken(s.slot, s.clock);
      if verdict.Take? then s.(slot := slot, worker := Writing(verdict.generation, verdict.state))
      else if verdict.Exit? then s.(worker := Dead, slot := slot.(workerDead := true), owed := s.owed + 1)
      else s.(slot := slot, worker := Waiting(verdict.WaitTimed?))
    case WriteDone(ok) =>
      var generation := s.worker.generation;
      s.(slot := Wrote(s.slot, generation), worker := Top, flushers := Roused(Counted(s.flushers)),
         disk := if ok then Some(s.worker.state) else s.disk,
         diskGen := if ok then generation else s.diskGen, writes := s.writes + [Write(generation, ok)])
    case NotifyAll => Notified(s).(owed := s.owed - 1)
    case Timeout => s.(worker := Top)
    case SpuriousWake => Notified(s)
    case Tick(now) => s.(clock := now)
    case Panic => s.(worker := Dead, slot := s.slot.(workerDead := true), owed := s.owed + 1)
  }

  predicate Legal(s: Sys, moves: seq<Move>)
    decreases |moves|
  {
    moves != [] ==> Enabled(s, moves[0]) && Legal(Next(s, moves[0]), moves[1..])
  }

  function Exec(s: Sys, moves: seq<Move>): Sys
    requires Legal(s, moves)
    decreases |moves|
  {
    if moves == [] then s else Exec(Next(s, moves[0]), moves[1..])
  }

  // ----- invariants -----

  /** How many of the schedules are written, or being written. */
  function Covered(s: Sys): nat { if s.worker.Writing? then s.worker.generation else s.slot.written }

  predicate SlotInv(s: Sys) {
    var t := s.slot;
    && t.scheduled == |s.history| == |s.times| && t.written <= t.scheduled && t.flushTarget <= t.scheduled
    && (t.pending.Some? ==>
          && t.scheduled > t.written
          && t.pending.value == s.history[t.scheduled - 1]
          && (!t.workerDead ==> Covered(s) < |s.times| && t.deadline == s.times[Covered(s)] + s.debounce))
    && (s.worker.Writing? ==>
          && t.written < s.worker.generation <= t.scheduled
          && s.worker.state == s.history[s.worker.generation - 1]
          && (t.pending.None? <==> s.worker.generation == t.scheduled))
    && ((s.worker.Top? || s.worker.Waiting?) && t.pending.None? ==> t.written == t.scheduled)
    && (t.workerDead <==> s.worker.Dead?)
  }

  /** The last write's generation is the acknowledged one. */
  function LastWritten(writes: seq<Write>): nat {
    if writes == [] then 0 else writes[|writes| - 1].generation
  }

  /** The generation of the last write that succeeded. */
  function LastOk(writes: seq<Write>): nat {
    if writes == [] then 0
    else if writes[|writes| - 1].ok then writes[|writes| - 1].generation
    else LastOk(writes[..|writes| - 1])
  }

  predicate Rising(writes: seq<Write>) {
    (forall j :: 0 <= j < |writes| ==> writes[j].generation > 0)
    && forall j, k :: 0 <= j < k < |writes| ==> writes[j].generation < writes[k].generation
  }

  /** Generations are written in order, the last is the acknowledged one, and the disk holds
      the state of the last that succeeded. */
  predicate DiskInv(s: Sys) {
    && Rising(s.writes) && LastWritten(s.writes) == s.slot.written && LastOk(s.writes) == s.diskGen
    && s.diskGen <= s.slot.written <= |s.history|
    && (s.diskGen > 0 ==> s.disk == Some(s.history[s.diskGen - 1]))
  }

  predicate FlusherOk(f: Flusher, s: Sys) {
    && f.target <= s.slot.scheduled
    && (f.phase.Acked? ==> s.slot.written >= f.target)
    && (f.phase.GaveUp? ==> s.slot.workerDead)
    && (Waits(f) && s.slot.written < f.target ==>
          && f.target <= s.slot.flushTarget
          && f.seen <= 1
          && (f.seen == 1 && s.worker.Writing? ==> s.worker.generation >= f.target))
  }

  predicate FlushersInv(s: Sys) { forall i :: 0 <= i < |s.flushers| ==> FlusherOk(s.flushers[i], s) }

  /** A flush demand in force is some caller's, still waiting. */
  predicate DemandInv(s: Sys) {
    FlushWanted(s.slot) && !s.slot.workerDead ==>
      exists i :: 0 <= i < |s.flushers| && Waits(s.flushers[i]) && s.flushers[i].target == s.slot.flushTarget
  }

  /** A waiting worker has nothing due but its deadline, or a wake-up is on its way. */
  predicate WakeInv(s: Sys) {
    s.worker.Waiting? && s.owed == 0 ==>
      && !s.slot.closed
      && (s.slot.pending.Some? ==> s.worker.timed && !FlushWanted(s.slot))
  }

  /** A flusher asleep has nothing to return for, or a wake-up is on its way. */
  predicate SleepInv(s: Sys) {
    s.owed == 0 ==>
      forall i :: 0 <= i < |s.flushers| && s.flushers[i].phase.Asleep? ==>
        s.slot.written < s.flushers[i].target && !s.slot.workerDead
  }

  predicate Inv(s: Sys) {
    SlotInv(s) && DiskInv(s) && FlushersInv(s) && DemandInv(s) && WakeInv(s) && SleepInv(s)
  }

  lemma SlotAfterCall(s: Sys, m: Move)
    requires SlotInv(s) && Enabled(s, m) && (m.Schedule? || m.FlushCall?)
    ensures SlotInv(Next(s, m))
  {
    hide Roused;
  }

  lemma SlotAfterWorker(s: Sys, m: Move)
    requires SlotInv(s) && Enabled(s, m) && (m.Turn? || m.WriteDone? || m.Panic?)
    ensures SlotInv(Next(s, m))
  {
    hide Roused, Counted;
  }

  lemma SlotStep(s: Sys, m: Move)
    requires SlotInv(s) && Enabled(s, m)
    ensures SlotInv(Next(s, m))
  {
    hide Roused, Counted, Tested;
    if m.Schedule? || m.FlushCall? {
      SlotAfterCall(s, m);
    } else if m.Turn? || m.WriteDone? || m.Panic? {
      SlotAfterWorker(s, m);
    }
  }

  lemma DiskAfterWrite(s: Sys, ok: bool)
    requires SlotInv(s) && DiskInv(s) && s.worker.Writing?
    ensures DiskInv(Next(s, WriteDone(ok)))
  {
    hide Roused, Counted;
    var more := s.writes + [Write(s.worker.generation, ok)];
    assert more[..|more| - 1] == s.writes;
    if s.writes != [] {
      assert s.writes[|s.writes| - 1].generation == s.slot.written;
    }
  }

  lemma DiskStep(s: Sys, m: Move)
    requires SlotInv(s) && DiskInv(s) && Enabled(s, m)
    ensures DiskInv(Next(s, m))
  {
    hide Roused, Counted, Tested, Rising, LastWritten, LastOk, FlushGoal, Decide;
    if m.WriteDone? {
      DiskAfterWrite(s, m.ok);
    }
  }

  lemma NewFlusher(s: Sys)
    requires SlotInv(s) && Enabled(s, FlushCall)
    ensures var t := Next(s, FlushCall); FlusherOk(t.flushers[|s.flushers|], t)
  {
    hide Roused;
  }

  lemma FlusherStep(s: Sys, m: Move, i: nat)
    requires SlotInv(s) && Enabled(s, m) && i < |s.flushers| && FlusherOk(s.flushers[i], s)
    ensures var t := Next(s, m); |t.flushers| >= |s.flushers| && FlusherOk(t.flushers[i], t)
  {
    hide Roused, Counted;
  }

  lemma FlushersStep(s: Sys, m: Move)
    requires SlotInv(s) && FlushersInv(s) && Enabled(s, m)
    ensures FlushersInv(Next(s, m))
  {
    hide Roused, Counted, FlusherOk;
    var t := Next(s, m);
    forall i | 0 <= i < |t.flushers| ensures FlusherOk(t.flushers[i], t) {
      if i < |s.flushers| {
        FlusherStep(s, m, i);
      } else {
        NewFlusher(s);
      }
    }
  }

  lemma DemandStep(s: Sys, m: Move)
    requires SlotInv(s) && DemandInv(s) && Enabled(s, m)
    ensures DemandInv(Next(s, m))
  {
    hide Roused, Counted;
    var t := Next(s, m);
    if FlushWanted(t.slot) && !t.slot.workerDead {
      if m.FlushCall? && FlushGoal(s.slot).Some? {
        assert t.slot.flushTarget == s.slot.scheduled;
        assert t.flushers[|s.flushers|] == Flusher(s.slot.scheduled, 0, Asleep);
      } else {
        var i :| 0 <= i < |s.flushers| && Waits(s.flushers[i]) && s.flushers[i].target == s.slot.flushTarget;
        assert Waits(t.flushers[i]) && t.flushers[i].target == t.slot.flushTarget;
      }
    }
  }

  lemma WakeStep(s: Sys, m: Move)
    requires SlotInv(s) && WakeInv(s) && Enabled(s, m)
    ensures WakeInv(Next(s, m))
  {
    hide Roused, Counted, Tested;
  }

  lemma SleepStep(s: Sys, m: Move)
    requires SlotInv(s) && SleepInv(s) && Enabled(s, m)
    ensures SleepInv(Next(s, m))
  {
    hide Roused, Counted;
  }

  lemma Step(s: Sys, m: Move)
    requires Inv(s) && Enabled(s, m)
    ensures Inv(Next(s, m))
  {
    hide SlotInv, DiskInv, FlushersInv, DemandInv, WakeInv, SleepInv, Enabled, Next;
    SlotStep(s, m);
    DiskStep(s, m);
    FlushersStep(s, m);
    DemandStep(s, m);
    WakeStep(s, m);
    SleepStep(s, m);
  }

  lemma {:induction false} EveryRun(s: Sys, moves: seq<Move>)
    requires Inv(s) && Legal(s, moves)
    ensures Inv(Exec(s, moves))
    decreases |moves|
  {
    hide Inv, Enabled, Next;
    if moves != [] {
      Step(s, moves[0]);
      EveryRun(Next(s, moves[0]), moves[1..]);
    }
  }

  lemma Reached(debounce: nat, moves: seq<Move>)
    requires Legal(Start(debounce), moves)
    ensures Inv(Exec(Start(debounce), moves))
  {
    hide Next, Enabled;
    EveryRun(Start(debounce), moves);
  }

  // ----- the contracts of the saver -----

  lemma {:induction false} LastOkIsLargest(writes: seq<Write>, target: nat)
    requires Rising(writes)
    ensures target <= LastOk(writes) <==> target == 0 || exists j :: 0 <= j < |writes| && writes[j].generation >= target && writes[j].ok
    ensures forall j :: 0 <= j < |writes| && writes[j].ok ==> writes[j].generation <= LastOk(writes)
  {
    if writes != [] {
      var front, last := writes[..|writes| - 1], writes[|writes| - 1];
      LastOkIsLargest(front, target);
      assert forall j :: 0 <= j < |front| ==> writes[j] == front[j];
    }
  }

  /** What an acknowledged flush may rely on, exactly: the disk holds a generation no older
      than every schedule made before the flush began if and only if some write of such a
      generation succeeded, whatever later writes did. */
  lemma FlushCovers(debounce: nat, moves: seq<Move>, i: nat)
    requires Legal(Start(debounce), moves)
    requires var s := Exec(Start(debounce), moves);
             i < |s.flushers| && s.flushers[i].phase.Acked?
    ensures var s := Exec(Start(debounce), moves);
            var target := s.flushers[i].target;
            && (target <= s.diskGen <==>
                  target == 0 || exists j :: 0 <= j < |s.writes| && s.writes[j].generation >= target && s.writes[j].ok)
            && s.diskGen <= |s.history|
            && (s.diskGen > 0 ==> s.disk == Some(s.history[s.diskGen - 1]))
  {
    hide Next, Enabled, Rising, LastOk;
    Reached(debounce, moves);
    var s := Exec(Start(debounce), moves);
    LastOkIsLargest(s.writes, s.flushers[i].target);
  }

  /** In particular when the last completed write succeeded. */
  lemma FlushCoversAfterSuccess(debounce: nat, moves: seq<Move>, i: nat)
    requires Legal(Start(debounce), moves)
    requires var s := Exec(Start(debounce), moves);
             && i < |s.flushers| && s.flushers[i].phase.Acked?
             && (s.writes != [] ==> s.writes[|s.writes| - 1].ok)
    ensures var s := Exec(Start(debounce), moves); s.flushers[i].target <= s.diskGen == s.slot.written
  {
    hide Next, Enabled;
    Reached(debounce, moves);
    var s := Exec(Start(debounce), moves);
    assert FlusherOk(s.flushers[i], s);
  }

  /** The target a flush waits for is the number of schedules made before it. */
  lemma FlushTargetsAllEarlier(s: Sys)
    requires Inv(s) && Enabled(s, FlushCall) && !s.slot.workerDead
    ensures var t := Next(s, FlushCall);
            && |t.flushers| == |s.flushers| + 1
            && t.flushers[|s.flushers|].target == |s.history|
            && (t.flushers[|s.flushers|].phase.Acked? <==> s.slot.written == |s.history|)
  {
  }

  /** However fast others schedule, a flush sees at most two writes complete before its
      generation is on record; then it is awake and its next check returns, or its wake-up
      is on its way. Until then the worker is writing, or its next turn starts a write at
      once, or it was told to wake. */
  lemma FlushBounded(debounce: nat, moves: seq<Move>, i: nat)
    requires Legal(Start(debounce), moves)
    requires var s := Exec(Start(debounce), moves); i < |s.flushers| && Waits(s.flushers[i])
    ensures var s := Exec(Start(debounce), moves);
            var f := s.flushers[i];
            && (f.seen >= 2 ==> s.slot.written >= f.target)
            && (s.slot.written >= f.target ==>
                  s.owed > 0 || (f.phase.Checking? && Next(s, FlushCheck(i)).flushers[i].phase.Acked?))
            && (s.slot.written < f.target && !s.worker.Dead? ==>
                  || s.worker.Writing?
                  || (s.worker.Top? && Next(s, Turn).worker.Writing?)
                  || (s.worker.Waiting? && s.owed > 0))
  {
    hide Legal, Exec;
    Reached(debounce, moves);
    var s := Exec(Start(debounce), moves);
    assert FlusherOk(s.flushers[i], s);
  }

  /** No flusher sleeps forever: one asleep with its generation on record, or with the worker
      gone, is owed a notification, and that notification makes it test again. */
  lemma FlusherNeverLeftAsleep(debounce: nat, moves: seq<Move>, i: nat)
    requires Legal(Start(debounce), moves)
    requires var s := Exec(Start(debounce), moves); i < |s.flushers| && s.flushers[i].phase.Asleep?
    ensures var s := Exec(Start(debounce), moves);
            s.slot.written >= s.flushers[i].target || s.slot.workerDead ==>
              s.owed > 0 && Next(s, NotifyAll).flushers[i].phase.Checking?
  {
    hide Legal, Exec;
    Reached(debounce, moves);
  }

  lemma ClosedStep(s: Sys, m: Move)
    requires Enabled(s, m)
    ensures Next(s, m).slot.closed <==> s.slot.closed || m.Close?
    ensures s.slot.closed ==> Next(s, m).history == s.history
  {
    hide Roused, Counted, Tested;
  }

  function Notices(n: nat): seq<Move> { if n == 0 then [] else [NotifyAll] + Notices(n - 1) }

  /** When the notifications under way have arrived, nobody sleeps who should not: no flusher whose
      generation is on record or whose worker is gone, and no worker on work that is due but for
      its deadline. */
  lemma {:induction false} AsleepAfterNotices(s: Sys, n: nat)
    requires Inv(s) && n == s.owed
    ensures Legal(s, Notices(n))
    ensures var t := Exec(s, Notices(n));
            && t.owed == 0 && SleepInv(t) && t.slot == s.slot
            && (forall i :: 0 <= i < |t.flushers| && t.flushers[i].phase.Asleep? ==>
                  t.slot.written < t.flushers[i].target && !t.slot.workerDead)
            && (t.worker.Waiting? ==> !t.slot.closed && (t.slot.pending.Some? ==> t.worker.timed && !FlushWanted(t.slot)))
    decreases n
  {
    hide SlotInv, DiskInv, FlushersInv, DemandInv, Roused;
    if n > 0 {
      Step(s, NotifyAll);
      assert Notices(n)[0] == NotifyAll && Notices(n)[1..] == Notices(n - 1);
      AsleepAfterNotices(Next(s, NotifyAll), n - 1);
    }
  }

  /** The saver is closed exactly when it was dropped, and then takes nothing more. */
  lemma {:induction false} ClosedExactly(s: Sys, moves: seq<Move>)
    requires Legal(s, moves)
    ensures Exec(s, moves).slot.closed <==> s.slot.closed || Close in moves
    ensures s.slot.closed ==> Exec(s, moves).history == s.history
    decreases |moves|
  {
    hide Roused, Counted, Tested;
    if moves != [] {
      ClosedStep(s, moves[0]);
      ClosedExactly(Next(s, moves[0]), moves[1..]);
      assert moves == [moves[0]] + moves[1..];
    }
  }

  /** A flush returns for a reason: its generation was tried, or the worker is gone. */
  lemma FlushReturnsForAReason(debounce: nat, moves: seq<Move>, i: nat)
    requires Legal(Start(debounce), moves)
    requires var s := Exec(Start(debounce), moves); i < |s.flushers| && !Waits(s.flushers[i])
    ensures var s := Exec(Start(debounce), moves);
            s.slot.written >= s.flushers[i].target || (s.flushers[i].phase.GaveUp? && s.worker.Dead?)
  {
    hide Next, Enabled;
    Reached(debounce, moves);
    var s := Exec(Start(debounce), moves);
    assert FlusherOk(s.flushers[i], s);
  }

  /** A worker that leaves because the saver closed has written everything. */
  lemma CloseLosesNothing(debounce: nat, moves: seq<Move>)
    requires Legal(Start(debounce), moves)
    ensures var s := Exec(Start(debounce), moves);
            s.worker.Top? && Next(s, Turn).worker.Dead? ==>
              && s.slot.closed && s.slot.pending.None? && s.slot.written == |s.history|
              && (s.history != [] ==> s.writes != [] && s.writes[|s.writes| - 1].generation == |s.history|)
              && (s.history != [] && s.writes[|s.writes| - 1].ok ==> s.disk == Some(s.history[|s.history| - 1]))
  {
    hide Legal, Exec;
    Reached(debounce, moves);
  }

  /** The debounce stays in force: an idle worker starts a write only for a flush that some
      caller is still waiting on, for closing, or once the debounce has run since the oldest
      schedule not yet written, however many came after it. */
  lemma WritesOnlyWhenDue(debounce: nat, moves: seq<Move>)
    requires Legal(Start(debounce), moves)
    ensures var s := Exec(Start(debounce), moves);
            s.worker.Top? && Next(s, Turn).worker.Writing? ==>
              && s.slot.written < |s.times|
              && (
              || (exists i :: 0 <= i < |s.flushers| && Waits(s.flushers[i]) && s.flushers[i].target > s.slot.written)
              || s.slot.closed
              || s.clock >= s.times[s.slot.written] + s.debounce)
  {
    hide Legal, Exec;
    Reached(debounce, moves);
  }

  /** Something is scheduled that no write covers, and it is due: a flush waits for it, the saver
      is closed, or the debounce has run since the oldest such schedule. */
  ghost predicate Due(s: Sys)
    requires |s.times| == |s.history|
  {
    && s.slot.written < |s.history|
    && (|| (exists i :: 0 <= i < |s.flushers| && Waits(s.flushers[i]) && s.flushers[i].target > s.slot.written)
        || s.slot.closed
        || s.clock >= s.times[s.slot.written] + s.debounce)
  }

  lemma TurnNow(s: Sys)
    requires Inv(s) && s.worker.Top?
    ensures |s.times| == |s.history| && Next(s, Turn).worker ==
              if Due(s) then Writing(|s.history|, s.history[|s.history| - 1])
              else if s.slot.closed then Dead
              else Waiting(s.slot.written < |s.history|)
  {
    if i :| 0 <= i < |s.flushers| && Waits(s.flushers[i]) && s.flushers[i].target > s.slot.written {
      assert FlusherOk(s.flushers[i], s);
    }
  }

  /** A turn of the worker, exactly: it starts writing the newest state under its generation if
      and only if work is due; it leaves if and only if the saver is closed and everything is
      written; otherwise it sleeps, with a timeout if and only if something is unwritten. */
  lemma TurnExactly(debounce: nat, moves: seq<Move>)
    requires Legal(Start(debounce), moves) && Exec(Start(debounce), moves).worker.Top?
    ensures var s := Exec(Start(debounce), moves);
            |s.times| == |s.history| && Next(s, Turn).worker ==
              if Due(s) then Writing(|s.history|, s.history[|s.history| - 1])
              else if s.slot.closed then Dead
              else Waiting(s.slot.written < |s.history|)
  {
    hide Legal, Exec;
    Reached(debounce, moves);
    TurnNow(Exec(Start(debounce), moves));
  }

  /** The worker never sleeps through due work. */
  lemma NeverSleepsOnWork(debounce: nat, moves: seq<Move>)
    requires Legal(Start(debounce), moves)
    ensures var s := Exec(Start(debounce), moves);
            s.worker.Waiting? && s.owed == 0 ==>
              && !s.slot.closed
              && (s.slot.written < |s.times| ==>
                    s.worker.timed && s.slot.deadline == s.times[s.slot.written] + s.debounce)
              && forall i :: 0 <= i < |s.flushers| && Waits(s.flushers[i]) ==> s.slot.written >= s.flushers[i].target
  {
    hide Next, Enabled;
    Reached(debounce, moves);
    var s := Exec(Start(debounce), moves);
    if s.worker.Waiting? && s.owed == 0 {
      forall i | 0 <= i < |s.flushers| && Waits(s.flushers[i])
        ensures s.slot.written >= s.flushers[i].target
      {
        assert FlusherOk(s.flushers[i], s);
      }
    }
  }

  /** A witness: a write that fails is acknowledged too, and nothing covers the flush. */
  lemma FailedWriteIsAcknowledged(state: AppState)
    ensures var moves := [Schedule(state), FlushCall, Turn, WriteDone(false), FlushCheck(0)];
            && Legal(Start(0), moves)
            && var s := Exec(Start(0), moves);
            && s.flushers == [Flusher(1, 1, Acked)] && s.disk == None
  {
    var s0 := Start(0);
    var s1 := Next(s0, Schedule(state));
    var s2 := Next(s1, FlushCall);
    var s3 := Next(s2, Turn);
    assert s3.worker == Writing(1, state);
    var s4 := Next(s3, WriteDone(false));
    assert s4.flushers == [Flusher(1, 1, Checking)];
    var s5 := Next(s4, FlushCheck(0));
    assert s5.flushers == [Flusher(1, 1, Acked)] && s5.disk == None;
    hide Next, Start;
    var m4 := [FlushCheck(0)];
    var m3 := [WriteDone(false)] + m4;
    var m2 := [Turn] + m3;
    var m1 := [FlushCall] + m2;
    var m0 := [Schedule(state)] + m1;
    assert m4[1..] == [] && m3[1..] == m4 && m2[1..] == m3 && m1[1..] == m2 && m0[1..] == m1;
    assert Legal(s5, []) && Exec(s5, []) == s5;
    assert Legal(s4, m4) && Exec(s4, m4) == s5;
    assert Legal(s3, m3) && Exec(s3, m3) == s5;
    assert Legal(s2, m2) && Exec(s2, m2) == s5;
    assert Legal(s1, m1) && Exec(s1, m1) == s5;
    assert m0 == [Schedule(state), FlushCall, Turn, WriteDone(false), FlushCheck(0)];
  }
}
