/** The state one PTY session keeps under its lock (session.rs) and the lock sections that
    change it: commit of a chunk, ack, flow reset, reattach, polling, record and kill. */
module Session {
  import opened Bytes
  import opened Osc
  import opened Modes
  import opened Flow
  import opened Replay

  const READ_BUF_BYTES := 16 * 1024

  datatype Inner = Inner(
    flow: Account, replay: Buffer, modes: ModeMap, bytesOut: nat, alive: bool, killed: bool)

  datatype Screen = Screen(endOffset: nat, reset: bool, bytes: seq<Byte>)

  // ----- the lock sections on values -----

  function Fresh(replayCap: nat, high: nat, low: nat): Inner {
    Inner(Account(high, low, 0, false), Buffer([], replayCap, false), map[], 0, true, false)
  }

  function Commit(s: Inner, chunk: seq<Byte>, events: seq<Event>): Inner {
    s.(modes := Modes.ApplyAll(s.modes, events, MAX_TRACKED_DEC_MODES),
       replay := Pushed(s.replay, chunk),
       flow := OnSent(s.flow, |chunk|).account,
       bytesOut := s.bytesOut + |chunk|)
  }

  function AckBytes(s: Inner, n: nat): Inner { s.(flow := OnAcked(s.flow, n).account) }

  function ResetFlow(s: Inner): Inner { s.(flow := Reset(s.flow)) }

  /** What a new terminal is shown first: the modes, then the retained output. */
  function FirstScreen(s: Inner): seq<Byte> {
    DecModePreamble(s.modes) + SnapshotOf(s.replay)
  }

  function RetainedStart(s: Inner): nat { SatSub(s.bytesOut, |Contents(s.replay)|) }

  function ScreenSince(s: Inner, since: Option<nat>): Screen {
    if since.Some? && since.value == s.bytesOut then
      Screen(s.bytesOut, false, [])
    else if since.Some? && RetainedStart(s) <= since.value < s.bytesOut then
      Screen(s.bytesOut, false, TailFrom(s.replay, since.value - RetainedStart(s)))
    else
      Screen(s.bytesOut, true, FirstScreen(s))
  }

  function RecordOf(s: Inner): Option<seq<Byte>> {
    if s.alive then None
    else if SnapshotOf(s.replay) == [] then Some([])
    else Some(FirstScreen(s))
  }

  function AfterRecord(s: Inner): Inner {
    if s.alive then s else s.(replay := Cleared(s.replay))
  }

  function Killed(s: Inner): Inner { s.(killed := true) }

  function Exited(s: Inner): Inner { s.(alive := false, killed := true) }

  // ----- the session object -----

  class PtySession {
    const flow: FlowControl
    const replay: ReplayBuffer
    var modes: ModeMap
    var bytesOut: nat
    var alive: bool
    var killed: bool

    ghost function Model(): Inner
      reads this, flow, replay
    {
      Inner(flow.Model(), replay.Model(), modes, bytesOut, alive, killed)
    }

    ghost predicate Valid() reads this, replay { replay.Valid() }

    constructor (replayCap: nat, high: nat, low: nat)
      requires low <= high
      ensures Valid() && Model() == Fresh(replayCap, high, low)
      ensures fresh(flow) && fresh(replay)
    {
      flow := new FlowControl(high, low);
      replay := new ReplayBuffer(replayCap);
      modes, bytesOut, alive, killed := map[], 0, true, false;
    }

    /** `apply_mode_event`: OSC events leave the map alone. */
    method NoteEvent(event: Event)
      modifies this`modes
      ensures modes == ApplyModeEvent(old(modes), event, MAX_TRACKED_DEC_MODES)
    {
      match event
      case DecPrivateMode(touched, on) =>
        ghost var before := modes;
        for i := 0 to |touched|
          invariant TouchAll(modes, touched[i..], on, MAX_TRACKED_DEC_MODES)
                 == TouchAll(before, touched, on, MAX_TRACKED_DEC_MODES)
        {
          assert touched[i..][1..] == touched[i + 1..];
          var mode := touched[i];
          var known := mode in modes;
          if mode !in UNTRACKED_DEC_MODES && (known || |modes| < MAX_TRACKED_DEC_MODES) {
            modes := modes[mode := on];
          }
        }
      case TerminalReset(soft) =>
        modes := if soft then modes - SOFT_RESET_DEC_MODES else map[];
      case _ =>
    }

    /** One read: feed the reader's scanner, then commit modes, replay, flow and offset
        under the lock. The returned offset is where the chunk starts. */
    method CommitChunk(scanner: OscScanner, chunk: seq<Byte>) returns (offset: nat, events: seq<Event>)
      requires Valid()
      modifies this, flow, replay, scanner
      ensures Valid()
      ensures Outcome(scanner.Model(), events) == Run(old(scanner.Model()), chunk)
      ensures Model() == Commit(old(Model()), chunk, events) && offset == old(bytesOut)
    {
      hide Run, Step, WellFormed, ApplyModeEvent, Fit;
      events := scanner.Feed(chunk);
      ghost var before := modes;
      for i := 0 to |events|
        invariant Modes.ApplyAll(modes, events[i..], MAX_TRACKED_DEC_MODES)
               == Modes.ApplyAll(before, events, MAX_TRACKED_DEC_MODES)
        invariant flow.Model() == old(flow.Model()) && replay.Model() == old(replay.Model())
        invariant bytesOut == old(bytesOut) && alive == old(alive) && killed == old(killed)
        invariant Valid() && Outcome(scanner.Model(), events) == Run(old(scanner.Model()), chunk)
      {
        assert events[i..][1..] == events[i + 1..];
        NoteEvent(events[i]);
      }
      offset := bytesOut;
      replay.Push(chunk);
      var _ := flow.Sent(|chunk|);
      bytesOut := bytesOut + |chunk|;
    }

    /** Reports whether the reader must be woken. */
    method Ack(n: nat) returns (notify: bool)
      requires Valid()
      modifies flow
      ensures Valid() && Model() == AckBytes(old(Model()), n)
      ensures notify <==> old(flow.paused) && !flow.paused
    {
      var action := flow.Acked(n);
      notify := action == Resume;
    }

    method ForgetPending()
      requires Valid()
      modifies flow
      ensures Valid() && Model() == ResetFlow(old(Model()))
    {
      flow.Restart();
    }

    method Reattach() returns (endOffset: nat, bytes: seq<Byte>)
      requires Valid()
      modifies flow
      ensures Valid() && Model() == ResetFlow(old(Model()))
      ensures endOffset == bytesOut && bytes == FirstScreen(Model())
    {
      flow.Restart();
      bytes := PrintPreamble(modes);
      var snapshot := replay.Snapshot();
      bytes := bytes + snapshot;
      endOffset := bytesOut;
    }

    method ReadScreen(since: Option<nat>) returns (screen: Screen)
      requires Valid()
      ensures screen == ScreenSince(Model(), since)
    {
      var retainedStart := SatSub(bytesOut, replay.total);
      if since.Some? && since.value == bytesOut {
        screen := Screen(bytesOut, false, []);
      } else if since.Some? && retainedStart <= since.value < bytesOut {
        var bytes := replay.BytesFrom(since.value - retainedStart);
        screen := Screen(bytesOut, false, bytes);
      } else {
        var bytes := PrintPreamble(modes);
        var snapshot := replay.Snapshot();
        screen := Screen(bytesOut, true, bytes + snapshot);
      }
    }

    method TakeRecord() returns (record: Option<seq<Byte>>)
      requires Valid()
      modifies replay
      ensures Valid() && Model() == AfterRecord(old(Model()))
      ensures record == RecordOf(old(Model()))
    {
      hide DecModePreamble, TrimPoint, Flat;
      if alive {
        return None;
      }
      var snapshot := replay.Snapshot();
      replay.Clear();
      if snapshot == [] {
        return Some([]);
      }
      var bytes := PrintPreamble(modes);
      record := Some(bytes + snapshot);
    }

    /** Only the first kill goes on to notify and to release the PTY. */
    method Kill() returns (first: bool)
      requires Valid()
      modifies this`killed
      ensures Valid() && Model() == Killed(old(Model())) && first == !old(killed)
    {
      if killed {
        return false;
      }
      killed := true;
      first := true;
    }
  }

  // ----- what a screen reply means against the whole stream -----

  /** The session's offset and buffer agree with everything read so far. */
  predicate Mirrors(s: Inner, stream: seq<Byte>) {
    s.bytesOut == |stream| && IsSuffix(Contents(s.replay), stream)
  }

  lemma CommitMirrors(s: Inner, stream: seq<Byte>, chunk: seq<Byte>, events: seq<Event>)
    requires Mirrors(s, stream)
    ensures Mirrors(Commit(s, chunk, events), stream + chunk)
  {
    PushKeepsSuffix(s.replay, chunk, stream);
  }

  /** Where the replayed part of a first screen starts in the stream. */
  function ReplayCut(s: Inner): nat { SatSub(s.bytesOut, |SnapshotOf(s.replay)|) }

  lemma FirstScreenIsTail(s: Inner, stream: seq<Byte>)
    requires Mirrors(s, stream)
    ensures ReplayCut(s) <= |stream|
    ensures SnapshotOf(s.replay) == stream[ReplayCut(s)..]
    ensures FirstScreen(s) == DecModePreamble(s.modes) + stream[ReplayCut(s)..]
  {
    SnapshotIsTail(s.replay);
    var kept := Contents(s.replay);
    assert SnapshotOf(s.replay) == kept[|kept| - |SnapshotOf(s.replay)|..] == stream[ReplayCut(s)..];
  }

  /** A delta continues the stream exactly where the client stood and says where it ends;
      the client is started over exactly when it has no offset, one that was evicted, or
      one from beyond this session's output. A first screen is the modes and a tail. */
  lemma ScreenReplyExact(s: Inner, stream: seq<Byte>, since: Option<nat>)
    requires Mirrors(s, stream)
    ensures var r := ScreenSince(s, since);
            && r.endOffset == |stream|
            && (r.reset <==> since.None? || since.value > |stream| || since.value < |stream| - |Contents(s.replay)|)
            && (!r.reset ==> since.value <= |stream| && r.bytes == stream[since.value..]
                             && r.endOffset == since.value + |r.bytes|)
            && (r.reset ==> exists cut :: 0 <= cut <= |stream| && r.bytes == DecModePreamble(s.modes) + stream[cut..])
  {
    var kept := Contents(s.replay);
    FirstScreenIsTail(s, stream);
    if since.Some? && RetainedStart(s) <= since.value < s.bytesOut {
      assert kept[since.value - RetainedStart(s)..] == stream[since.value..];
    }
  }

  /** The record of an ended session is its last screen, or empty exactly when no output
      is left to draw; a live session gives none and keeps its buffer. */
  lemma RecordExact(s: Inner)
    ensures RecordOf(s).None? <==> s.alive
    ensures s.alive ==> AfterRecord(s) == s
    ensures !s.alive ==> (RecordOf(s) == Some([]) <==> Contents(s.replay) == [])
  {
    hide DecModePreamble, TrimPoint, SnapshotOf;
    SnapshotIsTail(s.replay);
    assert |FirstScreen(s)| >= |SnapshotOf(s.replay)|;
  }

  /** Taking it gives the memory back, leaves the offsets sound, and a second take finds
      nothing to draw. */
  lemma RecordReleases(s: Inner, stream: seq<Byte>)
    requires Mirrors(s, stream)
    ensures Mirrors(AfterRecord(s), stream)
    ensures !s.alive ==> Contents(AfterRecord(s).replay) == [] && RecordOf(AfterRecord(s)) == Some([])
  {
    SnapshotIsTail(AfterRecord(s).replay);
    assert stream[|stream|..] == [];
  }
}
