/** One session's output under every interleaving: the reader thread, desktop clients that
    attach, ack, detach and come back, kill, child exit and record taking. Each step is one
    lock section (or one channel operation) of session.rs, sink.rs or commands.rs. */
module Pump {
  import opened Bytes
  import opened Osc
  import opened Modes
  import opened Flow
  import opened Replay
  import opened Session

  datatype Reader =
    | AtGate                                                  // about to test the pause flag
    | Asleep                                                  // in the condition-variable wait
    | Reading                                                 // past the gate, in `read`
    | Delivering(offset: nat, chunk: seq<Byte>, epoch: nat)   // committed, not yet handed over
    | Undoing(n: nat, epoch: nat)                             // dropped, account not yet rolled back
    | Gone

  datatype Frame = Frame(offset: nat, bytes: seq<Byte>)

  /** What `reattach` returned to a client; `cut` is where its replayed bytes begin. */
  datatype View = View(endOffset: nat, cut: nat, screen: seq<Byte>)

  /** A client's channel: the frames it received and, once it has reattached, its view.
      `start` is the first offset that could reach it. */
  datatype Channel = Channel(start: nat, frames: seq<Frame>, view: Option<View>)

  /** `stream` is every byte ever committed, `owed` counts notifications whose lock is
      already released, `epoch` counts flow resets, and `unacked` the bytes delivered in
      this epoch and not acknowledged. `stale` counts the bytes of earlier epochs taken off
      the account in this one, and `ended` notes that input came to an end. */
  datatype Sys = Sys(
    inner: Inner, scan: Scan, stream: seq<Byte>, reader: Reader,
    slot: Option<nat>, channels: seq<Channel>,
    owed: nat, epoch: nat, unacked: nat,
    stale: nat, ended: bool)

  datatype Move =
    | Gate
    | Read(chunk: seq<Byte>)
    | EndOfInput
    | Interrupted
    | Deliver(ok: bool)
    | Undo
    | Ack(n: nat, due: nat)      // `due` of the n bytes belong to this epoch
    | Mount
    | Reattach(id: nat)
    | DetachClear
    | DetachReset
    | NotifyAll
    | Kill
    | ChildExit
    | TakeRecord
    | SpuriousWake

  function Start(replayCap: nat, high: nat, low: nat): Sys {
    Sys(Fresh(replayCap, high, low), INIT, [], AtGate, None, [], 0, 0, 0, 0, false)
  }

  predicate Enabled(s: Sys, step: Move) {
    match step
    case Gate => s.reader.AtGate?
    case Read(chunk) => s.reader.Reading? && 0 < |chunk| <= READ_BUF_BYTES
    case EndOfInput => s.reader.Reading?
    case Interrupted => s.reader.Reading?
    case Deliver(ok) => s.reader.Delivering? && (ok ==> s.slot.Some? && s.slot.value < |s.channels|)
    case Undo => s.reader.Undoing?
    case Ack(n, due) => due <= n && due <= s.unacked
    case Reattach(id) => id < |s.channels| && s.channels[id].view.None?
    case NotifyAll => s.owed > 0
    case SpuriousWake => s.reader.Asleep?
    case _ => true
  }

  function Woken(r: Reader): Reader { if r.Asleep? then AtGate else r }

  function Cursor(s: Sys): nat {
    if s.reader.Delivering? then s.reader.offset else |s.stream|
  }

  function Next(s: Sys, step: Move): Sys
    requires Enabled(s, step)
  {
    match step
    case Gate =>
      s.(reader := if s.inner.killed then Gone
                   else if s.inner.flow.paused then Asleep
                   else Reading)
    case Read(chunk) =>
      var fed := Run(s.scan, chunk);
      s.(inner := Commit(s.inner, chunk, fed.events), scan := fed.scan, stream := s.stream + chunk,
         reader := Delivering(s.inner.bytesOut, chunk, s.epoch))
    case EndOfInput => s.(reader := Gone, ended := true)
    case Interrupted => s.(reader := AtGate)
    case Deliver(ok) =>
      var n := |s.reader.chunk|;
      if ok then
        var ch := s.channels[s.slot.value];
        var frame := Frame(s.reader.offset, s.reader.chunk);
        s.(channels := s.channels[s.slot.value := ch.(frames := ch.frames + [frame])],
           unacked := if s.reader.epoch == s.epoch then s.unacked + n else s.unacked,
           reader := AtGate)
      else
        s.(slot := None, reader := Undoing(n, s.reader.epoch))
    case Undo =>
      s.(inner := AckBytes(s.inner, s.reader.n), reader := AtGate,
         stale := if s.reader.epoch == s.epoch then s.stale else s.stale + s.reader.n)
    case Ack(n, due) =>
      var acked := AckBytes(s.inner, n);
      s.(inner := acked, unacked := s.unacked - due, stale := s.stale + (n - due),
         reader := if OnAcked(s.inner.flow, n).action == Resume then Woken(s.reader) else s.reader)
    case Mount =>
      s.(slot := Some(|s.channels|), channels := s.channels + [Channel(Cursor(s), [], None)])
    case Reattach(id) =>
      var view := View(s.inner.bytesOut, ReplayCut(s.inner), FirstScreen(s.inner));
      s.(inner := ResetFlow(s.inner), epoch := s.epoch + 1, unacked := 0, stale := 0, owed := s.owed + 1,
         channels := s.channels[id := s.channels[id].(view := Some(view))])
    case DetachClear => s.(slot := None)
    case DetachReset => s.(inner := ResetFlow(s.inner), epoch := s.epoch + 1, unacked := 0, stale := 0, owed := s.owed + 1)
    case NotifyAll => s.(owed := s.owed - 1, reader := Woken(s.reader))
    case Kill => if s.inner.killed then s else s.(inner := Killed(s.inner), owed := s.owed + 1)
    case ChildExit => s.(inner := Exited(s.inner), owed := s.owed + 1)
    case TakeRecord => s.(inner := AfterRecord(s.inner))
    case SpuriousWake => s.(reader := AtGate)
  }

  predicate Legal(s: Sys, steps: seq<Move>)
    decreases |steps|
  {
    steps != [] ==> Enabled(s, steps[0]) && Legal(Next(s, steps[0]), steps[1..])
  }

  function Exec(s: Sys, steps: seq<Move>): Sys
    requires Legal(s, steps)
    decreases |steps|
  {
    if steps == [] then s else Exec(Next(s, steps[0]), steps[1..])
  }

  lemma {:induction false} ExecAppend(s: Sys, a: seq<Move>, b: seq<Move>)
    requires Legal(s, a + b)
    ensures Legal(s, a) && Legal(Exec(s, a), b) && Exec(s, a + b) == Exec(Exec(s, a), b)
    decreases |a|
  {
    hide Next, Enabled;
    if a == [] {
      assert a + b == b;
    } else {
      assert (a + b)[0] == a[0] && (a + b)[1..] == a[1..] + b;
      ExecAppend(Next(s, a[0]), a[1..], b);
    }
  }

  // ----- the stream, the buffer and the scanner agree -----

  predicate StreamInv(s: Sys) {
    && Mirrors(s.inner, s.stream)
    && Run(INIT, s.stream).scan == s.scan
    && s.inner.modes == TerminalModes(s.stream, MAX_TRACKED_DEC_MODES)
    && (s.reader.Delivering? ==>
          && 0 < |s.reader.chunk| <= READ_BUF_BYTES
          && s.reader.offset + |s.reader.chunk| == |s.stream|
          && s.reader.chunk == s.stream[s.reader.offset..])
    && (s.reader.Undoing? ==> s.reader.n > 0)
  }

  lemma ReadKeepsStream(s: Sys, chunk: seq<Byte>)
    requires StreamInv(s) && Enabled(s, Read(chunk))
    ensures StreamInv(Next(s, Read(chunk)))
  {
    hide Run, DecModePreamble, Modes.ApplyAll, Flat, Fit;
    var fed := Run(s.scan, chunk);
    CommitMirrors(s.inner, s.stream, chunk, fed.events);
    ChunkIndependence(INIT, s.stream, chunk);
    ApplyAppend(map[], Run(INIT, s.stream).events, fed.events, MAX_TRACKED_DEC_MODES);
    var t := Next(s, Read(chunk));
    assert t.stream[s.inner.bytesOut..] == chunk;
  }

  lemma StreamStep(s: Sys, step: Move)
    requires StreamInv(s) && Enabled(s, step)
    ensures StreamInv(Next(s, step))
  {
    hide Run, DecModePreamble, Modes.ApplyAll, Fit, TrimPoint;
    if step.Read? {
      ReadKeepsStream(s, step.chunk);
    } else if step.TakeRecord? {
      RecordReleases(s.inner, s.stream);
    }
  }

  // ----- what each channel has received -----

  function EndOf(start: nat, frames: seq<Frame>): nat {
    if frames == [] then start else frames[|frames| - 1].offset + |frames[|frames| - 1].bytes|
  }

  /** The frames carry consecutive pieces of the stream, beginning at `start`. */
  predicate Linked(start: nat, frames: seq<Frame>, stream: seq<Byte>) {
    frames != [] ==>
      var init, last := frames[..|frames| - 1], frames[|frames| - 1];
      && Linked(start, init, stream)
      && last.offset == EndOf(start, init)
      && EndOf(start, frames) <= |stream|
      && last.bytes == stream[last.offset..EndOf(start, frames)]
  }

  /** No frame straddles the end of the snapshot. */
  predicate Clean(frames: seq<Frame>, endOffset: nat) {
    forall i :: 0 <= i < |frames| ==>
      frames[i].offset + |frames[i].bytes| <= endOffset || endOffset <= frames[i].offset
  }

  predicate ViewOk(view: View, start: nat, s: Sys) {
    && view.cut <= view.endOffset && start <= view.endOffset <= |s.stream|
    && view.screen == DecModePreamble(TerminalModes(s.stream[..view.endOffset], MAX_TRACKED_DEC_MODES))
                      + s.stream[view.cut..view.endOffset]
    && (view.endOffset <= Cursor(s) || view.endOffset == |s.stream|)
  }

  predicate ChannelOk(ch: Channel, s: Sys) {
    && ch.start <= Cursor(s)
    && EndOf(ch.start, ch.frames) <= Cursor(s)
    && Linked(ch.start, ch.frames, s.stream)
    && (ch.view.Some? ==> ViewOk(ch.view.value, ch.start, s) && Clean(ch.frames, ch.view.value.endOffset))
  }

  predicate ChannelsInv(s: Sys) {
    && (forall i :: 0 <= i < |s.channels| ==> ChannelOk(s.channels[i], s))
    && (s.slot.Some? ==>
          && s.slot.value < |s.channels|
          && EndOf(s.channels[s.slot.value].start, s.channels[s.slot.value].frames) == Cursor(s))
  }

  lemma {:induction false} LinkedGrows(start: nat, frames: seq<Frame>, stream: seq<Byte>, more: seq<Byte>)
    requires Linked(start, frames, stream)
    ensures Linked(start, frames, stream + more)
    decreases |frames|
  {
    if frames != [] {
      LinkedGrows(start, frames[..|frames| - 1], stream, more);
    }
  }

  lemma {:induction false} LinkedBelow(start: nat, frames: seq<Frame>, stream: seq<Byte>)
    requires Linked(start, frames, stream)
    ensures forall i :: 0 <= i < |frames| ==> frames[i].offset + |frames[i].bytes| <= EndOf(start, frames)
    decreases |frames|
  {
    if frames != [] {
      LinkedBelow(start, frames[..|frames| - 1], stream);
    }
  }

  lemma ChannelsRead(s: Sys, chunk: seq<Byte>)
    requires StreamInv(s) && ChannelsInv(s) && Enabled(s, Read(chunk))
    ensures ChannelsInv(Next(s, Read(chunk)))
  {
    hide Run, DecModePreamble, Modes.ApplyAll, Commit, Linked;
    var t := Next(s, Read(chunk));
    forall i | 0 <= i < |t.channels| ensures ChannelOk(t.channels[i], t) {
      var ch := s.channels[i];
      assert ChannelOk(ch, s);
      LinkedGrows(ch.start, ch.frames, s.stream, chunk);
      if ch.view.Some? {
        var view := ch.view.value;
        assert t.stream[..view.endOffset] == s.stream[..view.endOffset];
        assert t.stream[view.cut..view.endOffset] == s.stream[view.cut..view.endOffset];
      }
    }
  }

  lemma LinkedSnoc(start: nat, frames: seq<Frame>, stream: seq<Byte>, next: Frame)
    requires Linked(start, frames, stream) && next.offset == EndOf(start, frames)
    requires next.offset + |next.bytes| <= |stream|
    requires next.bytes == stream[next.offset..next.offset + |next.bytes|]
    ensures Linked(start, frames + [next], stream)
    ensures EndOf(start, frames + [next]) == next.offset + |next.bytes|
  {
    assert (frames + [next])[..|frames|] == frames;
  }

  lemma ChannelsDeliver(s: Sys)
    requires StreamInv(s) && ChannelsInv(s) && Enabled(s, Deliver(true))
    ensures ChannelsInv(Next(s, Deliver(true)))
  {
    hide Run, DecModePreamble, Modes.ApplyAll, Mirrors, Linked, EndOf;
    var t := Next(s, Deliver(true));
    var j := s.slot.value;
    var frame := Frame(s.reader.offset, s.reader.chunk);
    assert ChannelOk(s.channels[j], s);
    assert s.stream[s.reader.offset..] == s.stream[frame.offset..frame.offset + |frame.bytes|];
    LinkedSnoc(s.channels[j].start, s.channels[j].frames, s.stream, frame);
    forall i | 0 <= i < |t.channels| ensures ChannelOk(t.channels[i], t) {
      assert ChannelOk(s.channels[i], s);
    }
  }

  lemma ChannelsReattach(s: Sys, id: nat)
    requires StreamInv(s) && ChannelsInv(s) && Enabled(s, Reattach(id))
    ensures ChannelsInv(Next(s, Reattach(id)))
  {
    hide Run, DecModePreamble, Modes.ApplyAll, SnapshotOf, Linked;
    var t := Next(s, Reattach(id));
    FirstScreenIsTail(s.inner, s.stream);
    assert s.stream[..|s.stream|] == s.stream;
    forall i | 0 <= i < |t.channels| ensures ChannelOk(t.channels[i], t) {
      assert ChannelOk(s.channels[i], s);
      LinkedBelow(s.channels[i].start, s.channels[i].frames, s.stream);
    }
  }

  lemma ChannelsOther(s: Sys, step: Move)
    requires StreamInv(s) && ChannelsInv(s) && Enabled(s, step)
    requires !step.Read? && !step.Reattach? && step != Deliver(true)
    ensures ChannelsInv(Next(s, step))
  {
    hide Run, DecModePreamble, Modes.ApplyAll, Commit, SnapshotOf;
    var t := Next(s, step);
    forall i | 0 <= i < |t.channels| ensures ChannelOk(t.channels[i], t) {
      if i < |s.channels| {
        assert ChannelOk(s.channels[i], s);
      }
    }
  }

  lemma ChannelsStep(s: Sys, step: Move)
    requires StreamInv(s) && ChannelsInv(s) && Enabled(s, step)
    ensures ChannelsInv(Next(s, step))
  {
    match step
    case Read(chunk) => ChannelsRead(s, chunk);
    case Reattach(id) => ChannelsReattach(s, id);
    case Deliver(ok) => if ok { ChannelsDeliver(s); } else { ChannelsOther(s, step); }
    case _ => ChannelsOther(s, step);
  }

  // ----- the flow account and the sleeping reader -----

  function InFlight(s: Sys): nat {
    match s.reader
    case Delivering(_, chunk, epoch) => if epoch == s.epoch then |chunk| else 0
    case Undoing(n, epoch) => if epoch == s.epoch then n else 0
    case _ => 0
  }

  /** Bytes committed since the last reset and neither acknowledged nor rolled back. */
  function Outstanding(s: Sys): nat { s.unacked + InFlight(s) }

  predicate FlowInv(s: Sys) {
    var f := s.inner.flow;
    && Consistent(f) && f.high <= USIZE_MAX
    && f.pending <= Outstanding(s)
    && f.pending <= f.high + READ_BUF_BYTES
    && (s.reader.Reading? ==> !f.paused)
  }

  predicate GateInv(s: Sys) {
    s.reader.Asleep? ==> s.owed > 0 || (s.inner.flow.paused && !s.inner.killed)
  }

  lemma FlowStep(s: Sys, step: Move)
    requires StreamInv(s) && FlowInv(s) && GateInv(s) && Enabled(s, step)
    ensures FlowInv(Next(s, step)) && GateInv(Next(s, step))
  {
    hide Run, DecModePreamble, Modes.ApplyAll, Pushed, SnapshotOf, ReplayCut, IsSuffix;
  }

  /** The account falls short of what is outstanding by no more than what was wrongly taken
      off it, and a reader that left had a reason. */
  predicate ExactInv(s: Sys) {
    && (s.inner.flow.high + READ_BUF_BYTES <= USIZE_MAX ==> Outstanding(s) <= s.inner.flow.pending + s.stale)
    && (s.reader.Delivering? || s.reader.Undoing? ==> s.reader.epoch <= s.epoch)
    && (s.reader.Gone? ==> s.inner.killed || s.ended) && (s.ended ==> s.reader.Gone?)
  }

  lemma ExactStep(s: Sys, step: Move)
    requires StreamInv(s) && FlowInv(s) && ExactInv(s) && Enabled(s, step)
    ensures ExactInv(Next(s, step))
  {
    hide Run, DecModePreamble, Modes.ApplyAll, Pushed, SnapshotOf, ReplayCut, IsSuffix;
  }

  // ----- every run -----

  predicate Inv(s: Sys) { StreamInv(s) && ChannelsInv(s) && FlowInv(s) && GateInv(s) && ExactInv(s) }

  lemma StartInv(replayCap: nat, high: nat, low: nat)
    requires low <= high <= USIZE_MAX
    ensures Inv(Start(replayCap, high, low))
  {
    var s := Start(replayCap, high, low);
    assert Contents(s.inner.replay) == [];
  }

  lemma HighStays(s: Sys, step: Move)
    requires Enabled(s, step)
    ensures Next(s, step).inner.flow.high == s.inner.flow.high && Next(s, step).inner.flow.low == s.inner.flow.low
  {
    hide Run, DecModePreamble, Modes.ApplyAll, Pushed, SnapshotOf, ReplayCut;
  }

  lemma {:induction false} EveryRun(s: Sys, steps: seq<Move>)
    requires Inv(s) && Legal(s, steps)
    ensures Inv(Exec(s, steps))
    ensures Exec(s, steps).inner.flow.high == s.inner.flow.high && Exec(s, steps).inner.flow.low == s.inner.flow.low
    decreases |steps|
  {
    hide StreamInv, ChannelsInv, FlowInv, GateInv, ExactInv, Enabled;
    if steps != [] {
      HighStays(s, steps[0]);
      StreamStep(s, steps[0]);
      ChannelsStep(s, steps[0]);
      ExactStep(s, steps[0]);
      FlowStep(s, steps[0]);
      EveryRun(Next(s, steps[0]), steps[1..]);
    }
  }

  // ----- exactly-once screens -----

  /** The dedup rule: frames from before the end of the snapshot are thrown away. */
  function Shown(frames: seq<Frame>, endOffset: nat): seq<Byte> {
    if frames == [] then []
    else
      var last := frames[|frames| - 1];
      Shown(frames[..|frames| - 1], endOffset) + (if last.offset < endOffset then [] else last.bytes)
  }

  lemma {:induction false} ShownIsPiece(start: nat, frames: seq<Frame>, stream: seq<Byte>, endOffset: nat)
    requires Linked(start, frames, stream) && Clean(frames, endOffset)
    requires start <= endOffset <= |stream| && EndOf(start, frames) <= |stream|
    ensures Shown(frames, endOffset) == stream[endOffset..Max(endOffset, EndOf(start, frames))]
    decreases |frames|
  {
    if frames == [] {
      assert stream[endOffset..endOffset] == [];
    } else {
      var init, last := frames[..|frames| - 1], frames[|frames| - 1];
      assert Clean(init, endOffset);
      ShownIsPiece(start, init, stream, endOffset);
      assert frames[|frames| - 1].offset + |last.bytes| <= endOffset || endOffset <= last.offset;
      if endOffset <= last.offset {
        assert stream[endOffset..last.offset] + stream[last.offset..EndOf(start, frames)]
            == stream[endOffset..EndOf(start, frames)];
      }
    }
  }

  /** How far a client that has reattached has got. */
  function ShownUpTo(ch: Channel): nat
    requires ch.view.Some?
  {
    Max(ch.view.value.endOffset, EndOf(ch.start, ch.frames))
  }

  /** In every interleaving, what a client has put on its screen (the first screen, then
      every frame the dedup rule lets through) is the mode preamble followed by one
      unbroken piece of the stream: nothing missing, nothing twice. While its channel is
      mounted the piece reaches the newest byte handed over, which is the newest byte of
      all whenever the reader is not between commit and delivery. */
  lemma ExactlyOnceScreen(replayCap: nat, high: nat, low: nat, steps: seq<Move>, id: nat)
    requires low <= high <= USIZE_MAX && Legal(Start(replayCap, high, low), steps)
    requires var s := Exec(Start(replayCap, high, low), steps);
             id < |s.channels| && s.channels[id].view.Some?
    ensures var s := Exec(Start(replayCap, high, low), steps);
            var ch := s.channels[id];
            var view := ch.view.value;
            && view.cut <= view.endOffset <= ShownUpTo(ch) <= |s.stream|
            && view.screen + Shown(ch.frames, view.endOffset)
               == DecModePreamble(TerminalModes(s.stream[..view.endOffset], MAX_TRACKED_DEC_MODES))
                  + s.stream[view.cut..ShownUpTo(ch)]
            && (s.slot == Some(id) && !s.reader.Delivering? ==> ShownUpTo(ch) == |s.stream|)
  {
    hide Next, Enabled, Run, DecModePreamble, Modes.ApplyAll;
    StartInv(replayCap, high, low);
    EveryRun(Start(replayCap, high, low), steps);
    var s := Exec(Start(replayCap, high, low), steps);
    var ch := s.channels[id];
    assert ChannelOk(ch, s);
    var view := ch.view.value;
    ShownIsPiece(ch.start, ch.frames, s.stream, view.endOffset);
    assert s.stream[view.cut..view.endOffset] + s.stream[view.endOffset..ShownUpTo(ch)]
        == s.stream[view.cut..ShownUpTo(ch)];
    Assoc(DecModePreamble(TerminalModes(s.stream[..view.endOffset], MAX_TRACKED_DEC_MODES)),
          s.stream[view.cut..view.endOffset], s.stream[view.endOffset..ShownUpTo(ch)]);
  }

  lemma TrackedNow(s: Sys)
    requires Inv(s)
    ensures Mirrors(s.inner, s.stream) && s.inner.modes == TerminalModes(s.stream, MAX_TRACKED_DEC_MODES)
  {
    hide Run, Modes.ApplyAll;
  }

  lemma ReattachMeans(stream: seq<Byte>, cut: nat, cap: nat)
    requires cut <= |stream|
    ensures ModesAfterReattach(stream, cut, cap)
         == TerminalModes(DecModePreamble(TerminalModes(stream, MAX_TRACKED_DEC_MODES)) + stream[cut..], cap)
  {
    hide Run, Modes.ApplyAll, DecModePreamble;
  }

  lemma ReattachNow(s: Sys, cap: nat)
    requires Inv(s) && cap >= MAX_TRACKED_DEC_MODES
    ensures TerminalModes(FirstScreen(s.inner), cap) == s.inner.modes <==>
            TailTurnsAway(s.inner.modes, SnapshotOf(s.inner.replay), cap)
  {
    hide *;
    TrackedNow(s);
    FirstScreenIsTail(s.inner, s.stream);
    ReattachRestoresModes(s.stream, ReplayCut(s.inner), cap);
    ReattachMeans(s.stream, ReplayCut(s.inner), cap);
  }

  /** At any moment of any run, reattaching would set a new terminal to the modes the session
      tracks, exactly when the retained output turns away again what the full map turned
      away: a question about the session's own map and buffer. */
  lemma ReattachAnyTime(replayCap: nat, high: nat, low: nat, steps: seq<Move>, cap: nat)
    requires low <= high <= USIZE_MAX && Legal(Start(replayCap, high, low), steps)
    requires cap >= MAX_TRACKED_DEC_MODES
    ensures var inner := Exec(Start(replayCap, high, low), steps).inner;
            TerminalModes(FirstScreen(inner), cap) == inner.modes <==>
            TailTurnsAway(inner.modes, SnapshotOf(inner.replay), cap)
  {
    hide *;
    StartInv(replayCap, high, low);
    EveryRun(Start(replayCap, high, low), steps);
    ReattachNow(Exec(Start(replayCap, high, low), steps), cap);
  }

  lemma RecordNow(s: Sys)
    requires Inv(s) && !s.inner.alive
    ensures if Contents(s.inner.replay) == [] then RecordOf(s.inner) == Some([])
            else exists cut: nat :: cut < |s.stream| && RecordOf(s.inner) ==
                   Some(DecModePreamble(TerminalModes(s.stream, MAX_TRACKED_DEC_MODES)) + s.stream[cut..])
  {
    hide Run, DecModePreamble, Modes.ApplyAll, SnapshotOf;
    TrackedNow(s);
    FirstScreenIsTail(s.inner, s.stream);
    SnapshotIsTail(s.inner.replay);
    if Contents(s.inner.replay) != [] {
      assert ReplayCut(s.inner) < |s.stream|;
    }
  }

  /** The record of an ended session, in every run: nothing when no output is retained, and
      otherwise the modes the whole stream leaves set, then a nonempty tail of the stream. */
  lemma RecordAnyTime(replayCap: nat, high: nat, low: nat, steps: seq<Move>)
    requires low <= high <= USIZE_MAX && Legal(Start(replayCap, high, low), steps)
    requires !Exec(Start(replayCap, high, low), steps).inner.alive
    ensures var s := Exec(Start(replayCap, high, low), steps);
            if Contents(s.inner.replay) == [] then RecordOf(s.inner) == Some([])
            else exists cut: nat :: cut < |s.stream| && RecordOf(s.inner) ==
                   Some(DecModePreamble(TerminalModes(s.stream, MAX_TRACKED_DEC_MODES)) + s.stream[cut..])
  {
    hide *;
    StartInv(replayCap, high, low);
    EveryRun(Start(replayCap, high, low), steps);
    RecordNow(Exec(Start(replayCap, high, low), steps));
  }

  // ----- what lasts -----

  lemma LifeStep(s: Sys, step: Move)
    requires Enabled(s, step)
    ensures Next(s, step).inner.killed <==> s.inner.killed || step.Kill? || step.ChildExit?
    ensures Next(s, step).inner.alive <==> s.inner.alive && !step.ChildExit?
  {
    hide Run, DecModePreamble, Modes.ApplyAll, Pushed, SnapshotOf, ReplayCut, OnSent, OnAcked;
  }

  lemma {:induction false} LifeRun(s: Sys, steps: seq<Move>)
    requires Legal(s, steps)
    ensures Exec(s, steps).inner.killed <==> s.inner.killed || Kill in steps || ChildExit in steps
    ensures Exec(s, steps).inner.alive <==> s.inner.alive && ChildExit !in steps
    decreases |steps|
  {
    hide Next, Enabled;
    if steps != [] {
      LifeStep(s, steps[0]);
      LifeRun(Next(s, steps[0]), steps[1..]);
      assert steps == [steps[0]] + steps[1..];
    }
  }

  /** A session is killed exactly once it was killed or its child exited, and lives exactly as
      long as its child has not. */
  lemma LifeExactly(replayCap: nat, high: nat, low: nat, steps: seq<Move>)
    requires Legal(Start(replayCap, high, low), steps)
    ensures var s := Exec(Start(replayCap, high, low), steps);
            && (s.inner.killed <==> Kill in steps || ChildExit in steps)
            && (s.inner.alive <==> ChildExit !in steps)
  {
    hide Legal, Exec;
    LifeRun(Start(replayCap, high, low), steps);
  }

  lemma SlotStep(s: Sys, step: Move)
    requires Enabled(s, step)
    ensures step.Mount? ==> Next(s, step).slot == Some(|s.channels|)
    ensures !step.Mount? && !step.DetachClear? && step != Deliver(false) ==> Next(s, step).slot == s.slot
  {
    hide Run, DecModePreamble, Modes.ApplyAll, Pushed, SnapshotOf, ReplayCut, OnSent, OnAcked;
  }

  lemma {:induction false} SlotStays(s: Sys, steps: seq<Move>)
    requires Legal(s, steps) && Mount !in steps && DetachClear !in steps && Deliver(false) !in steps
    ensures Exec(s, steps).slot == s.slot
    decreases |steps|
  {
    hide Next, Enabled;
    if steps != [] {
      SlotStep(s, steps[0]);
      SlotStays(Next(s, steps[0]), steps[1..]);
    }
  }

  lemma ViewStep(s: Sys, step: Move, id: nat)
    requires Enabled(s, step) && id < |s.channels|
    ensures id < |Next(s, step).channels|
    ensures s.channels[id].view.Some? ==> Next(s, step).channels[id].view == s.channels[id].view
    ensures step == Reattach(id) ==>
              Next(s, step).channels[id].view == Some(View(s.inner.bytesOut, ReplayCut(s.inner), FirstScreen(s.inner)))
  {
    hide Run, DecModePreamble, Modes.ApplyAll, Pushed, SnapshotOf, OnSent, OnAcked;
  }

  lemma {:induction false} ViewStays(s: Sys, steps: seq<Move>, id: nat)
    requires Legal(s, steps) && id < |s.channels| && s.channels[id].view.Some?
    ensures id < |Exec(s, steps).channels| && Exec(s, steps).channels[id].view == s.channels[id].view
    decreases |steps|
  {
    hide Next, Enabled;
    if steps != [] {
      ViewStep(s, steps[0], id);
      ViewStays(Next(s, steps[0]), steps[1..], id);
    }
  }

  lemma ReattachNeeds(s: Sys, id: nat)
    requires Enabled(s, Reattach(id))
    ensures id < |s.channels|
  {
  }

  lemma ExecOne(s: Sys, step: Move) returns (t: Sys)
    requires Legal(s, [step])
    ensures Enabled(s, step) && t == Next(s, step) == Exec(s, [step])
  {
    t := Next(s, step);
    assert [step][1..] == [];
  }

  /** A client that mounts its channel and then reattaches has, from then on and until it is
      detached, replaced or a delivery to it fails, everything on its screen: the modes at the
      reattach, and from the beginning of what was then replayed the stream up to its newest byte,
      but for a chunk just read and not yet delivered. */
  lemma AttachedShowsAll(start: Sys, replayCap: nat, high: nat, low: nat, a: seq<Move>, b: seq<Move>, c: seq<Move>, id: nat)
    requires start == Start(replayCap, high, low) && low <= high <= USIZE_MAX
    requires Legal(start, a + ([Mount] + (b + ([Reattach(id)] + c))))
    requires Legal(start, a) && id == |Exec(start, a).channels|
    requires forall step :: step in b || step in c ==> !step.Mount? && !step.DetachClear? && step != Deliver(false)
    ensures var s := Exec(start, a + ([Mount] + (b + ([Reattach(id)] + c))));
            && id < |s.channels| && s.channels[id].view.Some?
            && var ch := s.channels[id];
            && s.slot == Some(id) && ch.view.value.cut <= ch.view.value.endOffset <= |s.stream|
            && (!s.reader.Delivering? ==>
                  ch.view.value.screen + Shown(ch.frames, ch.view.value.endOffset)
                  == DecModePreamble(TerminalModes(s.stream[..ch.view.value.endOffset], MAX_TRACKED_DEC_MODES))
                     + s.stream[ch.view.value.cut..])
  {
    hide Next, Enabled, Run, DecModePreamble, Modes.ApplyAll, Shown;
    var all := a + ([Mount] + (b + ([Reattach(id)] + c)));
    ExecAppend(start, a, [Mount] + (b + ([Reattach(id)] + c)));
    var s0 := Exec(start, a);
    ExecAppend(s0, [Mount], b + ([Reattach(id)] + c));
    var s1 := ExecOne(s0, Mount);
    SlotStep(s0, Mount);
    ExecAppend(s1, b, [Reattach(id)] + c);
    SlotStays(s1, b);
    var s2 := Exec(s1, b);
    ExecAppend(s2, [Reattach(id)], c);
    var s3 := ExecOne(s2, Reattach(id));
    SlotStep(s2, Reattach(id));
    assert id < |s2.channels| by { ReattachNeeds(s2, id); }
    ViewStep(s2, Reattach(id), id);
    SlotStays(s3, c);
    ViewStays(s3, c, id);
    ExactlyOnceScreen(replayCap, high, low, all, id);
    var s := Exec(start, all);
    assert s.stream[s.channels[id].view.value.cut..|s.stream|] == s.stream[s.channels[id].view.value.cut..];
  }

  /** A chunk that could not be delivered empties the slot and is taken off the account again;
      then the reader is back at its gate. */
  lemma DropRollsBack(s: Sys)
    requires s.reader.Delivering?
    ensures Legal(s, [Deliver(false), Undo])
    ensures var t := Exec(s, [Deliver(false), Undo]);
            && t.reader == AtGate && t.slot == None && t.channels == s.channels && t.stream == s.stream
            && t.inner.flow.pending == SatSub(s.inner.flow.pending, |s.reader.chunk|)
  {
    var one: seq<Move> := [Undo];
    var both: seq<Move> := [Deliver(false), Undo];
    assert both[1..] == one && one[1..] == [];
    var t := Next(s, Deliver(false));
    assert Exec(t, one) == Exec(Next(t, Undo), []);
  }

  /** Bytes are missing from the buffer exactly when it says that something was evicted. */
  predicate RetainInv(s: Sys) {
    NoEmpty(s.inner.replay.chunks) && (s.inner.replay.evicted <==> |Contents(s.inner.replay)| < |s.stream|)
  }

  lemma RetainStep(s: Sys, step: Move)
    requires StreamInv(s) && RetainInv(s) && Enabled(s, step) && !step.TakeRecord?
    ensures RetainInv(Next(s, step))
  {
    hide Run, DecModePreamble, Modes.ApplyAll, Pushed, SnapshotOf, ReplayCut, OnSent, OnAcked, Contents;
    if step.Read? {
      PushKeepsSuffix(s.inner.replay, step.chunk, s.stream);
      PushKeepsSuffix(s.inner.replay, step.chunk, Contents(s.inner.replay));
    }
  }

  lemma {:induction false} RetainRun(s: Sys, steps: seq<Move>)
    requires Inv(s) && RetainInv(s) && Legal(s, steps) && TakeRecord !in steps
    ensures RetainInv(Exec(s, steps))
    decreases |steps|
  {
    hide Next, Enabled, StreamInv, ChannelsInv, FlowInv, GateInv, ExactInv, RetainInv;
    if steps != [] {
      RetainStep(s, steps[0]);
      var one := [steps[0]];
      assert steps == one + steps[1..];
      ExecAppend(s, one, steps[1..]);
      var t := ExecOne(s, steps[0]);
      EveryRun(s, one);
      RetainRun(t, steps[1..]);
    }
  }

  /** In every run before a record is taken, the buffer says that something was evicted exactly
      when it does not hold the whole stream, and otherwise it does. */
  lemma RetainedExactly(replayCap: nat, high: nat, low: nat, steps: seq<Move>)
    requires low <= high <= USIZE_MAX && Legal(Start(replayCap, high, low), steps) && TakeRecord !in steps
    ensures var s := Exec(Start(replayCap, high, low), steps);
            && (s.inner.replay.evicted <==> |Contents(s.inner.replay)| < |s.stream|)
            && (!s.inner.replay.evicted ==> Contents(s.inner.replay) == s.stream)
  {
    hide Next, Enabled;
    StartInv(replayCap, high, low);
    assert Contents(Start(replayCap, high, low).inner.replay) == [];
    RetainRun(Start(replayCap, high, low), steps);
    EveryRun(Start(replayCap, high, low), steps);
  }

  // ----- no leak, no stall -----

  /** In every run: pending never exceeds what is really outstanding in this epoch, nor
      the high mark plus one read; and once everything outstanding has been acknowledged
      or rolled back, the reader is not paused. Stale acks and rollbacks of earlier
      epochs, in any order, do not break this. */
  lemma NoLeakNoStall(replayCap: nat, high: nat, low: nat, steps: seq<Move>)
    requires low <= high <= USIZE_MAX && Legal(Start(replayCap, high, low), steps)
    ensures var s := Exec(Start(replayCap, high, low), steps);
            && s.inner.flow.pending <= Outstanding(s)
            && s.inner.flow.pending <= high + READ_BUF_BYTES
            && (Outstanding(s) == 0 ==> !s.inner.flow.paused)
  {
    hide Next, Enabled;
    StartInv(replayCap, high, low);
    EveryRun(Start(replayCap, high, low), steps);
  }

  /** The other half. The account falls short of what is outstanding by at most the bytes of
      earlier epochs taken off it since the last reset; so where every acknowledgement and
      rollback was of this epoch, it is exact. */
  lemma AccountExact(replayCap: nat, high: nat, low: nat, steps: seq<Move>)
    requires low <= high && high + READ_BUF_BYTES <= USIZE_MAX && Legal(Start(replayCap, high, low), steps)
    ensures var s := Exec(Start(replayCap, high, low), steps);
            && Outstanding(s) - s.stale <= s.inner.flow.pending <= Outstanding(s)
            && (s.stale == 0 ==> s.inner.flow.pending == Outstanding(s))
  {
    hide Next, Enabled;
    StartInv(replayCap, high, low);
    EveryRun(Start(replayCap, high, low), steps);
  }

  /** Only bytes of the present epoch are taken off the account along this run. */
  predicate Current(s: Sys, steps: seq<Move>)
    requires Legal(s, steps)
    decreases |steps|
  {
    steps != [] ==>
      && (steps[0].Ack? ==> steps[0].due == steps[0].n)
      && (steps[0].Undo? ==> s.reader.epoch == s.epoch)
      && Current(Next(s, steps[0]), steps[1..])
  }

  lemma {:induction false} CurrentRun(s: Sys, steps: seq<Move>)
    requires s.stale == 0 && Legal(s, steps) && Current(s, steps)
    ensures Exec(s, steps).stale == 0
    decreases |steps|
  {
    hide Run, DecModePreamble, Modes.ApplyAll, Pushed, SnapshotOf, ReplayCut;
    if steps != [] {
      CurrentRun(Next(s, steps[0]), steps[1..]);
    }
  }

  lemma ResetForgets(s: Sys, reset: Move)
    requires Enabled(s, reset) && (reset.Reattach? || reset.DetachReset?)
    ensures Next(s, reset).stale == 0
  {
  }

  /** The same from any reset on: what was taken off before it no longer matters. */
  lemma CurrentSinceReset(start: Sys, replayCap: nat, high: nat, low: nat, a: seq<Move>, reset: Move, b: seq<Move>)
    requires start == Start(replayCap, high, low)
    requires low <= high && high + READ_BUF_BYTES <= USIZE_MAX && Legal(start, a + ([reset] + b))
    requires reset.Reattach? || reset.DetachReset?
    requires Legal(start, a + [reset]) && Legal(Exec(start, a + [reset]), b) && Current(Exec(start, a + [reset]), b)
    ensures var s := Exec(start, a + ([reset] + b)); s.inner.flow.pending == Outstanding(s)
  {
    hide Next, Enabled, Current;
    ExecAppend(start, a, [reset]);
    var s := Exec(start, a);
    var t := ExecOne(s, reset);
    assert t.stale == 0 by { ResetForgets(s, reset); }
    CurrentRun(t, b);
    assert a + ([reset] + b) == (a + [reset]) + b;
    ExecAppend(start, a + [reset], b);
    AccountExact(replayCap, high, low, a + ([reset] + b));
  }

  /** What the gate does, in terms of what is outstanding: below both marks an unkilled reader
      goes on to read; with the high mark reached and the low mark exceeded, stale bytes set
      aside, it goes to sleep; the end of input ends it, and but for that only a kill does. */
  lemma GateExact(replayCap: nat, high: nat, low: nat, steps: seq<Move>)
    requires low <= high && high + READ_BUF_BYTES <= USIZE_MAX && Legal(Start(replayCap, high, low), steps)
    ensures var s := Exec(Start(replayCap, high, low), steps);
            && (s.reader.AtGate? && !s.inner.killed && Outstanding(s) < high && Outstanding(s) <= low ==>
                  Next(s, Gate).reader == Reading)
            && (s.reader.AtGate? && !s.inner.killed && Outstanding(s) >= high + s.stale && Outstanding(s) > low + s.stale ==>
                  Next(s, Gate).reader == Asleep)
            && (s.reader.AtGate? && s.inner.killed ==> Next(s, Gate).reader == Gone)
            && (s.reader.Reading? ==> Outstanding(s) < high + s.stale || Outstanding(s) <= low + s.stale)
            && (s.reader.Gone? ==> s.inner.killed || s.ended) && (s.ended ==> s.reader.Gone?)
  {
    hide StreamInv, ChannelsInv;
    StartInv(replayCap, high, low);
    EveryRun(Start(replayCap, high, low), steps);
  }

  /** So with acknowledgements and rollbacks of the present epoch only, in every run, the account
      is exactly what is outstanding, and a reader that is in `read` passed the gate with less
      than the high mark outstanding, or no more than the low one. */
  lemma CurrentRunExact(replayCap: nat, high: nat, low: nat, steps: seq<Move>)
    requires low <= high && high + READ_BUF_BYTES <= USIZE_MAX && Legal(Start(replayCap, high, low), steps)
    requires Current(Start(replayCap, high, low), steps)
    ensures var s := Exec(Start(replayCap, high, low), steps);
            && s.inner.flow.pending == Outstanding(s)
            && (s.reader.Reading? ==> Outstanding(s) < high || Outstanding(s) <= low)
  {
    hide Next, Enabled;
    CurrentRun(Start(replayCap, high, low), steps);
    AccountExact(replayCap, high, low, steps);
    GateExact(replayCap, high, low, steps);
  }

  /** A reader found asleep at the gate is rightly so (paused and not killed), or a
      notification is on its way. */
  lemma NeverWronglyAsleep(replayCap: nat, high: nat, low: nat, steps: seq<Move>)
    requires low <= high <= USIZE_MAX && Legal(Start(replayCap, high, low), steps)
    ensures var s := Exec(Start(replayCap, high, low), steps);
            s.reader.Asleep? ==> s.owed > 0 || (s.inner.flow.paused && !s.inner.killed)
  {
    hide Next, Enabled;
    StartInv(replayCap, high, low);
    EveryRun(Start(replayCap, high, low), steps);
  }

  function Notices(n: nat): seq<Move> { if n == 0 then [] else [NotifyAll] + Notices(n - 1) }

  lemma NoticeStep(s: Sys)
    requires Inv(s) && s.owed > 0
    ensures Inv(Next(s, NotifyAll)) && Next(s, NotifyAll).owed == s.owed - 1
  {
    hide StreamInv, ChannelsInv, FlowInv, GateInv, ExactInv;
    StreamStep(s, NotifyAll);
    ChannelsStep(s, NotifyAll);
    ExactStep(s, NotifyAll);
    FlowStep(s, NotifyAll);
  }

  /** And when those under way have arrived, it is rightly so without exception. */
  lemma {:induction false} AsleepAfterNotices(s: Sys, n: nat)
    requires Inv(s) && n == s.owed
    ensures Legal(s, Notices(n))
    ensures var t := Exec(s, Notices(n)); t.owed == 0 && (t.reader.Asleep? ==> t.inner.flow.paused && !t.inner.killed)
    decreases n
  {
    hide StreamInv, ChannelsInv, FlowInv, ExactInv;
    if n > 0 {
      NoticeStep(s);
      assert Notices(n)[0] == NotifyAll && Notices(n)[1..] == Notices(n - 1);
      AsleepAfterNotices(Next(s, NotifyAll), n - 1);
    }
  }

  // ----- a detached session runs free -----

  /** No channel is mounted, and what little is pending is the chunk now being dropped. */
  predicate RunsFree(s: Sys) {
    && s.slot.None?
    && s.inner.flow.pending <= (match s.reader
         case Delivering(_, chunk, _) => |chunk|
         case Undoing(n, _) => n
         case _ => 0)
    && (s.inner.flow.paused ==> s.reader.Delivering? || s.reader.Undoing?)
  }

  lemma FreeStep(s: Sys, step: Move)
    requires RunsFree(s) && Enabled(s, step) && !step.Mount?
    ensures RunsFree(Next(s, step))
    ensures !s.reader.Asleep? ==> !Next(s, step).reader.Asleep?
  {
    hide Run, DecModePreamble, Modes.ApplyAll, Pushed, SnapshotOf, ReplayCut;
  }

  lemma {:induction false} FreeRun(s: Sys, steps: seq<Move>)
    requires RunsFree(s) && Legal(s, steps) && Mount !in steps
    ensures RunsFree(Exec(s, steps))
    ensures !s.reader.Asleep? ==> !Exec(s, steps).reader.Asleep?
    decreases |steps|
  {
    hide Next, Enabled, RunsFree;
    if steps != [] {
      FreeStep(s, steps[0]);
      FreeRun(Next(s, steps[0]), steps[1..]);
    }
  }

  lemma {:induction false} SlotStaysEmpty(s: Sys, steps: seq<Move>)
    requires s.slot.None? && Legal(s, steps) && Mount !in steps
    ensures Exec(s, steps).slot.None?
    decreases |steps|
  {
    if steps != [] {
      SlotStaysEmpty(Next(s, steps[0]), steps[1..]);
    }
  }

  /** From the moment `detach_terminal` has cleared the slot, reset the account and
      notified, and until a channel is mounted again, the reader is never asleep and
      never finds itself paused at the gate, whatever else happens in between and
      whatever the two marks are. */
  lemma DetachedReaderRuns(s: Sys, a: seq<Move>, b: seq<Move>, c: seq<Move>)
    requires Legal(s, [DetachClear] + a + [DetachReset] + b + [NotifyAll] + c)
    requires Mount !in a && Mount !in b && Mount !in c
    ensures var t := Exec(s, [DetachClear] + a + [DetachReset] + b + [NotifyAll] + c);
            !t.reader.Asleep? && (t.reader.AtGate? ==> !t.inner.flow.paused)
  {
    hide Enabled;
    var all := [DetachClear] + a + [DetachReset] + b + [NotifyAll] + c;
    assert all == [DetachClear] + (a + ([DetachReset] + (b + ([NotifyAll] + c))));
    ExecAppend(s, [DetachClear], a + ([DetachReset] + (b + ([NotifyAll] + c))));
    var s1 := ExecOne(s, DetachClear);
    ExecAppend(s1, a, [DetachReset] + (b + ([NotifyAll] + c)));
    SlotStaysEmpty(s1, a);
    var s2 := Exec(s1, a);
    ExecAppend(s2, [DetachReset], b + ([NotifyAll] + c));
    var s3 := ExecOne(s2, DetachReset);
    ExecAppend(s3, b, [NotifyAll] + c);
    FreeRun(s3, b);
    var s4 := Exec(s3, b);
    ExecAppend(s4, [NotifyAll], c);
    var s5 := ExecOne(s4, NotifyAll);
    FreeStep(s4, NotifyAll);
    FreeRun(s5, c);
  }
}
