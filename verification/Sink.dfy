/** The two ends of a desktop channel: the slot a session's sink delivers into (sink.rs) and
    the gate a client puts in front of its terminal (attach-gate.ts). */
module Sink {
  import opened Bytes
  import opened Pump

  /** The sink's channel slot. A send on it may fail, which also empties the slot. */
  class TerminalSink {
    var channel: Option<nat>

    constructor ()
      ensures channel == None
    {
      channel := None;
    }

    method Attach(id: nat)
      modifies this
      ensures channel == Some(id)
    {
      channel := Some(id);
    }

    method Detach()
      modifies this
      ensures channel == None
    {
      channel := None;
    }

    /** `sendOk` is the outcome of the channel's own send, if one is attempted. */
    method OnOutput(sendOk: bool) returns (delivered: bool)
      modifies this
      ensures delivered <==> old(channel).Some? && sendOk
      ensures channel == if delivered then old(channel) else None
    {
      if channel.None? {
        return false;
      }
      if !sendOk {
        channel := None;
      }
      delivered := sendOk;
    }
  }

  function TotalBytes(frames: seq<Frame>): nat {
    if frames == [] then 0 else TotalBytes(frames[..|frames| - 1]) + |frames[|frames| - 1].bytes|
  }

  /** Frames that arrive before the snapshot's end is known wait in a queue. The ghost
      fields record what arrived, what was shown and how many bytes were accounted for. */
  class AttachGate {
    var endOffset: Option<nat>
    var queued: seq<Frame>
    ghost var received: seq<Frame>
    ghost var shown: seq<Byte>
    ghost var accounted: nat

    /** In whatever order frames and snapshot arrive, what has been shown is what the
        dedup rule lets through of all frames received, in order; and every received
        byte, shown or thrown away, has been accounted for acknowledgement. */
    ghost predicate Valid() reads this {
      match endOffset
      case None => queued == received && shown == [] && accounted == 0
      case Some(end) => queued == [] && shown == Shown(received, end) && accounted == TotalBytes(received)
    }

    constructor ()
      ensures Valid() && endOffset == None && received == []
    {
      endOffset, queued, received, shown, accounted := None, [], [], [], 0;
    }

    method Judge(frame: Frame) returns (deliver: seq<Byte>, discarded: nat)
      requires endOffset.Some?
      ensures deliver == (if frame.offset < endOffset.value then [] else frame.bytes)
      ensures |deliver| + discarded == |frame.bytes|
    {
      if frame.offset < endOffset.value {
        deliver, discarded := [], |frame.bytes|;
      } else {
        deliver, discarded := frame.bytes, 0;
      }
    }

    method Push(frame: Frame) returns (deliver: seq<Byte>, discarded: nat)
      requires Valid()
      modifies this
      ensures Valid() && received == old(received) + [frame] && endOffset == old(endOffset)
      ensures shown == old(shown) + deliver && accounted == old(accounted) + |deliver| + discarded
    {
      received := received + [frame];
      assert received[..|received| - 1] == old(received);
      if endOffset.None? {
        queued := queued + [frame];
        return [], 0;
      }
      deliver, discarded := Judge(frame);
      shown := shown + deliver;
      accounted := accounted + |deliver| + discarded;
    }

    /** A second call is a protocol violation, on which the program throws. */
    method OnSnapshot(end: nat) returns (deliver: seq<Byte>, discarded: nat)
      requires Valid() && endOffset.None?
      modifies this
      ensures Valid() && received == old(received) && endOffset == Some(end)
      ensures shown == deliver && accounted == |deliver| + discarded
    {
      endOffset := Some(end);
      deliver, discarded := [], 0;
      for i := 0 to |queued|
        invariant endOffset == Some(end) && queued == received == old(received)
        invariant deliver == Shown(queued[..i], end)
        invariant |deliver| + discarded == TotalBytes(queued[..i])
      {
        assert queued[..i + 1][..i] == queued[..i];
        var more, less := Judge(queued[i]);
        deliver, discarded := deliver + more, discarded + less;
      }
      assert queued[..|queued|] == queued;
      queued, shown, accounted := [], deliver, |deliver| + discarded;
    }
  }
}
