/** The bounded replay buffer of replay.rs: whole chunks, the oldest evicted first. */
module Replay {
  import opened Bytes

  const TRIM_SCAN_BYTES := 4096
  const NEWLINE: Byte := 10

  datatype Buffer = Buffer(chunks: seq<seq<Byte>>, cap: nat, evicted: bool)

  function Contents(r: Buffer): seq<Byte> { Flat(r.chunks) }

  /** The chunks left when the oldest are dropped until the rest fit. */
  function Fit(chunks: seq<seq<Byte>>, cap: nat): seq<seq<Byte>> {
    if |Flat(chunks)| <= cap then chunks
    else assert chunks != []; Fit(chunks[1..], cap)
  }

  function Pushed(r: Buffer, bytes: seq<Byte>): Buffer {
    if bytes == [] then r
    else
      var all := r.chunks + [bytes];
      var kept := Fit(all, r.cap);
      Buffer(kept, r.cap, r.evicted || |kept| < |all|)
  }

  /** The first newline within the scan window, if any. */
  function FirstNewline(s: seq<Byte>, from: nat): (pos: Option<nat>)
    requires from <= |s|
    ensures pos.Some? ==> from <= pos.value < |s| && s[pos.value] == NEWLINE
                          && NEWLINE !in s[from..pos.value]
    ensures pos.None? ==> NEWLINE !in s[from..]
    decreases |s| - from
  {
    if from == |s| then None
    else if s[from] == NEWLINE then Some(from)
    else
      assert s[from..] == [s[from]] + s[from + 1..];
      var pos := FirstNewline(s, from + 1);
      assert pos.Some? ==> s[from..pos.value] == [s[from]] + s[from + 1..pos.value];
      pos
  }

  /** Where a snapshot starts inside the retained bytes. */
  function TrimPoint(s: seq<Byte>, evicted: bool): (start: nat)
    ensures start <= |s| && (s != [] ==> start < |s|)
    ensures start > 0 ==> evicted && s[start - 1] == NEWLINE && start <= TRIM_SCAN_BYTES
  {
    if !evicted then 0
    else match FirstNewline(s[..Min(|s|, TRIM_SCAN_BYTES)], 0)
      case None => 0
      case Some(pos) => if pos + 1 < |s| then pos + 1 else 0
  }

  function SnapshotOf(r: Buffer): seq<Byte> {
    Contents(r)[TrimPoint(Contents(r), r.evicted)..]
  }

  function TailFrom(r: Buffer, pos: nat): seq<Byte> {
    if pos >= |Contents(r)| then [] else Contents(r)[pos..]
  }

  function Cleared(r: Buffer): Buffer { r.(chunks := []) }

  class ReplayBuffer {
    var chunks: seq<seq<Byte>>
    var total: nat
    const cap: nat
    var evicted: bool

    ghost function Model(): Buffer reads this { Buffer(chunks, cap, evicted) }

    ghost predicate Valid() reads this { total == |Flat(chunks)| <= cap }

    constructor (capBytes: nat)
      ensures Valid() && Model() == Buffer([], capBytes, false)
    {
      chunks, total, cap, evicted := [], 0, capBytes, false;
    }

    method Push(bytes: seq<Byte>)
      requires Valid()
      modifies this
      ensures Valid() && Model() == Pushed(old(Model()), bytes)
    {
      if bytes == [] {
        return;
      }
      FlatSnoc(chunks, bytes);
      total := total + |bytes|;
      chunks := chunks + [bytes];
      ghost var all := chunks;
      while total > cap
        invariant total == |Flat(chunks)|
        invariant Fit(chunks, cap) == Fit(all, cap)
        invariant |chunks| <= |all|
        invariant evicted == (old(evicted) || |chunks| < |all|)
        decreases |chunks|
      {
        var dropped := chunks[0];
        chunks := chunks[1..];
        total := total - |dropped|;
        evicted := true;
      }
    }

    method Snapshot() returns (out: seq<Byte>)
      requires Valid()
      ensures out == SnapshotOf(Model())
    {
      out := [];
      for i := 0 to |chunks|
        invariant out == Flat(chunks[..i])
      {
        assert chunks[..i + 1] == chunks[..i] + [chunks[i]];
        FlatSnoc(chunks[..i], chunks[i]);
        out := out + chunks[i];
      }
      assert chunks[..|chunks|] == chunks;
      if evicted {
        var window := out[..Min(|out|, TRIM_SCAN_BYTES)];
        var pos := FirstNewline(window, 0);
        if pos.Some? && pos.value + 1 < |out| {
          out := out[pos.value + 1..];
        }
      }
    }

    method BytesFrom(pos: nat) returns (out: seq<Byte>)
      requires Valid()
      ensures out == TailFrom(Model(), pos)
    {
      if pos >= total {
        return [];
      }
      out := [];
      var seen := 0;
      for i := 0 to |chunks|
        invariant seen == |Flat(chunks[..i])|
        invariant out == (if pos >= seen then [] else Flat(chunks[..i])[pos..])
      {
        assert chunks[..i + 1] == chunks[..i] + [chunks[i]];
        FlatSnoc(chunks[..i], chunks[i]);
        if seen + |chunks[i]| > pos {
          out := out + chunks[i][SatSub(pos, seen)..];
        }
        seen := seen + |chunks[i]|;
      }
      assert chunks[..|chunks|] == chunks;
    }

    method Clear()
      modifies this
      ensures Valid() && Model() == Cleared(old(Model()))
    {
      chunks := [];
      total := 0;
    }
  }

  // ----- what a push keeps -----

  /** Eviction is whole chunks from the front and no more than needed: what stays is the
      longest run of newest chunks that fits the cap. */
  lemma {:induction false} FitIsLongestSuffix(chunks: seq<seq<Byte>>, cap: nat)
    ensures var kept := Fit(chunks, cap);
            && |kept| <= |chunks|
            && kept == chunks[|chunks| - |kept|..]
            && |Flat(kept)| <= cap
            && forall k :: 0 <= k < |chunks| - |kept| ==> |Flat(chunks[k..])| > cap
  {
    if |Flat(chunks)| > cap {
      FitIsLongestSuffix(chunks[1..], cap);
      var kept := Fit(chunks, cap);
      forall k | 0 <= k < |chunks| - |kept| ensures |Flat(chunks[k..])| > cap {
        if k > 0 {
          assert chunks[1..][k - 1..] == chunks[k..];
        } else {
          assert chunks[0..] == chunks;
        }
      }
      assert chunks[1..][|chunks| - 1 - |kept|..] == chunks[|chunks| - |kept|..];
    }
  }

  predicate IsSuffix(s: seq<Byte>, of: seq<Byte>) {
    |s| <= |of| && s == of[|of| - |s|..]
  }

  lemma TailIsSuffix(head: seq<Byte>, tail: seq<Byte>)
    ensures IsSuffix(tail, head + tail)
  {
  }

  predicate NoEmpty(chunks: seq<seq<Byte>>) { [] !in chunks }

  /** The buffer always holds an unbroken run of bytes up to the newest one, and notes an eviction
      exactly when bytes were given up. */
  lemma PushKeepsSuffix(r: Buffer, bytes: seq<Byte>, stream: seq<Byte>)
    requires IsSuffix(Contents(r), stream)
    ensures IsSuffix(Contents(Pushed(r, bytes)), stream + bytes)
    ensures |Contents(r)| <= r.cap ==> |Contents(Pushed(r, bytes))| <= r.cap
    ensures r.evicted ==> Pushed(r, bytes).evicted
    ensures !Pushed(r, bytes).evicted ==> Contents(Pushed(r, bytes)) == Contents(r) + bytes
    ensures NoEmpty(r.chunks) ==> NoEmpty(Pushed(r, bytes).chunks)
    ensures NoEmpty(r.chunks) && !r.evicted && Pushed(r, bytes).evicted ==>
              |Contents(Pushed(r, bytes))| < |Contents(r)| + |bytes|
  {
    if bytes == [] {
      assert stream + bytes == stream;
    } else {
      var all := r.chunks + [bytes];
      var kept := Fit(all, r.cap);
      FitIsLongestSuffix(all, r.cap);
      FlatSnoc(r.chunks, bytes);
      var dropped := all[..|all| - |kept|];
      assert all == dropped + kept;
      FlatAppend(dropped, kept);
      var whole := stream[..|stream| - |Contents(r)|];
      assert stream == whole + Contents(r);
      Assoc(whole, Contents(r), bytes);
      Assoc(whole, Flat(dropped), Flat(kept));
      TailIsSuffix(whole + Flat(dropped), Flat(kept));
      if NoEmpty(r.chunks) && dropped != [] {
        assert dropped[0] == all[0] && all[0] != [];
      }
    }
  }

  /** Output is missing before what is retained, and the first newline retained is at `p`, within
      the scan window and not at the very end. */
  predicate FirstLineEnds(r: Buffer, p: nat) {
    var s := Contents(r);
    r.evicted && p < TRIM_SCAN_BYTES && p + 1 < |s| && s[p] == NEWLINE && NEWLINE !in s[..p]
  }

  /** A snapshot is a tail of the retained bytes, empty only if nothing is retained. Once
      something was evicted it starts right after the first newline, if that is among the first
      4096 bytes and not the last of all, and in every other case where they start. */
  lemma SnapshotIsTail(r: Buffer)
    ensures IsSuffix(SnapshotOf(r), Contents(r))
    ensures SnapshotOf(r) == [] <==> Contents(r) == []
    ensures var cut := |Contents(r)| - |SnapshotOf(r)|;
            cut > 0 ==> r.evicted && cut <= TRIM_SCAN_BYTES && Contents(r)[cut - 1] == NEWLINE
                        && NEWLINE !in Contents(r)[..cut - 1]
    ensures forall p: nat :: FirstLineEnds(r, p) ==> |SnapshotOf(r)| == |Contents(r)| - (p + 1)
  {
    var s := Contents(r);
    var window := s[..Min(|s|, TRIM_SCAN_BYTES)];
    var start := TrimPoint(s, r.evicted);
    if start > 0 {
      assert window[0..start - 1] == s[..start - 1];
    }
    forall p: nat | FirstLineEnds(r, p) ensures start == p + 1 {
      assert window[p] == NEWLINE;
      assert window[0..] == window;
    }
  }
}
