/** Backpressure accounting of flow.rs: bytes sent but not yet acknowledged decide when the
    reader pauses and when it resumes. */
module Flow {
  import opened Bytes

  const USIZE_MAX := 0xffff_ffff_ffff_ffff

  datatype Action = NoAction | Pause | Resume

  datatype Account = Account(high: nat, low: nat, pending: nat, paused: bool)

  /** The account after a call, and what the call told the reader to do. */
  datatype Turn = Turn(account: Account, action: Action)

  function OnSent(f: Account, n: nat): Turn {
    var pending := Min(f.pending + n, USIZE_MAX);
    if !f.paused && pending >= f.high
    then Turn(f.(pending := pending, paused := true), Pause)
    else Turn(f.(pending := pending), NoAction)
  }

  function OnAcked(f: Account, n: nat): Turn {
    var pending := SatSub(f.pending, n);
    if f.paused && pending <= f.low
    then Turn(f.(pending := pending, paused := false), Resume)
    else Turn(f.(pending := pending), NoAction)
  }

  function Reset(f: Account): Account { f.(pending := 0, paused := false) }

  class FlowControl {
    const high: nat
    const low: nat
    var pending: nat
    var paused: bool

    ghost function Model(): Account reads this { Account(high, low, pending, paused) }

    /** The program panics on `low > high`; every caller establishes the order first. */
    constructor (high: nat, low: nat)
      requires low <= high
      ensures Model() == Account(high, low, 0, false)
    {
      this.high, this.low, pending, paused := high, low, 0, false;
    }

    method Sent(n: nat) returns (action: Action)
      modifies this
      ensures Turn(Model(), action) == OnSent(old(Model()), n)
    {
      pending := Min(pending + n, USIZE_MAX);
      if !paused && pending >= high {
        paused := true;
        action := Pause;
      } else {
        action := NoAction;
      }
    }

    method Acked(n: nat) returns (action: Action)
      modifies this
      ensures Turn(Model(), action) == OnAcked(old(Model()), n)
    {
      pending := SatSub(pending, n);
      if paused && pending <= low {
        paused := false;
        action := Resume;
      } else {
        action := NoAction;
      }
    }

    method Restart()
      modifies this
      ensures Model() == Reset(old(Model()))
    {
      pending := 0;
      paused := false;
    }
  }

  // ----- what the two thresholds guarantee -----

  datatype Call = Send(n: nat) | Ack(n: nat) | Restarted

  function Apply(f: Account, call: Call): Turn {
    match call
    case Send(n) => OnSent(f, n)
    case Ack(n) => OnAcked(f, n)
    case Restarted => Turn(Reset(f), NoAction)
  }

  function ApplyAll(f: Account, calls: seq<Call>): Account {
    if calls == [] then f else Apply(ApplyAll(f, calls[..|calls| - 1]), calls[|calls| - 1]).account
  }

  /** Paused means above the resume mark or not below the pause mark; running means below the
      pause mark or not above the resume mark. */
  predicate Consistent(f: Account) {
    && f.low <= f.high
    && (f.paused ==> f.pending > 0 && (f.pending > f.low || f.pending >= f.high))
    && (!f.paused ==> f.pending < f.high || f.pending <= f.low)
  }

  /** Every account reachable from a new one is consistent, provided reads are not empty. */
  lemma {:induction false} AlwaysConsistent(high: nat, low: nat, calls: seq<Call>)
    requires low <= high <= USIZE_MAX
    requires forall i :: 0 <= i < |calls| && calls[i].Send? ==> calls[i].n > 0
    ensures Consistent(ApplyAll(Account(high, low, 0, false), calls))
    ensures ApplyAll(Account(high, low, 0, false), calls).high == high
  {
    if calls != [] {
      AlwaysConsistent(high, low, calls[..|calls| - 1]);
    }
  }

  function Count(f: Account, calls: seq<Call>, action: Action): nat {
    if calls == [] then 0
    else
      var init := calls[..|calls| - 1];
      Count(f, init, action) + (if Apply(ApplyAll(f, init), calls[|calls| - 1]).action == action then 1 else 0)
  }

  /** Each crossing is signalled exactly once: without restarts, pauses and resumes
      strictly alternate, so their difference is the paused flag. */
  lemma {:induction false} CrossingsSignalledOnce(f: Account, calls: seq<Call>)
    requires !f.paused && Restarted !in calls
    ensures Count(f, calls, Pause) - Count(f, calls, Resume) == (if ApplyAll(f, calls).paused then 1 else 0)
  {
    if calls != [] {
      var init := calls[..|calls| - 1];
      assert calls == init + [calls[|calls| - 1]];
      CrossingsSignalledOnce(f, init);
    }
  }

  // ----- the account and the pause, call by call -----

  function Change(call: Call): int {
    match call
    case Send(n) => n
    case Ack(n) => -(n as int)
    case Restarted => 0
  }

  /** Bytes sent less bytes acknowledged, over these calls. */
  function Balance(calls: seq<Call>): int {
    if calls == [] then 0 else Balance(calls[..|calls| - 1]) + Change(calls[|calls| - 1])
  }

  function TotalSent(calls: seq<Call>): nat {
    if calls == [] then 0
    else TotalSent(calls[..|calls| - 1]) + (if calls[|calls| - 1].Send? then calls[|calls| - 1].n else 0)
  }

  /** The calls from `from` on, none of them a restart. */
  predicate Unbroken(calls: seq<Call>, from: nat) {
    from <= |calls| && forall i :: from <= i < |calls| ==> calls[i] != Restarted
  }

  /** The balance of the calls from `from` on. */
  function Since(calls: seq<Call>, from: nat): int
    requires from <= |calls|
  {
    Balance(calls) - Balance(calls[..from])
  }

  /** `amount` is the largest balance since any point after the last restart. */
  ghost predicate Peak(calls: seq<Call>, amount: nat) {
    && (exists i: nat :: Unbroken(calls, i) && Since(calls, i) == amount)
    && (forall i: nat :: Unbroken(calls, i) ==> Since(calls, i) <= amount)
  }

  lemma Prefixes(calls: seq<Call>, last: Call)
    ensures (calls + [last])[..|calls|] == calls
    ensures forall i :: 0 <= i <= |calls| ==> (calls + [last])[..i] == calls[..i]
    ensures (calls + [last])[..|calls| + 1] == calls + [last]
  {
  }

  lemma SinceSnoc(calls: seq<Call>, last: Call)
    ensures Since(calls + [last], |calls| + 1) == 0 && Unbroken(calls + [last], |calls| + 1)
    ensures forall i: nat :: i <= |calls| ==>
              && Since(calls + [last], i) == Since(calls, i) + Change(last)
              && (Unbroken(calls + [last], i) <==> Unbroken(calls, i) && last != Restarted)
  {
    Prefixes(calls, last);
    var all := calls + [last];
    forall i: nat | i <= |calls|
      ensures Since(all, i) == Since(calls, i) + Change(last)
      ensures Unbroken(all, i) <==> Unbroken(calls, i) && last != Restarted
    {
      if Unbroken(all, i) {
        assert all[|calls|] == last;
        forall j | i <= j < |calls| ensures calls[j] != Restarted { assert all[j] == calls[j]; }
      }
    }
  }

  lemma UnbrokenWithin(calls: seq<Call>, i: nat)
    requires Unbroken(calls, i)
    ensures i <= |calls|
  {
  }

  lemma PeakSnoc(calls: seq<Call>, last: Call, amount: nat)
    requires Peak(calls, amount)
    ensures Peak(calls + [last], if last == Restarted || amount + Change(last) < 0 then 0 else amount + Change(last))
  {
    hide Since, Unbroken, Change;
    SinceSnoc(calls, last);
    var all := calls + [last];
    forall k: nat | Unbroken(calls, k) ensures k <= |calls| {
      UnbrokenWithin(calls, k);
    }
    var i: nat :| Unbroken(calls, i) && Since(calls, i) == amount;
    assert Unbroken(all, |calls| + 1);
    assert last != Restarted ==> Unbroken(all, i);
    forall k: nat | Unbroken(all, k)
      ensures k == |calls| + 1 || (k <= |calls| && Unbroken(calls, k) && last != Restarted)
    {
      UnbrokenWithin(all, k);
    }
  }

  lemma PeakOfNone()
    ensures Peak([], 0)
  {
    var none: seq<Call> := [];
    assert none[..0] == none;
    assert Unbroken(none, 0) && Since(none, 0) == 0;
  }

  /** The account after any calls, stale and excessive acknowledgements included, is the
      largest balance of the calls since any point after the last restart. */
  lemma {:induction false} PendingExact(high: nat, low: nat, calls: seq<Call>)
    requires TotalSent(calls) <= USIZE_MAX
    ensures Peak(calls, ApplyAll(Account(high, low, 0, false), calls).pending)
    ensures ApplyAll(Account(high, low, 0, false), calls).pending <= TotalSent(calls)
  {
    hide Peak;
    if calls == [] {
      PeakOfNone();
    } else {
      var init, last := calls[..|calls| - 1], calls[|calls| - 1];
      assert calls == init + [last];
      PendingExact(high, low, init);
      PeakSnoc(init, last, ApplyAll(Account(high, low, 0, false), init).pending);
    }
  }

  /** With no restart, and as long as nobody acknowledges more than was sent, the account is the
      bytes sent less the bytes acknowledged. */
  lemma PendingIsBalance(high: nat, low: nat, calls: seq<Call>)
    requires TotalSent(calls) <= USIZE_MAX && Restarted !in calls
    requires forall i :: 0 <= i <= |calls| ==> Balance(calls[..i]) >= 0
    ensures ApplyAll(Account(high, low, 0, false), calls).pending == Balance(calls)
  {
    PendingExact(high, low, calls);
    var pending := ApplyAll(Account(high, low, 0, false), calls).pending;
    var i: nat :| Unbroken(calls, i) && Since(calls, i) == pending;
    assert Balance(calls[..i]) >= 0;
    assert calls[..0] == [] && Unbroken(calls, 0);
    assert Since(calls, 0) == Balance(calls);
  }

  /** Call `j` is a restart or an acknowledgement that leaves at most `low` bytes pending. */
  predicate Releases(f: Account, calls: seq<Call>, j: nat)
    requires j < |calls|
  {
    calls[j] == Restarted || (calls[j].Ack? && ApplyAll(f, calls[..j + 1]).pending <= f.low)
  }

  /** After the send that is call `i` there were at least `high` bytes pending, and nothing
      since has brought them down to `low`. */
  predicate HeldSince(f: Account, calls: seq<Call>, i: nat) {
    && i < |calls| && calls[i].Send? && ApplyAll(f, calls[..i + 1]).pending >= f.high
    && forall j :: i < j < |calls| ==> !Releases(f, calls, j)
  }

  lemma HeldSnoc(f: Account, calls: seq<Call>, last: Call)
    ensures var pending := ApplyAll(f, calls + [last]).pending;
            var released := last == Restarted || (last.Ack? && pending <= f.low);
            && (forall i: nat :: i < |calls| ==>
                  (HeldSince(f, calls + [last], i) <==> HeldSince(f, calls, i) && !released))
            && (HeldSince(f, calls + [last], |calls|) <==> last.Send? && pending >= f.high)
  {
    hide ApplyAll;
    Prefixes(calls, last);
    var all := calls + [last];
    forall j: nat | j < |calls| ensures Releases(f, all, j) <==> Releases(f, calls, j) {
      assert all[j] == calls[j] && all[..j + 1] == calls[..j + 1];
    }
    assert Releases(f, all, |calls|) <==> last == Restarted || (last.Ack? && ApplyAll(f, all).pending <= f.low);
    forall i: nat | i < |calls| ensures all[i] == calls[i] && all[..i + 1] == calls[..i + 1] {}
  }

  lemma HeldIsWithin(f: Account, calls: seq<Call>)
    ensures forall i: nat :: HeldSince(f, calls, i) ==> i < |calls|
  {
  }

  /** Paused means exactly that: between the marks it is the last crossing that decides. */
  lemma {:induction false} PausedExact(f: Account, calls: seq<Call>)
    requires !f.paused
    ensures ApplyAll(f, calls).paused <==> exists i: nat :: HeldSince(f, calls, i)
    ensures ApplyAll(f, calls).high == f.high && ApplyAll(f, calls).low == f.low
  {
    if calls != [] {
      var n := |calls| - 1;
      var init, last := calls[..n], calls[n];
      PausedExact(f, init);
      assert calls == init + [last];
      HeldSnoc(f, init, last);
      HeldIsWithin(f, calls);
      HeldIsWithin(f, init);
      hide HeldSince;
      if i: nat :| HeldSince(f, init, i) {
        assert HeldSince(f, calls, i) || last == Restarted || (last.Ack? && ApplyAll(f, calls).pending <= f.low);
      }
    }
  }

  /** What each call tells the reader: a send pauses it exactly when it was running and the
      high mark is reached, an acknowledgement resumes it exactly when it was paused and the
      low mark is reached, and nothing else is ever said. */
  lemma SignalExact(f: Account, calls: seq<Call>, call: Call)
    requires !f.paused
    ensures var held := exists i: nat :: HeldSince(f, calls, i);
            var pending := ApplyAll(f, calls + [call]).pending;
            var action := Apply(ApplyAll(f, calls), call).action;
            && (action == Pause <==> call.Send? && !held && pending >= f.high)
            && (action == Resume <==> call.Ack? && held && pending <= f.low)
  {
    PausedExact(f, calls);
    assert (calls + [call])[..|calls|] == calls;
  }
}
