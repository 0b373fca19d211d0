/** Counting authentication failures per address (ratelimit.rs). The limiter keeps a pruned list
    of failure times and one deadline; its contracts speak of the full, unpruned history. */
module RateLimiter {
  import opened Bytes

  const WINDOW: nat := 60_000
  const MAX_FAILURES: nat := 10

  datatype Entry = Entry(failures: seq<nat>, blockedUntil: Option<nat>, lastSeen: nat)

  // ----- the full history -----

  datatype Happened = Checked(ip: nat, at: nat) | Failed(ip: nat, at: nat) | Evicted(ip: nat)

  /** The failures of an address since it was last evicted, oldest first. */
  function FailuresOf(log: seq<Happened>, ip: nat): seq<nat> {
    if log == [] then []
    else
      var before, last := FailuresOf(log[..|log| - 1], ip), log[|log| - 1];
      if last.ip != ip then before
      else match last
        case Checked(_, _) => before
        case Failed(_, at) => before + [at]
        case Evicted(_) => []
  }

  /** When an address last asked for anything. */
  function LastSeen(log: seq<Happened>, ip: nat): Option<nat> {
    if log == [] then None
    else
      var last := log[|log| - 1];
      if last.ip == ip && !last.Evicted? then Some(last.at) else LastSeen(log[..|log| - 1], ip)
  }

  /** The times less than a window before `now`. */
  function Recent(times: seq<nat>, now: nat): seq<nat> {
    if times == [] then []
    else (if SatSub(now, times[0]) < WINDOW then [times[0]] else []) + Recent(times[1..], now)
  }

  function Last(times: seq<nat>): nat
    requires times != []
  {
    times[|times| - 1]
  }

  predicate Ascending(times: seq<nat>) { forall i, j :: 0 <= i < j < |times| ==> times[i] <= times[j] }

  /** The failure at k is one too many: more than ten in the window that ends with it. */
  predicate TooMany(times: seq<nat>, k: nat)
    requires k < |times|
  {
    |Recent(times[..k + 1], times[k])| > MAX_FAILURES
  }

  /** The time of the latest failure that was one too many. */
  function LastTooMany(times: seq<nat>): Option<nat> {
    if times == [] then None
    else if |Recent(times, Last(times))| > MAX_FAILURES then Some(Last(times))
    else LastTooMany(times[..|times| - 1])
  }

  /** Whether an address with these failures is shut out at `now`. */
  predicate ShutOut(times: seq<nat>, now: nat) {
    LastTooMany(times).Some? && now < LastTooMany(times).value + WINDOW
  }

  /** The failures before the last one are judged alike with and without it. */
  lemma FrontTooMany(times: seq<nat>, k: nat)
    requires k + 1 < |times|
    ensures TooMany(times, k) == TooMany(times[..|times| - 1], k)
  {
    hide Recent;
    assert times[..k + 1] == times[..|times| - 1][..k + 1];
  }

  /** The latest failure that was one too many is one, and none that was is later. */
  lemma {:induction false} LatestIsLatest(times: seq<nat>)
    requires Ascending(times)
    ensures LastTooMany(times).Some? ==> exists k :: 0 <= k < |times| && TooMany(times, k) && times[k] == LastTooMany(times).value
    ensures forall k :: 0 <= k < |times| && TooMany(times, k) ==>
              LastTooMany(times).Some? && times[k] <= LastTooMany(times).value
  {
    hide Recent;
    if times != [] {
      var n := |times| - 1;
      var front := times[..n];
      assert times[..n + 1] == times;
      LatestIsLatest(front);
      forall k | 0 <= k < n ensures TooMany(times, k) == TooMany(front, k) {
        FrontTooMany(times, k);
      }
      if TooMany(times, n) {
        assert LastTooMany(times) == Some(times[n]);
      } else if LastTooMany(times).Some? {
        var k :| 0 <= k < n && TooMany(front, k) && front[k] == LastTooMany(front).value;
        assert TooMany(times, k) && times[k] == LastTooMany(times).value;
      }
    }
  }

  /** Shut out means: some failure less than a window ago was one too many. */
  lemma ShutOutMeaning(times: seq<nat>, now: nat)
    requires Ascending(times)
    ensures ShutOut(times, now) <==> exists k :: 0 <= k < |times| && TooMany(times, k) && now < times[k] + WINDOW
  {
    hide Recent, TooMany, LastTooMany;
    LatestIsLatest(times);
  }

  /** The failure at k is the last of eleven within less than a window. */
  predicate EndsEleven(times: seq<nat>, k: nat)
    requires k < |times|
  {
    k >= MAX_FAILURES && times[k] < times[k - MAX_FAILURES] + WINDOW
  }

  lemma {:induction false} AllRecent(times: seq<nat>, now: nat)
    requires Ascending(times) && (times != [] ==> SatSub(now, times[0]) < WINDOW)
    ensures Recent(times, now) == times
  {
    if times != [] {
      AllRecent(times[1..], now);
      assert [times[0]] + times[1..] == times;
    }
  }

  /** Of ascending times, the recent ones are those from some point on. */
  lemma {:induction false} RecentSuffix(times: seq<nat>, now: nat) returns (from: nat)
    requires Ascending(times)
    ensures from <= |times| && Recent(times, now) == times[from..]
    ensures from < |times| ==> SatSub(now, times[from]) < WINDOW
    ensures from > 0 ==> SatSub(now, times[from - 1]) >= WINDOW
  {
    if times == [] || SatSub(now, times[0]) < WINDOW {
      AllRecent(times, now);
      from := 0;
    } else {
      var later := RecentSuffix(times[1..], now);
      from := later + 1;
      assert times[1..][later..] == times[from..];
    }
  }

  /** Eleven failures with less than a window between first and last shut an address out for
      a window after the last; and an address no eleven of whose failures are that close is
      never shut out. */
  lemma ElevenClose(times: seq<nat>, now: nat)
    requires Ascending(times)
    ensures ShutOut(times, now) <==>
              exists k :: 0 <= k < |times| && EndsEleven(times, k) && now < times[k] + WINDOW
  {
    hide Recent, LastTooMany;
    ShutOutMeaning(times, now);
    forall k | 0 <= k < |times| ensures TooMany(times, k) <==> EndsEleven(times, k) {
      var upTo := times[..k + 1];
      var from := RecentSuffix(upTo, times[k]);
      if k >= MAX_FAILURES {
        var eleventh := k - MAX_FAILURES;
        assert upTo[eleventh] == times[eleventh] <= times[k];
        assert from <= eleventh ==> upTo[from] <= upTo[eleventh];
        assert from > eleventh ==> upTo[eleventh] <= upTo[from - 1];
      }
    }
  }

  /** Pruning at an earlier time loses nothing that still counts later. */
  lemma {:induction false} PruneTwice(times: seq<nat>, early: nat, now: nat)
    requires early <= now
    ensures Recent(Recent(times, early), now) == Recent(times, now)
  {
    if times != [] {
      PruneTwice(times[1..], early, now);
      var kept := Recent(times, early);
      if SatSub(early, times[0]) < WINDOW {
        assert kept[0] == times[0] && kept[1..] == Recent(times[1..], early);
      } else {
        assert kept == Recent(times[1..], early);
      }
    }
  }

  lemma {:induction false} RecentSnoc(times: seq<nat>, at: nat, now: nat)
    ensures Recent(times + [at], now) == Recent(times, now) + (if SatSub(now, at) < WINDOW then [at] else [])
  {
    if times == [] {
      assert (times + [at])[1..] == [];
    } else {
      RecentSnoc(times[1..], at, now);
      assert (times + [at])[0] == times[0] && (times + [at])[1..] == times[1..] + [at];
      Assoc(if SatSub(now, times[0]) < WINDOW then [times[0]] else [], Recent(times[1..], now),
            if SatSub(now, at) < WINDOW then [at] else []);
    }
  }

  // ----- the limiter -----

  /** How an entry stands to the history of its address at a time not before its last failure. */
  ghost predicate Reflects(e: Entry, times: seq<nat>, seen: Option<nat>, clock: nat) {
    && times != [] && Ascending(times) && Last(times) <= clock
    && seen == Some(e.lastSeen) && e.lastSeen <= clock
    && e.failures == Recent(times, Last(times))
    && match e.blockedUntil
       case Some(until) => LastTooMany(times).Some? && until == LastTooMany(times).value + WINDOW
       case None => !ShutOut(times, clock)
  }

  ghost predicate TracksOne(entries: map<nat, Entry>, log: seq<Happened>, clock: nat, ip: nat) {
    if ip in entries then Reflects(entries[ip], FailuresOf(log, ip), LastSeen(log, ip), clock)
    else FailuresOf(log, ip) == []
  }

  /** The table tells of every address what the history says of it. */
  ghost predicate Tracks(entries: map<nat, Entry>, log: seq<Happened>, clock: nat) {
    forall ip: nat :: TracksOne(entries, log, clock, ip)
  }

  /** One more thing happened: only the address it names is affected. */
  lemma LogStep(log: seq<Happened>, h: Happened)
    ensures forall ip :: FailuresOf(log + [h], ip) ==
              if ip != h.ip then FailuresOf(log, ip)
              else match h
                case Checked(_, _) => FailuresOf(log, ip)
                case Failed(_, at) => FailuresOf(log, ip) + [at]
                case Evicted(_) => []
    ensures forall ip :: LastSeen(log + [h], ip) == if ip == h.ip && !h.Evicted? then Some(h.at) else LastSeen(log, ip)
  {
    assert (log + [h])[..|log + [h]| - 1] == log;
  }

  /** One thing happens to one address: the other entries keep telling the truth. */
  lemma TracksOn(entries: map<nat, Entry>, log: seq<Happened>, clock: nat, h: Happened, now: nat, entries': map<nat, Entry>)
    requires Tracks(entries, log, clock) && clock <= now
    requires entries' - {h.ip} == entries - {h.ip}
    requires TracksOne(entries', log + [h], now, h.ip)
    ensures Tracks(entries', log + [h], now)
  {
    hide FailuresOf, LastSeen, LastTooMany, Recent;
    LogStep(log, h);
    forall ip: nat ensures TracksOne(entries', log + [h], now, ip) {
      if ip != h.ip {
        assert TracksOne(entries, log, clock, ip);
        assert ip in entries' <==> ip in entries' - {h.ip};
        assert ip in entries <==> ip in entries - {h.ip};
        if ip in entries {
          assert entries'[ip] == (entries' - {h.ip})[ip] == (entries - {h.ip})[ip] == entries[ip];
        }
      }
    }
  }

  lemma NoFailures(now: nat)
    ensures Recent([], now) == [] && LastTooMany([]) == None
  {
  }

  lemma TracksAt(entries: map<nat, Entry>, log: seq<Happened>, clock: nat, ip: nat)
    requires Tracks(entries, log, clock)
    ensures TracksOne(entries, log, clock, ip)
  {
  }

  /** All these addresses were last seen no earlier than `ip`. */
  ghost predicate SeenNoEarlier(log: seq<Happened>, ip: nat, others: set<nat>) {
    LastSeen(log, ip).Some?
    && forall other :: other in others ==> LastSeen(log, other).Some? && LastSeen(log, ip).value <= LastSeen(log, other).value
  }

  lemma RecentFrom(times: seq<nat>, i: nat, now: nat)
    requires i < |times|
    ensures Recent(times[i..], now) ==
              (if SatSub(now, times[i]) < WINDOW then [times[i]] + Recent(times[i + 1..], now) else Recent(times[i + 1..], now))
  {
    assert times[i..][1..] == times[i + 1..];
  }

  lemma RecentNone(times: seq<nat>, now: nat)
    requires times == []
    ensures Recent(times, now) == []
  {
  }

  method Retain(times: seq<nat>, now: nat) returns (kept: seq<nat>)
    ensures kept == Recent(times, now)
  {
    hide Recent;
    kept := [];
    assert times[0..] == times;
    for i := 0 to |times|
      invariant kept + Recent(times[i..], now) == Recent(times, now)
    {
      RecentFrom(times, i, now);
      if SatSub(now, times[i]) < WINDOW {
        Assoc(kept, [times[i]], Recent(times[i + 1..], now));
        kept := kept + [times[i]];
      }
    }
    RecentNone(times[|times|..], now);
  }

  /** A failure at the end: what pruning to its window keeps, and whether it is one too many. */
  lemma Appended(times: seq<nat>, now: nat)
    requires Ascending(times) && (times != [] ==> Last(times) <= now)
    ensures Ascending(times + [now]) && Last(times + [now]) == now
    ensures times != [] ==> Recent(Recent(times, Last(times)), now) + [now] == Recent(times + [now], now)
    ensures times == [] ==> Recent(times + [now], now) == [now]
    ensures LastTooMany(times + [now]) ==
              if |Recent(times + [now], now)| > MAX_FAILURES then Some(now) else LastTooMany(times)
  {
    var all := times + [now];
    assert all[..|all| - 1] == times;
    RecentSnoc(times, now, now);
    if times != [] {
      PruneTwice(times, Last(times), now);
    }
  }

  class RateLimiter {
    const cap: nat
    var entries: map<nat, Entry>
    ghost var log: seq<Happened>
    ghost var clock: nat

    ghost predicate Valid()
      reads this
    {
      cap >= 1 && |entries| <= cap && Tracks(entries, log, clock)
    }

    constructor (requested: nat)
      ensures Valid() && log == [] && clock == 0 && cap == Max(requested, 1)
    {
      cap := Max(requested, 1);
      entries, log, clock := map[], [], 0;
    }

    /** `check`: refused exactly when the full history says shut out. An unknown address gets
        no entry. */
    method Check(ip: nat, now: nat) returns (allowed: bool)
      requires Valid() && clock <= now
      modifies this
      ensures Valid() && clock == now && log == old(log) + [Checked(ip, now)]
      ensures allowed <==> !ShutOut(FailuresOf(old(log), ip), now)
      ensures entries.Keys == old(entries.Keys)
    {
      hide FailuresOf, LastSeen, LastTooMany, Recent, Tracks;
      ghost var h := Checked(ip, now);
      TracksAt(entries, log, clock, ip);
      LogStep(log, h);
      if ip !in entries {
        NoFailures(now);
        TracksOn(entries, log, clock, h, now, entries);
        log, clock := log + [h], now;
        return true;
      }
      var entry := entries[ip].(lastSeen := now);
      if entry.blockedUntil.Some? {
        allowed := now >= entry.blockedUntil.value;
        if allowed {
          entry := entry.(blockedUntil := None);
        }
      } else {
        allowed := true;
      }
      TracksOn(entries, log, clock, h, now, entries[ip := entry]);
      entries, log, clock := entries[ip := entry], log + [h], now;
    }

    /** `make_room`: at the cap, one entry seen no later than any other goes. */
    method MakeRoom()
      requires Valid()
      modifies this
      ensures Valid() && clock == old(clock) && |entries| < cap
      ensures |old(entries)| < cap ==> entries == old(entries) && log == old(log)
      ensures |old(entries)| >= cap ==>
                exists ip :: ip in old(entries) && entries == old(entries) - {ip} && log == old(log) + [Evicted(ip)]
                          && SeenNoEarlier(old(log), ip, old(entries.Keys))
    {
      hide FailuresOf, LastSeen, LastTooMany, Recent, Tracks;
      if |entries| < cap {
        return;
      }
      assert entries.Keys != {};
      var victim := Oldest();
      forall ip | ip in entries ensures LastSeen(log, ip) == Some(entries[ip].lastSeen) {
        TracksAt(entries, log, clock, ip);
      }
      LogStep(log, Evicted(victim));
      TracksOn(entries, log, clock, Evicted(victim), clock, entries - {victim});
      assert entries.Keys == (entries - {victim}).Keys + {victim};
      entries, log := entries - {victim}, log + [Evicted(victim)];
    }

    method Oldest() returns (victim: nat)
      requires entries.Keys != {}
      ensures victim in entries && forall ip :: ip in entries ==> entries[victim].lastSeen <= entries[ip].lastSeen
    {
      var left := entries.Keys;
      victim :| victim in left;
      while left != {}
        invariant left <= entries.Keys && victim in entries
        invariant forall ip :: ip in entries && ip !in left ==> entries[victim].lastSeen <= entries[ip].lastSeen
        decreases left
      {
        var ip :| ip in left;
        left := left - {ip};
        if entries[ip].lastSeen < entries[victim].lastSeen {
          victim := ip;
        }
      }
    }

    /** `record_failure`: blocks exactly when the full history of the address, this failure
        included, holds more than ten in the window. An entry is given up only for an unknown
        address, and only when the table is full of addresses seen no earlier. */
    method RecordFailure(ip: nat, now: nat) returns (blocked: bool)
      requires Valid() && clock <= now
      modifies this
      ensures Valid() && clock == now && ip in entries && |entries| <= cap
      ensures FailuresOf(log, ip) == FailuresOf(old(log), ip) + [now]
      ensures blocked <==> |Recent(FailuresOf(log, ip), now)| > MAX_FAILURES
      ensures blocked ==> ShutOut(FailuresOf(log, ip), now)
      ensures log == old(log) + [Failed(ip, now)]
           || exists gone :: gone in old(entries) && log == old(log) + [Evicted(gone)] + [Failed(ip, now)]
                && ip !in old(entries) && |old(entries)| == cap && SeenNoEarlier(old(log), gone, old(entries.Keys))
    {
      hide FailuresOf, LastSeen, LastTooMany, Recent, Tracks, SeenNoEarlier;
      if ip !in entries {
        TracksAt(entries, log, clock, ip);
        MakeRoom();
      }
      NoFailures(now);
      TracksAt(entries, log, clock, ip);
      ghost var times, h := FailuresOf(log, ip), Failed(ip, now);
      var entry := if ip in entries then entries[ip] else Entry([], None, now);
      var kept := Retain(entry.failures, now);
      entry := entry.(lastSeen := now, failures := kept + [now]);
      blocked := |entry.failures| > MAX_FAILURES;
      if blocked {
        entry := entry.(blockedUntil := Some(now + WINDOW));
      }
      LogStep(log, h);
      Appended(times, now);
      TracksOn(entries, log, clock, h, now, entries[ip := entry]);
      entries, log, clock := entries[ip := entry], log + [h], now;
    }

    /** `failures_in_window`. */
    method FailuresInWindow(ip: nat, now: nat) returns (n: nat)
      requires Valid() && clock <= now
      ensures n == |Recent(FailuresOf(log, ip), now)|
    {
      TracksAt(entries, log, clock, ip);
      if ip !in entries {
        return 0;
      }
      var kept := Retain(entries[ip].failures, now);
      ghost var times := FailuresOf(log, ip);
      PruneTwice(times, Last(times), now);
      n := |kept|;
    }
  }
}
