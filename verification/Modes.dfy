/** The DEC private mode tracker of session.rs: the map folded from scanner events, the
    preamble printed from it, and exactly when preamble plus a replayed tail of the stream set
    a new terminal to the tracked modes, at once and through all later output. */
module Modes {
  import opened Bytes
  import opened Osc

  type ModeMap = map<U16, bool>

  const MAX_TRACKED_DEC_MODES := 64

  /** Transitions rather than settings; setting them again later would be wrong. */
  const UNTRACKED_DEC_MODES: set<U16> := {47, 1047, 1048, 1049, 2026}

  /** What DECSTR returns to defaults. */
  const SOFT_RESET_DEC_MODES: set<U16> := {1, 6, 7, 25, 45, 66, 1004, 2004}

  // ----- the tracker; `cap` is MAX_TRACKED_DEC_MODES in the program -----

  function Touch(modes: ModeMap, mode: U16, on: bool, cap: nat): ModeMap {
    if mode in UNTRACKED_DEC_MODES then modes
    else if mode !in modes && |modes| >= cap then modes
    else modes[mode := on]
  }

  function TouchAll(modes: ModeMap, touched: seq<U16>, on: bool, cap: nat): ModeMap
    decreases |touched|
  {
    if touched == [] then modes
    else TouchAll(Touch(modes, touched[0], on, cap), touched[1..], on, cap)
  }

  function ApplyModeEvent(modes: ModeMap, event: Event, cap: nat): ModeMap {
    match event
    case DecPrivateMode(touched, on) => TouchAll(modes, touched, on, cap)
    case TerminalReset(soft) => if soft then modes - SOFT_RESET_DEC_MODES else map[]
    case _ => modes
  }

  function ApplyAll(modes: ModeMap, events: seq<Event>, cap: nat): ModeMap
    decreases |events|
  {
    if events == [] then modes
    else ApplyAll(ApplyModeEvent(modes, events[0], cap), events[1..], cap)
  }

  /** The modes a terminal of the given capacity holds after showing `bytes` from new. */
  function TerminalModes(bytes: seq<Byte>, cap: nat): ModeMap {
    ApplyAll(map[], Run(INIT, bytes).events, cap)
  }

  // ----- the preamble -----

  lemma {:induction false} MinExists(s: set<U16>)
    requires s != {}
    ensures exists k :: k in s && forall j :: j in s ==> k <= j
    decreases s
  {
    var x: U16 :| x in s;
    var rest := s - {x};
    if rest == {} {
      assert s == {x};
    } else {
      MinExists(rest);
      var y: U16 :| y in rest && forall j :: j in rest ==> y <= j;
      var least := if x < y then x else y;
      assert least in s;
      forall j | j in s ensures least <= j {
        assert j == x || j in rest;
      }
    }
  }

  function MinKey(m: ModeMap): (k: U16)
    requires m != map[]
    ensures k in m && forall j :: j in m ==> k <= j
  {
    assert m.Keys != {};
    MinExists(m.Keys);
    var k :| k in m.Keys && forall j :: j in m.Keys ==> k <= j;
    k
  }

  function PreambleEntry(mode: U16, on: bool): seq<Byte> {
    [ESC, LBRACKET] + ([QUESTION] + Decimal(mode)) + [if on then 'h' as int else 'l' as int]
  }

  /** The map printed in ascending mode order, as a BTreeMap is walked. */
  function DecModePreamble(m: ModeMap): seq<Byte>
    decreases |m|
  {
    if m == map[] then []
    else
      var k := MinKey(m);
      PreambleEntry(k, m[k]) + DecModePreamble(m - {k})
  }

  lemma MinusOne(m: ModeMap, k: U16)
    requires k in m
    ensures |m - {k}| == |m| - 1
  {
    assert (m - {k}).Keys == m.Keys - {k};
  }

  lemma PreambleUnfold(m: ModeMap)
    ensures m == map[] ==> DecModePreamble(m) == []
    ensures m != map[] ==>
              var k := MinKey(m);
              && DecModePreamble(m) == PreambleEntry(k, m[k]) + DecModePreamble(m - {k})
              && |m - {k}| == |m| - 1
  {
    if m != map[] {
      MinusOne(m, MinKey(m));
    }
  }

  method PrintEntry(mode: U16, on: bool) returns (out: seq<Byte>)
    ensures out == PreambleEntry(mode, on)
  {
    out := [ESC, LBRACKET, QUESTION];
    out := out + Decimal(mode);
    out := out + [if on then 'h' as int else 'l' as int];
  }

  method PrintPreamble(modes: ModeMap) returns (out: seq<Byte>)
    ensures out == DecModePreamble(modes)
  {
    hide *;
    out := [];
    assert [] + DecModePreamble(modes) == DecModePreamble(modes);
    var rest := modes;
    while rest != map[]
      invariant out + DecModePreamble(rest) == DecModePreamble(modes)
      decreases |rest|
    {
      var mode := MinKey(rest);
      var entry := PrintEntry(mode, rest[mode]);
      PreambleUnfold(rest);
      Assoc(out, entry, DecModePreamble(rest - {mode}));
      out, rest := out + entry, rest - {mode};
    }
    PreambleUnfold(rest);
    assert out + [] == out;
  }

  function PreambleEvents(m: ModeMap): seq<Event>
    decreases |m|
  {
    if m == map[] then []
    else
      var k := MinKey(m);
      [DecPrivateMode([k], m[k])] + PreambleEvents(m - {k})
  }

  lemma EntryParses(mode: U16, on: bool)
    ensures Run(INIT, PreambleEntry(mode, on)) == Outcome(INIT, [DecPrivateMode([mode], on)])
  {
    var digits := Decimal(mode);
    DecimalRoundTrip(mode);
    DecimalLength(mode, 5, 100000) by {
      assert Pow10(5) == 10 * Pow10(4) == 100 * Pow10(3) == 1000 * Pow10(2) == 10000 * Pow10(1);
    }
    SplitSingle(digits, SEMI);
    assert ParseModes([digits]) == Some([mode]) by {
      var parts: seq<seq<Byte>> := [digits];
      assert parts[1..] == [];
      assert [mode] + [] == [mode];
    }
    var params := [QUESTION] + digits;
    assert params[1..] == digits;
    CsiRecognised(INIT, params, if on then 'h' as int else 'l' as int);
  }

  /** Printer and parser are inverse: scanning the preamble yields one event per tracked
      mode, in ascending order, and leaves the scanner idle. */
  lemma {:induction false} PreambleScans(m: ModeMap)
    ensures Run(INIT, DecModePreamble(m)) == Outcome(INIT, PreambleEvents(m))
    decreases |m|
  {
    if m != map[] {
      var k := MinKey(m);
      EntryParses(k, m[k]);
      PreambleScans(m - {k});
      ChunkIndependence(INIT, PreambleEntry(k, m[k]), DecModePreamble(m - {k}));
    }
  }

  /** An event of the preamble: one mode of the map with its setting. */
  predicate EntryOf(m: ModeMap, e: Event) {
    e.DecPrivateMode? && |e.modes| == 1 && e.modes[0] in m && e.on == m[e.modes[0]]
  }

  /** Every event is an entry, the modes rise. */
  predicate Rising(m: ModeMap, events: seq<Event>) {
    && (forall i :: 0 <= i < |events| ==> EntryOf(m, events[i]))
    && forall i, j :: 0 <= i < j < |events| && EntryOf(m, events[i]) && EntryOf(m, events[j]) ==>
         events[i].modes[0] < events[j].modes[0]
  }

  lemma EntryAbove(m: ModeMap, e: Event)
    requires m != map[] && EntryOf(m - {MinKey(m)}, e)
    ensures EntryOf(m, e) && MinKey(m) < e.modes[0]
  {
  }

  lemma EntryAtKey(m: ModeMap, k: U16)
    requires k in m
    ensures EntryOf(m, DecPrivateMode([k], m[k]))
  {
  }

  lemma EntryHasMode(m: ModeMap, e: Event)
    requires EntryOf(m, e)
    ensures e.DecPrivateMode? && |e.modes| == 1
  {
  }

  lemma RisingCons(m: ModeMap, later: seq<Event>)
    requires m != map[] && Rising(m - {MinKey(m)}, later)
    ensures Rising(m, [DecPrivateMode([MinKey(m)], m[MinKey(m)])] + later)
  {
    hide EntryOf;
    var k := MinKey(m);
    var first := DecPrivateMode([k], m[k]);
    var events := [first] + later;
    assert EntryOf(m, first) by { EntryAtKey(m, k); }
    forall i | 0 <= i < |later| ensures EntryOf(m, later[i]) && later[i].DecPrivateMode? && |later[i].modes| == 1 && k < later[i].modes[0] {
      EntryAbove(m, later[i]);
      EntryHasMode(m, later[i]);
    }
  }

  lemma RisingNone(m: ModeMap)
    ensures Rising(m, [])
  {
  }

  /** These events are the map: every mode once, and the lower ones first. */
  lemma {:induction false} PreambleLists(m: ModeMap)
    ensures Rising(m, PreambleEvents(m)) && |PreambleEvents(m)| == |m|
    ensures forall k :: k in m ==> DecPrivateMode([k], m[k]) in PreambleEvents(m)
    decreases |m|
  {
    hide Rising;
    if m == map[] {
      RisingNone(m);
    } else {
      var k := MinKey(m);
      var rest := m - {k};
      MinusOne(m, k);
      PreambleLists(rest);
      RisingCons(m, PreambleEvents(rest));
      forall j | j in m ensures DecPrivateMode([j], m[j]) in PreambleEvents(m) {
        if j != k {
          assert j in rest && DecPrivateMode([j], rest[j]) in PreambleEvents(rest);
        }
      }
    }
  }

  lemma {:induction false} FullStays(m: ModeMap, touched: seq<U16>, on: bool, cap: nat)
    ensures |m| == cap ==> TouchAll(m, touched, on, cap).Keys == m.Keys && |TouchAll(m, touched, on, cap)| == cap
    decreases |touched|
  {
    if touched != [] && |m| == cap {
      var next := Touch(m, touched[0], on, cap);
      assert next.Keys == m.Keys;
      assert |next| == |next.Keys|;
      FullStays(next, touched[1..], on, cap);
    }
  }

  /** What setting or resetting modes does to each mode: a tracked one it names takes the setting,
      unless it is new and the map is full; every other keeps what it had. */
  lemma {:induction false} TouchExactly(m: ModeMap, touched: seq<U16>, on: bool, cap: nat, mode: U16)
    requires |m| <= cap
    ensures var t := TouchAll(m, touched, on, cap);
            && m.Keys <= t.Keys && |t| <= cap
            && (if mode in touched && mode !in UNTRACKED_DEC_MODES
                then (mode in m ==> t[mode] == on) && (if mode in t then t[mode] == on else |t| == cap)
                else (mode in t <==> mode in m) && (mode in m ==> t[mode] == m[mode]))
    decreases |touched|
  {
    if touched != [] {
      var next := Touch(m, touched[0], on, cap);
      assert touched == [touched[0]] + touched[1..];
      assert next.Keys == m.Keys || next.Keys == m.Keys + {touched[0]};
      assert |next| == |next.Keys|;
      TouchExactly(next, touched[1..], on, cap, mode);
      FullStays(next, touched[1..], on, cap);
    }
  }

  lemma MoveOver(base: ModeMap, m: ModeMap, k: U16)
    requires k in m
    ensures base[k := m[k]] + (m - {k}) == base + m
  {
    var a, b := base[k := m[k]] + (m - {k}), base + m;
    assert a.Keys == b.Keys;
    forall j | j in b ensures a[j] == b[j] {
      if j in m - {k} { assert j in m; } else if j != k { assert j !in m; }
    }
  }

  lemma AddsOne(base: ModeMap, k: U16, on: bool, cap: nat)
    requires k !in base && k !in UNTRACKED_DEC_MODES && |base| < cap
    ensures ApplyModeEvent(base, DecPrivateMode([k], on), cap) == base[k := on]
  {
    var one: seq<U16> := [k];
    assert one[1..] == [];
    assert TouchAll(base, one, on, cap) == TouchAll(base[k := on], [], on, cap);
  }

  /** Applying the preamble's events to disjoint modes adds exactly the map. */
  lemma {:induction false} PreambleAdds(base: ModeMap, m: ModeMap, cap: nat)
    requires base.Keys !! m.Keys && |base| + |m| <= cap
    requires m.Keys !! UNTRACKED_DEC_MODES
    ensures ApplyAll(base, PreambleEvents(m), cap) == base + m
    decreases |m|
  {
    hide MinKey, ApplyModeEvent;
    if m == map[] {
      assert base + m == base;
    } else {
      var k := MinKey(m);
      var next, rest := base[k := m[k]], m - {k};
      var event := DecPrivateMode([k], m[k]);
      var events := PreambleEvents(m);
      assert events[0] == event && events[1..] == PreambleEvents(rest);
      AddsOne(base, k, m[k], cap);
      assert ApplyAll(base, events, cap) == ApplyAll(next, events[1..], cap);
      MinusOne(m, k);
      assert |next| == |base| + 1;
      PreambleAdds(next, rest, cap);
      MoveOver(base, m, k);
    }
  }

  // ----- the fold as elementary operations -----

  datatype Op = Put(mode: U16, on: bool) | Wipe(soft: bool)

  function Puts(touched: seq<U16>, on: bool): seq<Op> {
    if touched == [] then []
    else (if touched[0] in UNTRACKED_DEC_MODES then [] else [Put(touched[0], on)]) + Puts(touched[1..], on)
  }

  function OpsOf(event: Event): seq<Op> {
    match event
    case DecPrivateMode(touched, on) => Puts(touched, on)
    case TerminalReset(soft) => [Wipe(soft)]
    case _ => []
  }

  function Ops(events: seq<Event>): seq<Op> {
    if events == [] then [] else OpsOf(events[0]) + Ops(events[1..])
  }

  predicate Wipes(op: Op, mode: U16) {
    op.Wipe? && (op.soft ==> mode in SOFT_RESET_DEC_MODES)
  }

  function Do(m: ModeMap, op: Op, cap: nat): ModeMap {
    match op
    case Put(mode, on) => if mode in m || |m| < cap then m[mode := on] else m
    case Wipe(soft) => if soft then m - SOFT_RESET_DEC_MODES else map[]
  }

  function DoAll(m: ModeMap, ops: seq<Op>, cap: nat): ModeMap
    decreases |ops|
  {
    if ops == [] then m else DoAll(Do(m, ops[0], cap), ops[1..], cap)
  }

  lemma {:induction false} DoAppend(m: ModeMap, a: seq<Op>, b: seq<Op>, cap: nat)
    ensures DoAll(m, a + b, cap) == DoAll(DoAll(m, a, cap), b, cap)
    decreases |a|
  {
    if a == [] {
      assert a + b == b;
    } else {
      DoAppend(Do(m, a[0], cap), a[1..], b, cap);
      assert (a + b)[1..] == a[1..] + b;
    }
  }

  lemma {:induction false} PutsApply(m: ModeMap, touched: seq<U16>, on: bool, cap: nat)
    ensures TouchAll(m, touched, on, cap) == DoAll(m, Puts(touched, on), cap)
    decreases |touched|
  {
    if touched != [] {
      var next := Touch(m, touched[0], on, cap);
      PutsApply(next, touched[1..], on, cap);
      if touched[0] in UNTRACKED_DEC_MODES {
        assert Puts(touched, on) == Puts(touched[1..], on);
      } else {
        assert Puts(touched, on)[1..] == Puts(touched[1..], on);
      }
    }
  }

  lemma {:induction false} OpsApply(m: ModeMap, events: seq<Event>, cap: nat)
    ensures ApplyAll(m, events, cap) == DoAll(m, Ops(events), cap)
    decreases |events|
  {
    if events != [] {
      var next := ApplyModeEvent(m, events[0], cap);
      OpsApply(next, events[1..], cap);
      DoAppend(m, OpsOf(events[0]), Ops(events[1..]), cap);
      match events[0]
      case DecPrivateMode(touched, on) => PutsApply(m, touched, on, cap);
      case TerminalReset(soft) => assert OpsOf(events[0])[1..] == [];
      case _ =>
    }
  }

  lemma {:induction false} ApplyAppend(m: ModeMap, a: seq<Event>, b: seq<Event>, cap: nat)
    ensures ApplyAll(m, a + b, cap) == ApplyAll(ApplyAll(m, a, cap), b, cap)
    decreases |a|
  {
    if a == [] {
      assert a + b == b;
    } else {
      ApplyAppend(ApplyModeEvent(m, a[0], cap), a[1..], b, cap);
      assert (a + b)[1..] == a[1..] + b;
    }
  }

  /** The cap turned no mode away while these operations were applied. */
  predicate NoDrop(m: ModeMap, ops: seq<Op>, cap: nat)
    decreases |ops|
  {
    ops != [] ==>
      && (ops[0].Put? ==> ops[0].mode in m || |m| < cap)
      && NoDrop(Do(m, ops[0], cap), ops[1..], cap)
  }

  // ----- what the map means: the last operation on a mode decides it -----

  predicate Decides(op: Op, mode: U16) {
    (op.Put? && op.mode == mode) || Wipes(op, mode)
  }

  /** The setting the last deciding operation leaves, or `before` when none decides. */
  function LastSetting(ops: seq<Op>, mode: U16, before: Option<bool>): Option<bool> {
    if ops == [] then before
    else
      var op := ops[|ops| - 1];
      if Decides(op, mode) then (if op.Put? then Some(op.on) else None)
      else LastSetting(ops[..|ops| - 1], mode, before)
  }

  function Lookup(m: ModeMap, mode: U16): Option<bool> {
    if mode in m then Some(m[mode]) else None
  }

  lemma {:induction false} NoDropAppend(m: ModeMap, a: seq<Op>, b: seq<Op>, cap: nat)
    ensures NoDrop(m, a + b, cap) == (NoDrop(m, a, cap) && NoDrop(DoAll(m, a, cap), b, cap))
    decreases |a|
  {
    if a == [] {
      assert a + b == b;
    } else {
      NoDropAppend(Do(m, a[0], cap), a[1..], b, cap);
      assert (a + b)[1..] == a[1..] + b;
    }
  }

  /** As long as the cap turned nothing away, the tracked map says of every mode exactly
      what the last operation on it said. */
  lemma {:induction false} MapMeaning(m: ModeMap, ops: seq<Op>, cap: nat, mode: U16)
    requires NoDrop(m, ops, cap)
    ensures Lookup(DoAll(m, ops, cap), mode) == LastSetting(ops, mode, Lookup(m, mode))
    decreases |ops|
  {
    if ops != [] {
      var init, last := ops[..|ops| - 1], ops[|ops| - 1];
      assert ops == init + [last];
      DoAppend(m, init, [last], cap);
      NoDropAppend(m, init, [last], cap);
      MapMeaning(m, init, cap, mode);
      assert [last][1..] == [];
      assert DoAll(DoAll(m, init, cap), [last], cap) == Do(DoAll(m, init, cap), last, cap);
    }
  }

  // ----- when replaying the tail over the final map changes nothing -----

  predicate DecidedBy(ops: seq<Op>, mode: U16) {
    exists i :: 0 <= i < |ops| && Decides(ops[i], mode)
  }

  lemma {:induction false} UndecidedKept(m: ModeMap, ops: seq<Op>, cap: nat, mode: U16)
    requires !DecidedBy(ops, mode)
    ensures Lookup(DoAll(m, ops, cap), mode) == Lookup(m, mode)
    decreases |ops|
  {
    if ops != [] {
      assert Decides(ops[0], mode) ==> DecidedBy(ops, mode);
      assert forall i :: 0 <= i < |ops[1..]| ==> ops[1..][i] == ops[i + 1];
      UndecidedKept(Do(m, ops[0], cap), ops[1..], cap, mode);
    }
  }

  /** A mode that no remaining operation wipes stays in the map. */
  lemma {:induction false} UnwipedStays(m: ModeMap, ops: seq<Op>, cap: nat, mode: U16)
    requires mode in m && forall i :: 0 <= i < |ops| ==> !Wipes(ops[i], mode)
    ensures mode in DoAll(m, ops, cap)
    decreases |ops|
  {
    if ops != [] {
      assert forall i :: 0 <= i < |ops[1..]| ==> ops[1..][i] == ops[i + 1];
      UnwipedStays(Do(m, ops[0], cap), ops[1..], cap, mode);
    }
  }

  lemma {:induction false} SubsetSize(a: set<U16>, b: set<U16>)
    requires a <= b
    ensures |a| <= |b|
    decreases a
  {
    if a != {} {
      var x :| x in a;
      SubsetSize(a - {x}, b - {x});
    }
  }

  lemma SmallerMap(r: ModeMap, m: ModeMap, k: U16)
    requires r.Keys <= m.Keys && k in m && k !in r
    ensures |r| < |m|
  {
    assert |r| == |r.Keys| && |m| == |m.Keys|;
    assert r.Keys <= m.Keys - {k};
    SubsetSize(r.Keys, m.Keys - {k});
  }

  lemma {:induction false} CapRespected(m: ModeMap, ops: seq<Op>, cap: nat)
    requires |m| <= cap
    ensures |DoAll(m, ops, cap)| <= cap
    decreases |ops|
  {
    if ops != [] {
      var next := Do(m, ops[0], cap);
      if ops[0].Wipe? {
        assert next.Keys <= m.Keys;
        SubsetSize(next.Keys, m.Keys);
        assert |next| == |next.Keys| && |m| == |m.Keys|;
      }
      CapRespected(next, ops[1..], cap);
    }
  }

  /** Some of these operations takes the mode out. */
  predicate WipedBy(ops: seq<Op>, mode: U16) {
    exists i :: 0 <= i < |ops| && Wipes(ops[i], mode)
  }

  lemma WipedByTail(ops: seq<Op>, mode: U16)
    requires ops != []
    ensures WipedBy(ops, mode) <==> Wipes(ops[0], mode) || WipedBy(ops[1..], mode)
  {
    hide Wipes;
    assert forall i :: 0 <= i < |ops[1..]| ==> ops[1..][i] == ops[i + 1];
    if WipedBy(ops, mode) {
      var i :| 0 <= i < |ops| && Wipes(ops[i], mode);
      assert i > 0 ==> ops[1..][i - 1] == ops[i];
    }
  }

  lemma DecidedByTail(ops: seq<Op>, mode: U16)
    requires ops != []
    ensures DecidedBy(ops, mode) <==> Decides(ops[0], mode) || DecidedBy(ops[1..], mode)
  {
    hide Decides;
    assert forall i :: 0 <= i < |ops[1..]| ==> ops[1..][i] == ops[i + 1];
    if DecidedBy(ops, mode) {
      var i :| 0 <= i < |ops| && Decides(ops[i], mode);
      assert i > 0 ==> ops[1..][i - 1] == ops[i];
    }
  }

  /** The next operation puts a mode that `m` does not hold and that nothing later takes out:
      if there is room for it, it stays. */
  predicate LastingOutside(m: ModeMap, ops: seq<Op>) {
    ops != [] && ops[0].Put? && ops[0].mode !in m && !WipedBy(ops[1..], ops[0].mode)
  }

  /** Replaying the operations over `r`, each put that would stay outside `m` meets a map
      that is full: the guard by which the tracker turns a mode away holds there again. */
  predicate MeetsFull(r: ModeMap, m: ModeMap, ops: seq<Op>, cap: nat)
    decreases |ops|
  {
    ops != [] ==>
      && (LastingOutside(m, ops) ==> |r| >= cap)
      && MeetsFull(Do(r, ops[0], cap), m, ops[1..], cap)
  }

  /** A replay that lands in `m` has turned away every put that would have stayed outside. */
  lemma {:induction false} LandingMeetsFull(r: ModeMap, m: ModeMap, ops: seq<Op>, cap: nat)
    requires DoAll(r, ops, cap) == m
    ensures MeetsFull(r, m, ops, cap)
    decreases |ops|
  {
    if ops != [] {
      var next := Do(r, ops[0], cap);
      if LastingOutside(m, ops) && |r| < cap {
        var k := ops[0].mode;
        assert forall i :: 0 <= i < |ops[1..]| ==> !Wipes(ops[1..][i], k);
        UnwipedStays(next, ops[1..], cap, k);
        assert false;
      }
      LandingMeetsFull(next, m, ops[1..], cap);
    }
  }

  /** What a replay holds outside `m` will be taken out again. */
  ghost predicate Transient(r: ModeMap, m: ModeMap, ops: seq<Op>) {
    forall k :: k in r && k !in m ==> WipedBy(ops, k)
  }

  lemma TransientStep(r: ModeMap, m: ModeMap, ops: seq<Op>, cap: nat)
    requires ops != [] && Transient(r, m, ops) && MeetsFull(r, m, ops, cap)
    ensures Transient(Do(r, ops[0], cap), m, ops[1..])
  {
    hide WipedBy;
    forall k | k in Do(r, ops[0], cap) && k !in m ensures WipedBy(ops[1..], k) {
      WipedByTail(ops, k);
    }
  }

  /** From a common start, the map of the larger capacity stays ahead: it holds all the other
      holds, with the same settings, and has no less room left. */
  ghost predicate Ahead(o: ModeMap, r: ModeMap, cap: nat, cap': nat) {
    cap <= cap' && (forall k :: k in o ==> k in r && r[k] == o[k]) && |r| + cap <= |o| + cap'
  }

  lemma AheadWipe(o: ModeMap, r: ModeMap, gone: set<U16>, cap: nat, cap': nat)
    requires Ahead(o, r, cap, cap')
    ensures Ahead(o - gone, r - gone, cap, cap')
  {
    var a, b := o.Keys, r.Keys;
    assert a <= b && |o| == |a| && |r| == |b|;
    assert (o - gone).Keys == a - gone && (r - gone).Keys == b - gone;
    SubsetSize(a * gone, b * gone);
    assert |a - gone| == |a| - |a * gone| && |b - gone| == |b| - |b * gone|;
    assert |o - gone| == |(o - gone).Keys| && |r - gone| == |(r - gone).Keys|;
  }

  lemma AheadStep(o: ModeMap, r: ModeMap, op: Op, cap: nat, cap': nat)
    requires Ahead(o, r, cap, cap')
    ensures Ahead(Do(o, op, cap), Do(r, op, cap'), cap, cap')
  {
    if op.Wipe? {
      AheadWipe(o, r, SOFT_RESET_DEC_MODES, cap, cap');
    }
  }

  lemma {:induction false} AheadLands(o: ModeMap, r: ModeMap, m: ModeMap, ops: seq<Op>, cap: nat, cap': nat)
    requires Ahead(o, r, cap, cap') && m == DoAll(o, ops, cap)
    requires Transient(r, m, ops) && MeetsFull(r, m, ops, cap')
    ensures DoAll(r, ops, cap') == m
    decreases |ops|
  {
    if ops == [] {
      assert forall k :: k in r ==> k in m;
      assert r.Keys == m.Keys;
    } else {
      hide Do, Transient, Ahead;
      AheadStep(o, r, ops[0], cap, cap');
      TransientStep(r, m, ops, cap');
      AheadLands(Do(o, ops[0], cap), Do(r, ops[0], cap'), m, ops[1..], cap, cap');
    }
  }

  /** Before any hard reset: the replay holds all of `m` that no soft reset takes, and says of
      every mode of `m` already past its last operation what `m` says. */
  ghost predicate Holding(r: ModeMap, m: ModeMap, ops: seq<Op>) {
    && (forall k :: k in m && k !in SOFT_RESET_DEC_MODES ==> k in r)
    && (forall k :: k in m && !DecidedBy(ops, k) ==> k in r && r[k] == m[k])
  }

  /** Whatever takes any mode out takes out every mode a soft reset clears. */
  lemma WipesDecide(ops: seq<Op>, wiped: U16, soft: U16)
    requires WipedBy(ops, wiped) && soft in SOFT_RESET_DEC_MODES
    ensures DecidedBy(ops, soft)
  {
    var i :| 0 <= i < |ops| && Wipes(ops[i], wiped);
    assert Decides(ops[i], soft);
  }

  /** A put that settles a mode of `m` is never turned away in the replay. */
  lemma SettlingPutAdmitted(r: ModeMap, m: ModeMap, ops: seq<Op>, cap: nat)
    requires ops != [] && ops[0].Put? && |m| <= cap
    requires Holding(r, m, ops) && Transient(r, m, ops)
    requires ops[0].mode in m && !DecidedBy(ops[1..], ops[0].mode)
    ensures ops[0].mode in r || |r| < cap
  {
    var k := ops[0].mode;
    if k !in r {
      assert k in SOFT_RESET_DEC_MODES;
      forall j | j in r ensures j in m {
        if j !in m {
          WipedByTail(ops, j);
          WipesDecide(ops[1..], j, k);
        }
      }
      SmallerMap(r, m, k);
    }
  }

  lemma DoAllUnfold(m: ModeMap, ops: seq<Op>, cap: nat)
    requires ops != []
    ensures DoAll(m, ops, cap) == DoAll(Do(m, ops[0], cap), ops[1..], cap)
  {
  }

  lemma HoldingStep(o: ModeMap, r: ModeMap, m: ModeMap, ops: seq<Op>, cap: nat, cap': nat)
    requires ops != [] && ops[0] != Wipe(false) && |m| <= cap <= cap' && m == DoAll(o, ops, cap)
    requires Holding(r, m, ops) && Transient(r, m, ops)
    ensures Holding(Do(r, ops[0], cap'), m, ops[1..])
  {
    hide DecidedBy, Transient, DoAll;
    var op, rest, r' := ops[0], ops[1..], Do(r, ops[0], cap');
    assert DoAll(o, ops, cap) == DoAll(Do(o, op, cap), rest, cap) by {
      DoAllUnfold(o, ops, cap);
    }
    forall k | k in m && !DecidedBy(rest, k) ensures k in r' && r'[k] == m[k] {
      UndecidedKept(Do(o, op, cap), rest, cap, k);
      DecidedByTail(ops, k);
      if op.Put? && op.mode == k {
        SettlingPutAdmitted(r, m, ops, cap');
      }
    }
  }

  lemma {:induction false} HoldingLands(o: ModeMap, r: ModeMap, m: ModeMap, ops: seq<Op>, cap: nat, cap': nat)
    requires |m| <= cap <= cap' && m == DoAll(o, ops, cap)
    requires Holding(r, m, ops) && Transient(r, m, ops) && MeetsFull(r, m, ops, cap')
    ensures DoAll(r, ops, cap') == m
    decreases |ops|
  {
    if ops == [] {
      assert forall k: U16 :: !DecidedBy(ops, k) && !WipedBy(ops, k);
      assert r.Keys == m.Keys;
    } else {
      hide Transient, Holding;
      TransientStep(r, m, ops, cap');
      if ops[0] == Wipe(false) {
        AheadLands(map[], map[], m, ops[1..], cap, cap');
      } else {
        HoldingStep(o, r, m, ops, cap, cap');
        HoldingLands(Do(o, ops[0], cap), Do(r, ops[0], cap'), m, ops[1..], cap, cap');
      }
    }
  }

  /** Exactly when replaying a stretch of operations over the map it led to leads there again,
      for the tracker's own cap and for any terminal that remembers more. */
  lemma ReplayExact(o: ModeMap, ops: seq<Op>, cap: nat, cap': nat)
    requires |o| <= cap <= cap'
    ensures var m := DoAll(o, ops, cap); DoAll(m, ops, cap') == m <==> MeetsFull(m, m, ops, cap')
  {
    var m := DoAll(o, ops, cap);
    if MeetsFull(m, m, ops, cap') {
      CapRespected(o, ops, cap);
      HoldingLands(o, m, m, ops, cap, cap');
    } else if DoAll(m, ops, cap') == m {
      LandingMeetsFull(m, m, ops, cap');
    }
  }

  /** If the first pass turned nothing away, no put can stay outside where it led. */
  lemma {:induction false} NoDropMeetsFull(o: ModeMap, r: ModeMap, ops: seq<Op>, cap: nat, cap': nat)
    requires NoDrop(o, ops, cap)
    ensures MeetsFull(r, DoAll(o, ops, cap), ops, cap')
    decreases |ops|
  {
    if ops != [] {
      var m, next := DoAll(o, ops, cap), Do(o, ops[0], cap);
      if LastingOutside(m, ops) {
        var k := ops[0].mode;
        assert forall i :: 0 <= i < |ops[1..]| ==> !Wipes(ops[1..][i], k);
        UnwipedStays(next, ops[1..], cap, k);
        assert false;
      }
      NoDropMeetsFull(next, Do(r, ops[0], cap'), ops[1..], cap, cap');
    }
  }

  /** In particular, a stretch in which nothing was turned away is replayed without effect. */
  lemma ReplayIdempotent(o: ModeMap, ops: seq<Op>, cap: nat, cap': nat)
    requires |o| <= cap <= cap' && NoDrop(o, ops, cap)
    ensures var m := DoAll(o, ops, cap); DoAll(m, ops, cap') == m
  {
    NoDropMeetsFull(o, DoAll(o, ops, cap), ops, cap, cap');
    ReplayExact(o, ops, cap, cap');
  }

  lemma {:induction false} NeverUntracked(m: ModeMap, ops: seq<Op>, cap: nat)
    requires m.Keys !! UNTRACKED_DEC_MODES
    requires forall i :: 0 <= i < |ops| && ops[i].Put? ==> ops[i].mode !in UNTRACKED_DEC_MODES
    ensures DoAll(m, ops, cap).Keys !! UNTRACKED_DEC_MODES
    decreases |ops|
  {
    if ops != [] {
      NeverUntracked(Do(m, ops[0], cap), ops[1..], cap);
    }
  }

  lemma {:induction false} PutsTracked(touched: seq<U16>, on: bool)
    ensures forall i :: 0 <= i < |Puts(touched, on)|
              ==> Puts(touched, on)[i].Put? && Puts(touched, on)[i].mode !in UNTRACKED_DEC_MODES
  {
    if touched != [] {
      PutsTracked(touched[1..], on);
    }
  }

  lemma {:induction false} OpsTracked(events: seq<Event>)
    ensures forall i :: 0 <= i < |Ops(events)| && Ops(events)[i].Put?
              ==> Ops(events)[i].mode !in UNTRACKED_DEC_MODES
  {
    if events != [] {
      OpsTracked(events[1..]);
      if events[0].DecPrivateMode? {
        PutsTracked(events[0].modes, events[0].on);
      }
    }
  }

  /** Every map the tracker can hold is small and free of untracked modes. */
  lemma TrackedMapOk(events: seq<Event>, cap: nat)
    ensures var m := ApplyAll(map[], events, cap);
            |m| <= cap && m.Keys !! UNTRACKED_DEC_MODES
  {
    OpsApply(map[], events, cap);
    OpsTracked(events);
    NeverUntracked(map[], Ops(events), cap);
    CapRespected(map[], Ops(events), cap);
  }

  // ----- the reattach theorem -----

  /** The events a reader had seen by the cut, and those it saw after it. */
  function EventsBefore(stream: seq<Byte>, cut: nat): seq<Event>
    requires cut <= |stream|
  {
    Run(INIT, stream[..cut]).events
  }

  function EventsAfter(stream: seq<Byte>, cut: nat): seq<Event>
    requires cut <= |stream|
  {
    Run(Run(INIT, stream[..cut]).scan, stream[cut..]).events
  }

  /** A new terminal shown a preamble and then bytes with known events. */
  lemma ShownAfterPreamble(m: ModeMap, tail: seq<Byte>, events: seq<Event>, cap: nat)
    requires |m| <= cap && m.Keys !! UNTRACKED_DEC_MODES
    requires Run(INIT, tail).events == events
    ensures TerminalModes(DecModePreamble(m) + tail, cap) == ApplyAll(m, events, cap)
  {
    hide Step, DecModePreamble, PreambleEvents, ApplyModeEvent;
    PreambleScans(m);
    ChunkIndependence(INIT, DecModePreamble(m), tail);
    PreambleAdds(map[], m, cap);
    assert map[] + m == m;
    ApplyAppend(map[], PreambleEvents(m), events, cap);
  }

  /** The modes of a new terminal of the given capacity after a reattach at this cut. */
  function ModesAfterReattach(stream: seq<Byte>, cut: nat, cap: nat): ModeMap
    requires cut <= |stream|
  {
    TerminalModes(DecModePreamble(TerminalModes(stream, MAX_TRACKED_DEC_MODES)) + stream[cut..], cap)
  }

  /** Showing the tail again, from the tracked map on, the cap turns away again whatever
      would otherwise stay beyond that map. The map and the tail are all it takes to tell. */
  predicate TailTurnsAway(tracked: ModeMap, tail: seq<Byte>, cap: nat) {
    MeetsFull(tracked, tracked, Ops(Run(INIT, tail).events), cap)
  }

  lemma ReplayCold(base: ModeMap, after: seq<Event>, cold: seq<Event>, max: nat, cap: nat)
    requires |base| <= max <= cap
    requires after == cold || (|after| > 0 && after[1..] == cold)
    ensures var m := ApplyAll(base, after, max);
            ApplyAll(m, cold, cap) == m <==> MeetsFull(m, m, Ops(cold), cap)
  {
    OpsApply(base, after, max);
    var start := base;
    if after != cold {
      var first := OpsOf(after[0]);
      assert Ops(after) == first + Ops(cold);
      DoAppend(base, first, Ops(cold), max);
      CapRespected(base, first, max);
      start := DoAll(base, first, max);
    }
    ReplayExact(start, Ops(cold), max, cap);
    OpsApply(DoAll(start, Ops(cold), max), cold, cap);
  }

  /** Reattach restores the modes, exactly when the tail turns away again what it turned away
      before: for every stream and every tail of it that a snapshot may return, a new
      terminal shown the preamble and then the tail ends with exactly the modes tracked over
      the whole stream. `cap` is the terminal's own capacity: the tracker's 64 or more. */
  lemma ReattachRestoresModes(stream: seq<Byte>, cut: nat, cap: nat)
    requires cut <= |stream| && cap >= MAX_TRACKED_DEC_MODES
    ensures var tracked := TerminalModes(stream, MAX_TRACKED_DEC_MODES);
            ModesAfterReattach(stream, cut, cap) == tracked <==> TailTurnsAway(tracked, stream[cut..], cap)
  {
    hide Ops;
    var max := MAX_TRACKED_DEC_MODES;
    var head, tail := stream[..cut], stream[cut..];
    var before, after := EventsBefore(stream, cut), EventsAfter(stream, cut);
    var cold := Run(INIT, tail).events;
    var tracked := TerminalModes(stream, max);
    var base := ApplyAll(map[], before, max);

    assert head + tail == stream;
    ChunkIndependence(INIT, head, tail);
    ApplyAppend(map[], before, after, max);
    assert tracked == ApplyAll(base, after, max);

    // The new terminal: the preamble sets the tracked map, then the tail is replayed.
    TrackedMapOk(before + after, max);
    ShownAfterPreamble(tracked, tail, cold, cap);

    // The cold scanner replays all events after the cut except at most the first.
    StaysWellFormed(INIT, head);
    ColdStart(Run(INIT, head).scan, INIT, tail);
    TrackedMapOk(before, max);
    ReplayCold(base, after, cold, max, cap);
  }

  /** No mode was turned away by the cap while the replayed tail was first shown. */
  predicate TailFits(stream: seq<Byte>, cut: nat)
    requires cut <= |stream|
  {
    NoDrop(ApplyAll(map[], EventsBefore(stream, cut), MAX_TRACKED_DEC_MODES),
           Ops(EventsAfter(stream, cut)), MAX_TRACKED_DEC_MODES)
  }

  lemma FitsTurnsAway(base: ModeMap, after: seq<Event>, cold: seq<Event>, max: nat, cap: nat)
    requires NoDrop(base, Ops(after), max)
    requires after == cold || (|after| > 0 && after[1..] == cold)
    ensures var m := ApplyAll(base, after, max); MeetsFull(m, m, Ops(cold), cap)
  {
    OpsApply(base, after, max);
    var m, start := ApplyAll(base, after, max), base;
    if after != cold {
      var first := OpsOf(after[0]);
      assert Ops(after) == first + Ops(cold);
      NoDropAppend(base, first, Ops(cold), max);
      DoAppend(base, first, Ops(cold), max);
      start := DoAll(base, first, max);
    }
    NoDropMeetsFull(start, m, Ops(cold), max, cap);
  }

  /** In particular when the cap turned nothing away in the replayed tail. */
  lemma ReattachRestoresModesFitting(stream: seq<Byte>, cut: nat, cap: nat)
    requires cut <= |stream| && cap >= MAX_TRACKED_DEC_MODES && TailFits(stream, cut)
    ensures ModesAfterReattach(stream, cut, cap) == TerminalModes(stream, MAX_TRACKED_DEC_MODES)
  {
    hide ModesAfterReattach;
    var max := MAX_TRACKED_DEC_MODES;
    var before, after, cold := EventsBefore(stream, cut), EventsAfter(stream, cut), Run(INIT, stream[cut..]).events;
    var base := ApplyAll(map[], before, max);
    assert stream[..cut] + stream[cut..] == stream;
    ChunkIndependence(INIT, stream[..cut], stream[cut..]);
    ApplyAppend(map[], before, after, max);
    StaysWellFormed(INIT, stream[..cut]);
    ColdStart(Run(INIT, stream[..cut]).scan, INIT, stream[cut..]);
    FitsTurnsAway(base, after, cold, max, cap);
    ReattachRestoresModes(stream, cut, cap);
  }

  lemma {:induction false} OpsAppend(a: seq<Event>, b: seq<Event>)
    ensures Ops(a + b) == Ops(a) + Ops(b)
  {
    hide OpsOf;
    if a == [] {
      assert a + b == b;
    } else {
      OpsAppend(a[1..], b);
      assert (a + b)[0] == a[0] && (a + b)[1..] == a[1..] + b;
      Assoc(OpsOf(a[0]), Ops(a[1..]), Ops(b));
    }
  }

  /** In particular when the cap never turned a mode away in the whole stream, where the
      map also says of every mode what the stream last said of it. */
  lemma ReattachRestoresModesNoDrop(stream: seq<Byte>, cut: nat, mode: U16)
    requires cut <= |stream| && NoDrop(map[], Ops(Run(INIT, stream).events), MAX_TRACKED_DEC_MODES)
    ensures var tracked := TerminalModes(stream, MAX_TRACKED_DEC_MODES);
            && ModesAfterReattach(stream, cut, MAX_TRACKED_DEC_MODES) == tracked
            && Lookup(tracked, mode) == LastSetting(Ops(Run(INIT, stream).events), mode, None)
  {
    var max := MAX_TRACKED_DEC_MODES;
    var before, after := EventsBefore(stream, cut), EventsAfter(stream, cut);
    assert stream[..cut] + stream[cut..] == stream;
    ChunkIndependence(INIT, stream[..cut], stream[cut..]);
    OpsAppend(before, after);
    NoDropAppend(map[], Ops(before), Ops(after), max);
    OpsApply(map[], before, max);
    ReattachRestoresModesFitting(stream, cut, max);
    OpsApply(map[], before + after, max);
    MapMeaning(map[], Ops(before + after), max, mode);
  }

  // ----- live output after the reattach -----

  const PARAMS_2004: seq<Byte> := [QUESTION, '2' as int, '0' as int, '0' as int, '4' as int]
  const BEGUN: seq<Byte> := [ESC, LBRACKET] + PARAMS_2004

  lemma ApplyOne(m: ModeMap, event: Event, cap: nat)
    ensures ApplyAll(m, [event], cap) == ApplyModeEvent(m, event, cap)
  {
    var one: seq<Event> := [event];
    assert one[1..] == [];
  }

  lemma Print2004()
    ensures Decimal(2004) == ['2' as int, '0' as int, '0' as int, '4' as int]
  {
    assert Decimal(2) == ['2' as int];
    assert Decimal(20) == Decimal(2) + ['0' as int];
    assert Decimal(200) == Decimal(20) + ['0' as int];
  }

  /** A new scanner is level with the reader's, or behind it only inside an OSC string. */
  predicate LevelForModes(seen: Scan, cold: Scan) {
    seen == cold || (seen.state == Collect && cold == INIT) || (seen.state == CollectEsc && cold == Scan(Esc, [], false))
  }

  lemma PayloadNoMode(payload: seq<Byte>)
    ensures Ops(OptSeq(ParsePayload(payload))) == []
  {
    var event := ParsePayload(payload);
    assert event.Some? ==> !event.value.DecPrivateMode? && !event.value.TerminalReset?;
    hide ParsePayload;
    if event.Some? {
      var one: seq<Event> := [event.value];
      assert one[1..] == [] && OptSeq(event) == one;
    }
  }

  lemma NoOps()
    ensures Ops([]) == []
  {
  }

  lemma LevelStep(seen: Scan, cold: Scan, b: Byte)
    requires WellFormed(seen) && LevelForModes(seen, cold)
    ensures LevelForModes(Step(seen, b).scan, Step(cold, b).scan)
    ensures Ops(Step(seen, b).events) == Ops(Step(cold, b).events)
  {
    hide ParsePayload, ParseCsi, Parse777, Ops;
    PayloadNoMode(seen.buf);
    NoOps();
  }

  lemma RunOne(s: Scan, b: Byte)
    ensures Run(s, [b]) == Step(s, b)
  {
    hide Step;
    var one: seq<Byte> := [b];
    assert one[1..] == [];
    assert Step(s, b).events + [] == Step(s, b).events;
  }

  /** Behind inside an OSC string means behind in no mode, now or later. */
  lemma {:induction false} LevelRun(seen: Scan, cold: Scan, more: seq<Byte>)
    requires WellFormed(seen) && LevelForModes(seen, cold)
    ensures Ops(Run(seen, more).events) == Ops(Run(cold, more).events)
    decreases |more|
  {
    hide Step, Ops, LevelForModes;
    if more != [] {
      var s, c := Step(seen, more[0]), Step(cold, more[0]);
      LevelStep(seen, cold, more[0]);
      StaysWellFormed(seen, [more[0]]);
      RunOne(seen, more[0]);
      LevelRun(s.scan, c.scan, more[1..]);
      OpsAppend(s.events, Run(s.scan, more[1..]).events);
      OpsAppend(c.events, Run(c.scan, more[1..]).events);
    }
  }

  lemma ModeAfterEsc(seen: Scan)
    requires WellFormed(seen) && (seen.state == Esc || seen.state == CollectEsc)
    ensures Run(seen, [LBRACKET] + PARAMS_2004 + ['h' as int]).events == [DecPrivateMode([2004], true)]
  {
    hide ParseCsi, Run;
    var esc := Scan(Esc, [], false);
    RunOne(INIT, ESC);
    RunOne(seen, LBRACKET);
    RunOne(esc, LBRACKET);
    assert Step(INIT, ESC) == Outcome(esc, []);
    assert Step(seen, LBRACKET) == Step(esc, LBRACKET);
    var rest := PARAMS_2004 + ['h' as int];
    var more := [LBRACKET] + rest;
    assert more == [LBRACKET] + PARAMS_2004 + ['h' as int];
    ChunkIndependence(seen, [LBRACKET], rest);
    ChunkIndependence(esc, [LBRACKET], rest);
    ChunkIndependence(INIT, [ESC], more);
    assert [ESC] + more == PreambleEntry(2004, true) by { Print2004(); }
    EntryParses(2004, true);
  }

  /** If the reader stands right after an ESC that the new scanner never saw, there is
      always a continuation after which the two hold different modes. */
  lemma IntroducerLost(tracked: ModeMap, seen: Scan)
    requires WellFormed(seen) && (seen.state == Esc || seen.state == CollectEsc)
    ensures exists more :: ApplyAll(tracked, Run(seen, more).events, MAX_TRACKED_DEC_MODES)
                        != ApplyAll(tracked, Run(INIT, more).events, MAX_TRACKED_DEC_MODES)
  {
    var max := MAX_TRACKED_DEC_MODES;
    var ris: seq<Byte> := ['c' as int];
    PlainText(ris);
    RunOne(seen, 'c' as int);
    ApplyOne(tracked, TerminalReset(false), max);
    if tracked == map[] {
      var more := [LBRACKET] + PARAMS_2004 + ['h' as int];
      PlainText(more);
      ModeAfterEsc(seen);
      AddsOne(tracked, 2004, true, max);
      ApplyOne(tracked, DecPrivateMode([2004], true), max);
      assert ApplyAll(tracked, Run(seen, more).events, max) != ApplyAll(tracked, Run(INIT, more).events, max);
    } else {
      assert ApplyAll(tracked, Run(seen, ris).events, max) != ApplyAll(tracked, Run(INIT, ris).events, max);
    }
  }

  // Inside an unfinished CSI that the new scanner never saw begin.

  /** However the sequence begun here is completed, the tracked modes stay as they are. */
  ghost predicate Harmless(tracked: ModeMap, seen: Scan) {
    seen.overflow || forall body, final :: CsiBody(body) && 0x40 <= final <= 0x7e && |seen.buf| + |body| <= MAX_CSI_BYTES ==>
      ApplyAll(tracked, OptSeq(ParseCsi(seen.buf + body, final)), MAX_TRACKED_DEC_MODES) == tracked
  }

  lemma HarmlessOn(tracked: ModeMap, seen: Scan, b: Byte)
    requires WellFormed(seen) && seen.state == Csi && Harmless(tracked, seen) && 0x20 <= b <= 0x3f
    ensures var next := Step(seen, b).scan; next.state == Csi && Harmless(tracked, next)
    ensures Step(seen, b).events == [] && Step(INIT, b) == Outcome(INIT, [])
  {
    hide ParseCsi, ApplyAll;
    var next := Step(seen, b).scan;
    if !next.overflow {
      forall body, final | CsiBody(body) && 0x40 <= final <= 0x7e && |next.buf| + |body| <= MAX_CSI_BYTES
        ensures ApplyAll(tracked, OptSeq(ParseCsi(next.buf + body, final)), MAX_TRACKED_DEC_MODES) == tracked
      {
        assert next.buf + body == seen.buf + ([b] + body);
        assert CsiBody([b] + body);
      }
    }
  }

  lemma HarmlessEnds(tracked: ModeMap, seen: Scan, b: Byte)
    requires WellFormed(seen) && seen.state == Csi && Harmless(tracked, seen) && !(0x20 <= b <= 0x3f)
    ensures Step(INIT, b).events == []
    ensures ApplyAll(tracked, Step(seen, b).events, MAX_TRACKED_DEC_MODES) == tracked
    ensures Step(seen, b).scan == Step(INIT, b).scan || (Step(seen, b).scan == seen && Step(INIT, b).scan == INIT)
  {
    hide ParseCsi;
    if 0x40 <= b <= 0x7e {
      assert seen.buf + [] == seen.buf;
    }
  }

  lemma {:induction false} HarmlessRun(tracked: ModeMap, seen: Scan, more: seq<Byte>)
    requires WellFormed(seen) && seen.state == Csi && Harmless(tracked, seen)
    ensures ApplyAll(tracked, Run(seen, more).events, MAX_TRACKED_DEC_MODES)
         == ApplyAll(tracked, Run(INIT, more).events, MAX_TRACKED_DEC_MODES)
    decreases |more|
  {
    hide Harmless, Step, ApplyAll;
    if more != [] {
      var s, c, rest := Step(seen, more[0]), Step(INIT, more[0]), more[1..];
      RunOne(seen, more[0]);
      StaysWellFormed(seen, [more[0]]);
      if 0x20 <= more[0] <= 0x3f {
        HarmlessOn(tracked, seen, more[0]);
        HarmlessRun(tracked, s.scan, rest);
        assert Run(seen, more).events == Run(s.scan, rest).events;
        assert Run(INIT, more).events == Run(INIT, rest).events;
      } else {
        HarmlessEnds(tracked, seen, more[0]);
        assert Run(INIT, more).events == Run(c.scan, rest).events;
        ApplyAppend(tracked, s.events, Run(s.scan, rest).events, MAX_TRACKED_DEC_MODES);
        if s.scan != c.scan {
          HarmlessRun(tracked, s.scan, rest);
        }
      }
    }
  }

  lemma NothingApplied(m: ModeMap)
    ensures ApplyAll(m, [], MAX_TRACKED_DEC_MODES) == m
  {
  }

  /** A body and a final byte that would change the modes are a continuation that does. */
  lemma HarmfulLost(tracked: ModeMap, seen: Scan)
    requires WellFormed(seen) && seen.state == Csi && !Harmless(tracked, seen)
    ensures exists more :: ApplyAll(tracked, Run(seen, more).events, MAX_TRACKED_DEC_MODES)
                        != ApplyAll(tracked, Run(INIT, more).events, MAX_TRACKED_DEC_MODES)
  {
    hide ParseCsi, ApplyAll, Run;
    var body, final :| CsiBody(body) && 0x40 <= final <= 0x7e && |seen.buf| + |body| <= MAX_CSI_BYTES
      && ApplyAll(tracked, OptSeq(ParseCsi(seen.buf + body, final)), MAX_TRACKED_DEC_MODES) != tracked;
    var more := body + [final];
    Accumulates(seen, body, MAX_CSI_BYTES);
    RunSnoc(seen, body, final);
    PlainText(more);
    NothingApplied(tracked);
    assert Run(seen, more).events == OptSeq(ParseCsi(seen.buf + body, final));
    assert ApplyAll(tracked, Run(seen, more).events, MAX_TRACKED_DEC_MODES)
        != ApplyAll(tracked, Run(INIT, more).events, MAX_TRACKED_DEC_MODES);
  }

  /** Wherever the stream is cut, a scanner started there is level with the reader's or lags. */
  lemma {:induction false} LevelOrLagging(seen: Scan, cold: Scan, bytes: seq<Byte>)
    requires WellFormed(seen) && (seen == cold || Lagging(seen, cold))
    ensures var s, c := Run(seen, bytes).scan, Run(cold, bytes).scan; WellFormed(s) && (s == c || Lagging(s, c))
    decreases |bytes|
  {
    hide Step, Lagging, WellFormed;
    if bytes != [] {
      if seen != cold {
        LagStep(seen, cold, bytes[0]);
      }
      RunOne(seen, bytes[0]);
      StaysWellFormed(seen, [bytes[0]]);
      LevelOrLagging(Step(seen, bytes[0]).scan, Step(cold, bytes[0]).scan, bytes[1..]);
    }
  }

  /** Where the reader may stand so that a new scanner in state `cold` loses no mode. */
  ghost predicate NothingPending(tracked: ModeMap, seen: Scan, cold: Scan) {
    LevelForModes(seen, cold) || (seen.state == Csi && cold == INIT && Harmless(tracked, seen))
  }

  /** Two scanners take the same modes to the same modes through every continuation. */
  ghost predicate SameAfter(a: ModeMap, seen: Scan, b: ModeMap, cold: Scan) {
    forall more :: ApplyAll(a, Run(seen, more).events, MAX_TRACKED_DEC_MODES)
                == ApplyAll(b, Run(cold, more).events, MAX_TRACKED_DEC_MODES)
  }

  /** Terminals shown the one and the other hold the same modes now and ever after. */
  ghost predicate SameModesEverAfter(a: seq<Byte>, b: seq<Byte>) {
    forall more :: TerminalModes(a + more, MAX_TRACKED_DEC_MODES) == TerminalModes(b + more, MAX_TRACKED_DEC_MODES)
  }

  lemma SameAfterNow(a: ModeMap, seen: Scan, b: ModeMap, cold: Scan)
    requires SameAfter(a, seen, b, cold)
    ensures a == b
  {
    assert Run(seen, []).events == [] && Run(cold, []).events == [];
    assert ApplyAll(a, Run(seen, []).events, MAX_TRACKED_DEC_MODES) == ApplyAll(b, Run(cold, []).events, MAX_TRACKED_DEC_MODES);
  }

  lemma ShownMore(shown: seq<Byte>, more: seq<Byte>, cap: nat)
    ensures TerminalModes(shown + more, cap) == ApplyAll(TerminalModes(shown, cap), Run(Run(INIT, shown).scan, more).events, cap)
  {
    hide Run, ApplyAll;
    ChunkIndependence(INIT, shown, more);
    ApplyAppend(map[], Run(INIT, shown).events, Run(Run(INIT, shown).scan, more).events, cap);
  }

  lemma EverAfterMeaning(a: seq<Byte>, b: seq<Byte>)
    ensures var max := MAX_TRACKED_DEC_MODES;
            SameModesEverAfter(a, b) <==>
            SameAfter(TerminalModes(a, max), Run(INIT, a).scan, TerminalModes(b, max), Run(INIT, b).scan)
  {
    hide Run, ApplyAll;
    var max := MAX_TRACKED_DEC_MODES;
    forall more
      ensures (TerminalModes(a + more, max) == TerminalModes(b + more, max)) <==>
              (ApplyAll(TerminalModes(a, max), Run(Run(INIT, a).scan, more).events, max)
               == ApplyAll(TerminalModes(b, max), Run(Run(INIT, b).scan, more).events, max))
    {
      ShownMore(a, more, max);
      ShownMore(b, more, max);
    }
  }

  /** Two scanners agree on the modes through every continuation exactly then. */
  lemma AgreeForever(tracked: ModeMap, seen: Scan, cold: Scan)
    requires WellFormed(seen) && (seen == cold || Lagging(seen, cold))
    ensures SameAfter(tracked, seen, tracked, cold) <==> NothingPending(tracked, seen, cold)
  {
    hide Run, ApplyAll, Harmless;
    var max := MAX_TRACKED_DEC_MODES;
    if LevelForModes(seen, cold) {
      forall more ensures ApplyAll(tracked, Run(seen, more).events, max) == ApplyAll(tracked, Run(cold, more).events, max) {
        LevelRun(seen, cold, more);
        OpsApply(tracked, Run(seen, more).events, max);
        OpsApply(tracked, Run(cold, more).events, max);
      }
    } else if seen.state == Csi {
      if Harmless(tracked, seen) {
        forall more ensures ApplyAll(tracked, Run(seen, more).events, max) == ApplyAll(tracked, Run(cold, more).events, max) {
          HarmlessRun(tracked, seen, more);
        }
      } else {
        HarmfulLost(tracked, seen);
      }
    } else {
      assert cold == INIT && (seen.state == Esc || seen.state == CollectEsc);
      IntroducerLost(tracked, seen);
    }
  }

  lemma ScansAtCut(stream: seq<Byte>, cut: nat)
    requires cut <= |stream|
    ensures var seen, cold := Run(INIT, stream).scan, Run(INIT, stream[cut..]).scan;
            WellFormed(seen) && (seen == cold || Lagging(seen, cold))
  {
    hide Run;
    assert stream == stream[..cut] + stream[cut..];
    ChunkIndependence(INIT, stream[..cut], stream[cut..]);
    StaysWellFormed(INIT, stream[..cut]);
    LevelOrLagging(Run(INIT, stream[..cut]).scan, INIT, stream[cut..]);
  }

  lemma PreambleScan(m: ModeMap, tail: seq<Byte>)
    ensures Run(INIT, DecModePreamble(m) + tail).scan == Run(INIT, tail).scan
  {
    hide Run, DecModePreamble, PreambleEvents;
    PreambleScans(m);
    ChunkIndependence(INIT, DecModePreamble(m), tail);
  }

  /** Live output after a reattach, exactly. The new terminal holds the reader's modes through
      everything that follows if and only if the tail restored them and the reader does not
      stand in a sequence that could still change them and that the new scanner cannot see:
      right after an ESC before the cut, or inside an unfinished CSI that is not harmless. */
  lemma LiveModesStayEqual(stream: seq<Byte>, cut: nat)
    requires cut <= |stream|
    ensures var tracked := TerminalModes(stream, MAX_TRACKED_DEC_MODES);
            SameModesEverAfter(stream, DecModePreamble(tracked) + stream[cut..]) <==>
              && TailTurnsAway(tracked, stream[cut..], MAX_TRACKED_DEC_MODES)
              && NothingPending(tracked, Run(INIT, stream).scan, Run(INIT, stream[cut..]).scan)
  {
    hide Run, ApplyAll, DecModePreamble, NothingPending, TailTurnsAway, Lagging, WellFormed, SameAfter, SameModesEverAfter;
    var max := MAX_TRACKED_DEC_MODES;
    var tracked := TerminalModes(stream, max);
    var shown := DecModePreamble(tracked) + stream[cut..];
    var seen, cold := Run(INIT, stream).scan, Run(INIT, stream[cut..]).scan;
    var after := TerminalModes(shown, max);
    ReattachRestoresModes(stream, cut, max);
    ScansAtCut(stream, cut);
    PreambleScan(tracked, stream[cut..]);
    EverAfterMeaning(stream, shown);
    AgreeForever(tracked, seen, cold);
    if SameAfter(tracked, seen, after, cold) {
      SameAfterNow(tracked, seen, after, cold);
    }
  }

  lemma BegunSilently()
    ensures Run(INIT, BEGUN).events == []
  {
    hide ParseCsi, Run;
    Introducer(INIT, LBRACKET);
    Accumulates(BeginCsi(), PARAMS_2004, MAX_CSI_BYTES);
    ChunkIndependence(INIT, [ESC, LBRACKET], PARAMS_2004);
  }

  lemma Completed2004()
    ensures BEGUN + ['h' as int] == PreambleEntry(2004, true)
  {
    hide Decimal;
    Print2004();
  }

  /** A witness: the whole tail lies inside one unfinished CSI, and the mode sequence that
      completes next is lost to the new terminal. */
  lemma UnfinishedSequenceLost()
    ensures TerminalModes(BEGUN, MAX_TRACKED_DEC_MODES) == map[]
    ensures TerminalModes(BEGUN + ['h' as int], MAX_TRACKED_DEC_MODES) == map[2004 := true]
    ensures TerminalModes(DecModePreamble(map[]) + BEGUN[5..] + ['h' as int], MAX_TRACKED_DEC_MODES) == map[]
  {
    hide ParseCsi, ApplyModeEvent, TouchAll, Run, Decimal, PreambleEntry;
    var max := MAX_TRACKED_DEC_MODES;
    BegunSilently();
    Completed2004();
    EntryParses(2004, true);
    AddsOne(map[], 2004, true, max);
    ApplyOne(map[], DecPrivateMode([2004], true), max);
    var rest := DecModePreamble(map[]) + BEGUN[5..] + ['h' as int];
    assert rest == ['0' as int, '4' as int, 'h' as int];
    PlainText(rest);
  }

  // ----- a mode that was turned away and comes back -----

  const DECSTR: seq<Byte> := [ESC, LBRACKET] + [BANG] + ['p' as int]

  lemma DecstrParses()
    ensures Run(INIT, DECSTR) == Outcome(INIT, [TerminalReset(true)])
  {
    CsiRecognised(INIT, [BANG], 'p' as int);
  }

  lemma ExtraThenDecstr(extra: U16)
    ensures Run(INIT, PreambleEntry(extra, true) + DECSTR) ==
            Outcome(INIT, [DecPrivateMode([extra], true), TerminalReset(true)])
  {
    hide Step, ParseCsi, PreambleEntry;
    EntryParses(extra, true);
    DecstrParses();
    ChunkIndependence(INIT, PreambleEntry(extra, true), DECSTR);
    assert [DecPrivateMode([extra], true)] + [TerminalReset(true)]
        == [DecPrivateMode([extra], true), TerminalReset(true)];
  }

  lemma TwoEvents(m: ModeMap, extra: U16, cap: nat)
    ensures ApplyAll(m, [DecPrivateMode([extra], true), TerminalReset(true)], cap) ==
            ApplyModeEvent(m, DecPrivateMode([extra], true), cap) - SOFT_RESET_DEC_MODES
  {
    hide TouchAll;
    var first, second := DecPrivateMode([extra], true), TerminalReset(true);
    var mid := ApplyModeEvent(m, first, cap);
    var tail: seq<Event> := [second];
    assert [first, second][1..] == tail && tail[1..] == [];
    assert ApplyAll(mid, tail, cap) == ApplyModeEvent(mid, second, cap);
  }

  lemma TouchFull(m: ModeMap, extra: U16, cap: nat)
    requires |m| >= cap && extra !in m
    ensures ApplyModeEvent(m, DecPrivateMode([extra], true), cap) == m
  {
    var one: seq<U16> := [extra];
    assert one[1..] == [];
    assert TouchAll(m, one, true, cap) == TouchAll(m, [], true, cap);
  }

  lemma FullThenReset(m: ModeMap, extra: U16, cap: nat)
    requires |m| >= cap && extra !in m
    ensures ApplyAll(m, [DecPrivateMode([extra], true), TerminalReset(true)], cap) == m - SOFT_RESET_DEC_MODES
  {
    TouchFull(m, extra, cap);
    TwoEvents(m, extra, cap);
  }

  lemma RoomThenReset(m: ModeMap, extra: U16, cap: nat)
    requires |m| < cap && extra !in m && extra !in UNTRACKED_DEC_MODES && extra !in SOFT_RESET_DEC_MODES
    ensures extra in ApplyAll(m, [DecPrivateMode([extra], true), TerminalReset(true)], cap)
  {
    AddsOne(m, extra, true, cap);
    TwoEvents(m, extra, cap);
  }

  /** The proviso is needed. With 64 modes tracked, one more mode is turned away; if a soft
      reset then frees a place, the replay of the same bytes finds room for it, and the
      new terminal holds a mode the map does not. */
  lemma DroppedModeNotRestored(m: ModeMap, soft: U16, extra: U16)
    requires |m| == MAX_TRACKED_DEC_MODES && m.Keys !! UNTRACKED_DEC_MODES
    requires soft in m && soft in SOFT_RESET_DEC_MODES
    requires extra !in m && extra !in SOFT_RESET_DEC_MODES && extra !in UNTRACKED_DEC_MODES
    ensures var cut := |DecModePreamble(m)|;
            var stream := DecModePreamble(m) + (PreambleEntry(extra, true) + DECSTR);
            var tracked := TerminalModes(stream, MAX_TRACKED_DEC_MODES);
            && extra !in tracked
            && extra in TerminalModes(DecModePreamble(tracked) + stream[cut..], MAX_TRACKED_DEC_MODES)
  {
    hide *;
    var max := MAX_TRACKED_DEC_MODES;
    var head, tail := DecModePreamble(m), PreambleEntry(extra, true) + DECSTR;
    var events := [DecPrivateMode([extra], true), TerminalReset(true)];
    ExtraThenDecstr(extra);
    ShownAfterPreamble(m, tail, events, max);
    assert (head + tail)[|head|..] == tail;
    var tracked := m - SOFT_RESET_DEC_MODES;
    FullThenReset(m, extra, max);
    assert TerminalModes(head + tail, max) == tracked;
    assert tracked.Keys <= m.Keys - {soft};
    SubsetSize(tracked.Keys, m.Keys - {soft});
    assert |tracked| == |tracked.Keys|;
    ShownAfterPreamble(tracked, tail, events, max);
    RoomThenReset(tracked, extra, max);
  }
}
