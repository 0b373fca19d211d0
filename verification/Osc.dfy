/** The incremental control-sequence scanner of osc.rs: OSC strings, DEC private modes
    (`CSI ? Pm h/l`) and the two terminal resets, found in a byte stream cut anywhere. */
module Osc {
  import opened Bytes

  const ESC: Byte := 0x1b
  const BEL: Byte := 0x07
  const CAN: Byte := 0x18
  const SUB: Byte := 0x1a
  const LBRACKET: Byte := '[' as int
  const RBRACKET: Byte := ']' as int
  const BACKSLASH: Byte := '\\' as int
  const SEMI: Byte := ';' as int
  const QUESTION: Byte := '?' as int
  const BANG: Byte := '!' as int

  const MAX_PAYLOAD_BYTES := 64 * 1024
  const MAX_CSI_BYTES := 128

  /** Text is kept as raw payload bytes. */
  datatype Event =
    | Title(text: seq<Byte>)
    | Cwd(uri: seq<Byte>)
    | Message(text: seq<Byte>)
    | Notify(title: seq<Byte>, body: seq<Byte>)
    | Send(target: seq<Byte>, textB64: seq<Byte>)
    | Query(kind: seq<Byte>, replyB64: seq<Byte>)
    | Started
    | ColorQuery(code: nat)
    | DecPrivateMode(modes: seq<U16>, on: bool)
    | TerminalReset(soft: bool)

  datatype State = Ground | Esc | Csi | Collect | CollectEsc

  datatype Scan = Scan(state: State, buf: seq<Byte>, overflow: bool)

  /** What consuming some bytes did: the state reached and the events completed. */
  datatype Outcome = Outcome(scan: Scan, events: seq<Event>)

  const INIT := Scan(Ground, [], false)

  // ----- classifying a finished sequence -----

  function ParseU16(part: seq<Byte>): Option<U16> {
    if part == [] || !AllDigits(part) then None
    else if DigitsValue(part) > 0xffff then None
    else Some(DigitsValue(part))
  }

  function ParseModes(parts: seq<seq<Byte>>): Option<seq<U16>> {
    if parts == [] then Some([])
    else match ParseU16(parts[0])
      case None => None
      case Some(mode) =>
        match ParseModes(parts[1..])
        case None => None
        case Some(rest) => Some([mode] + rest)
  }

  predicate IsDecstrParams(params: seq<Byte>) {
    && params != []
    && params[|params| - 1] == BANG
    && forall i :: 0 <= i < |params| - 1 ==> IsDigit(params[i]) || params[i] == SEMI
  }

  function ParseCsi(params: seq<Byte>, final: Byte): Option<Event> {
    if final == 'h' as int || final == 'l' as int then
      if params == [] || params[0] != QUESTION || |params| == 1 then None
      else match ParseModes(Split(params[1..], SEMI))
        case None => None
        case Some(modes) => Some(DecPrivateMode(modes, final == 'h' as int))
    else if final == 'p' as int && IsDecstrParams(params) then Some(TerminalReset(true))
    else None
  }

  /** The fields after `777;`: kind, then up to two more (the last keeps its semicolons). */
  function Parse777(rest: seq<Byte>): Option<Event> {
    var (kind, tail) := match SplitOnce(rest, SEMI)
      case None => (rest, None)
      case Some((k, t)) => (k, Some(t));
    var fields: Option<(seq<Byte>, Option<seq<Byte>>)> := match tail
      case None => None
      case Some(t) =>
        match SplitOnce(t, SEMI)
        case None => Some((t, None))
        case Some((f, g)) => Some((f, Some(g)));
    if kind == Ascii("notify") then
      match fields
      case None => Some(Notify([], []))
      case Some((title, body)) => Some(Notify(title, if body.Some? then body.value else []))
    else if kind == Ascii("mast-send") then
      match fields
      case Some((target, Some(text))) => Some(Send(target, text))
      case _ => None
    else if kind == Ascii("mast-query") then
      match fields
      case Some((query, Some(reply))) => Some(Query(query, reply))
      case _ => None
    else if kind == Ascii("mast-started") then Some(Started)
    else None
  }

  function ParsePayload(payload: seq<Byte>): Option<Event> {
    var (code, rest) := match SplitOnce(payload, SEMI)
      case None => (payload, [])
      case Some((c, r)) => (c, r);
    if code == Ascii("0") || code == Ascii("2") then Some(Title(rest))
    else if code == Ascii("7") then Some(Cwd(rest))
    else if code == Ascii("9") then Some(Message(rest))
    else if code == Ascii("10") && rest == Ascii("?") then Some(ColorQuery(10))
    else if code == Ascii("11") && rest == Ascii("?") then Some(ColorQuery(11))
    else if code == Ascii("777") then Parse777(rest)
    else None
  }

  // ----- the automaton -----

  function BeginCollect(): Scan { Scan(Collect, [], false) }

  function BeginCsi(): Scan { Scan(Csi, [], false) }

  /** Appends to a bounded buffer; the flag marks a sequence that outgrew it, and stays
      up even though the emptied buffer fills again. */
  function Store(s: Scan, b: Byte, limit: nat): Scan {
    if |s.buf| >= limit then s.(overflow := true, buf := [])
    else s.(buf := s.buf + [b])
  }

  function Finished(s: Scan, event: Option<Event>): Outcome {
    Outcome(INIT, if s.overflow then [] else OptSeq(event))
  }

  function Step(s: Scan, b: Byte): Outcome {
    match s.state
    case Ground =>
      Outcome(if b == ESC then s.(state := Esc) else s, [])
    case Esc =>
      if b == RBRACKET then Outcome(BeginCollect(), [])
      else if b == LBRACKET then Outcome(BeginCsi(), [])
      else if b == 'c' as int then Outcome(s.(state := Ground), [TerminalReset(false)])
      else if b == ESC then Outcome(s, [])
      else Outcome(s.(state := Ground), [])
    case Csi =>
      if b == CAN || b == SUB then Outcome(INIT, [])
      else if b == ESC then Outcome(Scan(Esc, [], false), [])
      else if 0x20 <= b <= 0x3f then Outcome(Store(s, b, MAX_CSI_BYTES), [])
      else if 0x40 <= b <= 0x7e then Finished(s, ParseCsi(s.buf, b))
      else Outcome(s, [])
    case Collect =>
      if b == BEL then Finished(s, ParsePayload(s.buf))
      else if b == ESC then Outcome(s.(state := CollectEsc), [])
      else if b == CAN || b == SUB then Outcome(INIT, [])
      else Outcome(Store(s, b, MAX_PAYLOAD_BYTES), [])
    case CollectEsc =>
      if b == BACKSLASH then Finished(s, ParsePayload(s.buf))
      else if b == RBRACKET then Outcome(BeginCollect(), [])
      else if b == LBRACKET then Outcome(BeginCsi(), [])
      else if b == 'c' as int then Outcome(INIT, [TerminalReset(false)])
      else if b == ESC then Outcome(Scan(Esc, [], false), [])
      else Outcome(INIT, [])
  }

  function Run(s: Scan, bytes: seq<Byte>): Outcome
    decreases |bytes|
  {
    if bytes == [] then Outcome(s, [])
    else
      var first := Step(s, bytes[0]);
      var rest := Run(first.scan, bytes[1..]);
      Outcome(rest.scan, first.events + rest.events)
  }

  /** What holds between two bytes: outside a sequence nothing is buffered, and inside
      one the buffer respects its limit. */
  predicate WellFormed(s: Scan) {
    match s.state
    case Ground => s.buf == [] && !s.overflow
    case Esc => s.buf == [] && !s.overflow
    case Csi => |s.buf| <= MAX_CSI_BYTES
    case Collect => |s.buf| <= MAX_PAYLOAD_BYTES
    case CollectEsc => |s.buf| <= MAX_PAYLOAD_BYTES
  }

  // ----- the scanner object -----

  /** Two feeds act as one feed of the joined bytes. */
  lemma {:induction false} ChunkIndependence(s: Scan, a: seq<Byte>, b: seq<Byte>)
    ensures var first := Run(s, a);
            var second := Run(first.scan, b);
            Run(s, a + b) == Outcome(second.scan, first.events + second.events)
    decreases |a|
  {
    hide Step;
    if a == [] {
      assert a + b == b;
    } else {
      var one := Step(s, a[0]);
      ChunkIndependence(one.scan, a[1..], b);
      assert (a + b)[0] == a[0] && (a + b)[1..] == a[1..] + b;
      var mid := Run(one.scan, a[1..]);
      var end := Run(mid.scan, b);
      assert Run(s, a) == Outcome(mid.scan, one.events + mid.events);
      assert one.events + (mid.events + end.events) == (one.events + mid.events) + end.events;
    }
  }

  lemma RunSnoc(s: Scan, a: seq<Byte>, b: Byte)
    ensures var first := Run(s, a);
            var last := Step(first.scan, b);
            Run(s, a + [b]) == Outcome(last.scan, first.events + last.events)
  {
    ChunkIndependence(s, a, [b]);
    var first := Run(s, a);
    assert [b][1..] == [];
    assert Run(first.scan, [b]) == Outcome(Step(first.scan, b).scan, Step(first.scan, b).events + []);
  }

  class OscScanner {
    var state: State
    var buf: seq<Byte>
    var overflow: bool

    ghost function Model(): Scan reads this { Scan(state, buf, overflow) }

    constructor ()
      ensures Model() == INIT
    {
      state, buf, overflow := Ground, [], false;
    }

    method Begin(next: State)
      modifies this
      ensures Model() == Scan(next, [], false)
    {
      buf, overflow, state := [], false, next;
    }

    method Discard()
      modifies this
      ensures Model() == Scan(old(state), [], false)
    {
      buf, overflow := [], false;
    }

    method Keep(b: Byte, limit: nat)
      modifies this
      ensures Model() == Store(old(Model()), b, limit)
    {
      if |buf| >= limit {
        overflow := true;
        buf := [];
      } else {
        buf := buf + [b];
      }
    }

    method FinishCsi(final: Byte) returns (events: seq<Event>)
      modifies this
      ensures Outcome(Model(), events) == Finished(old(Model()), ParseCsi(old(buf), final))
    {
      events := if overflow then [] else OptSeq(ParseCsi(buf, final));
      buf, overflow, state := [], false, Ground;
    }

    method Finish() returns (events: seq<Event>)
      modifies this
      ensures Outcome(Model(), events) == Finished(old(Model()), ParsePayload(old(buf)))
    {
      var overflowed, payload := overflow, buf;
      buf, overflow, state := [], false, Ground;
      events := if overflowed then [] else OptSeq(ParsePayload(payload));
    }

    /** One turn of the byte loop. */
    method FeedByte(b: Byte) returns (events: seq<Event>)
      modifies this
      ensures Outcome(Model(), events) == Step(old(Model()), b)
    {
      events := [];
      match state {
        case Ground =>
          if b == ESC { state := Esc; }
        case Esc =>
          if b == RBRACKET { Begin(Collect); }
          else if b == LBRACKET { Begin(Csi); }
          else if b == 'c' as int {
            events := [TerminalReset(false)];
            state := Ground;
          }
          else if b == ESC { state := Esc; }
          else { state := Ground; }
        case Csi =>
          if b == CAN || b == SUB { Discard(); state := Ground; }
          else if b == ESC { Discard(); state := Esc; }
          else if 0x20 <= b <= 0x3f { Keep(b, MAX_CSI_BYTES); }
          else if 0x40 <= b <= 0x7e { events := FinishCsi(b); }
        case Collect =>
          if b == BEL { events := Finish(); }
          else if b == ESC { state := CollectEsc; }
          else if b == CAN || b == SUB { Discard(); state := Ground; }
          else { Keep(b, MAX_PAYLOAD_BYTES); }
        case CollectEsc =>
          if b == BACKSLASH { events := Finish(); }
          else if b == RBRACKET { Begin(Collect); }
          else if b == LBRACKET { Begin(Csi); }
          else if b == 'c' as int {
            Discard();
            events := [TerminalReset(false)];
            state := Ground;
          }
          else if b == ESC { Discard(); state := Esc; }
          else { Discard(); state := Ground; }
      }
    }

    method Feed(bytes: seq<Byte>) returns (events: seq<Event>)
      modifies this
      ensures Outcome(Model(), events) == Run(old(Model()), bytes)
    {
      events := [];
      ghost var start := Model();
      for i := 0 to |bytes|
        invariant Outcome(Model(), events) == Run(start, bytes[..i])
      {
        ghost var before := Outcome(Model(), events);
        var more := FeedByte(bytes[i]);
        events := events + more;
        assert bytes[..i + 1] == bytes[..i] + [bytes[i]];
        RunSnoc(start, bytes[..i], bytes[i]);
      }
      assert bytes[..|bytes|] == bytes;
    }
  }

  // ----- chunk independence -----

  /** One `feed` per chunk, the events of all of them in order. */
  function FeedAll(s: Scan, chunks: seq<seq<Byte>>): Outcome
    decreases |chunks|
  {
    if chunks == [] then Outcome(s, [])
    else
      var first := Run(s, chunks[0]);
      var rest := FeedAll(first.scan, chunks[1..]);
      Outcome(rest.scan, first.events + rest.events)
  }

  /** However a stream is cut into reads, the events are those of one single read. */
  lemma {:induction false} AnyChunking(s: Scan, chunks: seq<seq<Byte>>)
    ensures FeedAll(s, chunks) == Run(s, Flat(chunks))
    decreases |chunks|
  {
    if chunks != [] {
      AnyChunking(Run(s, chunks[0]).scan, chunks[1..]);
      ChunkIndependence(s, chunks[0], Flat(chunks[1..]));
    }
  }

  // ----- bounds and resynchronisation -----

  lemma {:induction false} StaysWellFormed(s: Scan, bytes: seq<Byte>)
    requires WellFormed(s)
    ensures WellFormed(Run(s, bytes).scan)
    decreases |bytes|
  {
    if bytes != [] {
      StaysWellFormed(Step(s, bytes[0]).scan, bytes[1..]);
    }
  }

  /** The memory bound: whatever the stream, at most 64 KiB of an OSC and 128 bytes of a
      CSI are ever held, and nothing outside a sequence. */
  lemma BufferBounded(bytes: seq<Byte>)
    ensures var s := Run(INIT, bytes).scan;
            && |s.buf| <= MAX_PAYLOAD_BYTES
            && (s.state == Csi ==> |s.buf| <= MAX_CSI_BYTES)
            && (s.state == Ground || s.state == Esc ==> s.buf == [])
  {
    StaysWellFormed(INIT, bytes);
  }

  /** CAN and SUB end whatever was in progress: any stream followed by one of them leaves the
      scanner new. */
  lemma CanResynchronises(bytes: seq<Byte>, abort: Byte)
    requires abort == CAN || abort == SUB
    ensures Run(INIT, bytes + [abort]) == Outcome(INIT, Run(INIT, bytes).events)
  {
    StaysWellFormed(INIT, bytes);
    RunSnoc(INIT, bytes, abort);
  }

  /** Bytes free of ESC are no event and leave an idle scanner idle. */
  lemma {:induction false} PlainText(text: seq<Byte>)
    requires ESC !in text
    ensures Run(INIT, text) == Outcome(INIT, [])
  {
    if text != [] {
      PlainText(text[1..]);
    }
  }

  // ----- exactly which sequences are recognised -----

  predicate CsiBody(params: seq<Byte>) {
    forall i :: 0 <= i < |params| ==> 0x20 <= params[i] <= 0x3f
  }

  predicate OscBody(payload: seq<Byte>) {
    ESC !in payload && BEL !in payload && CAN !in payload && SUB !in payload
  }

  /** One ordinary byte inside a sequence is stored. */
  lemma Stored(s: Scan, b: Byte, limit: nat)
    requires (s.state == Csi && 0x20 <= b <= 0x3f && limit == MAX_CSI_BYTES)
          || (s.state == Collect && b != ESC && b != BEL && b != CAN && b != SUB && limit == MAX_PAYLOAD_BYTES)
    ensures Step(s, b) == Outcome(Store(s, b, limit), [])
  {
  }

  lemma BodyTail(bytes: seq<Byte>)
    requires bytes != []
    ensures CsiBody(bytes) ==> CsiBody(bytes[1..]) && 0x20 <= bytes[0] <= 0x3f
    ensures OscBody(bytes) ==> OscBody(bytes[1..]) && bytes[0] != ESC && bytes[0] != BEL && bytes[0] != CAN && bytes[0] != SUB
  {
  }

  /** A run of ordinary bytes inside a sequence emits nothing, keeps the state, and is
      held in full until the total outgrows the limit. */
  lemma {:induction false} Accumulates(s: Scan, bytes: seq<Byte>, limit: nat)
    requires (s.state == Csi && CsiBody(bytes) && limit == MAX_CSI_BYTES)
          || (s.state == Collect && OscBody(bytes) && limit == MAX_PAYLOAD_BYTES)
    requires |s.buf| <= limit
    ensures var r := Run(s, bytes);
            && r.events == []
            && r.scan.state == s.state
            && r.scan.overflow == (s.overflow || |s.buf| + |bytes| > limit)
            && (r.scan.overflow == s.overflow == false ==> r.scan.buf == s.buf + bytes)
    decreases |bytes|
  {
    hide Step;
    if bytes == [] {
      assert s.buf + bytes == s.buf;
    } else {
      var next := Store(s, bytes[0], limit);
      Stored(s, bytes[0], limit);
      assert Run(s, bytes) == Run(next, bytes[1..]);
      BodyTail(bytes);
      Accumulates(next, bytes[1..], limit);
      assert |s.buf| < limit ==> next.buf + bytes[1..] == s.buf + bytes;
    }
  }

  /** From any state whatever, `ESC ]`, `ESC [` and `ESC c` start afresh. */
  lemma Introducer(s: Scan, b: Byte)
    requires WellFormed(s) && (b == RBRACKET || b == LBRACKET || b == 'c' as int)
    ensures Run(s, [ESC, b]) ==
            (if b == RBRACKET then Outcome(BeginCollect(), [])
             else if b == LBRACKET then Outcome(BeginCsi(), [])
             else Outcome(INIT, [TerminalReset(false)]))
  {
    RunSnoc(s, [ESC], b);
    RunSnoc(s, [], ESC);
    assert [ESC] + [b] == [ESC, b];
    assert [] + [ESC] == [ESC];
  }

  /** A CSI is reported exactly when its body fits 128 bytes and parses; either way the
      scanner is new afterwards. Holds from every state the scanner can be in. */
  lemma CsiRecognised(s: Scan, params: seq<Byte>, final: Byte)
    requires WellFormed(s) && CsiBody(params) && 0x40 <= final <= 0x7e
    ensures Run(s, [ESC, LBRACKET] + params + [final]) ==
            Outcome(INIT, if |params| <= MAX_CSI_BYTES then OptSeq(ParseCsi(params, final)) else [])
  {
    hide Run, ParseCsi, ParsePayload, CsiBody;
    Introducer(s, LBRACKET);
    Accumulates(BeginCsi(), params, MAX_CSI_BYTES);
    assert [] + params == params;
    ChunkIndependence(s, [ESC, LBRACKET], params);
    RunSnoc(s, [ESC, LBRACKET] + params, final);
  }

  // The same over the bytes alone, with whatever a CSI may carry inside it.

  /** What may stand inside a CSI without ending it: its body and the controls it ignores. */
  predicate CsiInside(bytes: seq<Byte>) {
    forall i :: 0 <= i < |bytes| ==> bytes[i] != ESC && bytes[i] != CAN && bytes[i] != SUB && !(0x40 <= bytes[i] <= 0x7e)
  }

  /** The bytes of the body among them. */
  function BodyOf(bytes: seq<Byte>): seq<Byte> {
    if bytes == [] then []
    else (if 0x20 <= bytes[0] <= 0x3f then [bytes[0]] else []) + BodyOf(bytes[1..])
  }

  lemma {:induction false} BodyIsBody(bytes: seq<Byte>)
    ensures CsiBody(BodyOf(bytes))
    ensures CsiBody(bytes) ==> BodyOf(bytes) == bytes
  {
    if bytes != [] {
      BodyIsBody(bytes[1..]);
      if CsiBody(bytes) {
        assert CsiBody(bytes[1..]);
        assert [bytes[0]] + bytes[1..] == bytes;
      }
    }
  }

  /** Controls inside a CSI leave no trace: it goes on as if they were not there. */
  lemma {:induction false} ControlsIgnored(s: Scan, inside: seq<Byte>)
    requires s.state == Csi && CsiInside(inside)
    ensures Run(s, inside) == Run(s, BodyOf(inside))
    decreases |inside|
  {
    if inside != [] {
      var b, rest := inside[0], inside[1..];
      assert CsiInside(rest);
      ControlsIgnored(Step(s, b).scan, rest);
      if 0x20 <= b <= 0x3f {
        assert BodyOf(inside)[0] == b && BodyOf(inside)[1..] == BodyOf(rest);
      } else {
        assert BodyOf(inside) == BodyOf(rest);
      }
    }
  }

  lemma CsiRecognisedInside(s: Scan, inside: seq<Byte>, final: Byte)
    requires WellFormed(s) && CsiInside(inside) && 0x40 <= final <= 0x7e
    ensures var body := BodyOf(inside);
            Run(s, [ESC, LBRACKET] + inside + [final]) ==
            Outcome(INIT, if |body| <= MAX_CSI_BYTES then OptSeq(ParseCsi(body, final)) else [])
  {
    hide Run, ParseCsi, CsiBody, BodyOf;
    BodyIsBody(inside);
    Introducer(s, LBRACKET);
    ControlsIgnored(BeginCsi(), inside);
    ChunkIndependence(s, [ESC, LBRACKET], inside);
    ChunkIndependence(s, [ESC, LBRACKET], BodyOf(inside));
    RunSnoc(s, [ESC, LBRACKET] + inside, final);
    RunSnoc(s, [ESC, LBRACKET] + BodyOf(inside), final);
    CsiRecognised(s, BodyOf(inside), final);
  }

  /** Each field is a number: at least one digit, and of the value of its mode. */
  predicate Names(fields: seq<seq<Byte>>, modes: seq<U16>) {
    |fields| == |modes| && forall i :: 0 <= i < |fields| ==>
      fields[i] != [] && AllDigits(fields[i]) && DigitsValue(fields[i]) == modes[i]
  }

  /** The body spells this list of modes. */
  ghost predicate Spells(body: seq<Byte>, modes: seq<U16>) {
    exists fields :: fields != [] && Names(fields, modes) && body == [QUESTION] + Join(fields, SEMI)
  }

  lemma NamesCons(parts: seq<seq<Byte>>, modes: seq<U16>)
    requires parts != [] && modes != []
    ensures Names(parts, modes) <==> Names([parts[0]], [modes[0]]) && Names(parts[1..], modes[1..])
  {
    hide AllDigits, DigitsValue;
    if Names([parts[0]], [modes[0]]) && Names(parts[1..], modes[1..]) {
      forall i | 0 <= i < |parts| ensures parts[i] != [] && AllDigits(parts[i]) && DigitsValue(parts[i]) == modes[i] {
        if i == 0 {
          assert [parts[0]][0] == parts[0] && [modes[0]][0] == modes[0];
        } else {
          assert parts[1..][i - 1] == parts[i] && modes[1..][i - 1] == modes[i];
        }
      }
    }
  }

  lemma {:induction false} ParseModesExact(parts: seq<seq<Byte>>, modes: seq<U16>)
    ensures ParseModes(parts) == Some(modes) <==> Names(parts, modes)
  {
    hide AllDigits, DigitsValue;
    if parts != [] && modes != [] {
      ParseModesExact(parts[1..], modes[1..]);
      assert modes == [modes[0]] + modes[1..];
      assert Names(parts, modes) <==> Names([parts[0]], [modes[0]]) && Names(parts[1..], modes[1..]) by {
        NamesCons(parts, modes);
      }
    }
  }

  lemma NamedFree(fields: seq<seq<Byte>>, modes: seq<U16>)
    requires Names(fields, modes)
    ensures forall i :: 0 <= i < |fields| ==> SEMI !in fields[i]
  {
  }

  lemma SpelledNotBare(fields: seq<seq<Byte>>, modes: seq<U16>)
    requires fields != [] && Names(fields, modes)
    ensures Join(fields, SEMI) != []
  {
  }

  lemma ParseCsiModes(body: seq<Byte>, final: Byte, modes: seq<U16>, on: bool)
    ensures ParseCsi(body, final) == Some(DecPrivateMode(modes, on)) <==>
              Spells(body, modes) && final == (if on then 'h' as int else 'l' as int)
  {
    hide ParseModes, Names;
    if Spells(body, modes) {
      var fields :| fields != [] && Names(fields, modes) && body == [QUESTION] + Join(fields, SEMI);
      NamedFree(fields, modes);
      SplitJoin(fields, SEMI);
      assert body[1..] == Join(fields, SEMI);
      ParseModesExact(fields, modes);
      SpelledNotBare(fields, modes);
    } else if |body| > 1 && body[0] == QUESTION {
      var fields := Split(body[1..], SEMI);
      ParseModesExact(fields, modes);
      JoinSplit(body[1..], SEMI);
      assert body == [QUESTION] + body[1..];
    }
  }

  /** Set and reset of private modes, exactly and over the bytes. From every state, a CSI is
      reported as setting a list of modes if and only if its body is `?` and the numbers of
      these modes in this order with semicolons between, within 128 bytes, and its final byte
      says whether they go on or off. */
  lemma ModesReportedExactly(s: Scan, inside: seq<Byte>, final: Byte, modes: seq<U16>, on: bool)
    requires WellFormed(s) && CsiInside(inside) && 0x40 <= final <= 0x7e
    ensures Run(s, [ESC, LBRACKET] + inside + [final]) == Outcome(INIT, [DecPrivateMode(modes, on)]) <==>
              && |BodyOf(inside)| <= MAX_CSI_BYTES && Spells(BodyOf(inside), modes)
              && final == (if on then 'h' as int else 'l' as int)
  {
    hide Run, ParseCsi, BodyOf, Spells;
    CsiRecognisedInside(s, inside, final);
    ParseCsiModes(BodyOf(inside), final, modes, on);
  }

  function FinalOf(on: bool): Byte { if on then 'h' as int else 'l' as int }

  function Decimals(modes: seq<U16>): seq<seq<Byte>> {
    seq(|modes|, i requires 0 <= i < |modes| => Decimal(modes[i]))
  }

  lemma SpelledBy(fields: seq<seq<Byte>>, modes: seq<U16>)
    requires fields != [] && Names(fields, modes)
    ensures Spells([QUESTION] + Join(fields, SEMI), modes)
  {
  }

  lemma {:induction false} JoinedInside(fields: seq<seq<Byte>>)
    requires fields != [] && forall i :: 0 <= i < |fields| ==> AllDigits(fields[i])
    ensures CsiBody(Join(fields, SEMI)) && CsiBody([QUESTION] + Join(fields, SEMI)) && CsiInside([QUESTION] + Join(fields, SEMI))
  {
    if |fields| > 1 {
      JoinedInside(fields[1..]);
    }
  }

  /** In particular every nonempty list that is printed arrives whole. */
  lemma PrintedModesArrive(s: Scan, modes: seq<U16>, on: bool)
    requires WellFormed(s) && modes != [] && |Join(Decimals(modes), SEMI)| < MAX_CSI_BYTES
    ensures Run(s, [ESC, LBRACKET] + ([QUESTION] + Join(Decimals(modes), SEMI)) + [FinalOf(on)])
         == Outcome(INIT, [DecPrivateMode(modes, on)])
  {
    hide Run, Spells, BodyOf, CsiInside, Decimal, DigitsValue, AllDigits;
    var fields := Decimals(modes);
    forall i | 0 <= i < |modes| ensures fields[i] != [] && AllDigits(fields[i]) && DigitsValue(fields[i]) == modes[i] {
      DecimalRoundTrip(modes[i]);
    }
    assert Names(fields, modes);
    var body := [QUESTION] + Join(fields, SEMI);
    assert Spells(body, modes) by { SpelledBy(fields, modes); }
    JoinedInside(fields);
    BodyIsBody(body);
    ModesReportedExactly(s, body, FinalOf(on), modes, on);
  }

  /** The soft reset likewise: digits and semicolons, then `!`, then `p`. */
  lemma SoftResetReportedExactly(s: Scan, inside: seq<Byte>, final: Byte)
    requires WellFormed(s) && CsiInside(inside) && 0x40 <= final <= 0x7e
    ensures Run(s, [ESC, LBRACKET] + inside + [final]) == Outcome(INIT, [TerminalReset(true)]) <==>
              && |BodyOf(inside)| <= MAX_CSI_BYTES && final == 'p' as int
              && exists numbers: seq<Byte> :: BodyOf(inside) == numbers + [BANG]
                                           && forall b :: b in numbers ==> IsDigit(b) || b == SEMI
  {
    hide Run, BodyOf;
    var body := BodyOf(inside);
    CsiRecognisedInside(s, inside, final);
    if IsDecstrParams(body) {
      var numbers := body[..|body| - 1];
      assert body == numbers + [BANG];
    }
    if numbers: seq<Byte> :| body == numbers + [BANG] && forall b :: b in numbers ==> IsDigit(b) || b == SEMI {
      assert body[|body| - 1] == BANG;
      forall i | 0 <= i < |body| - 1 ensures IsDigit(body[i]) || body[i] == SEMI {
        assert body[i] == numbers[i];
      }
    }
  }

  /** No CSI is ever reported as anything else. */
  lemma CsiReportsNothingElse(s: Scan, inside: seq<Byte>, final: Byte)
    requires WellFormed(s) && CsiInside(inside) && 0x40 <= final <= 0x7e
    ensures var r := Run(s, [ESC, LBRACKET] + inside + [final]);
            && r.scan == INIT
            && (r.events == [] || r.events == [TerminalReset(true)]
                || exists modes, on :: r.events == [DecPrivateMode(modes, on)])
  {
    hide Run, BodyOf;
    CsiRecognisedInside(s, inside, final);
    var r := Run(s, [ESC, LBRACKET] + inside + [final]);
    if r.events != [] && r.events != [TerminalReset(true)] {
      var e := r.events[0];
      assert r.events == [DecPrivateMode(e.modes, e.on)];
    }
  }

  /** Any other escape ends what was in progress and is no event; only `ESC \` after the text
      of an OSC string ends that string. */
  lemma OtherEscape(s: Scan, b: Byte)
    requires WellFormed(s) && b != ESC && b != RBRACKET && b != LBRACKET && b != 'c' as int
    requires !(s.state == Collect && b == BACKSLASH)
    ensures Run(s, [ESC, b]) == Outcome(INIT, [])
  {
    RunSnoc(s, [ESC], b);
    RunSnoc(s, [], ESC);
    assert [ESC] + [b] == [ESC, b];
    assert [] + [ESC] == [ESC];
  }

  lemma OscCollected(s: Scan, payload: seq<Byte>)
    requires WellFormed(s) && OscBody(payload)
    ensures var r := Run(s, [ESC, RBRACKET] + payload);
            && r.events == [] && r.scan.state == Collect
            && r.scan.overflow == (|payload| > MAX_PAYLOAD_BYTES)
            && (!r.scan.overflow ==> r.scan.buf == payload)
  {
    Introducer(s, RBRACKET);
    Accumulates(BeginCollect(), payload, MAX_PAYLOAD_BYTES);
    assert [] + payload == payload;
    ChunkIndependence(s, [ESC, RBRACKET], payload);
  }

  /** The same for an OSC string, ended by BEL or by `ESC \`: an event exactly when the
      payload is at most 64 KiB and parses, however often the emptied buffer refilled. */
  lemma OscRecognised(s: Scan, payload: seq<Byte>, bel: bool)
    requires WellFormed(s) && OscBody(payload)
    ensures Run(s, [ESC, RBRACKET] + payload + (if bel then [BEL] else [ESC, BACKSLASH])) ==
            Outcome(INIT, if |payload| <= MAX_PAYLOAD_BYTES then OptSeq(ParsePayload(payload)) else [])
  {
    hide Run, ParseCsi, ParsePayload, OscBody;
    var head := [ESC, RBRACKET] + payload;
    OscCollected(s, payload);
    if bel {
      RunSnoc(s, head, BEL);
    } else {
      RunSnoc(s, head, ESC);
      RunSnoc(s, head + [ESC], BACKSLASH);
      assert head + [ESC] + [BACKSLASH] == head + [ESC, BACKSLASH];
    }
  }

  // ----- each kind of payload comes back as its event -----

  /** The payload a program writes for an event. */
  function PayloadOf(e: Event): seq<Byte>
    requires !e.DecPrivateMode? && !e.TerminalReset?
  {
    match e
    case Title(text) => Ascii("0") + [SEMI] + text
    case Cwd(uri) => Ascii("7") + [SEMI] + uri
    case Message(text) => Ascii("9") + [SEMI] + text
    case Notify(title, body) => Ascii("777") + [SEMI] + (Ascii("notify") + [SEMI] + (title + [SEMI] + body))
    case Send(target, text) => Ascii("777") + [SEMI] + (Ascii("mast-send") + [SEMI] + (target + [SEMI] + text))
    case Query(kind, reply) => Ascii("777") + [SEMI] + (Ascii("mast-query") + [SEMI] + (kind + [SEMI] + reply))
    case Started => Ascii("777") + [SEMI] + Ascii("mast-started")
    case ColorQuery(code) => (if code == 10 then Ascii("10") else Ascii("11")) + [SEMI] + Ascii("?")
  }

  /** A field before the last one cannot hold a semicolon; the last one may. */
  predicate Writable(e: Event) {
    match e
    case Notify(title, _) => SEMI !in title
    case Send(target, _) => SEMI !in target
    case Query(kind, _) => SEMI !in kind
    case ColorQuery(code) => code == 10 || code == 11
    case DecPrivateMode(_, _) => false
    case TerminalReset(_) => false
    case _ => true
  }

  lemma Codes()
    ensures SEMI !in Ascii("0") && SEMI !in Ascii("7") && SEMI !in Ascii("9") && SEMI !in Ascii("10") && SEMI !in Ascii("11")
    ensures SEMI !in Ascii("777") && SEMI !in Ascii("notify") && SEMI !in Ascii("mast-send") && SEMI !in Ascii("mast-query")
    ensures SEMI !in Ascii("mast-started")
    ensures Ascii("0")[0] == 48 && Ascii("2")[0] == 50 && Ascii("7")[0] == 55 && Ascii("9")[0] == 57
    ensures Ascii("10") == [49, 48] && Ascii("11") == [49, 49] && |Ascii("777")| == 3
    ensures |Ascii("0")| == |Ascii("2")| == |Ascii("7")| == |Ascii("9")| == 1
    ensures |Ascii("notify")| == 6 && |Ascii("mast-send")| == 9 && |Ascii("mast-query")| == 10 && |Ascii("mast-started")| == 12
  {
  }

  lemma ReadNotify(title: seq<Byte>, body: seq<Byte>)
    requires SEMI !in title
    ensures Parse777(Ascii("notify") + [SEMI] + (title + [SEMI] + body)) == Some(Notify(title, body))
  {
    hide Ascii;
    Codes();
    SplitOnceAt(Ascii("notify"), SEMI, title + [SEMI] + body);
    SplitOnceAt(title, SEMI, body);
  }

  lemma ReadSend(target: seq<Byte>, text: seq<Byte>)
    requires SEMI !in target
    ensures Parse777(Ascii("mast-send") + [SEMI] + (target + [SEMI] + text)) == Some(Send(target, text))
  {
    hide Ascii;
    Codes();
    SplitOnceAt(Ascii("mast-send"), SEMI, target + [SEMI] + text);
    SplitOnceAt(target, SEMI, text);
  }

  lemma ReadQuery(kind: seq<Byte>, reply: seq<Byte>)
    requires SEMI !in kind
    ensures Parse777(Ascii("mast-query") + [SEMI] + (kind + [SEMI] + reply)) == Some(Query(kind, reply))
  {
    hide Ascii;
    Codes();
    SplitOnceAt(Ascii("mast-query"), SEMI, kind + [SEMI] + reply);
    SplitOnceAt(kind, SEMI, reply);
  }

  lemma ReadStarted()
    ensures Parse777(Ascii("mast-started")) == Some(Started)
  {
    hide Ascii;
    Codes();
    SplitOnceNone(Ascii("mast-started"), SEMI);
  }

  lemma Read777(e: Event, rest: seq<Byte>)
    requires Writable(e) && (e.Notify? || e.Send? || e.Query? || e.Started?)
    requires PayloadOf(e) == Ascii("777") + [SEMI] + rest
    ensures Parse777(rest) == Some(e)
  {
    hide Ascii, Parse777;
    Codes();
    assert rest == PayloadOf(e)[4..];
    match e
    case Notify(title, body) => ReadNotify(title, body);
    case Send(target, text) => ReadSend(target, text);
    case Query(kind, reply) => ReadQuery(kind, reply);
    case Started => ReadStarted();
  }

  /** Every event that can be written as a payload is read back from it, fields in place. */
  lemma PayloadRoundTrip(e: Event)
    requires Writable(e)
    ensures ParsePayload(PayloadOf(e)) == Some(e)
  {
    hide Ascii, Parse777;
    Codes();
    var payload := PayloadOf(e);
    if e.Title? {
      SplitOnceAt(Ascii("0"), SEMI, e.text);
    } else if e.Cwd? {
      SplitOnceAt(Ascii("7"), SEMI, e.uri);
    } else if e.Message? {
      SplitOnceAt(Ascii("9"), SEMI, e.text);
    } else if e.ColorQuery? {
      SplitOnceAt(if e.code == 10 then Ascii("10") else Ascii("11"), SEMI, Ascii("?"));
    } else {
      assert payload == Ascii("777") + [SEMI] + payload[4..];
      Read777(e, payload[4..]);
      SplitOnceAt(Ascii("777"), SEMI, payload[4..]);
    }
  }

  /** Code and text with a semicolon between, which an empty text may do without. */
  predicate Coded(payload: seq<Byte>, code: seq<Byte>, text: seq<Byte>) {
    payload == code + [SEMI] + text || (text == [] && payload == code)
  }

  /** What follows the code 777, kind by kind. */
  predicate Reads777(rest: seq<Byte>, e: Event) {
    match e
    case Notify(title, body) =>
      SEMI !in title && (|| rest == Ascii("notify") + [SEMI] + (title + [SEMI] + body)
                         || (body == [] && rest == Ascii("notify") + [SEMI] + title)
                         || (body == [] && title == [] && rest == Ascii("notify")))
    case Send(target, text) => SEMI !in target && rest == Ascii("mast-send") + [SEMI] + (target + [SEMI] + text)
    case Query(kind, reply) => SEMI !in kind && rest == Ascii("mast-query") + [SEMI] + (kind + [SEMI] + reply)
    case Started => rest == Ascii("mast-started") || Ascii("mast-started") + [SEMI] <= rest
    case _ => false
  }

  /** Which payloads read as an event, over the bytes. */
  ghost predicate ReadsAs(payload: seq<Byte>, e: Event) {
    match e
    case Title(text) => Coded(payload, Ascii("0"), text) || Coded(payload, Ascii("2"), text)
    case Cwd(uri) => Coded(payload, Ascii("7"), uri)
    case Message(text) => Coded(payload, Ascii("9"), text)
    case ColorQuery(code) =>
      || (code == 10 && payload == Ascii("10") + [SEMI] + Ascii("?"))
      || (code == 11 && payload == Ascii("11") + [SEMI] + Ascii("?"))
    case DecPrivateMode(_, _) => false
    case TerminalReset(_) => false
    case _ => exists rest :: payload == Ascii("777") + [SEMI] + rest && Reads777(rest, e)
  }

  /** The parts before and after the first semicolon, the second empty if there is none. */
  lemma CutExact(s: seq<Byte>, head: seq<Byte>, tail: seq<Byte>)
    requires SEMI !in head
    ensures Coded(s, head, tail) <==>
              (SplitOnce(s, SEMI) == Some((head, tail)) || (SplitOnce(s, SEMI) == None && s == head && tail == []))
  {
    SplitOnceFound(s, SEMI);
    SplitOnceAt(head, SEMI, tail);
    SplitOnceNone(head, SEMI);
  }

  lemma Parse777Reads(rest: seq<Byte>)
    ensures Parse777(rest).Some? ==> Reads777(rest, Parse777(rest).value)
  {
    hide Ascii;
    Codes();
    SplitOnceFound(rest, SEMI);
    match SplitOnce(rest, SEMI)
    case None =>
    case Some((kind, tail)) =>
      SplitOnceFound(tail, SEMI);
      assert rest == kind + [SEMI] + tail;
      if kind == Ascii("mast-started") {
        assert Ascii("mast-started") + [SEMI] <= rest;
      }
  }

  lemma Reads777Parsed(rest: seq<Byte>, e: Event)
    requires Reads777(rest, e)
    ensures Parse777(rest) == Some(e)
  {
    hide Ascii;
    Codes();
    if e.Notify? {
      if rest == Ascii("notify") + [SEMI] + (e.title + [SEMI] + e.body) {
        ReadNotify(e.title, e.body);
      } else if rest == Ascii("notify") + [SEMI] + e.title {
        SplitOnceAt(Ascii("notify"), SEMI, e.title);
        SplitOnceNone(e.title, SEMI);
      } else {
        SplitOnceNone(Ascii("notify"), SEMI);
      }
    } else if e.Send? {
      ReadSend(e.target, e.textB64);
    } else if e.Query? {
      ReadQuery(e.kind, e.replyB64);
    } else if rest == Ascii("mast-started") {
      ReadStarted();
    } else {
      var head := Ascii("mast-started");
      assert rest == head + [SEMI] + rest[|head| + 1..];
      SplitOnceAt(head, SEMI, rest[|head| + 1..]);
    }
  }

  /** The codes are told apart by their bytes. */
  lemma CodesDiffer()
    ensures Ascii("0") != Ascii("2") && Ascii("7") != Ascii("9") && Ascii("0") != Ascii("7") && Ascii("0") != Ascii("9")
    ensures Ascii("2") != Ascii("7") && Ascii("2") != Ascii("9") && SEMI !in Ascii("2")
    ensures Ascii("?") == [QUESTION]
  {
    Codes();
  }

  lemma Nothing777()
    ensures Parse777([]) == None
  {
    hide Ascii;
    Codes();
  }

  lemma Parse777Kind(rest: seq<Byte>)
    ensures Parse777(rest).Some? ==>
              var e := Parse777(rest).value; e.Notify? || e.Send? || e.Query? || e.Started?
  {
  }

  lemma ParsedReads(payload: seq<Byte>)
    requires ParsePayload(payload).Some?
    ensures ReadsAs(payload, ParsePayload(payload).value)
  {
    hide Ascii, Parse777, Reads777;
    Codes();
    CodesDiffer();
    SplitOnceFound(payload, SEMI);
    match SplitOnce(payload, SEMI)
    case None =>
      if payload == Ascii("777") {
        Nothing777();
      }
    case Some((code, rest)) =>
      assert payload == code + [SEMI] + rest;
      if code == Ascii("777") {
        Parse777Reads(rest);
        Parse777Kind(rest);
      }
  }

  lemma ReadsParsed(payload: seq<Byte>, e: Event)
    requires ReadsAs(payload, e)
    ensures ParsePayload(payload) == Some(e)
  {
    hide Ascii, Parse777, Reads777;
    Codes();
    CodesDiffer();
    if e.Title? {
      CutExact(payload, Ascii("0"), e.text);
      CutExact(payload, Ascii("2"), e.text);
    } else if e.Cwd? {
      CutExact(payload, Ascii("7"), e.uri);
    } else if e.Message? {
      CutExact(payload, Ascii("9"), e.text);
    } else if e.ColorQuery? {
      SplitOnceAt(if e.code == 10 then Ascii("10") else Ascii("11"), SEMI, Ascii("?"));
    } else {
      var rest :| payload == Ascii("777") + [SEMI] + rest && Reads777(rest, e);
      SplitOnceAt(Ascii("777"), SEMI, rest);
      Reads777Parsed(rest, e);
    }
  }

  /** Exactly which OSC strings are reported, and as what, over the bytes: from every state, an
      OSC string of ordinary bytes is reported as an event if and only if its payload fits and
      reads as that event. */
  lemma OscReportedExactly(s: Scan, payload: seq<Byte>, bel: bool, e: Event)
    requires WellFormed(s) && OscBody(payload)
    ensures Run(s, [ESC, RBRACKET] + payload + (if bel then [BEL] else [ESC, BACKSLASH])) == Outcome(INIT, [e]) <==>
              |payload| <= MAX_PAYLOAD_BYTES && ReadsAs(payload, e)
  {
    hide Run, ParsePayload, OscBody, ReadsAs;
    OscRecognised(s, payload, bel);
    if ParsePayload(payload).Some? {
      ParsedReads(payload);
    }
    if ReadsAs(payload, e) {
      ReadsParsed(payload, e);
    }
  }

  /** And so, from any state, an event written as an OSC string of ordinary bytes arrives. */
  lemma WrittenArrives(s: Scan, e: Event, bel: bool)
    requires WellFormed(s) && Writable(e) && OscBody(PayloadOf(e)) && |PayloadOf(e)| <= MAX_PAYLOAD_BYTES
    ensures Run(s, [ESC, RBRACKET] + PayloadOf(e) + (if bel then [BEL] else [ESC, BACKSLASH])) == Outcome(INIT, [e])
  {
    hide Run, ParsePayload, PayloadOf, OscBody;
    PayloadRoundTrip(e);
    OscRecognised(s, PayloadOf(e), bel);
  }

  // ----- starting cold at a cut -----

  /** How a scanner that began at a cut can still differ from one that saw the whole
      stream: it is idle, or it took the ESC inside an unseen OSC for a fresh one. */
  predicate Lagging(seen: Scan, cold: Scan) {
    || cold == INIT
    || (seen.state == CollectEsc && cold == Scan(Esc, [], false))
  }

  /** One byte either keeps the lag silently, or brings the two together; only the
      scanner that saw everything may emit something more on that byte. */
  lemma LagStep(seen: Scan, cold: Scan, b: Byte)
    requires WellFormed(seen) && Lagging(seen, cold)
    ensures var s, c := Step(seen, b), Step(cold, b);
            || (s.events == c.events == [] && Lagging(s.scan, c.scan))
            || (s.scan == c.scan && c.events == [] && |s.events| <= 1)
            || s == c
  {
  }

  /** A scanner started cold at any cut reports every event the continuing scanner
      reports from there on, except at most the first. */
  lemma {:induction false} ColdStart(seen: Scan, cold: Scan, bytes: seq<Byte>)
    requires WellFormed(seen) && (seen == cold || Lagging(seen, cold))
    ensures var all, late := Run(seen, bytes).events, Run(cold, bytes).events;
            all == late || (|all| > 0 && all[1..] == late)
    decreases |bytes|
  {
    if bytes != [] && seen != cold {
      LagStep(seen, cold, bytes[0]);
      var s, c := Step(seen, bytes[0]), Step(cold, bytes[0]);
      ColdStart(s.scan, c.scan, bytes[1..]);
      if s.scan == c.scan && c.events == [] && |s.events| == 1 {
        assert (s.events + Run(s.scan, bytes[1..]).events)[1..] == Run(s.scan, bytes[1..]).events;
      }
    }
  }
}
