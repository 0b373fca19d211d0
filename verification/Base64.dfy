/** Base64 payloads of the send channel (send.rs), against RFC 4648 section 4. */
module Base64 {
  import opened Bytes

  const MAX_SEND_BYTES: nat := 32 * 1024
  const PAD: Byte := '=' as int

  type Digit = d: int | 0 <= d < 64

  datatype Decoded = Ok(bytes: seq<Byte>) | InvalidBase64 | TooLarge(bytesNeeded: nat)

  // ----- the alphabet -----

  function DecodeDigit(b: Byte): Option<Digit> {
    if 'A' as int <= b <= 'Z' as int then Some(b - 'A' as int)
    else if 'a' as int <= b <= 'z' as int then Some(b - 'a' as int + 26)
    else if '0' as int <= b <= '9' as int then Some(b - '0' as int + 52)
    else if b == '+' as int then Some(62)
    else if b == '/' as int then Some(63)
    else None
  }

  /** The character RFC 4648 section 4 gives a value, table 1. */
  function Letter(d: Digit): (b: Byte)
    ensures DecodeDigit(b) == Some(d) && b != PAD
  {
    if d < 26 then 'A' as int + d
    else if d < 52 then 'a' as int + (d - 26)
    else if d < 62 then '0' as int + (d - 52)
    else if d == 62 then '+' as int
    else '/' as int
  }

  predicate AllLetters(text: seq<Byte>) { forall i :: 0 <= i < |text| ==> DecodeDigit(text[i]).Some? }

  function Digits(text: seq<Byte>): seq<Digit>
    requires AllLetters(text)
  {
    seq(|text|, i requires 0 <= i < |text| => DecodeDigit(text[i]).value)
  }

  function Letters(ds: seq<Digit>): seq<Byte> { seq(|ds|, i requires 0 <= i < |ds| => Letter(ds[i])) }

  // ----- the encoding, group by group -----

  /** Three bytes make four digits; a last group of one or two makes two or three. */
  function EncodeDigits(bs: seq<Byte>): seq<Digit> {
    if |bs| == 0 then []
    else if |bs| == 1 then [bs[0] / 4, bs[0] % 4 * 16]
    else if |bs| == 2 then [bs[0] / 4, bs[0] % 4 * 16 + bs[1] / 16, bs[1] % 16 * 4]
    else [bs[0] / 4, bs[0] % 4 * 16 + bs[1] / 16, bs[1] % 16 * 4 + bs[2] / 64, bs[2] % 64] + EncodeDigits(bs[3..])
  }

  function Padding(n: nat): seq<Byte> {
    if n % 3 == 1 then [PAD, PAD] else if n % 3 == 2 then [PAD] else []
  }

  function Encode(bs: seq<Byte>): seq<Byte> { Letters(EncodeDigits(bs)) }

  function First(d0: Digit, d1: Digit): Byte { (d0 as int) * 4 + d1 / 16 }

  function Second(d1: Digit, d2: Digit): Byte { (d1 as int) % 16 * 16 + d2 / 4 }

  function Third(d2: Digit, d3: Digit): Byte { (d2 as int) % 4 * 64 + d3 }

  /** Four digits make three bytes; two or three left over make one or two. */
  function DecodeDigits(ds: seq<Digit>): seq<Byte> {
    if |ds| < 2 then []
    else if |ds| == 2 then [First(ds[0], ds[1])]
    else if |ds| == 3 then [First(ds[0], ds[1]), Second(ds[1], ds[2])]
    else [First(ds[0], ds[1]), Second(ds[1], ds[2]), Third(ds[2], ds[3])] + DecodeDigits(ds[4..])
  }

  // ----- what the decoder answers -----

  /** The text without its padding: at most two pad characters come off. */
  function Body(raw: seq<Byte>): seq<Byte> {
    var n := |raw|;
    if n >= 2 && raw[n - 1] == PAD && raw[n - 2] == PAD then raw[..n - 2]
    else if n >= 1 && raw[n - 1] == PAD then raw[..n - 1]
    else raw
  }

  function OutLength(n: nat): nat { n / 4 * 3 + (if n % 4 == 2 then 1 else if n % 4 == 3 then 2 else 0) }

  function Decode(raw: seq<Byte>): Decoded {
    var body := Body(raw);
    if |body| % 4 == 1 then InvalidBase64
    else if OutLength(|body|) > MAX_SEND_BYTES then TooLarge(OutLength(|body|))
    else if AllLetters(body) then Ok(DecodeDigits(Digits(body)))
    else InvalidBase64
  }

  /** Bits taken in and not yet put out after i digits. */
  function Pending(i: nat): (bits: nat)
    ensures bits == 0 || bits == 2 || bits == 4 || bits == 6
    ensures i > 0 && (i - 1) % 4 != 0 ==> bits != 6
  {
    if i % 4 == 0 then 0 else 8 - 2 * (i % 4)
  }

  /** The low `bits` bits of the accumulator are those of the digit last taken in. */
  predicate Low(acc: nat, d: Digit, bits: nat) {
    if bits == 2 then acc % 4 == d % 4 else if bits == 4 then acc % 16 == d % 16 else bits == 6 ==> acc % 64 == d
  }

  /** Where the loop stands after i characters. */
  ghost predicate Progress(body: seq<Byte>, i: nat, out: seq<Byte>, acc: nat)
    requires i <= |body|
  {
    && AllLetters(body[..i]) && out == DecodeDigits(Digits(body[..i]))
    && (i > 0 ==> Low(acc, DecodeDigit(body[..i][i - 1]).value, Pending(i)))
  }

  lemma NoProgress(body: seq<Byte>)
    ensures Progress(body, 0, [], 0)
  {
    assert Digits(body[..0]) == [];
  }

  /** `acc << 6 | digit` on 32 bits. */
  function Shifted(acc: nat, d: Digit): (r: nat)
    ensures r < 0x1_0000_0000
  {
    acc * 64 % 0x1_0000_0000 + d
  }

  /** `acc >> bits` for the shifts that occur. */
  function ShiftRight(acc: nat, bits: nat): nat
    requires bits == 0 || bits == 2 || bits == 4
  {
    if bits == 0 then acc else if bits == 2 then acc / 4 else acc / 16
  }

  /** The byte a digit completes, from it and the digit before it. */
  function Completed(previous: Digit, d: Digit, phase: nat): Byte
    requires 1 <= phase <= 3
  {
    if phase == 1 then First(previous, d) else if phase == 2 then Second(previous, d) else Third(previous, d)
  }

  /** The shift multiplies by 64 and drops what passes 32 bits; either way only multiples of
      64 are added to the digit. */
  lemma ShiftedSplit(acc: nat, d: Digit) returns (lost: int)
    ensures Shifted(acc, d) == 64 * (acc - 0x400_0000 * lost) + d
  {
    lost := acc * 64 / 0x1_0000_0000;
  }

  lemma Remainder(r: int, n: int, high: int, low: int)
    requires n == 4 || n == 16 || n == 64 || n == 256
    requires r == n * high + low && 0 <= low < n
    ensures r % n == low && r / n == high
  {
  }

  lemma EmittedFirst(high: int, previous: Digit, d: Digit, r: nat)
    requires r == 4096 * high + 64 * previous + d
    ensures r / 16 % 256 == First(previous, d)
  {
    var byte := 4 * previous + d / 16;
    Remainder(r, 16, 256 * high + byte, d % 16);
    Remainder(r / 16, 256, high, byte);
  }

  lemma EmitFirst(acc: nat, previous: Digit, d: Digit)
    requires acc % 64 == previous
    ensures Shifted(acc, d) / 16 % 256 == First(previous, d)
  {
    hide Shifted;
    var lost := ShiftedSplit(acc, d);
    var high := acc / 64 - 0x100000 * lost;
    EmittedFirst(high, previous, d, Shifted(acc, d));
  }

  lemma EmittedSecond(high: int, previous: Digit, d: Digit, r: nat)
    requires r == 1024 * high + 64 * (previous % 16) + d
    ensures r / 4 % 256 == Second(previous, d)
  {
    var byte := 16 * (previous % 16) + d / 4;
    Remainder(r, 4, 256 * high + byte, d % 4);
    Remainder(r / 4, 256, high, byte);
  }

  lemma EmitSecond(acc: nat, previous: Digit, d: Digit)
    requires acc % 16 == previous % 16
    ensures Shifted(acc, d) / 4 % 256 == Second(previous, d)
  {
    hide Shifted;
    var lost := ShiftedSplit(acc, d);
    var high := acc / 16 - 0x400000 * lost;
    EmittedSecond(high, previous, d, Shifted(acc, d));
  }

  lemma EmittedThird(high: int, previous: Digit, d: Digit, r: nat)
    requires r == 256 * high + 64 * (previous % 4) + d
    ensures r % 256 == Third(previous, d)
  {
    Remainder(r, 256, high, 64 * (previous % 4) + d);
  }

  lemma EmitThird(acc: nat, previous: Digit, d: Digit)
    requires acc % 4 == previous % 4
    ensures Shifted(acc, d) % 256 == Third(previous, d)
  {
    hide Shifted;
    var lost := ShiftedSplit(acc, d);
    var high := acc / 4 - 0x1000000 * lost;
    EmittedThird(high, previous, d, Shifted(acc, d));
  }

  /** The bits that the accumulator keeps from long ago do not reach the byte put out. */
  lemma EmittedByte(acc: nat, previous: Digit, d: Digit, phase: nat)
    requires 1 <= phase <= 3
    requires Low(acc, previous, 8 - 2 * phase)
    ensures ShiftRight(Shifted(acc, d), 6 - 2 * phase) % 256 == Completed(previous, d, phase)
  {
    hide Shifted, First, Second, Third;
    if phase == 1 {
      EmitFirst(acc, previous, d);
    } else if phase == 2 {
      EmitSecond(acc, previous, d);
    } else {
      EmitThird(acc, previous, d);
    }
  }

  lemma ShiftedLow(acc: nat, d: Digit, bits: nat)
    requires bits == 0 || bits == 2 || bits == 4 || bits == 6
    ensures Low(Shifted(acc, d), d, bits)
  {
    hide Shifted;
    var lost := ShiftedSplit(acc, d);
    var whole := acc - 0x400_0000 * lost;
    if bits == 2 {
      Remainder(Shifted(acc, d), 4, 16 * whole + d / 4, d % 4);
    } else if bits == 4 {
      Remainder(Shifted(acc, d), 16, 4 * whole + d / 16, d % 16);
    } else {
      Remainder(Shifted(acc, d), 64, whole, d);
    }
  }

  /** The byte, if any, that a digit after these completes. */
  function Completes(ds: seq<Digit>, d: Digit): seq<Byte> {
    if |ds| % 4 == 0 then [] else [Completed(ds[|ds| - 1], d, |ds| % 4)]
  }

  lemma DecodeShort(d0: Digit, d1: Digit, d2: Digit, d3: Digit)
    ensures DecodeDigits([]) == [] && DecodeDigits([d0]) == [] && DecodeDigits([d0, d1]) == [First(d0, d1)]
    ensures DecodeDigits([d0, d1, d2]) == [First(d0, d1), Second(d1, d2)]
    ensures DecodeDigits([d0, d1, d2, d3]) == [First(d0, d1), Second(d1, d2), Third(d2, d3)]
  {
    hide First, Second, Third;
    var four := [d0, d1, d2, d3];
    assert four[4..] == [];
  }

  lemma SnocAfterNone(ds: seq<Digit>, d: Digit)
    requires |ds| == 0
    ensures DecodeDigits(ds + [d]) == DecodeDigits(ds) + Completes(ds, d)
  {
    hide First, Second, Third, DecodeDigits;
    DecodeShort(d, 0, 0, 0);
    assert ds == [] && ds + [d] == [d];
  }

  lemma SnocAfterOne(ds: seq<Digit>, d: Digit)
    requires |ds| == 1
    ensures DecodeDigits(ds + [d]) == DecodeDigits(ds) + Completes(ds, d)
  {
    hide First, Second, Third, DecodeDigits;
    DecodeShort(ds[0], d, 0, 0);
    assert ds == [ds[0]] && ds + [d] == [ds[0], d];
  }

  lemma SnocAfterTwo(ds: seq<Digit>, d: Digit)
    requires |ds| == 2
    ensures DecodeDigits(ds + [d]) == DecodeDigits(ds) + Completes(ds, d)
  {
    hide First, Second, Third, DecodeDigits;
    DecodeShort(ds[0], ds[1], d, 0);
    assert ds == [ds[0], ds[1]] && ds + [d] == [ds[0], ds[1], d];
  }

  lemma SnocAfterThree(ds: seq<Digit>, d: Digit)
    requires |ds| == 3
    ensures DecodeDigits(ds + [d]) == DecodeDigits(ds) + Completes(ds, d)
  {
    hide First, Second, Third, DecodeDigits;
    DecodeShort(ds[0], ds[1], ds[2], d);
    assert ds == [ds[0], ds[1], ds[2]] && ds + [d] == [ds[0], ds[1], ds[2], d];
  }

  lemma CompletesLater(ds: seq<Digit>, d: Digit)
    requires |ds| >= 4
    ensures Completes(ds, d) == Completes(ds[4..], d)
  {
  }

  lemma DecodeGroup(ds: seq<Digit>)
    requires |ds| >= 4
    ensures DecodeDigits(ds) == [First(ds[0], ds[1]), Second(ds[1], ds[2]), Third(ds[2], ds[3])] + DecodeDigits(ds[4..])
  {
  }

  /** One more digit adds the byte it completes and changes none before. */
  lemma {:induction false} SnocDigit(ds: seq<Digit>, d: Digit)
    ensures DecodeDigits(ds + [d]) == DecodeDigits(ds) + Completes(ds, d)
  {
    hide First, Second, Third, Completes, DecodeDigits;
    if |ds| == 0 {
      SnocAfterNone(ds, d);
    } else if |ds| == 1 {
      SnocAfterOne(ds, d);
    } else if |ds| == 2 {
      SnocAfterTwo(ds, d);
    } else if |ds| == 3 {
      SnocAfterThree(ds, d);
    } else {
      SnocDigit(ds[4..], d);
      CompletesLater(ds, d);
      DecodeGroup(ds);
      DecodeGroup(ds + [d]);
      assert (ds + [d])[4..] == ds[4..] + [d];
    }
  }

  lemma DigitsSnoc(body: seq<Byte>, i: nat)
    requires i < |body| && AllLetters(body[..i]) && DecodeDigit(body[i]).Some?
    ensures AllLetters(body[..i + 1])
    ensures Digits(body[..i + 1]) == Digits(body[..i]) + [DecodeDigit(body[i]).value]
    ensures i > 0 ==> Digits(body[..i])[i - 1] == DecodeDigit(body[..i][i - 1]).value
  {
    hide DecodeDigit;
    assert body[..i + 1] == body[..i] + [body[i]];
  }

  lemma CompletesNone(ds: seq<Digit>, d: Digit)
    requires |ds| % 4 == 0
    ensures Completes(ds, d) == []
  {
  }

  lemma CompletesOne(ds: seq<Digit>, d: Digit, acc: nat)
    requires |ds| % 4 != 0 && Low(acc, ds[|ds| - 1], Pending(|ds|))
    ensures Completes(ds, d) == [ShiftRight(Shifted(acc, d), Pending(|ds| + 1)) % 256]
  {
    hide Shifted, ShiftRight, Low, Completed;
    EmittedByte(acc, ds[|ds| - 1], d, |ds| % 4);
  }

  lemma DigitsLength(text: seq<Byte>)
    requires AllLetters(text)
    ensures |Digits(text)| == |text|
  {
  }

  lemma ProgressOn(body: seq<Byte>, i: nat, out: seq<Byte>, acc: nat)
    requires i < |body| && Progress(body, i, out, acc) && DecodeDigit(body[i]).Some?
    ensures var next := Shifted(acc, DecodeDigit(body[i]).value);
            Progress(body, i + 1, if i % 4 == 0 then out else out + [ShiftRight(next, Pending(i + 1)) % 256], next)
  {
    hide DecodeDigit, DecodeDigits, Digits, AllLetters, Shifted, ShiftRight, Low, Pending, Completes;
    var d := DecodeDigit(body[i]).value;
    DigitsSnoc(body, i);
    var before := Digits(body[..i]);
    assert |before| == i by { DigitsLength(body[..i]); }
    SnocDigit(before, d);
    ShiftedLow(acc, d, Pending(i + 1));
    if i % 4 == 0 {
      CompletesNone(before, d);
    } else {
      CompletesOne(before, d, acc);
    }
  }

  lemma Progressed(body: seq<Byte>, out: seq<Byte>, acc: nat)
    requires Progress(body, |body|, out, acc)
    ensures AllLetters(body) && out == DecodeDigits(Digits(body))
  {
    assert body[..|body|] == body;
  }

  method DecodeBody(body: seq<Byte>) returns (r: Decoded)
    ensures r == if AllLetters(body) then Ok(DecodeDigits(Digits(body))) else InvalidBase64
  {
    hide DecodeDigit, DecodeDigits, Shifted, ShiftRight, Progress;
    var out: seq<Byte> := [];
    var acc: nat := 0;
    var bits: nat := 0;
    NoProgress(body);
    for i := 0 to |body|
      invariant Progress(body, i, out, acc) && bits == Pending(i)
    {
      var digit := DecodeDigit(body[i]);
      if digit.None? {
        return InvalidBase64;
      }
      ProgressOn(body, i, out, acc);
      acc := Shifted(acc, digit.value);
      bits := bits + 6;
      if bits >= 8 {
        bits := bits - 8;
        out := out + [ShiftRight(acc, bits) % 256];
      }
    }
    Progressed(body, out, acc);
    r := Ok(out);
  }

  /** The one-pass decoder: a 32-bit accumulator that is shifted and never cleared. */
  method DecodeSendText(raw: seq<Byte>) returns (r: Decoded)
    ensures r == Decode(raw)
  {
    var end := |raw|;
    var pad := 0;
    while end > 0 && raw[end - 1] == PAD && pad < 2
      invariant 0 <= pad <= 2 && pad <= |raw| && end == |raw| - pad
      invariant forall i :: end <= i < |raw| ==> raw[i] == PAD
    {
      end := end - 1;
      pad := pad + 1;
    }
    var body := raw[..end];
    assert body == Body(raw);
    var tail;
    match |body| % 4 {
      case 0 => tail := 0;
      case 2 => tail := 1;
      case 3 => tail := 2;
      case _ => return InvalidBase64;
    }
    var outLength := |body| / 4 * 3 + tail;
    if outLength > MAX_SEND_BYTES {
      return TooLarge(outLength);
    }
    r := DecodeBody(body);
  }

  // ----- what it promises -----

  lemma BytesBack(b0: Byte, b1: Byte, b2: Byte)
    ensures First(b0 / 4, b0 % 4 * 16 + b1 / 16) == b0
    ensures Second(b0 % 4 * 16 + b1 / 16, b1 % 16 * 4 + b2 / 64) == b1
    ensures Third(b1 % 16 * 4 + b2 / 64, b2 % 64) == b2
  {
  }

  lemma {:induction false} DigitsRoundTrip(bs: seq<Byte>)
    ensures DecodeDigits(EncodeDigits(bs)) == bs
    ensures |EncodeDigits(bs)| == |bs| / 3 * 4 + (if |bs| % 3 == 0 then 0 else |bs| % 3 + 1)
  {
    hide First, Second, Third;
    if |bs| >= 3 {
      BytesBack(bs[0], bs[1], bs[2]);
      DigitsRoundTrip(bs[3..]);
      var ds := EncodeDigits(bs);
      assert ds[4..] == EncodeDigits(bs[3..]);
      assert bs == [bs[0], bs[1], bs[2]] + bs[3..];
    } else if |bs| == 2 {
      BytesBack(bs[0], bs[1], 0);
    } else if |bs| == 1 {
      BytesBack(bs[0], 0, 0);
    }
  }

  lemma LettersDecode(ds: seq<Digit>)
    ensures AllLetters(Letters(ds)) && Digits(Letters(ds)) == ds
    ensures forall i :: 0 <= i < |ds| ==> Letters(ds)[i] != PAD
  {
    hide DecodeDigit;
    forall i | 0 <= i < |ds| ensures DecodeDigit(Letters(ds)[i]) == Some(ds[i]) && Letters(ds)[i] != PAD {
      assert Letters(ds)[i] == Letter(ds[i]);
    }
  }

  lemma BodyPadded(text: seq<Byte>, n: nat)
    requires forall i :: 0 <= i < |text| ==> text[i] != PAD
    ensures Body(text) == text && Body(text + Padding(n)) == text
  {
    if text != [] {
      assert text[|text| - 1] != PAD;
    }
  }

  lemma LettersLength(ds: seq<Digit>)
    ensures |Letters(ds)| == |ds|
  {
  }

  lemma PaddingFills(n: nat)
    ensures var digits := n / 3 * 4 + (if n % 3 == 0 then 0 else n % 3 + 1);
            (digits + |Padding(n)|) % 4 == 0 && |Padding(n)| < 3
  {
  }

  /** Every byte string within the limit comes back from its encoding, padded or not, and a
      longer one is turned down with its length, before anything is decoded. */
  lemma RoundTrip(bs: seq<Byte>)
    ensures var answer := if |bs| <= MAX_SEND_BYTES then Ok(bs) else TooLarge(|bs|);
            Decode(Encode(bs)) == answer && Decode(Encode(bs) + Padding(|bs|)) == answer
    ensures |Encode(bs) + Padding(|bs|)| % 4 == 0 && |Padding(|bs|)| < 3
  {
    hide DecodeDigits, EncodeDigits, DecodeDigit, Letter, Letters, Digits, AllLetters, Body, Padding;
    DigitsRoundTrip(bs);
    LettersDecode(EncodeDigits(bs));
    LettersLength(EncodeDigits(bs));
    BodyPadded(Encode(bs), |bs|);
    PaddingFills(|bs|);
  }

  lemma {:induction false} DecodedLength(ds: seq<Digit>)
    requires |ds| % 4 != 1
    ensures |DecodeDigits(ds)| == OutLength(|ds|)
  {
    if |ds| >= 4 {
      DecodedLength(ds[4..]);
    }
  }

  /** Exactly which texts are accepted; each gives exactly the length computed beforehand. */
  lemma AcceptsExactly(raw: seq<Byte>)
    ensures var body := Body(raw);
            Decode(raw).Ok? <==> |body| % 4 != 1 && OutLength(|body|) <= MAX_SEND_BYTES && AllLetters(body)
    ensures Decode(raw).Ok? ==> |Decode(raw).bytes| == OutLength(|Body(raw)|)
  {
    var body := Body(raw);
    if |body| % 4 != 1 && AllLetters(body) {
      DecodedLength(Digits(body));
    }
  }

  /** The bits of the last digit that make no byte. */
  function SpareBits(ds: seq<Digit>): nat {
    if |ds| % 4 == 2 then ds[|ds| - 1] % 16 else if |ds| % 4 == 3 then ds[|ds| - 1] % 4 else 0
  }

  lemma DigitsBack(d0: Digit, d1: Digit, d2: Digit, d3: Digit)
    ensures var b0, b1, b2 := First(d0, d1), Second(d1, d2), Third(d2, d3);
            && b0 / 4 == d0 && b0 % 4 * 16 + b1 / 16 == d1 && b1 % 16 * 4 + b2 / 64 == d2 && b2 % 64 == d3
            && b0 % 4 * 16 == d1 - d1 % 16 && b1 % 16 * 4 == d2 - d2 % 4
  {
  }

  lemma EncodeGroup(d0: Digit, d1: Digit, d2: Digit, d3: Digit, rest: seq<Byte>)
    ensures EncodeDigits([First(d0, d1), Second(d1, d2), Third(d2, d3)] + rest) == [d0, d1, d2, d3] + EncodeDigits(rest)
  {
    hide First, Second, Third;
    DigitsBack(d0, d1, d2, d3);
    var bs := [First(d0, d1), Second(d1, d2), Third(d2, d3)] + rest;
    assert bs[3..] == rest;
  }

  lemma EncodeOne(d0: Digit, d1: Digit)
    ensures EncodeDigits([First(d0, d1)]) == [d0, d1 - d1 % 16]
  {
    hide First;
    DigitsBack(d0, d1, 0, 0);
  }

  lemma EncodeTwo(d0: Digit, d1: Digit, d2: Digit)
    ensures EncodeDigits([First(d0, d1), Second(d1, d2)]) == [d0, d1, d2 - d2 % 4]
  {
    hide First, Second;
    DigitsBack(d0, d1, d2, 0);
  }

  lemma LastDiffers(a: seq<Digit>, b: seq<Digit>, gap: nat)
    requires |a| == |b| > 0 && a[..|a| - 1] == b[..|b| - 1] && a[|a| - 1] + gap == b[|b| - 1]
    ensures a == b <==> gap == 0
  {
    assert a == a[..|a| - 1] + [a[|a| - 1]] && b == b[..|b| - 1] + [b[|b| - 1]];
  }

  lemma ReencodeOne(ds: seq<Digit>)
    requires |ds| == 2
    ensures EncodeDigits(DecodeDigits(ds)) == ds <==> SpareBits(ds) == 0
  {
    hide First, EncodeDigits;
    EncodeOne(ds[0], ds[1]);
    LastDiffers([ds[0], ds[1] - ds[1] % 16], ds, ds[1] % 16);
  }

  lemma ReencodeTwo(ds: seq<Digit>)
    requires |ds| == 3
    ensures EncodeDigits(DecodeDigits(ds)) == ds <==> SpareBits(ds) == 0
  {
    hide First, Second, EncodeDigits;
    EncodeTwo(ds[0], ds[1], ds[2]);
    LastDiffers([ds[0], ds[1], ds[2] - ds[2] % 4], ds, ds[2] % 4);
  }

  lemma ReencodeGroup(ds: seq<Digit>)
    requires |ds| >= 4
    ensures EncodeDigits(DecodeDigits(ds)) == ds <==> EncodeDigits(DecodeDigits(ds[4..])) == ds[4..]
  {
    hide First, Second, Third, EncodeDigits;
    var group := [ds[0], ds[1], ds[2], ds[3]];
    var rest := EncodeDigits(DecodeDigits(ds[4..]));
    EncodeGroup(ds[0], ds[1], ds[2], ds[3], DecodeDigits(ds[4..]));
    assert EncodeDigits(DecodeDigits(ds)) == group + rest;
    assert ds == group + ds[4..];
    assert (group + rest)[4..] == rest;
  }

  lemma SpareOfRest(ds: seq<Digit>)
    requires |ds| >= 4 && |ds| % 4 != 1
    ensures SpareBits(ds) == SpareBits(ds[4..]) && |ds[4..]| % 4 != 1
  {
  }

  lemma NothingEncoded()
    ensures EncodeDigits(DecodeDigits([])) == [] && SpareBits([]) == 0
  {
  }

  lemma {:induction false} Reencode(ds: seq<Digit>)
    requires |ds| % 4 != 1
    ensures EncodeDigits(DecodeDigits(ds)) == ds <==> SpareBits(ds) == 0
  {
    hide EncodeDigits, DecodeDigits, SpareBits;
    if |ds| == 0 {
      NothingEncoded();
    } else if |ds| == 2 {
      ReencodeOne(ds);
    } else if |ds| == 3 {
      ReencodeTwo(ds);
    } else {
      ReencodeGroup(ds);
      SpareOfRest(ds);
      Reencode(ds[4..]);
    }
  }

  /** Encoding an accepted text's bytes gives the text back (padding aside) exactly when its
      spare bits are zero: those bits are ignored, not checked. */
  lemma TextRoundTrip(raw: seq<Byte>)
    requires Decode(raw).Ok?
    ensures Encode(Decode(raw).bytes) == Body(raw) <==> SpareBits(Digits(Body(raw))) == 0
  {
    var body := Body(raw);
    var ds := Digits(body);
    Reencode(ds);
    forall i | 0 <= i < |body| ensures Letter(ds[i]) == body[i] {
    }
    assert Letters(ds) == body;
    var again := EncodeDigits(DecodeDigits(ds));
    if Letters(again) == body {
      forall i | 0 <= i < |ds| ensures again[i] == ds[i] {
        assert Letters(again)[i] == Letter(again[i]);
      }
      assert again == ds;
    }
  }

  // ----- which texts are accepted, against the standard's alphabet -----

  /** Successive characters. */
  function Range(first: char, n: nat): (s: seq<char>)
    requires first as int + n < 128
    ensures |s| == n
  {
    seq(n, i requires 0 <= i < n => (first as int + i) as char)
  }

  /** RFC 4648 section 4, table 1, in order of value. */
  function Alphabet(): seq<char> { Range('A', 26) + Range('a', 26) + Range('0', 10) + ['+', '/'] }

  lemma AlphabetAt(d: Digit)
    ensures |Alphabet()| == 64 && Alphabet()[d] as int == Letter(d)
  {
  }

  /** A character stands for a value exactly when it is the one at that place of the table. */
  lemma AlphabetExactly(b: Byte, d: Digit)
    ensures |Alphabet()| == 64
    ensures DecodeDigit(b) == Some(d) <==> b == Alphabet()[d] as int
  {
    hide Alphabet;
    AlphabetAt(d);
  }

  /** The text that spells these digits. */
  ghost predicate Spelt(text: seq<Byte>, ds: seq<Digit>) {
    |text| == |ds| && |Alphabet()| == 64 && forall i :: 0 <= i < |ds| ==> text[i] == Alphabet()[ds[i]] as int
  }

  function Pads(k: nat): seq<Byte> { if k == 0 then [] else [PAD] + Pads(k - 1) }

  /** The text is this body and as many of at most two pad characters as stand at its end. */
  predicate PaddedBody(raw: seq<Byte>, body: seq<Byte>, k: nat) {
    k <= 2 && raw == body + Pads(k) && (k < 2 ==> body == [] || body[|body| - 1] != PAD)
  }

  lemma FewPads(body: seq<Byte>)
    ensures body + Pads(0) == body && body + Pads(1) == body + [PAD] && body + Pads(2) == body + [PAD, PAD]
  {
    assert Pads(1) == [PAD] && Pads(2) == [PAD] + Pads(1);
  }

  lemma BodyExactly(raw: seq<Byte>, body: seq<Byte>)
    ensures Body(raw) == body <==> exists k: nat :: PaddedBody(raw, body, k)
  {
    hide Pads;
    FewPads(body);
    var n := |raw|;
    if Body(raw) == body {
      var k := n - |body|;
      assert k == 1 ==> raw == raw[..n - 1] + [PAD];
      assert k == 2 ==> raw == raw[..n - 2] + [PAD, PAD];
      assert PaddedBody(raw, body, k);
    }
    if k: nat :| PaddedBody(raw, body, k) {
      assert k == 0 || k == 1 || k == 2;
      assert raw[..|body|] == body;
    }
  }

  lemma SpeltExactly(body: seq<Byte>, ds: seq<Digit>)
    ensures Spelt(body, ds) <==> AllLetters(body) && Digits(body) == ds
  {
    hide Alphabet, DecodeDigit;
    forall i | 0 <= i < |body| && i < |ds| ensures |Alphabet()| == 64
      && (DecodeDigit(body[i]) == Some(ds[i]) <==> body[i] == Alphabet()[ds[i]] as int)
    {
      AlphabetExactly(body[i], ds[i]);
    }
    AlphabetExactly(0, 0);
    if AllLetters(body) && Digits(body) == ds {
      assert forall i :: 0 <= i < |ds| ==> DecodeDigit(body[i]) == Some(Digits(body)[i]);
    }
    if Spelt(body, ds) {
      assert forall i :: 0 <= i < |body| ==> DecodeDigit(body[i]) == Some(ds[i]);
    }
  }

  lemma WholeBytes(n: nat)
    ensures n % 4 != 1 ==> OutLength(n) == 6 * n / 8
  {
  }

  /** What is decoded, exactly: digits of the table, not one left over, at most two pads behind
      them, and no more whole bytes in them than the limit. */
  lemma DecodesExactly(raw: seq<Byte>, bytes: seq<Byte>)
    ensures Decode(raw) == Ok(bytes) <==>
              exists body, k, ds: seq<Digit> ::
                && PaddedBody(raw, body, k) && Spelt(body, ds)
                && |ds| % 4 != 1 && 6 * |ds| / 8 <= MAX_SEND_BYTES && bytes == DecodeDigits(ds)
  {
    hide DecodeDigits, PaddedBody, Spelt, Body, AllLetters, OutLength;
    if Decode(raw) == Ok(bytes) {
      var body := Body(raw);
      BodyExactly(raw, body);
      var k: nat :| PaddedBody(raw, body, k);
      SpeltExactly(body, Digits(body));
      WholeBytes(|body|);
    }
    if body, k, ds: seq<Digit> :|
      && PaddedBody(raw, body, k) && Spelt(body, ds)
      && |ds| % 4 != 1 && 6 * |ds| / 8 <= MAX_SEND_BYTES && bytes == DecodeDigits(ds) {
      BodyExactly(raw, body);
      SpeltExactly(body, ds);
      WholeBytes(|body|);
    }
  }

  /** What is turned down for its length: by that alone, whatever characters the body holds. */
  lemma TooLargeExactly(raw: seq<Byte>, n: nat)
    ensures Decode(raw) == TooLarge(n) <==>
              exists body, k :: PaddedBody(raw, body, k) && |body| % 4 != 1 && n == 6 * |body| / 8 && n > MAX_SEND_BYTES
  {
    hide DecodeDigits, PaddedBody, Body, OutLength;
    WholeBytes(|Body(raw)|);
    if Decode(raw) == TooLarge(n) {
      BodyExactly(raw, Body(raw));
      var k: nat :| PaddedBody(raw, Body(raw), k);
    }
    if body, k :| PaddedBody(raw, body, k) && |body| % 4 != 1 && n == 6 * |body| / 8 && n > MAX_SEND_BYTES {
      BodyExactly(raw, body);
    }
  }
}
