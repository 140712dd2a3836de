/** Numeric and alphanumeric segments (qrcodegen_makeNumeric, qrcodegen_makeAlphanumeric
    in qr.c), and a reader that takes their bits back to the text. */
module QrText {
  import Arith
  import opened Sequences
  import opened Bits
  import opened Gf256
  import opened BitBuffer
  import opened BitStrings
  import opened QrSegments

  // ---- Segment lengths

  /** calcSegmentBitLength for numChars characters; ECI segments have none. */
  function CalcSegmentBitLength(mode: Mode, numChars: nat): int
    requires mode == ECI ==> numChars == 0
  {
    if numChars > INT16_MAX then -1
    else
      var result :=
        match mode
        case NUMERIC => (numChars * 10 + 2) / 3
        case ALPHANUMERIC => (numChars * 11 + 1) / 2
        case BYTE => numChars * 8
        case KANJI => numChars * 13
        case ECI => 3 * 8;
      if result > INT16_MAX then -1 else result
  }

  // ---- Numeric mode: three digits in ten bits

  predicate IsNumeric(text: string) { forall i :: 0 <= i < |text| ==> '0' <= text[i] <= '9' }

  function Digit(c: char): nat
    requires '0' <= c <= '9'
  {
    c as int - '0' as int
  }

  /** The value of a run of digits, as the source accumulates it. */
  function DigitsValue(text: string): nat
    requires IsNumeric(text)
  {
    if text == "" then 0 else DigitsValue(text[..|text| - 1]) * 10 + Digit(text[|text| - 1])
  }

  function NumericBits(text: string): seq<bool>
    requires IsNumeric(text)
  {
    if |text| >= 3 then BigEndian(DigitsValue(text[..3]), 10) + NumericBits(text[3..])
    else if |text| > 0 then BigEndian(DigitsValue(text), |text| * 3 + 1)
    else []
  }

  lemma {:induction false} NumericLength(text: string)
    requires IsNumeric(text)
    ensures |NumericBits(text)| == (|text| * 10 + 2) / 3
  {
    if |text| >= 3 { NumericLength(text[3..]); }
  }

  lemma {:induction false} DigitsBound(text: string)
    requires IsNumeric(text) && |text| <= 3
    ensures DigitsValue(text) < if |text| == 0 then 1 else if |text| == 1 then 10 else if |text| == 2 then 100 else 1000
  {
    if text != "" { DigitsBound(text[..|text| - 1]); }
  }

  lemma GroupFits(text: string)
    requires IsNumeric(text) && 0 < |text| <= 3
    ensures DigitsValue(text) < Pow2(|text| * 3 + 1)
  {
    DigitsBound(text);
    assert Pow2(4) == 16 && Pow2(7) == 128 && Pow2(10) == 1024;
  }

  /** qrcodegen_makeNumeric. The text must be short enough for its segment, as the source asserts. */
  method MakeNumeric(digits: string, buf: array<Byte>) returns (seg: Segment)
    requires IsNumeric(digits) && CalcSegmentBitLength(NUMERIC, |digits|) != -1
    requires (CalcSegmentBitLength(NUMERIC, |digits|) + 7) / 8 <= buf.Length
    modifies buf
    ensures seg.Valid() && seg.mode == NUMERIC && seg.numChars == |digits|
    ensures seg.bitLength == CalcSegmentBitLength(NUMERIC, |digits|)
    ensures BitsOf(seg.data)[..seg.bitLength] == NumericBits(digits)
  {
    hide Holds, BigEndian, Pow2, Bit, NumericBits, DigitsValue;
    var bitLen := CalcSegmentBitLength(NUMERIC, |digits|);
    var lim := (bitLen + 7) / 8;
    NumericLength(digits);
    ClearBytes(buf, lim);
    var bitLength := 0;
    var accumData, accumCount: int := 0, 0;
    ghost var done, from := [], 0;
    assert digits[0..] == digits;
    NoDigits(digits, 0);
    for i := 0 to |digits|
      invariant 0 <= accumCount < 3 && from == i - accumCount >= 0
      invariant accumData == DigitsValue(digits[from..i])
      invariant bitLength == |done| && Holds(buf[..lim], done)
      invariant done + NumericBits(digits[from..]) == NumericBits(digits)
    {
      NumericStep(digits, from, i);
      accumData := accumData * 10 + Digit(digits[i]);
      accumCount := accumCount + 1;
      if accumCount == 3 {
        NumericGroupStep(digits, from, done);
        bitLength := AppendBits(accumData, 10, buf, bitLength, lim, done);
        done := done + BigEndian(accumData, 10);
        accumData := 0;
        accumCount := 0;
        from := i + 1;
        NoDigits(digits, from);
      }
    }
    assert digits[from..|digits|] == digits[from..];
    NumericEnd(digits, from, done);
    if accumCount > 0 {
      GroupFits(digits[from..]);
      bitLength := AppendBits(accumData, accumCount * 3 + 1, buf, bitLength, lim, done);
    }
    seg := FinishSegment(NUMERIC, |digits|, buf, bitLength, lim, NumericBits(digits));
  }

  lemma NoDigits(text: string, i: nat)
    requires IsNumeric(text) && i <= |text|
    ensures DigitsValue(text[i..i]) == 0
  {}

  lemma NumericEnd(text: string, from: nat, done: seq<bool>)
    requires IsNumeric(text) && from <= |text| < from + 3
    requires done + NumericBits(text[from..]) == NumericBits(text)
    ensures from == |text| ==> done == NumericBits(text)
    ensures from < |text| ==> done + BigEndian(DigitsValue(text[from..]), (|text| - from) * 3 + 1) == NumericBits(text)
  {}

  /** One digit more. */
  lemma NumericStep(text: string, from: nat, i: nat)
    requires IsNumeric(text) && from <= i < |text|
    ensures DigitsValue(text[from..i + 1]) == DigitsValue(text[from..i]) * 10 + Digit(text[i])
  {
    hide DigitsValue;
    assert text[from..i + 1][..i - from] == text[from..i];
    DigitsSnoc(text[from..i + 1]);
  }

  /** One group more. */
  lemma NumericGroupStep(text: string, from: nat, done: seq<bool>)
    requires IsNumeric(text) && from + 3 <= |text|
    requires done + NumericBits(text[from..]) == NumericBits(text)
    ensures DigitsValue(text[from..from + 3]) < Pow2(10)
    ensures var group := BigEndian(DigitsValue(text[from..from + 3]), 10);
      && done + group + NumericBits(text[from + 3..]) == NumericBits(text)
      && |done + group| <= |NumericBits(text)|
  {
    hide BigEndian, Pow2, NumericBits, DigitsValue;
    var rest := text[from..];
    assert rest[..3] == text[from..from + 3] && rest[3..] == text[from + 3..];
    NumericGroup(rest);
    GroupFits(rest[..3]);
    Associate(done, BigEndian(DigitsValue(rest[..3]), 10), NumericBits(rest[3..]));
  }

  lemma DigitsSnoc(text: string)
    requires IsNumeric(text) && text != ""
    ensures DigitsValue(text) == DigitsValue(text[..|text| - 1]) * 10 + Digit(text[|text| - 1])
  {}

  lemma NumericGroup(text: string)
    requires IsNumeric(text) && |text| >= 3
    ensures NumericBits(text) == BigEndian(DigitsValue(text[..3]), 10) + NumericBits(text[3..])
  {}

  /** memset(buf, 0, lim) */
  method ClearBytes(buf: array<Byte>, lim: nat)
    requires lim <= buf.Length
    modifies buf
    ensures Holds(buf[..lim], [])
  {
    for i := 0 to lim
      invariant forall k :: 0 <= k < i ==> buf[k] == 0
    {
      buf[i] := 0;
    }
    ZerosHold(buf[..lim]);
  }

  method FinishSegment(mode: Mode, numChars: int, buf: array<Byte>, bitLength: int, lim: nat, ghost bits: seq<bool>)
    returns (seg: Segment)
    requires 0 <= numChars <= INT16_MAX && bitLength == |bits| <= INT16_MAX
    requires lim <= buf.Length && Holds(buf[..lim], bits)
    ensures seg == Segment(mode, numChars, buf[..], bitLength) && seg.Valid()
    ensures BitsOf(seg.data)[..bitLength] == bits
  {
    hide Bit;
    seg := Segment(mode, numChars, buf[..], bitLength);
    forall i | 0 <= i < |bits|
      ensures BitsOf(buf[..])[i] == bits[i]
    {
      assert DataBit(buf[..lim], i) == bits[i];
    }
  }

  /** A reader of numeric data. */
  function ParseNumeric(bits: seq<bool>, numChars: nat): string
    requires |bits| == (numChars * 10 + 2) / 3
  {
    if numChars >= 3 then Digits(Number(bits[..10]), 3) + ParseNumeric(bits[10..], numChars - 3)
    else Digits(Number(bits), numChars)
  }

  /** The n lowest decimal digits of v. */
  function Digits(v: nat, n: nat): string {
    if n == 0 then "" else Digits(v / 10, n - 1) + [(v % 10 + '0' as int) as char]
  }

  lemma {:induction false} DigitsOfValue(text: string)
    requires IsNumeric(text)
    ensures Digits(DigitsValue(text), |text|) == text
  {
    if text != "" {
      var front, last := text[..|text| - 1], text[|text| - 1];
      DigitsOfValue(front);
      DigitsSnoc(text);
      DigitsMore(DigitsValue(front), Digit(last), |front|);
      assert text == front + [last];
    }
  }

  lemma DigitsMore(v: nat, d: nat, n: nat)
    requires d < 10
    ensures Digits(v * 10 + d, n + 1) == Digits(v, n) + [(d + '0' as int) as char]
  {
    Arith.DivModUnique(10, v, d);
  }

  /** A numeric segment reads back as its digits. */
  lemma {:induction false} NumericRoundTrip(text: string)
    requires IsNumeric(text)
    ensures |NumericBits(text)| == (|text| * 10 + 2) / 3
    ensures ParseNumeric(NumericBits(text), |text|) == text
  {
    hide BigEndian, Pow2, Number;
    NumericLength(text);
    if |text| >= 3 {
      NumericRoundTrip(text[3..]);
      GroupFits(text[..3]);
      var group := BigEndian(DigitsValue(text[..3]), 10);
      NumberOfBigEndian(DigitsValue(text[..3]), 10);
      assert NumericBits(text)[..10] == group && NumericBits(text)[10..] == NumericBits(text[3..]);
      DigitsOfValue(text[..3]);
      assert text == text[..3] + text[3..];
    } else if |text| > 0 {
      GroupFits(text);
      NumberOfBigEndian(DigitsValue(text), |text| * 3 + 1);
      DigitsOfValue(text);
    }
  }

  // ---- Alphanumeric mode: two characters in eleven bits

  /** ALPHANUMERIC_CHARSET */
  function Charset(): (s: string)
    ensures |s| == 45
  {
    "0123456789" + "ABCDEFGHIJKLMNOPQRSTUVWXYZ" + " $%*+-./:"
  }

  /** strchr: the index of the first occurrence of c at or after i, or |s|. */
  function Strchr(s: string, c: char, i: nat): (k: nat)
    requires i <= |s|
    ensures i <= k <= |s|
    ensures k < |s| ==> s[k] == c
    ensures forall j :: i <= j < k ==> s[j] != c
    decreases |s| - i
  {
    if i == |s| || s[i] == c then i else Strchr(s, c, i + 1)
  }

  function CharIndex(c: char): (k: nat)
    ensures k <= 45
    ensures k < 45 ==> Charset()[k] == c
  {
    Strchr(Charset(), c, 0)
  }

  predicate IsAlphanumeric(text: string) { forall i :: 0 <= i < |text| ==> CharIndex(text[i]) < 45 }

  function CharsValue(text: string): nat
  {
    if text == "" then 0 else CharsValue(text[..|text| - 1]) * 45 + CharIndex(text[|text| - 1])
  }

  function AlphanumericBits(text: string): seq<bool>
  {
    if |text| >= 2 then BigEndian(CharsValue(text[..2]), 11) + AlphanumericBits(text[2..])
    else if |text| == 1 then BigEndian(CharsValue(text), 6)
    else []
  }

  lemma {:induction false} AlphanumericLength(text: string)
    ensures |AlphanumericBits(text)| == (|text| * 11 + 1) / 2
  {
    if |text| >= 2 { AlphanumericLength(text[2..]); }
  }

  lemma PairFits(text: string)
    requires IsAlphanumeric(text) && 0 < |text| <= 2
    ensures CharsValue(text) < Pow2(if |text| == 2 then 11 else 6)
  {
    hide CharIndex;
    assert Pow2(6) == 64 && Pow2(11) == 2048;
    assert CharIndex(text[0]) < 45;
    assert |text| == 2 ==> CharIndex(text[1]) < 45;
    assert CharsValue("") == 0;
    assert CharsValue(text[..1]) == CharIndex(text[0]) by { assert text[..1][..0] == ""; }
    if |text| == 1 { assert text[..1] == text; }
  }

  /** qrcodegen_makeAlphanumeric */
  method MakeAlphanumeric(text: string, buf: array<Byte>) returns (seg: Segment)
    requires IsAlphanumeric(text) && CalcSegmentBitLength(ALPHANUMERIC, |text|) != -1
    requires (CalcSegmentBitLength(ALPHANUMERIC, |text|) + 7) / 8 <= buf.Length
    modifies buf
    ensures seg.Valid() && seg.mode == ALPHANUMERIC && seg.numChars == |text|
    ensures seg.bitLength == CalcSegmentBitLength(ALPHANUMERIC, |text|)
    ensures BitsOf(seg.data)[..seg.bitLength] == AlphanumericBits(text)
  {
    hide Holds, BigEndian, Pow2, Bit, CharIndex, AlphanumericBits, CharsValue;
    var bitLen := CalcSegmentBitLength(ALPHANUMERIC, |text|);
    var lim := (bitLen + 7) / 8;
    AlphanumericLength(text);
    ClearBytes(buf, lim);
    var bitLength := 0;
    var accumData, accumCount: int := 0, 0;
    ghost var done, from := [], 0;
    assert text[0..] == text;
    NoChars(text, 0);
    for i := 0 to |text|
      invariant 0 <= accumCount < 2 && from == i - accumCount >= 0
      invariant accumData == CharsValue(text[from..i])
      invariant bitLength == |done| && Holds(buf[..lim], done)
      invariant done + AlphanumericBits(text[from..]) == AlphanumericBits(text)
    {
      AlphanumericStep(text, from, i, done);
      accumData := accumData * 45 + CharIndex(text[i]);
      accumCount := accumCount + 1;
      if accumCount == 2 {
        bitLength := AppendBits(accumData, 11, buf, bitLength, lim, done);
        done := done + BigEndian(accumData, 11);
        accumData := 0;
        accumCount := 0;
        from := i + 1;
        NoChars(text, from);
      }
    }
    assert text[from..|text|] == text[from..];
    AlphanumericEnd(text, from, done);
    if accumCount > 0 {
      PairFits(text[from..]);
      bitLength := AppendBits(accumData, 6, buf, bitLength, lim, done);
    }
    seg := FinishSegment(ALPHANUMERIC, |text|, buf, bitLength, lim, AlphanumericBits(text));
  }

  lemma NoChars(text: string, i: nat)
    requires i <= |text|
    ensures CharsValue(text[i..i]) == 0
  {}

  lemma AlphanumericEnd(text: string, from: nat, done: seq<bool>)
    requires from <= |text| < from + 2
    requires done + AlphanumericBits(text[from..]) == AlphanumericBits(text)
    ensures from == |text| ==> done == AlphanumericBits(text)
    ensures from < |text| ==> done + BigEndian(CharsValue(text[from..]), 6) == AlphanumericBits(text)
  {}

  /** One character more, and one pair more when it is the second. */
  lemma AlphanumericStep(text: string, from: nat, i: nat, done: seq<bool>)
    requires IsAlphanumeric(text) && from <= i < |text| && i < from + 2
    requires done + AlphanumericBits(text[from..]) == AlphanumericBits(text)
    ensures CharsValue(text[from..i + 1]) == CharsValue(text[from..i]) * 45 + CharIndex(text[i])
    ensures i == from + 1 ==>
      var group := BigEndian(CharsValue(text[from..i + 1]), 11);
      && done + group + AlphanumericBits(text[i + 1..]) == AlphanumericBits(text)
      && |done + group| <= |AlphanumericBits(text)|
    ensures i == from + 1 ==> CharsValue(text[from..i + 1]) < Pow2(11)
  {
    hide *;
    assert text[from..i + 1][..i - from] == text[from..i];
    CharsSnoc(text[from..i + 1]);
    if i == from + 1 {
      var rest := text[from..];
      assert rest[..2] == text[from..i + 1] && rest[2..] == text[i + 1..];
      AlphanumericPair(rest);
      Within(text, from, i + 1);
      PairFits(text[from..i + 1]);
      Associate(done, BigEndian(CharsValue(rest[..2]), 11), AlphanumericBits(rest[2..]));
    }
  }

  lemma Within(text: string, i: nat, j: nat)
    requires IsAlphanumeric(text) && i <= j <= |text|
    ensures IsAlphanumeric(text[i..j])
  {
    hide CharIndex;
  }

  lemma InCharset(text: string, i: nat)
    requires IsAlphanumeric(text) && i < |text|
    ensures CharIndex(text[i]) < 45
  {}

  lemma AlphanumericSingle(text: string)
    requires |text| == 1
    ensures AlphanumericBits(text) == BigEndian(CharsValue(text), 6) && CharsValue(text) == CharIndex(text[0])
  {
    hide CharIndex;
    assert text[..0] == "";
  }

  lemma CharsSnoc(text: string)
    requires text != ""
    ensures CharsValue(text) == CharsValue(text[..|text| - 1]) * 45 + CharIndex(text[|text| - 1])
  {}

  lemma AlphanumericPair(text: string)
    requires |text| >= 2
    ensures AlphanumericBits(text) == BigEndian(CharsValue(text[..2]), 11) + AlphanumericBits(text[2..])
  {}

  /** A reader of alphanumeric data. */
  function ParseAlphanumeric(bits: seq<bool>, numChars: nat): string
    requires |bits| == (numChars * 11 + 1) / 2
  {
    if numChars >= 2 then
      var v := Number(bits[..11]);
      [Charset()[v / 45 % 45], Charset()[v % 45]] + ParseAlphanumeric(bits[11..], numChars - 2)
    else if numChars == 1 then [Charset()[Number(bits) % 45]]
    else ""
  }

  /** An alphanumeric segment reads back as its text. */
  lemma {:induction false} AlphanumericRoundTrip(text: string)
    requires IsAlphanumeric(text)
    ensures |AlphanumericBits(text)| == (|text| * 11 + 1) / 2
    ensures ParseAlphanumeric(AlphanumericBits(text), |text|) == text
  {
    hide BigEndian, Pow2, Number, Charset, CharIndex, AlphanumericBits, CharsValue, IsAlphanumeric;
    AlphanumericLength(text);
    if |text| >= 2 {
      var pair, rest := text[..2], text[2..];
      Within(text, 2, |text|);
      Within(text, 0, 2);
      assert text[0..2] == pair && text[2..|text|] == rest;
      AlphanumericRoundTrip(rest);
      AlphanumericPair(text);
      PairFits(pair);
      PairValue(pair);
      NumberOfBigEndian(CharsValue(pair), 11);
      var bits := AlphanumericBits(text);
      assert bits[..11] == BigEndian(CharsValue(pair), 11) && bits[11..] == AlphanumericBits(rest);
      InCharset(text, 0);
      InCharset(text, 1);
      assert text == [text[0], text[1]] + rest;
    } else if |text| == 1 {
      AlphanumericSingle(text);
      PairFits(text);
      InCharset(text, 0);
      NumberOfBigEndian(CharsValue(text), 6);
    } else {
      assert text == "";
    }
  }

  lemma PairValue(text: string)
    requires |text| == 2 && IsAlphanumeric(text)
    ensures var v := CharsValue(text);
            v / 45 % 45 == CharIndex(text[0]) && v % 45 == CharIndex(text[1])
  {
    hide CharIndex, CharsValue;
    CharsTwo(text);
    PairParts(CharsValue(text), CharIndex(text[0]), CharIndex(text[1]));
  }

  lemma PairParts(v: nat, a: nat, b: nat)
    requires v == a * 45 + b && a < 45 && b < 45
    ensures v / 45 % 45 == a && v % 45 == b
  {}

  lemma CharsTwo(text: string)
    requires |text| == 2
    ensures CharsValue(text) == CharIndex(text[0]) * 45 + CharIndex(text[1])
  {
    hide CharIndex;
    var first := text[..1];
    assert first[..0] == "" && first[0] == text[0];
    assert CharsValue(first) == CharIndex(first[0]);
  }

}
