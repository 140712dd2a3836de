/** The contents of QR segments: making byte and ECI segments, encoding a text
    (qrcodegen_makeBytes, qrcodegen_makeEci and qrcodegen_encodeText in qr.c), and a reader
    that parses the data bits of a symbol back, segment headers included. */
module QrContents {
  import opened Sequences
  import opened Bits
  import opened Bytes
  import opened BitBuffer
  import opened BitStrings
  import opened Interleave
  import opened Penalty
  import opened QrSegments
  import opened QrText
  import opened QrSymbol
  import opened QrEncoder
  import opened QrReader

  // ---- What segments hold

  /** What the source makes segments of. */
  datatype Content =
    | NumericText(text: string)
    | AlphanumericText(text: string)
    | ByteText(bytes: seq<Byte>)
    | EciDesignator(value: nat)
  {
    predicate Valid() {
      match this
      case NumericText(text) => IsNumeric(text)
      case AlphanumericText(text) => IsAlphanumeric(text)
      case ByteText(_) => true
      case EciDesignator(value) => value < 1_000_000
    }

    function SegmentMode(): Mode {
      match this
      case NumericText(_) => NUMERIC
      case AlphanumericText(_) => ALPHANUMERIC
      case ByteText(_) => BYTE
      case EciDesignator(_) => ECI
    }

    function Count(): nat {
      match this
      case NumericText(text) => |text|
      case AlphanumericText(text) => |text|
      case ByteText(bytes) => |bytes|
      case EciDesignator(_) => 0
    }

    function DataBits(): seq<bool>
      requires Valid()
    {
      match this
      case NumericText(text) => NumericBits(text)
      case AlphanumericText(text) => AlphanumericBits(text)
      case ByteText(bytes) => BitsOf(bytes)
      case EciDesignator(value) => EciBits(value)
    }
  }

  /** One, two or three bytes, told apart by their first bits. */
  function EciBits(value: nat): seq<bool> {
    if value < 128 then BigEndian(value, 8)
    else if value < 16384 then BigEndian(2, 2) + BigEndian(value, 14)
    else BigEndian(6, 3) + BigEndian(value / 1024, 11) + BigEndian(value % 1024, 10)
  }

  /** The segment holds the content. */
  predicate IsContent(seg: Segment, c: Content) {
    && c.Valid() && seg.Valid()
    && seg.mode == c.SegmentMode() && seg.numChars == c.Count() && BitsOf(seg.data)[..seg.bitLength] == c.DataBits()
  }

  predicate AreContents(segs: seq<Segment>, contents: seq<Content>) {
    |segs| == |contents| && forall i :: 0 <= i < |segs| ==> IsContent(segs[i], contents[i])
  }

  // ---- Making segments

  /** qrcodegen_makeBytes */
  method MakeBytes(data: seq<Byte>, buf: array<Byte>) returns (seg: Segment)
    requires CalcSegmentBitLength(BYTE, |data|) != -1 && |data| <= buf.Length
    modifies buf
    ensures IsContent(seg, ByteText(data)) && seg.bitLength == CalcSegmentBitLength(BYTE, |data|)
  {
    hide Bit;
    for i := 0 to |data|
      invariant buf[..i] == data[..i]
    {
      buf[i] := data[i];
    }
    assert data[..|data|] == data;
    assert buf[..] == data + buf[|data|..];
    BitsOfAppend(data, buf[|data|..]);
    seg := Segment(BYTE, |data|, buf[..], 8 * |data|);
  }

  /** qrcodegen_makeEci */
  method MakeEci(assignVal: nat, buf: array<Byte>) returns (seg: Segment)
    requires assignVal < 1_000_000 && buf.Length >= 3
    modifies buf
    ensures IsContent(seg, EciDesignator(assignVal)) && seg.bitLength <= CalcSegmentBitLength(ECI, 0)
  {
    hide Holds, BigEndian, Bit, Pow2;
    EciPowers(assignVal);
    var bitLength := 0;
    if assignVal < 128 {
      ClearBytes(buf, 1);
      bitLength := AppendBits(assignVal, 8, buf, bitLength, 1, []);
      Leading(BigEndian(assignVal, 8));
      seg := FinishSegment(ECI, 0, buf, bitLength, 1, EciBits(assignVal));
    } else if assignVal < 16384 {
      ClearBytes(buf, 2);
      bitLength := AppendBits(2, 2, buf, bitLength, 2, []);
      Leading(BigEndian(2, 2));
      bitLength := AppendBits(assignVal, 14, buf, bitLength, 2, BigEndian(2, 2));
      seg := FinishSegment(ECI, 0, buf, bitLength, 2, EciBits(assignVal));
    } else {
      ClearBytes(buf, 3);
      bitLength := AppendBits(6, 3, buf, bitLength, 3, []);
      Leading(BigEndian(6, 3));
      ghost var high := BigEndian(6, 3) + BigEndian(assignVal / 1024, 11);
      bitLength := AppendBits(assignVal / 1024, 11, buf, bitLength, 3, BigEndian(6, 3));
      bitLength := AppendBits(assignVal % 1024, 10, buf, bitLength, 3, high);
      seg := FinishSegment(ECI, 0, buf, bitLength, 3, EciBits(assignVal));
    }
  }

  lemma EciPowers(value: nat)
    requires value < 1_000_000
    ensures 2 < Pow2(2) && 6 < Pow2(3) && Pow2(8) == 256 && Pow2(14) == 16384 && Pow2(10) == 1024 && Pow2(11) == 2048
    ensures Pow2(21) == 2097152
  {
    assert Pow2(7) == 128;
    Pow2Sum(7, 7);
    Pow2Sum(14, 7);
  }

  lemma Leading(bits: seq<bool>)
    ensures [] + bits == bits
  {}

  // ---- Reading segments

  /** The mode indicators that the source writes; all others end the data. */
  predicate IsIndicator(v: nat) { v == 1 || v == 2 || v == 4 || v == 7 }

  function ModeOf(v: nat): Mode
    requires IsIndicator(v)
  {
    if v == 1 then NUMERIC else if v == 2 then ALPHANUMERIC else if v == 4 then BYTE else ECI
  }

  /** How many data bits follow the count n. */
  function DataLength(mode: Mode, n: nat, rest: seq<bool>): nat {
    match mode
    case NUMERIC => (n * 10 + 2) / 3
    case ALPHANUMERIC => (n * 11 + 1) / 2
    case BYTE => 8 * n
    case KANJI => 13 * n
    case ECI => if rest == [] || !rest[0] then 8 else if |rest| == 1 || !rest[1] then 16 else 24
  }

  function ReadContent(mode: Mode, n: nat, data: seq<bool>): Content
    requires mode != KANJI && |data| == DataLength(mode, n, data)
  {
    match mode
    case NUMERIC => NumericText(ParseNumeric(data, n))
    case ALPHANUMERIC => AlphanumericText(ParseAlphanumeric(data, n))
    case BYTE => ByteText(BytesOf(data))
    case ECI => EciDesignator(Number(if |data| == 8 then data else if |data| == 16 then data[2..] else data[3..]))
  }

  /** The contents of the data bits of a symbol: mode, count and data of each segment, up to
      the terminator or the last three bits. */
  function Parse(bits: seq<bool>, version: int): seq<Content>
    requires 1 <= version <= 40
    decreases |bits|
  {
    if |bits| < 4 || !IsIndicator(Number(bits[..4])) then []
    else
      var mode := ModeOf(Number(bits[..4]));
      var from := 4 + NumCharCountBits(mode, version);
      if |bits| < from then []
      else
        var n := Number(bits[4..from]);
        var len := DataLength(mode, n, bits[from..]);
        if |bits| < from + len then []
        else [ReadContent(mode, n, bits[from..from + len])] + Parse(bits[from + len..], version)
  }

  // ---- Reading back one segment

  /** Whatever follows, the data of a content tell their length and the content. */
  lemma ContentRead(c: Content, rest: seq<bool>)
    requires c.Valid()
    ensures DataLength(c.SegmentMode(), c.Count(), c.DataBits() + rest)
         == DataLength(c.SegmentMode(), c.Count(), c.DataBits()) == |c.DataBits()|
    ensures ReadContent(c.SegmentMode(), c.Count(), c.DataBits()) == c
  {
    hide BigEndian, Pow2, Number, ParseNumeric, ParseAlphanumeric, NumericBits, AlphanumericBits, IsNumeric,
         IsAlphanumeric, BytesOf, EciBits;
    match c
    case NumericText(text) => NumericRoundTrip(text);
    case AlphanumericText(text) => AlphanumericRoundTrip(text);
    case ByteText(bytes) =>
      BytesBits(BitsOf(bytes));
      BitsInjective(BytesOf(BitsOf(bytes)), bytes);
    case EciDesignator(value) => EciRead(value, rest);
  }

  lemma EciRead(value: nat, rest: seq<bool>)
    requires value < 1_000_000
    ensures var data := EciBits(value);
      && DataLength(ECI, 0, data + rest) == DataLength(ECI, 0, data) == |data|
      && ReadContent(ECI, 0, data) == EciDesignator(value)
  {
    hide BigEndian, Pow2, Number;
    EciPowers(value);
    EciFirstBits(value);
    var data := EciBits(value);
    if value < 128 {
      NumberOfBigEndian(value, 8);
    } else if value < 16384 {
      NumberOfBigEndian(value, 14);
      assert data[2..] == BigEndian(value, 14);
    } else {
      NumberOfBigEndian(value, 21);
      BigEndianSplit(value, 11, 10);
      assert data[3..] == BigEndian(value, 21);
    }
  }

  lemma EciFirstBits(value: nat)
    requires value < 1_000_000
    ensures BigEndian(2, 2) == [true, false] && BigEndian(6, 3) == [true, true, false]
    ensures value < 128 ==> !BigEndian(value, 8)[0]
  {
    assert Bit(2, 0) == false && Bit(2, 1) == true;
    assert Bit(6, 0) == false && Bit(6, 1) == true && Bit(6, 2) == true;
    if value < 128 {
      assert Pow2(7) == 128;
      HighBitsClear(value, 7, 7);
    }
  }

  /** One segment, and then the rest. */
  lemma SegmentParsed(seg: Segment, c: Content, version: int, rest: seq<bool>)
    requires 1 <= version <= 40 && IsContent(seg, c) && seg.numChars < Pow2(NumCharCountBits(seg.mode, version))
    ensures Parse(SegmentBits(seg, version) + rest, version) == [c] + Parse(rest, version)
  {
    hide BigEndian, Pow2, Number, DataLength, ReadContent, NumCharCountBits, Mode.Indicator;
    var bits, data := SegmentBits(seg, version) + rest, c.DataBits();
    var from := 4 + NumCharCountBits(seg.mode, version);
    IndicatorRead(c);
    NumberOfBigEndian(seg.numChars, from - 4);
    ContentRead(c, rest);
    assert bits[..4] == BigEndian(seg.mode.Indicator(), 4);
    assert bits[4..from] == BigEndian(seg.numChars, from - 4);
    assert bits[from..] == data + rest;
    assert bits[from..from + |data|] == data && bits[from + |data|..] == rest;
  }

  lemma IndicatorRead(c: Content)
    ensures var mode := c.SegmentMode();
      var v := Number(BigEndian(mode.Indicator(), 4));
      IsIndicator(v) && ModeOf(v) == mode != KANJI
  {
    hide BigEndian, Number;
    IndicatorBound(c.SegmentMode());
    NumberOfBigEndian(c.SegmentMode().Indicator(), 4);
  }

  // ---- Reading back all of them

  lemma {:induction false} AllBitsCons(segs: seq<Segment>, version: int)
    requires 1 <= version <= 40 && ValidSegments(segs) && segs != []
    ensures AllBits(segs, version) == SegmentBits(segs[0], version) + AllBits(segs[1..], version)
  {
    hide SegmentBits;
    var n := |segs| - 1;
    if n == 0 {
      assert segs[..0] == [] && segs[1..] == [];
    } else {
      AllBitsCons(segs[..n], version);
      assert segs[..n][1..] == segs[1..][..n - 1];
      Associate(SegmentBits(segs[0], version), AllBits(segs[1..][..n - 1], version), SegmentBits(segs[n], version));
    }
  }

  /** Nothing more to read: the terminator, or too few bits for one. */
  predicate IsEnd(end: seq<bool>) { |end| < 4 || forall k :: 0 <= k < 4 ==> !end[k] }

  lemma EndParsed(end: seq<bool>, version: int)
    requires 1 <= version <= 40 && IsEnd(end)
    ensures Parse(end, version) == []
  {
    hide Number, BigEndian;
    if |end| >= 4 {
      ZeroIsZeroBits(4);
      assert end[..4] == ZeroBits(4);
      assert 0 < Pow2(4);
      NumberOfBigEndian(0, 4);
    }
  }

  lemma {:induction false} ContentsParsed(segs: seq<Segment>, contents: seq<Content>, version: int, end: seq<bool>)
    requires 1 <= version <= 40 && ValidSegments(segs) && CountsFit(segs, version) && AreContents(segs, contents)
    requires IsEnd(end)
    ensures Parse(AllBits(segs, version) + end, version) == contents
  {
    hide Parse, SegmentBits, IsContent, Pow2, NumCharCountBits, IsEnd, Segment.Valid;
    if segs == [] {
      EndParsed(end, version);
      assert AllBits(segs, version) + end == end;
    } else {
      ContentsParsed(segs[1..], contents[1..], version, end);
      AllBitsCons(segs, version);
      var rest := AllBits(segs[1..], version) + end;
      Associate(SegmentBits(segs[0], version), AllBits(segs[1..], version), end);
      SegmentParsed(segs[0], contents[0], version, rest);
    }
  }

  /** Behind the segments, the data codewords hold such an end. */
  lemma EndOfData(bits: seq<bool>, capacity: nat)
    requires |bits| <= 8 * capacity
    ensures var all := CodewordBits(bits, capacity);
      |bits| <= |all| && IsEnd(all[|bits|..]) && all == bits + all[|bits|..]
  {
    hide PadBits;
    AlignedIs(bits, capacity);
    var all, end := CodewordBits(bits, capacity), CodewordBits(bits, capacity)[|bits|..];
    assert all == bits + end;
    if |end| >= 4 {
      forall k | 0 <= k < 4 ensures !end[k] {
        assert all[|bits| + k] == Aligned(bits, capacity)[|bits| + k] == ZeroBits(4)[k];
      }
    }
  }

  /** The contents of a symbol, from nothing but its modules. */
  ghost function Contents(m: Matrix): seq<Content>
    requires IsMatrix(m) && HasFormat(m)
  {
    Parse(BitsOf(ReadSymbol(m)), VersionOf(m))
  }

  /** For every list of numeric, alphanumeric, byte and ECI segments that fits: a reader
      gets the contents back from the symbol, even from a damaged one. */
  lemma ContentsReadBack(m: Matrix, segs: seq<Segment>, contents: seq<Content>, version: int, ecl: int, mask: int)
    requires ValidVersion(version, ecl) && 0 <= mask <= 7 && ValidSegments(segs) && FitsSymbol(segs, version, ecl)
    requires Shows(m, segs, version, ecl, mask) && AreContents(segs, contents)
    ensures IsMatrix(m) && HasFormat(m) && Contents(m) == contents
  {
    hide Shows, HasFormat, VersionOf, ReadSymbol, BitsOf, AllBits, CodewordBits, NumDataCodewords, AreContents,
         CountsFit, Parse, FormatOf, IsEnd;
    ReadsBack(m, segs, version, ecl, mask);
    var bits, capacity := AllBits(segs, version), NumDataCodewords(version, ecl);
    EndOfData(bits, capacity);
    ContentsParsed(segs, contents, version, CodewordBits(bits, capacity)[|bits|..]);
  }
}
