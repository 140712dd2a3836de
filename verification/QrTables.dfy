/** The data bits of QR segments by the tables of ISO/IEC 18004: how many data codewords a
    symbol has (table 7), mode indicators and count fields (tables 2 and 3), the values of the
    characters (table 5), and what fills the codewords up (section 7.4.10). */
module QrTables {
  import opened Arith
  import opened Bits
  import opened Bytes
  import opened BitBuffer
  import opened BitStrings
  import opened Interleave
  import opened QrSegments
  import opened QrText
  import opened QrContents
  import opened QrEncoder
  import opened QrSymbol

  // ---- Data codewords of versions 1 to 40

  lemma Low1(v: int)
    requires 1 <= v <= 10
    ensures NumDataCodewords(v, 0) == [19, 34, 55, 80, 108, 136, 156, 194, 232, 274][v - 1]
  {}

  lemma Low2(v: int)
    requires 11 <= v <= 20
    ensures NumDataCodewords(v, 0) == [324, 370, 428, 461, 523, 589, 647, 721, 795, 861][v - 11]
  {}

  lemma Low3(v: int)
    requires 21 <= v <= 30
    ensures NumDataCodewords(v, 0) == [932, 1006, 1094, 1174, 1276, 1370, 1468, 1531, 1631, 1735][v - 21]
  {}

  lemma Low4(v: int)
    requires 31 <= v <= 40
    ensures NumDataCodewords(v, 0) == [1843, 1955, 2071, 2191, 2306, 2434, 2566, 2702, 2812, 2956][v - 31]
  {}

  lemma Medium1(v: int)
    requires 1 <= v <= 10
    ensures NumDataCodewords(v, 1) == [16, 28, 44, 64, 86, 108, 124, 154, 182, 216][v - 1]
  {}

  lemma Medium2(v: int)
    requires 11 <= v <= 20
    ensures NumDataCodewords(v, 1) == [254, 290, 334, 365, 415, 453, 507, 563, 627, 669][v - 11]
  {}

  lemma Medium3(v: int)
    requires 21 <= v <= 30
    ensures NumDataCodewords(v, 1) == [714, 782, 860, 914, 1000, 1062, 1128, 1193, 1267, 1373][v - 21]
  {}

  lemma Medium4(v: int)
    requires 31 <= v <= 40
    ensures NumDataCodewords(v, 1) == [1455, 1541, 1631, 1725, 1812, 1914, 1992, 2102, 2216, 2334][v - 31]
  {}

  lemma Quartile1(v: int)
    requires 1 <= v <= 10
    ensures NumDataCodewords(v, 2) == [13, 22, 34, 48, 62, 76, 88, 110, 132, 154][v - 1]
  {}

  lemma Quartile2(v: int)
    requires 11 <= v <= 20
    ensures NumDataCodewords(v, 2) == [180, 206, 244, 261, 295, 325, 367, 397, 445, 485][v - 11]
  {}

  lemma Quartile3(v: int)
    requires 21 <= v <= 30
    ensures NumDataCodewords(v, 2) == [512, 568, 614, 664, 718, 754, 808, 871, 911, 985][v - 21]
  {}

  lemma Quartile4(v: int)
    requires 31 <= v <= 40
    ensures NumDataCodewords(v, 2) == [1033, 1115, 1171, 1231, 1286, 1354, 1426, 1502, 1582, 1666][v - 31]
  {}

  lemma High1(v: int)
    requires 1 <= v <= 10
    ensures NumDataCodewords(v, 3) == [9, 16, 26, 36, 46, 60, 66, 86, 100, 122][v - 1]
  {}

  lemma High2(v: int)
    requires 11 <= v <= 20
    ensures NumDataCodewords(v, 3) == [140, 158, 180, 197, 223, 253, 283, 313, 341, 385][v - 11]
  {}

  lemma High3(v: int)
    requires 21 <= v <= 30
    ensures NumDataCodewords(v, 3) == [406, 442, 464, 514, 538, 596, 628, 661, 701, 745][v - 21]
  {}

  lemma High4(v: int)
    requires 31 <= v <= 40
    ensures NumDataCodewords(v, 3) == [793, 845, 901, 961, 986, 1054, 1096, 1142, 1222, 1276][v - 31]
  {}

  lemma DataCodewordsLow(v: int)
    requires 1 <= v <= 40
    ensures NumDataCodewords(v, 0)
         == [19, 34, 55, 80, 108, 136, 156, 194, 232, 274, 324, 370, 428, 461, 523, 589, 647, 721, 795, 861,
             932, 1006, 1094, 1174, 1276, 1370, 1468, 1531, 1631, 1735, 1843, 1955, 2071, 2191, 2306, 2434,
             2566, 2702, 2812, 2956][v - 1]
  {
    hide NumDataCodewords;
    if v <= 10 {
      Low1(v);
    } else if v <= 20 {
      Low2(v);
    } else if v <= 30 {
      Low3(v);
    } else {
      Low4(v);
    }
  }

  lemma DataCodewordsMedium(v: int)
    requires 1 <= v <= 40
    ensures NumDataCodewords(v, 1)
         == [16, 28, 44, 64, 86, 108, 124, 154, 182, 216, 254, 290, 334, 365, 415, 453, 507, 563, 627, 669,
             714, 782, 860, 914, 1000, 1062, 1128, 1193, 1267, 1373, 1455, 1541, 1631, 1725, 1812, 1914, 1992,
             2102, 2216, 2334][v - 1]
  {
    hide NumDataCodewords;
    if v <= 10 {
      Medium1(v);
    } else if v <= 20 {
      Medium2(v);
    } else if v <= 30 {
      Medium3(v);
    } else {
      Medium4(v);
    }
  }

  lemma DataCodewordsQuartile(v: int)
    requires 1 <= v <= 40
    ensures NumDataCodewords(v, 2)
         == [13, 22, 34, 48, 62, 76, 88, 110, 132, 154, 180, 206, 244, 261, 295, 325, 367, 397, 445, 485, 512,
             568, 614, 664, 718, 754, 808, 871, 911, 985, 1033, 1115, 1171, 1231, 1286, 1354, 1426, 1502, 1582,
             1666][v - 1]
  {
    hide NumDataCodewords;
    if v <= 10 {
      Quartile1(v);
    } else if v <= 20 {
      Quartile2(v);
    } else if v <= 30 {
      Quartile3(v);
    } else {
      Quartile4(v);
    }
  }

  lemma DataCodewordsHigh(v: int)
    requires 1 <= v <= 40
    ensures NumDataCodewords(v, 3)
         == [9, 16, 26, 36, 46, 60, 66, 86, 100, 122, 140, 158, 180, 197, 223, 253, 283, 313, 341, 385, 406,
             442, 464, 514, 538, 596, 628, 661, 701, 745, 793, 845, 901, 961, 986, 1054, 1096, 1142, 1222, 1276][v - 1]
  {
    hide NumDataCodewords;
    if v <= 10 {
      High1(v);
    } else if v <= 20 {
      High2(v);
    } else if v <= 30 {
      High3(v);
    } else {
      High4(v);
    }
  }

  // ---- Error correction codewords of each block of versions 1 to 40

  lemma EccLow1(v: int)
    requires 1 <= v <= 20
    ensures EccCodewordsPerBlock(0, v)
         == [7, 10, 15, 20, 26, 18, 20, 24, 30, 18, 20, 24, 26, 30, 22, 24, 28, 30, 28, 28][v - 1]
  {}

  lemma EccLow2(v: int)
    requires 21 <= v <= 40
    ensures EccCodewordsPerBlock(0, v)
         == [28, 28, 30, 30, 26, 28, 30, 30, 30, 30, 30, 30, 30, 30, 30, 30, 30, 30, 30, 30][v - 21]
  {}

  lemma EccPerBlockLow(v: int)
    requires 1 <= v <= 40
    ensures EccCodewordsPerBlock(0, v)
         == [7, 10, 15, 20, 26, 18, 20, 24, 30, 18, 20, 24, 26, 30, 22, 24, 28, 30, 28, 28,
             28, 28, 30, 30, 26, 28, 30, 30, 30, 30, 30, 30, 30, 30, 30, 30, 30, 30, 30, 30][v - 1]
  {
    hide EccCodewordsPerBlock;
    if v <= 20 {
      EccLow1(v);
    } else {
      EccLow2(v);
    }
  }

  lemma EccMedium1(v: int)
    requires 1 <= v <= 20
    ensures EccCodewordsPerBlock(1, v)
         == [10, 16, 26, 18, 24, 16, 18, 22, 22, 26, 30, 22, 22, 24, 24, 28, 28, 26, 26, 26][v - 1]
  {}

  lemma EccMedium2(v: int)
    requires 21 <= v <= 40
    ensures EccCodewordsPerBlock(1, v)
         == [26, 28, 28, 28, 28, 28, 28, 28, 28, 28, 28, 28, 28, 28, 28, 28, 28, 28, 28, 28][v - 21]
  {}

  lemma EccPerBlockMedium(v: int)
    requires 1 <= v <= 40
    ensures EccCodewordsPerBlock(1, v)
         == [10, 16, 26, 18, 24, 16, 18, 22, 22, 26, 30, 22, 22, 24, 24, 28, 28, 26, 26, 26,
             26, 28, 28, 28, 28, 28, 28, 28, 28, 28, 28, 28, 28, 28, 28, 28, 28, 28, 28, 28][v - 1]
  {
    hide EccCodewordsPerBlock;
    if v <= 20 {
      EccMedium1(v);
    } else {
      EccMedium2(v);
    }
  }

  lemma EccQuartile1(v: int)
    requires 1 <= v <= 20
    ensures EccCodewordsPerBlock(2, v)
         == [13, 22, 18, 26, 18, 24, 18, 22, 20, 24, 28, 26, 24, 20, 30, 24, 28, 28, 26, 30][v - 1]
  {}

  lemma EccQuartile2(v: int)
    requires 21 <= v <= 40
    ensures EccCodewordsPerBlock(2, v)
         == [28, 30, 30, 30, 30, 28, 30, 30, 30, 30, 30, 30, 30, 30, 30, 30, 30, 30, 30, 30][v - 21]
  {}

  lemma EccPerBlockQuartile(v: int)
    requires 1 <= v <= 40
    ensures EccCodewordsPerBlock(2, v)
         == [13, 22, 18, 26, 18, 24, 18, 22, 20, 24, 28, 26, 24, 20, 30, 24, 28, 28, 26, 30,
             28, 30, 30, 30, 30, 28, 30, 30, 30, 30, 30, 30, 30, 30, 30, 30, 30, 30, 30, 30][v - 1]
  {
    hide EccCodewordsPerBlock;
    if v <= 20 {
      EccQuartile1(v);
    } else {
      EccQuartile2(v);
    }
  }

  lemma EccHigh1(v: int)
    requires 1 <= v <= 20
    ensures EccCodewordsPerBlock(3, v)
         == [17, 28, 22, 16, 22, 28, 26, 26, 24, 28, 24, 28, 22, 24, 24, 30, 28, 28, 26, 28][v - 1]
  {}

  lemma EccHigh2(v: int)
    requires 21 <= v <= 40
    ensures EccCodewordsPerBlock(3, v)
         == [30, 24, 30, 30, 30, 30, 30, 30, 30, 30, 30, 30, 30, 30, 30, 30, 30, 30, 30, 30][v - 21]
  {}

  lemma EccPerBlockHigh(v: int)
    requires 1 <= v <= 40
    ensures EccCodewordsPerBlock(3, v)
         == [17, 28, 22, 16, 22, 28, 26, 26, 24, 28, 24, 28, 22, 24, 24, 30, 28, 28, 26, 28,
             30, 24, 30, 30, 30, 30, 30, 30, 30, 30, 30, 30, 30, 30, 30, 30, 30, 30, 30, 30][v - 1]
  {
    hide EccCodewordsPerBlock;
    if v <= 20 {
      EccHigh1(v);
    } else {
      EccHigh2(v);
    }
  }

  /** The number of blocks is fixed by these tables and the data codewords. */
  lemma BlocksOf(v: int, ecl: int)
    requires ValidVersion(v, ecl)
    ensures EccCodewordsPerBlock(ecl, v) * NumErrorCorrectionBlocks(ecl, v)
         == NumRawDataModules(v) / 8 - NumDataCodewords(v, ecl)
  {}

  // ---- Headers

  /** The mode indicator stands in front of every segment. */
  lemma ModeIndicators(seg: Segment, version: int)
    requires 1 <= version <= 40 && seg.Valid()
    ensures SegmentBits(seg, version)[..4]
         == match seg.mode
            case NUMERIC => [false, false, false, true]
            case ALPHANUMERIC => [false, false, true, false]
            case BYTE => [false, true, false, false]
            case KANJI => [true, false, false, false]
            case ECI => [false, true, true, true]
  {
    hide NumCharCountBits, BitsOf, Bit;
    SmallBits();
    assert SegmentBits(seg, version)[..4] == BigEndian(seg.mode.Indicator(), 4);
  }

  lemma SmallBits()
    ensures Bit(1, 0) && !Bit(1, 1) && !Bit(1, 2) && !Bit(1, 3)
    ensures !Bit(2, 0) && Bit(2, 1) && !Bit(2, 2) && !Bit(2, 3)
    ensures !Bit(4, 0) && !Bit(4, 1) && Bit(4, 2) && !Bit(4, 3)
    ensures !Bit(8, 0) && !Bit(8, 1) && !Bit(8, 2) && Bit(8, 3)
    ensures Bit(7, 0) && Bit(7, 1) && Bit(7, 2) && !Bit(7, 3)
  {}

  /** The count fields of versions 1 to 9, 10 to 26 and 27 to 40. */
  lemma CountFields(version: int)
    requires 1 <= version <= 40
    ensures NumCharCountBits(NUMERIC, version) == if version <= 9 then 10 else if version <= 26 then 12 else 14
    ensures NumCharCountBits(ALPHANUMERIC, version) == if version <= 9 then 9 else if version <= 26 then 11 else 13
    ensures NumCharCountBits(BYTE, version) == if version <= 9 then 8 else 16
    ensures NumCharCountBits(KANJI, version) == if version <= 9 then 8 else if version <= 26 then 10 else 12
  {}

  // ---- Characters

  /** Three digits are the number written in ten bits, in front of those of the other digits;
      the last two or the last one take seven bits or four. */
  lemma DigitGroups(text: string)
    requires IsNumeric(text) && text != ""
    ensures var d := seq(|text|, i requires 0 <= i < |text| => text[i] as int - '0' as int);
      NumericBits(text)
      == if |text| >= 3 then BigEndian(100 * d[0] + 10 * d[1] + d[2], 10) + NumericBits(text[3..])
         else if |text| == 2 then BigEndian(10 * d[0] + d[1], 7) else BigEndian(d[0], 4)
  {
    hide BigEndian, DigitsValue, NumericBits;
    FirstGroup(text);
    if |text| >= 3 {
      GroupValue(text[..3]);
    } else {
      GroupValue(text);
    }
  }

  lemma FirstGroup(text: string)
    requires IsNumeric(text) && text != ""
    ensures NumericBits(text)
         == if |text| >= 3 then BigEndian(DigitsValue(text[..3]), 10) + NumericBits(text[3..])
            else BigEndian(DigitsValue(text), |text| * 3 + 1)
  {
    hide BigEndian, DigitsValue;
  }

  lemma GroupValue(text: string)
    requires IsNumeric(text) && 1 <= |text| <= 3
    ensures DigitsValue(text)
         == if |text| == 3 then 100 * Digit(text[0]) + 10 * Digit(text[1]) + Digit(text[2])
            else if |text| == 2 then 10 * Digit(text[0]) + Digit(text[1]) else Digit(text[0])
  {
    assert DigitsValue("") == 0;
    assert text[..1][..0] == "";
    assert DigitsValue(text[..1]) == Digit(text[0]);
    if |text| == 1 {
      assert text[..1] == text;
    } else {
      assert text[..2][..1] == text[..1];
      assert DigitsValue(text[..2]) == 10 * Digit(text[0]) + Digit(text[1]);
      if |text| == 2 { assert text[..2] == text; }
    }
  }

  lemma Characters1(k: nat)
    requires 0 <= k < 10
    ensures Charset()[k] as int == '0' as int + k
  {
    assert k == 0 || k == 1 || k == 2 || k == 3 || k == 4 || k == 5 || k == 6 || k == 7 || k == 8 || k == 9;
  }

  lemma Characters2(k: nat)
    requires 10 <= k < 23
    ensures Charset()[k] as int == 'A' as int + k - 10
  {}

  lemma Characters3(k: nat)
    requires 23 <= k < 36
    ensures Charset()[k] as int == 'A' as int + k - 10
  {}

  lemma Characters4()
    ensures Charset()[36] == ' ' && Charset()[37] == '$' && Charset()[38] == '%' && Charset()[39] == '*'
    ensures Charset()[40] == '+' && Charset()[41] == '-' && Charset()[42] == '.' && Charset()[43] == '/'
    ensures Charset()[44] == ':'
  {}

  /** The code of the k-th character. */
  function CharCode(k: nat): int
    requires k < 45
  {
    if k < 10 then '0' as int + k else if k < 36 then 'A' as int + k - 10
    else [' ', '$', '%', '*', '+', '-', '.', '/', ':'][k - 36] as int
  }

  lemma CodeIs(k: nat)
    requires k < 45
    ensures Charset()[k] as int == CharCode(k)
  {
    hide Charset;
    Characters4();
    if k < 10 {
      Characters1(k);
    } else if k < 23 {
      Characters2(k);
    } else if k < 36 {
      Characters3(k);
    } else {
      assert k == 36 || k == 37 || k == 38 || k == 39 || k == 40 || k == 41 || k == 42 || k == 43 || k == 44;
    }
  }

  lemma CodesDiffer(k: nat, l: nat)
    requires k < 45 && l < 45 && CharCode(k) == CharCode(l)
    ensures k == l
  {}

  lemma IndexOfCode(c: char, k: nat)
    requires k < 45 && c as int == CharCode(k)
    ensures CharIndex(c) == k
  {
    hide Charset, CharCode;
    CodeIs(k);
    var i := CharIndex(c);
    if i < 45 {
      CodeIs(i);
      CodesDiffer(i, k);
    }
  }

  /** Digits, capital letters, and nine signs have the values 0 to 44 in this order. */
  lemma CharacterValues(c: char)
    ensures '0' <= c <= '9' ==> CharIndex(c) == c as int - '0' as int
    ensures 'A' <= c <= 'Z' ==> CharIndex(c) == c as int - 'A' as int + 10
    ensures CharIndex(' ') == 36 && CharIndex('$') == 37 && CharIndex('%') == 38 && CharIndex('*') == 39
    ensures CharIndex('+') == 40 && CharIndex('-') == 41 && CharIndex('.') == 42 && CharIndex('/') == 43
    ensures CharIndex(':') == 44
  {
    hide CharIndex;
    if '0' <= c <= '9' { IndexOfCode(c, c as int - '0' as int); }
    if 'A' <= c <= 'Z' { IndexOfCode(c, c as int - 'A' as int + 10); }
    IndexOfCode(' ', 36);
    IndexOfCode('$', 37);
    IndexOfCode('%', 38);
    IndexOfCode('*', 39);
    IndexOfCode('+', 40);
    IndexOfCode('-', 41);
    IndexOfCode('.', 42);
    IndexOfCode('/', 43);
    IndexOfCode(':', 44);
  }

  /** Two characters are one number of eleven bits, the first one times 45, in front of those
      of the other characters; a single one has six bits. */
  lemma CharacterPairs(text: string)
    requires IsAlphanumeric(text) && text != ""
    ensures AlphanumericBits(text)
         == if |text| >= 2
            then BigEndian(45 * CharIndex(text[0]) + CharIndex(text[1]), 11) + AlphanumericBits(text[2..])
            else BigEndian(CharIndex(text[0]), 6)
  {
    hide *;
    if |text| >= 2 {
      var pair := text[..2];
      assert pair[0] == text[0] && pair[1] == text[1];
      var v := CharsValue(pair);
      assert v == 45 * CharIndex(text[0]) + CharIndex(text[1]) by { CharsTwo(pair); }
      FirstPair(text);
    } else {
      AlphanumericSingle(text);
    }
  }

  lemma FirstPair(text: string)
    requires |text| >= 2
    ensures AlphanumericBits(text) == BigEndian(CharsValue(text[..2]), 11) + AlphanumericBits(text[2..])
  {
    hide BigEndian, CharsValue;
  }

  /** A designator is its number in one byte, two or three, with the highest bit of two and
      the two highest of three set. */
  lemma Designators(value: nat)
    requires value < 1_000_000
    ensures EciBits(value)
         == if value < 0x80 then BigEndian(value, 8)
            else if value < 0x4000 then BigEndian(0x8000 + value, 16) else BigEndian(0xC0_0000 + value, 24)
  {
    hide BigEndian, Pow2;
    EciPowers();
    if 0x80 <= value < 0x4000 {
      BigEndianSplit(0x8000 + value, 2, 14);
    } else if value >= 0x4000 {
      BigEndianSplit(0xC0_0000 + value, 3, 21);
      BigEndianSplit(value, 11, 10);
    }
  }

  lemma EciPowers()
    ensures Pow2(14) == 0x4000 && Pow2(21) == 0x20_0000 && Pow2(10) == 1024
  {
    assert Pow2(7) == 128;
    Pow2Sum(7, 7);
    Pow2Sum(14, 7);
  }

  // ---- Behind the segments

  /** The codewords begin with the bits given; then zeros follow up to a byte that begins at
      least four bits later, or up to the end, and from there on 236 and 17 in turn. */
  lemma Padding(bits: seq<bool>, capacity: nat)
    requires |bits| <= 8 * capacity
    ensures var d := Packed(bits, capacity);
      var start := (|bits| + Min(4, 8 * capacity - |bits|) + 7) / 8;
      && start <= capacity
      && (forall j | 0 <= j < |bits| :: DataBit(d, j) == bits[j])
      && (forall j | |bits| <= j < 8 * start :: !DataBit(d, j))
      && (forall k | start <= k < capacity :: d[k] == if (k - start) % 2 == 0 then 236 else 17)
  {
    hide DataBit, BytesOf, PadBits, BitsOf, CodewordBits, Aligned;
    var d, all, aligned := Packed(bits, capacity), CodewordBits(bits, capacity), Aligned(bits, capacity);
    AlignedIs(bits, capacity);
    BytesBits(all);
    var start := |aligned| / 8;
    forall j | 0 <= j < 8 * capacity ensures DataBit(d, j) == all[j] {
      BitAtPlace(d, j);
    }
    forall k | start <= k < capacity ensures d[k] == if (k - start) % 2 == 0 then 236 else 17 {
      PadByteAt(d, aligned, capacity, k);
    }
  }

  lemma BitAtPlace(d: seq<Byte>, j: nat)
    requires j < 8 * |d|
    ensures DataBit(d, j) == BitsOf(d)[j]
  {}

  lemma PadByteAt(d: seq<Byte>, aligned: seq<bool>, capacity: nat, k: nat)
    requires |aligned| % 8 == 0 && |aligned| / 8 <= k < capacity == |d|
    requires BitsOf(d) == aligned + PadBits(capacity - |aligned| / 8, 0xEC, 0x11)
    ensures d[k] == if (k - |aligned| / 8) % 2 == 0 then 236 else 17
  {
    hide Bit, PadBits, BigEndian;
    var start, n := |aligned| / 8, capacity - |aligned| / 8;
    var b: Byte := if (k - start) % 2 == 0 then 236 else 17;
    PadSlice(n, 0xEC, 0x11, k - start);
    ByteSlice(d, k);
    SliceBehind(aligned, PadBits(n, 0xEC, 0x11), 8 * k, 8 * k + 8);
    assert 8 * k - |aligned| == 8 * (k - start);
    BitsOfByte(b);
    BitsOfByte(d[k]);
    BitsInjective([d[k]], [b]);
  }

  lemma ByteSlice(d: seq<Byte>, k: nat)
    requires k < |d|
    ensures BitsOf(d)[8 * k..8 * k + 8] == BitsOf([d[k]])
  {
    hide Bit;
  }

  lemma {:induction false} PadSlice(n: nat, first: Byte, second: Byte, i: nat)
    requires i < n
    ensures PadBits(n, first, second)[8 * i..8 * i + 8] == BigEndian(if i % 2 == 0 then first else second, 8)
  {
    hide BigEndian;
    if i > 0 {
      PadSlice(n - 1, second, first, i - 1);
      SliceBehind(BigEndian(first, 8), PadBits(n - 1, second, first), 8 * i, 8 * i + 8);
    }
  }

  lemma SliceBehind(x: seq<bool>, rest: seq<bool>, a: nat, b: nat)
    requires |x| <= a <= b <= |x| + |rest|
    ensures (x + rest)[a..b] == rest[a - |x|..b - |x|]
  {}
}
