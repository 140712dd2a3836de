/** A text as a QR symbol (qrcodegen_encodeText in qr.c), and back. */
module QrTextSymbols {
  import opened Bits
  import opened Bytes
  import opened BitStrings
  import opened Interleave
  import opened Penalty
  import opened QrMatrix
  import opened QrSegments
  import opened QrText
  import opened QrContents
  import opened QrEncoder
  import opened QrReader

  /** C text: bytes other than the terminator. */
  predicate IsCText(text: string) { forall i :: 0 <= i < |text| ==> 0 < text[i] as int < 256 }

  function AsBytes(text: string): (b: seq<Byte>)
    requires IsCText(text)
    ensures |b| == |text|
  {
    seq(|text|, i requires 0 <= i < |text| => text[i] as int)
  }

  function AsText(bytes: seq<Byte>): string { seq(|bytes|, i requires 0 <= i < |bytes| => bytes[i] as char) }

  /** The most compact of the three forms. */
  function ContentOf(text: string): (c: Content)
    requires IsCText(text)
    ensures c.Valid()
  {
    if IsNumeric(text) then NumericText(text)
    else if IsAlphanumeric(text) then AlphanumericText(text)
    else ByteText(AsBytes(text))
  }

  /** What a reader shows. */
  function TextOf(contents: seq<Content>): string {
    if contents == [] then ""
    else
      var first :=
        match contents[0]
        case NumericText(text) => text
        case AlphanumericText(text) => text
        case ByteText(bytes) => AsText(bytes)
        case EciDesignator(_) => "";
      first + TextOf(contents[1..])
  }

  /** The text fits a symbol of this version and level. */
  predicate TextFits(text: string, version: int, ecl: int)
    requires IsCText(text) && ValidVersion(version, ecl)
  {
    text == "" ||
    var c := ContentOf(text);
    var ccbits := NumCharCountBits(c.SegmentMode(), version);
    && |text| < Pow2(ccbits)
    && 4 + ccbits + |c.DataBits()| <= INT16_MAX
    && 4 + ccbits + |c.DataBits()| <= 8 * NumDataCodewords(version, ecl)
  }

  // ---- The segment of a text

  /** The cases in which the source gives up before it encodes. */
  predicate TooLong(text: string, bufLen: nat)
    requires IsCText(text)
  {
    |text| > INT16_MAX || |ContentOf(text).DataBits()| > INT16_MAX || |ContentOf(text).DataBits()| > 8 * bufLen
  }

  /** The part of qrcodegen_encodeText that makes the segment in tempBuffer. */
  method MakeText(text: string, tempBuffer: array<Byte>, bufLen: nat) returns (made: bool, seg: Segment)
    requires IsCText(text) && bufLen <= tempBuffer.Length
    modifies tempBuffer
    ensures made <==> !TooLong(text, bufLen)
    ensures made ==> IsContent(seg, ContentOf(text))
  {
    hide NumericBits, AlphanumericBits, IsNumeric, IsAlphanumeric, BitsOf, CharIndex;
    seg := Segment(BYTE, 0, [], 0);
    if IsNumeric(text) {
      NumericLength(text);
      var bitLength := CalcSegmentBitLength(NUMERIC, |text|);
      if bitLength == -1 || (bitLength + 7) / 8 > bufLen {
        return false, seg;
      }
      seg := MakeNumeric(text, tempBuffer);
    } else if IsAlphanumeric(text) {
      AlphanumericLength(text);
      var bitLength := CalcSegmentBitLength(ALPHANUMERIC, |text|);
      if bitLength == -1 || (bitLength + 7) / 8 > bufLen {
        return false, seg;
      }
      seg := MakeAlphanumeric(text, tempBuffer);
    } else {
      if |text| > bufLen {
        return false, seg;
      }
      var bytes := AsBytes(text);
      for i := 0 to |text|
        invariant tempBuffer[..i] == bytes[..i]
      {
        tempBuffer[i] := text[i] as int;
      }
      if CalcSegmentBitLength(BYTE, |text|) == -1 {
        return false, seg;
      }
      seg := Segment(BYTE, |text|, tempBuffer[..], CalcSegmentBitLength(BYTE, |text|));
      BytesHeld(tempBuffer[..], bytes);
    }
    return true, seg;
  }

  /** Memory that begins with the bytes begins with their bits. */
  lemma BytesHeld(mem: seq<Byte>, bytes: seq<Byte>)
    requires |bytes| <= |mem| && mem[..|bytes|] == bytes[..|bytes|]
    ensures BitsOf(mem)[..8 * |bytes|] == BitsOf(bytes)
  {
    assert mem == bytes + mem[|bytes|..];
    BitsOfAppend(bytes, mem[|bytes|..]);
  }

  /** Such a text fits no version of the range. */
  lemma NoRoom(text: string, minVersion: int, maxVersion: int, ecl: int)
    requires IsCText(text) && text != "" && 1 <= minVersion <= maxVersion <= 40 && 0 <= ecl <= 3
    requires 0 <= BufferLen(maxVersion) && TooLong(text, BufferLen(maxVersion))
    ensures forall v :: minVersion <= v <= maxVersion ==> !TextFits(text, v, ecl)
  {
    hide BufferLen, NumDataCodewords, NumCharCountBits, Content.DataBits, Content.SegmentMode, ContentOf, Pow2;
    DataIsLonger(text);
    forall v | minVersion <= v <= maxVersion ensures !TextFits(text, v, ecl) {
      DataFits(v, ecl);
      RawFits(v);
      BufferLenMono(v, maxVersion);
    }
  }

  lemma DataIsLonger(text: string)
    requires IsCText(text)
    ensures |text| <= |ContentOf(text).DataBits()|
  {
    hide NumericBits, AlphanumericBits, IsNumeric, IsAlphanumeric, BitsOf;
    if IsNumeric(text) {
      NumericLength(text);
    } else if IsAlphanumeric(text) {
      AlphanumericLength(text);
    }
  }

  /** The segments of a text: none if it is empty. */
  predicate AreSegments(segs: seq<Segment>, text: string)
    requires IsCText(text)
  {
    if text == "" then segs == [] else |segs| == 1 && IsContent(segs[0], ContentOf(text))
  }

  lemma FitsAre(segs: seq<Segment>, text: string, version: int, ecl: int)
    requires IsCText(text) && AreSegments(segs, text) && ValidVersion(version, ecl)
    ensures ValidSegments(segs) && (FitsSymbol(segs, version, ecl) <==> TextFits(text, version, ecl))
  {
    hide NumDataCodewords, NumCharCountBits, ContentOf, Content.DataBits, Pow2, BitsOf;
    CapacityIsNat(version, ecl);
    if text != "" {
      var seg, c := segs[0], ContentOf(text);
      assert segs[..0] == [] && AllBits([], version) == [];
      assert AllBits(segs, version) == [] + SegmentBits(seg, version);
      CountIs(text);
      assert seg.bitLength == |BitsOf(seg.data)[..seg.bitLength]| == |c.DataBits()|;
    }
  }

  lemma FitsInRange(segs: seq<Segment>, text: string, minVersion: int, maxVersion: int, ecl: int)
    requires IsCText(text) && AreSegments(segs, text) && 1 <= minVersion <= maxVersion <= 40 && 0 <= ecl <= 3
    ensures ValidSegments(segs)
    ensures forall v :: minVersion <= v <= maxVersion ==> (FitsSymbol(segs, v, ecl) <==> TextFits(text, v, ecl))
  {
    hide FitsSymbol, TextFits, ValidSegments, AreSegments;
    FitsAre(segs, text, minVersion, ecl);
    forall v | minVersion <= v <= maxVersion ensures FitsSymbol(segs, v, ecl) <==> TextFits(text, v, ecl) {
      FitsAre(segs, text, v, ecl);
    }
  }

  lemma CapacityIsNat(version: int, ecl: int)
    requires ValidVersion(version, ecl)
    ensures 0 <= NumDataCodewords(version, ecl)
  {
    DataFits(version, ecl);
  }

  lemma CountIs(text: string)
    requires IsCText(text)
    ensures ContentOf(text).Count() == |text|
  {}

  /** No other form of the text is shorter. */
  lemma ShortestForm(text: string, c: Content)
    requires IsCText(text) && c.Valid() && !c.EciDesignator? && TextOf([c]) == text
    ensures |ContentOf(text).DataBits()| <= |c.DataBits()|
  {
    hide NumericBits, AlphanumericBits, IsNumeric, IsAlphanumeric, BitsOf;
    assert [c][1..] == [];
    match c
    case NumericText(t) =>
      assert t + "" == t;
      NumericLength(t);
    case AlphanumericText(t) =>
      assert t + "" == t;
      AlphanumericLength(t);
      if IsNumeric(t) { NumericLength(t); }
    case ByteText(b) =>
      assert AsText(b) + "" == AsText(b);
      if IsNumeric(text) {
        NumericLength(text);
      } else if IsAlphanumeric(text) {
        AlphanumericLength(text);
      }
  }

  // ---- The symbol of a text

  /** A reader that is given nothing but the modules shows the text. */
  ghost predicate ReadsAs(m: Matrix, text: string) {
    IsMatrix(m) && HasFormat(m) && TextOf(Contents(m)) == text
  }

  lemma SymbolReadsAs(segs: seq<Segment>, text: string, version: int, ecl: int, mask: int)
    requires IsCText(text) && AreSegments(segs, text) && 1 <= version <= 40 && 0 <= ecl <= 3 && 0 <= mask <= 7
    requires ValidSegments(segs) && FitsSymbol(segs, version, ecl)
    ensures ReadsAs(SymbolOf(segs, version, ecl, mask), text)
  {
    hide SymbolOf, Shows, FitsSymbol, Contents, HasFormat, IsMatrix, IsContent, ContentOf;
    var contents := if text == "" then [] else [ContentOf(text)];
    var m := SymbolOf(segs, version, ecl, mask);
    SymbolShows(segs, version, ecl, mask);
    ContentsReadBack(m, segs, contents, version, ecl, mask);
    if text != "" { ContentShown(text); }
  }

  lemma ContentShown(text: string)
    requires IsCText(text)
    ensures TextOf([ContentOf(text)]) == text
  {
    hide IsNumeric, IsAlphanumeric;
    var contents := [ContentOf(text)];
    assert contents[1..] == [];
    assert text + "" == text;
  }

  /** qrcodegen_encodeText: it succeeds if and only if the text fits some version of the
      range, and then a reader gets the text back from the symbol. */
  method EncodeText(text: string, tempBuffer: array<Byte>, qrcode: array<Byte>, ecl: int, minVersion: int,
                    maxVersion: int, mask: int, boostEcl: bool)
    returns (ok: bool)
    requires IsCText(text) && 1 <= minVersion <= maxVersion <= 40 && 0 <= ecl <= 3 && -1 <= mask <= 7
    requires tempBuffer != qrcode && qrcode.Length > 0
    requires BufferLen(maxVersion) <= tempBuffer.Length && BufferLen(maxVersion) <= qrcode.Length
    modifies tempBuffer, qrcode
    ensures ok <==> exists v :: minVersion <= v <= maxVersion && TextFits(text, v, ecl)
    ensures !ok ==> qrcode[0] == 0
    ensures ok ==> IsSymbol(qrcode[..]) && ReadsAs(Modules(qrcode[..]), text)
  {
    hide *;
    var segs := [];
    if text != "" {
      BufferLenMono(maxVersion, maxVersion);
      var made, seg := MakeText(text, tempBuffer, BufferLen(maxVersion));
      if !made {
        NoRoom(text, minVersion, maxVersion, ecl);
        qrcode[0] := 0;
        return false;
      }
      segs := [seg];
    }
    AreSegmentsIs(segs, text);
    FitsInRange(segs, text, minVersion, maxVersion, ecl);
    var version, level, drawn;
    ok, version, level, drawn :=
      EncodeSegmentsAdvanced(segs, ecl, minVersion, maxVersion, mask, boostEcl, tempBuffer, qrcode);
    if ok {
      SymbolReadsAs(segs, text, version, level, drawn);
    }
  }

  lemma AreSegmentsIs(segs: seq<Segment>, text: string)
    requires IsCText(text)
    ensures AreSegments(segs, text)
       <==> if text == "" then segs == [] else |segs| == 1 && IsContent(segs[0], ContentOf(text))
  {}
}
