/** From segments to data codewords: the first half of qrcodegen_encodeSegmentsAdvanced
    in qr.c, which picks the version and lays out the data bits. */
module QrSegments {
  import opened Sequences
  import opened Arith
  import opened Bits
  import opened Gf256
  import opened BitBuffer
  import opened BitStrings
  import opened Interleave

  datatype Mode = NUMERIC | ALPHANUMERIC | BYTE | KANJI | ECI {
    function Indicator(): nat {
      match this
      case NUMERIC => 0x1
      case ALPHANUMERIC => 0x2
      case BYTE => 0x4
      case KANJI => 0x8
      case ECI => 0x7
    }
  }

  const INT16_MAX := 32767

  datatype Segment = Segment(mode: Mode, numChars: int, data: seq<Byte>, bitLength: int) {
    /** What the source asserts of a segment. */
    predicate Valid() {
      0 <= numChars <= INT16_MAX && 0 <= bitLength <= INT16_MAX && bitLength <= 8 * |data|
    }
  }

  predicate ValidSegments(segs: seq<Segment>) {
    forall i :: 0 <= i < |segs| ==> segs[i].Valid()
  }

  /** numCharCountBits */
  function NumCharCountBits(mode: Mode, version: int): (n: nat)
    requires 1 <= version <= 40
    ensures 0 <= n <= 16
  {
    var i := (version + 7) / 17;
    match mode
    case NUMERIC => if i == 0 then 10 else if i == 1 then 12 else 14
    case ALPHANUMERIC => if i == 0 then 9 else if i == 1 then 11 else 13
    case BYTE => if i == 0 then 8 else 16
    case KANJI => if i == 0 then 8 else if i == 1 then 10 else 12
    case ECI => 0
  }

  // ---- The data bits of a list of segments

  /** Mode indicator, character count, data bits. */
  function SegmentBits(seg: Segment, version: int): (bits: seq<bool>)
    requires 1 <= version <= 40 && seg.Valid()
    ensures |bits| == 4 + NumCharCountBits(seg.mode, version) + seg.bitLength
  {
    BigEndian(seg.mode.Indicator(), 4) + BigEndian(seg.numChars, NumCharCountBits(seg.mode, version))
    + BitsOf(seg.data)[..seg.bitLength]
  }

  function AllBits(segs: seq<Segment>, version: int): seq<bool>
    requires 1 <= version <= 40 && ValidSegments(segs)
  {
    if segs == [] then []
    else AllBits(segs[..|segs| - 1], version) + SegmentBits(segs[|segs| - 1], version)
  }

  /** Every segment's length fits its count field. */
  predicate CountsFit(segs: seq<Segment>, version: int)
    requires 1 <= version <= 40
  {
    forall i :: 0 <= i < |segs| ==> segs[i].numChars < Pow2(NumCharCountBits(segs[i].mode, version))
  }

  lemma {:induction false} PrefixBits(segs: seq<Segment>, version: int, n: nat)
    requires 1 <= version <= 40 && ValidSegments(segs) && n <= |segs|
    ensures |AllBits(segs[..n], version)| <= |AllBits(segs, version)|
    decreases |segs|
  {
    if n < |segs| {
      var m := |segs| - 1;
      assert segs[..m][..n] == segs[..n];
      PrefixBits(segs[..m], version, n);
    } else {
      assert segs[..n] == segs;
    }
  }

  /** getTotalBits: the length of the bit string, or -1 when a count or the total is too large. */
  method GetTotalBits(segs: seq<Segment>, version: int) returns (result: int)
    requires 1 <= version <= 40 && ValidSegments(segs)
    ensures result == -1 <==> !CountsFit(segs, version) || |AllBits(segs, version)| > INT16_MAX
    ensures result != -1 ==> result == |AllBits(segs, version)|
  {
    hide SegmentBits;
    result := 0;
    for i := 0 to |segs|
      invariant CountsFit(segs[..i], version)
      invariant result == |AllBits(segs[..i], version)| <= INT16_MAX
    {
      assert segs[..i + 1][..i] == segs[..i];
      PrefixBits(segs, version, i + 1);
      var ccbits := NumCharCountBits(segs[i].mode, version);
      if segs[i].numChars >= Pow2(ccbits) {
        return -1;
      }
      result := result + 4 + ccbits + segs[i].bitLength;
      assert result == |AllBits(segs[..i + 1], version)|;
      if result > INT16_MAX {
        return -1;
      }
    }
    assert segs[..|segs|] == segs;
  }

  /** The segments fit a symbol of this version and level. */
  predicate FitsSymbol(segs: seq<Segment>, version: int, ecl: int)
    requires ValidVersion(version, ecl) && ValidSegments(segs)
  {
    && CountsFit(segs, version)
    && |AllBits(segs, version)| <= INT16_MAX
    && |AllBits(segs, version)| <= 8 * NumDataCodewords(version, ecl)
  }

  /** The version loop: the smallest version in the range that fits, if there is one. */
  method FindVersion(segs: seq<Segment>, ecl: int, minVersion: int, maxVersion: int)
    returns (found: bool, version: int, dataUsedBits: int)
    requires 1 <= minVersion <= maxVersion <= 40 && 0 <= ecl < 4 && ValidSegments(segs)
    ensures found ==> minVersion <= version <= maxVersion && FitsSymbol(segs, version, ecl)
    ensures found ==> dataUsedBits == |AllBits(segs, version)|
    ensures found ==> forall v :: minVersion <= v < version ==> !FitsSymbol(segs, v, ecl)
    ensures !found ==> forall v :: minVersion <= v <= maxVersion ==> !FitsSymbol(segs, v, ecl)
  {
    hide NumDataCodewords, AllBits, CountsFit;
    version := minVersion;
    while true
      invariant minVersion <= version <= maxVersion
      invariant forall v :: minVersion <= v < version ==> !FitsSymbol(segs, v, ecl)
      decreases maxVersion - version
    {
      var dataCapacityBits := NumDataCodewords(version, ecl) * 8;
      dataUsedBits := GetTotalBits(segs, version);
      if dataUsedBits != -1 && dataUsedBits <= dataCapacityBits {
        return true, version, dataUsedBits;
      }
      if version >= maxVersion {
        return false, version, dataUsedBits;
      }
      version := version + 1;
    }
  }

  /** The error correction level is raised as far as the data still fits. */
  method BoostLevel(ecl0: int, boostEcl: bool, version: int, dataUsedBits: int) returns (ecl: int)
    requires ValidVersion(version, ecl0) && dataUsedBits <= 8 * NumDataCodewords(version, ecl0)
    ensures ecl0 <= ecl < 4 && dataUsedBits <= 8 * NumDataCodewords(version, ecl)
    ensures !boostEcl ==> ecl == ecl0
    ensures boostEcl ==> forall k :: ecl < k < 4 ==> dataUsedBits > 8 * NumDataCodewords(version, k)
  {
    hide NumDataCodewords;
    ecl := ecl0;
    for i := 1 to 4
      invariant 0 <= ecl < 4 && dataUsedBits <= 8 * NumDataCodewords(version, ecl)
      invariant if boostEcl && i > ecl0 then ecl0 <= ecl < i || ecl == ecl0 else true
      invariant !boostEcl ==> ecl == ecl0
      invariant boostEcl ==> forall k :: ecl < k < i ==> dataUsedBits > 8 * NumDataCodewords(version, k)
    {
      if boostEcl && dataUsedBits <= NumDataCodewords(version, i) * 8 {
        ecl := i;
      }
    }
  }

  // ---- Terminator and padding

  /** n pad bytes, alternating between two values. */
  function PadBits(n: nat, first: Byte, second: Byte): (bits: seq<bool>)
    ensures |bits| == 8 * n
  {
    if n == 0 then [] else BigEndian(first, 8) + PadBits(n - 1, second, first)
  }

  /** The bits with at most four terminator bits and with zeros up to a byte boundary. */
  function Aligned(bits: seq<bool>, capacity: nat): (all: seq<bool>)
    requires |bits| <= 8 * capacity
    ensures |all| % 8 == 0 && |all| <= 8 * capacity
    ensures bits <= all
  {
    var terminated := bits + ZeroBits(Min(4, 8 * capacity - |bits|));
    terminated + ZeroBits((8 - |terminated| % 8) % 8)
  }

  /** The bits of the data codewords: the segments, at most four terminator bits, zeros up
      to a byte, and the alternating pad bytes 0xEC and 0x11 up to the capacity. */
  function CodewordBits(bits: seq<bool>, capacity: nat): (all: seq<bool>)
    requires |bits| <= 8 * capacity
    ensures |all| == 8 * capacity
    ensures bits <= all
  {
    var aligned := Aligned(bits, capacity);
    aligned + PadBits(capacity - |aligned| / 8, 0xEC, 0x11)
  }

  lemma ZeroIsZeroBits(n: nat)
    ensures BigEndian(0, n) == ZeroBits(n)
  {
    forall j | 0 <= j < n
      ensures BigEndian(0, n)[j] == false
    {
      ZeroBit(n - 1 - j);
    }
  }

  lemma {:induction false} PadMore(n: nat, first: Byte, second: Byte)
    ensures PadBits(n + 1, first, second)
         == PadBits(n, first, second) + BigEndian(if n % 2 == 0 then first else second, 8)
  {
    hide BigEndian;
    if n == 0 {
      assert PadBits(1, first, second) == BigEndian(first, 8) + [];
    } else {
      PadMore(n - 1, second, first);
      var last := BigEndian(if n % 2 == 0 then first else second, 8);
      assert PadBits(n + 1, first, second) == BigEndian(first, 8) + PadBits(n, second, first);
      assert PadBits(n, second, first) == PadBits(n - 1, second, first) + last;
      Associate(BigEndian(first, 8), PadBits(n - 1, second, first), last);
    }
  }

  lemma ByteBound(b: Byte)
    ensures b < Pow2(8)
  {}

  /** One segment's bits, as the source appends them. */
  method AppendSegment(seg: Segment, version: int, buffer: array<Byte>, bitLen0: int, ghost lim: nat,
                       ghost bits: seq<bool>)
    returns (bitLen: int)
    requires 1 <= version <= 40 && seg.Valid() && seg.numChars < Pow2(NumCharCountBits(seg.mode, version))
    requires lim <= buffer.Length && bitLen0 == |bits| && Holds(buffer[..lim], bits)
    requires |bits| + |SegmentBits(seg, version)| <= 8 * lim
    modifies buffer
    ensures bitLen == |bits + SegmentBits(seg, version)|
    ensures Holds(buffer[..lim], bits + SegmentBits(seg, version))
    ensures buffer[lim..] == old(buffer[lim..])
  {
    hide Bit, Pow2, Holds, BigEndian, NumCharCountBits;
    IndicatorBound(seg.mode);
    ghost var b1 := bits + BigEndian(seg.mode.Indicator(), 4);
    bitLen := AppendBits(seg.mode.Indicator(), 4, buffer, bitLen0, lim, bits);
    var ccbits := NumCharCountBits(seg.mode, version);
    ghost var b2 := b1 + BigEndian(seg.numChars, ccbits);
    bitLen := AppendBits(seg.numChars, ccbits, buffer, bitLen, lim, b1);
    ghost var src := BitsOf(seg.data);
    assert b2 + src[..0] == b2;
    for j := 0 to seg.bitLength
      invariant bitLen == |b2| + j
      invariant Holds(buffer[..lim], b2 + src[..j])
      invariant buffer[lim..] == old(buffer[lim..])
    {
      var bit := if Bit(seg.data[j / 8], 7 - j % 8) then 1 else 0;
      OneBit(bit);
      bitLen := AppendBits(bit, 1, buffer, bitLen, lim, b2 + src[..j]);
      assert src[..j + 1] == src[..j] + [src[j]];
      assert (b2 + src[..j]) + [src[j]] == b2 + src[..j + 1];
    }
    assert b2 + src[..seg.bitLength] == bits + SegmentBits(seg, version);
  }

  lemma IndicatorBound(mode: Mode)
    ensures mode.Indicator() < Pow2(4)
  {}

  lemma OneBit(bit: nat)
    requires bit < 2
    ensures bit < Pow2(1) && BigEndian(bit, 1) == [bit == 1]
  {}

  /** The data bits of a chosen version and level, from the segments to the last pad byte. */
  method EncodeBits(segs: seq<Segment>, version: int, ecl: int, buffer: array<Byte>, bufLen: int)
    requires ValidVersion(version, ecl) && ValidSegments(segs) && FitsSymbol(segs, version, ecl)
    requires 0 <= NumDataCodewords(version, ecl) <= bufLen <= buffer.Length
    modifies buffer
    ensures BitsOf(buffer[..NumDataCodewords(version, ecl)])
         == CodewordBits(AllBits(segs, version), NumDataCodewords(version, ecl))
    ensures buffer[bufLen..] == old(buffer[bufLen..])
  {
    hide Holds, BigEndian, SegmentBits, NumDataCodewords, ZeroBits, Pow2;
    for i := 0 to bufLen
      invariant forall k :: 0 <= k < i ==> buffer[k] == 0
      invariant buffer[bufLen..] == old(buffer[bufLen..])
    {
      buffer[i] := 0;
    }
    assert Holds(buffer[..bufLen], []) by { ZerosHold(buffer[..bufLen]); }
    var bitLen := 0;
    for i := 0 to |segs|
      invariant bitLen == |AllBits(segs[..i], version)|
      invariant Holds(buffer[..bufLen], AllBits(segs[..i], version))
      invariant buffer[bufLen..] == old(buffer[bufLen..])
    {
      assert segs[..i + 1][..i] == segs[..i];
      PrefixBits(segs, version, i + 1);
      bitLen := AppendSegment(segs[i], version, buffer, bitLen, bufLen, AllBits(segs[..i], version));
    }
    assert segs[..|segs|] == segs;
    ghost var bits := AllBits(segs, version);
    AppendPadding(buffer, bitLen, NumDataCodewords(version, ecl), bufLen, bits);
    HeldBytes(buffer[..bufLen], CodewordBits(bits, NumDataCodewords(version, ecl)), NumDataCodewords(version, ecl));
    assert buffer[..bufLen][..NumDataCodewords(version, ecl)] == buffer[..NumDataCodewords(version, ecl)];
  }

  lemma ZerosHold(buffer: seq<Byte>)
    requires forall k :: 0 <= k < |buffer| ==> buffer[k] == 0
    ensures Holds(buffer, [])
  {
    forall i | 0 <= i < 8 * |buffer|
      ensures !DataBit(buffer, i)
    {
      ZeroBit(7 - i % 8);
    }
  }

  method AppendPadding(buffer: array<Byte>, bitLen0: int, capacity: int, ghost lim: nat, ghost bits: seq<bool>)
    requires bitLen0 == |bits| <= 8 * capacity && capacity <= lim <= buffer.Length
    requires Holds(buffer[..lim], bits)
    modifies buffer
    ensures Holds(buffer[..lim], CodewordBits(bits, capacity))
    ensures buffer[lim..] == old(buffer[lim..])
  {
    hide Holds, Aligned, CodewordBits, ZeroBits, PadBits;
    var bitLen := bitLen0;
    var dataCapacityBits := capacity * 8;
    var terminatorBits := dataCapacityBits - bitLen;
    if terminatorBits > 4 {
      terminatorBits := 4;
    }
    AlignedIs(bits, capacity);
    bitLen := AppendZeros(terminatorBits, buffer, bitLen, lim, bits);
    var alignment := (8 - bitLen % 8) % 8;
    bitLen := AppendZeros(alignment, buffer, bitLen, lim, bits + ZeroBits(terminatorBits));
    AppendPadBytes(buffer, bitLen, dataCapacityBits, lim, Aligned(bits, capacity));
  }

  lemma AlignedIs(bits: seq<bool>, capacity: nat)
    requires |bits| <= 8 * capacity
    ensures var t := Min(4, 8 * capacity - |bits|);
      var a := (8 - (|bits| + t) % 8) % 8;
      && |bits| + t + a <= 8 * capacity && (|bits| + t + a) % 8 == 0
      && Aligned(bits, capacity) == bits + ZeroBits(t) + ZeroBits(a)
    ensures var aligned := Aligned(bits, capacity);
      CodewordBits(bits, capacity) == aligned + PadBits(capacity - |aligned| / 8, 0xEC, 0x11)
  {
    hide ZeroBits, PadBits;
  }

  method AppendPadBytes(buffer: array<Byte>, bitLen0: int, dataCapacityBits: int, ghost lim: nat,
                        ghost aligned: seq<bool>)
    requires bitLen0 == |aligned| <= dataCapacityBits <= 8 * lim && |aligned| % 8 == 0 && dataCapacityBits % 8 == 0
    requires lim <= buffer.Length && Holds(buffer[..lim], aligned)
    modifies buffer
    ensures Holds(buffer[..lim], aligned + PadBits(dataCapacityBits / 8 - |aligned| / 8, 0xEC, 0x11))
    ensures buffer[lim..] == old(buffer[lim..])
  {
    hide Holds, BigEndian, Pow2, Xor, PadBits;
    var bitLen := bitLen0;
    var padByte: Byte := 0xEC;
    ghost var n := 0;
    NoPad(aligned);
    while bitLen < dataCapacityBits
      invariant bitLen == |aligned| + 8 * n <= dataCapacityBits && bitLen % 8 == 0
      invariant padByte == if n % 2 == 0 then 0xEC else 0x11
      invariant Holds(buffer[..lim], aligned + PadBits(n, 0xEC, 0x11))
      invariant buffer[lim..] == old(buffer[lim..])
    {
      ByteBound(padByte);
      PadMore(n, 0xEC, 0x11);
      Associate(aligned, PadBits(n, 0xEC, 0x11), BigEndian(padByte, 8));
      bitLen := AppendBits(padByte, 8, buffer, bitLen, lim, aligned + PadBits(n, 0xEC, 0x11));
      PadFlip();
      padByte := Xor(padByte, Xor(0xEC, 0x11));
      n := n + 1;
    }
  }

  lemma NoPad(aligned: seq<bool>)
    ensures aligned + PadBits(0, 0xEC, 0x11) == aligned
  {}

  method AppendZeros(n: int, buffer: array<Byte>, bitLen0: int, ghost lim: nat,
                     ghost bits: seq<bool>) returns (bitLen: int)
    requires 0 <= n <= 16 && lim <= buffer.Length && bitLen0 == |bits| && Holds(buffer[..lim], bits)
    requires bitLen0 + n <= 8 * lim
    modifies buffer
    ensures bitLen == bitLen0 + n && Holds(buffer[..lim], bits + ZeroBits(n))
    ensures buffer[lim..] == old(buffer[lim..])
  {
    hide Holds;
    ZeroIsZeroBits(n);
    bitLen := AppendBits(0, n, buffer, bitLen0, lim, bits);
  }

  /** padByte ^= 0xEC ^ 0x11 switches between the two pad bytes. */
  lemma PadFlip()
    ensures Xor(0xEC, Xor(0xEC, 0x11)) == 0x11 && Xor(0x11, Xor(0xEC, 0x11)) == 0xEC
  {
    XorAssoc(0xEC, 0xEC, 0x11);
    XorSelf(0xEC);
    XorZero(0x11);
    XorComm(0xEC, 0x11);
    XorAssoc(0x11, 0x11, 0xEC);
    XorSelf(0x11);
    XorZero(0xEC);
  }

}
