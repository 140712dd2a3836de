/** A reader of QR symbols that knows nothing but the symbol, and gets the data back even
    from a damaged one: the error correction of every part of qr.c at work. */
module QrReader {
  import opened Bits
  import opened BitStrings
  import opened Gf256
  import BchCodes
  import opened FunctionModules
  import opened Interleave
  import opened Mask
  import opened Penalty
  import opened QrCapacity
  import opened QrEncoder
  import opened QrSegments
  import opened QrSymbol
  import opened ReedSolomon
  import opened ReedSolomonDistance

  // ---- Version, level and mask

  /** A matrix as large as a symbol. */
  predicate IsMatrix(m: Matrix) { Square(m) && 21 <= |m| <= 177 && |m| % 4 == 1 }

  function VersionOf(m: Matrix): (version: int)
    requires IsMatrix(m)
    ensures 1 <= version <= 40 && SizeOf(version) == |m|
  {
    (|m| - 17) / 4
  }

  /** Where bit i of the format bits is shown next to the upper left finder pattern. */
  function FormatCell(i: nat): (xy: (nat, nat))
    requires i < 15
    ensures xy.0 <= 8 && xy.1 <= 8
  {
    if i <= 5 then (8, i) else if i == 6 then (8, 7) else if i == 7 then (8, 8) else if i == 8 then (7, 8)
    else (14 - i, 8)
  }

  function FormatModules(m: Matrix): (bits: seq<bool>)
    requires IsMatrix(m)
    ensures |bits| == 15
  {
    seq(15, j requires 0 <= j < 15 => m[FormatCell(14 - j).1][FormatCell(14 - j).0])
  }

  /** The format bits shown differ in at most three places from those of this level and mask. */
  ghost predicate ShowsFormat(m: Matrix, ecl: int, mask: int)
    requires IsMatrix(m)
  {
    0 <= ecl <= 3 && 0 <= mask <= 7 &&
    BchCodes.Distance(Number(FormatModules(m)), FormatBits(ecl, mask), 15) <= 3
  }

  ghost predicate HasFormat(m: Matrix)
    requires IsMatrix(m)
  {
    exists ecl, mask :: ShowsFormat(m, ecl, mask)
  }

  ghost function FormatOf(m: Matrix): (f: (int, int))
    requires IsMatrix(m) && HasFormat(m)
    ensures ShowsFormat(m, f.0, f.1)
  {
    var ecl, mask :| ShowsFormat(m, ecl, mask);
    (ecl, mask)
  }

  /** Three damaged format modules leave no doubt. */
  lemma FormatUnique(m: Matrix, ecl: int, mask: int)
    requires IsMatrix(m) && ShowsFormat(m, ecl, mask)
    ensures HasFormat(m) && FormatOf(m) == (ecl, mask)
  {
    hide Number, FormatModules, FormatBits, BchCodes.Distance;
    var (e, k) := FormatOf(m);
    var v, a, b := Number(FormatModules(m)), FormatBits(ecl, mask), FormatBits(e, k);
    if e != ecl || k != mask {
      FormatsApart(ecl, mask, e, k);
      BchCodes.Triangle(a, v, b, 15);
      BchCodes.DistanceSymmetric(a, v, 15);
    }
  }

  /** An undamaged symbol shows its format. */
  lemma FormatShown(version: int, ecl: int, codewords: seq<Byte>, mask: int)
    requires ValidVersion(version, ecl) && 0 <= mask <= 7
    ensures ShowsFormat(Symbol(version, ecl, codewords, mask), ecl, mask)
  {
    hide FormatBits, FormatModules, BigEndian, Symbol, Number, BchCodes.Distance;
    ModulesShown(version, ecl, codewords, mask);
    NoDistance(ecl, mask);
  }

  lemma ModulesShown(version: int, ecl: int, codewords: seq<Byte>, mask: int)
    requires ValidVersion(version, ecl) && 0 <= mask <= 7
    ensures IsMatrix(Symbol(version, ecl, codewords, mask))
    ensures FormatModules(Symbol(version, ecl, codewords, mask)) == BigEndian(FormatBits(ecl, mask), 15)
  {
    hide Bit, FormatBits, FormatCell, Symbol;
    forall i: nat | i < 15
      ensures var (x, y) := FormatCell(i);
        Symbol(version, ecl, codewords, mask)[y][x] == Bit(FormatBits(ecl, mask), i)
    {
      CellShown(version, ecl, codewords, mask, i);
    }
  }

  lemma CellShown(version: int, ecl: int, codewords: seq<Byte>, mask: int, i: nat)
    requires ValidVersion(version, ecl) && 0 <= mask <= 7 && i < 15
    ensures var (x, y) := FormatCell(i);
      Symbol(version, ecl, codewords, mask)[y][x] == Bit(FormatBits(ecl, mask), i)
  {
    hide Bit, FormatBits, BaseDark, IsFunction, Invert;
    var (x, y) := FormatCell(i);
    assert FormatIndex(SizeOf(version), x, y) == i;
  }

  lemma NoDistance(ecl: int, mask: int)
    requires 0 <= ecl <= 3 && 0 <= mask <= 7
    ensures var v := FormatBits(ecl, mask); BchCodes.Distance(Number(BigEndian(v, 15)), v, 15) == 0
  {
    hide FormatBits, Pow2;
    var v := FormatBits(ecl, mask);
    FormatWord(ecl, mask);
    BchCodes.Powers();
    NumberOfBigEndian(v, 15);
    XorSelf(v);
    NoWeight(15);
  }

  lemma {:induction false} NoWeight(n: nat)
    ensures BchCodes.Weight(0, n) == 0
  {
    if n > 0 {
      NoWeight(n - 1);
      ZeroBit(n - 1);
    }
  }

  // ---- The blocks

  /** At most degree / 2 bytes of the block are damaged. */
  ghost predicate Nearby(received: seq<Byte>, d: seq<Byte>, degree: nat)
    requires degree > 0
  {
    |d| + degree == |received| && 2 * Distance(Codeword(d, degree), received) <= degree
  }

  /** The data of the codeword nearby, if there is one. */
  ghost function Corrected(received: seq<Byte>, degree: nat): (d: seq<Byte>)
    requires 0 < degree <= |received|
    ensures |d| + degree == |received|
  {
    if exists d :: Nearby(received, d, degree) then
      var d :| Nearby(received, d, degree);
      d
    else received[..|received| - degree]
  }

  lemma CorrectedIs(received: seq<Byte>, d: seq<Byte>, degree: nat)
    requires degree > 0 && |received| <= 255 && Nearby(received, d, degree)
    ensures Corrected(received, degree) == d
  {
    hide Codeword, Distance;
    var e := Corrected(received, degree);
    if Distance(Codeword(e, degree), received) <= Distance(Codeword(d, degree), received) {
      NearestBlock(d, e, degree, received);
    } else {
      NearestBlock(e, d, degree, received);
    }
  }

  /** The corrected data of the first n blocks, one after another. */
  ghost function ReadData(l: Layout, r: seq<Byte>, n: int): seq<Byte>
    requires l.Valid() && l.raw <= |r| && 0 <= n <= l.numBlocks
    decreases n
  {
    if n == 0 then [] else
      BlockBounds(l, n - 1);
      ReadData(l, r, n - 1) + Corrected(ReadBlock(l, r, n - 1), l.eccLen)
  }

  /** The codewords r are those of the data d, up to as much damage in each block as its
      error correction bytes allow for. */
  ghost predicate Readable(l: Layout, d: seq<Byte>, r: seq<Byte>)
    requires l.Valid() && |d| == l.DataLen() && l.raw <= |r|
  {
    forall i :: 0 <= i < l.numBlocks ==> Nearby(ReadBlock(l, r, i), BlockData(l, d, i), l.eccLen)
  }

  lemma {:induction false} ReadDataBack(l: Layout, d: seq<Byte>, r: seq<Byte>, n: int)
    requires l.Valid() && |d| == l.DataLen() && l.raw <= |r| && 0 <= n <= l.numBlocks
    requires Readable(l, d, r)
    ensures 0 <= l.BlockStart(n) <= |d| && ReadData(l, r, n) == d[..l.BlockStart(n)]
    ensures n == l.numBlocks ==> ReadData(l, r, n) == d
    decreases n
  {
    hide *;
    DataSize(l);
    if n > 0 {
      ReadDataBack(l, d, r, n - 1);
      BlockBounds(l, n - 1);
      BlockBack(l, d, r, n);
      Slices(d, l.BlockStart(n - 1), l.BlockStart(n));
      Slices(d, l.BlockStart(n), |d|);
    } else {
      BlockBounds(l, 0);
      NothingRead(l, r);
    }
  }

  lemma NothingRead(l: Layout, r: seq<Byte>)
    requires l.Valid() && l.raw <= |r| && 0 <= l.numBlocks
    ensures ReadData(l, r, 0) == []
  {}

  lemma BlockBack(l: Layout, d: seq<Byte>, r: seq<Byte>, n: int)
    requires l.Valid() && |d| == l.DataLen() && l.raw <= |r| && 0 < n <= l.numBlocks
    requires Readable(l, d, r)
    ensures 0 <= l.BlockStart(n - 1) <= l.BlockStart(n) <= |d|
    ensures ReadData(l, r, n) == ReadData(l, r, n - 1) + d[l.BlockStart(n - 1)..l.BlockStart(n)]
  {
    hide Nearby, ReadBlock, Corrected;
    BlockBounds(l, n - 1);
    CorrectedIs(ReadBlock(l, r, n - 1), BlockData(l, d, n - 1), l.eccLen);
  }

  lemma Slices(d: seq<Byte>, a: int, b: int)
    requires 0 <= a <= b <= |d|
    ensures d[..a] + d[a..b] == d[..b]
    ensures d[..|d|] == d
  {}

  /** Without damage every block is readable. */
  lemma InterleavedReadable(l: Layout, d: seq<Byte>)
    requires l.Valid() && |d| == l.DataLen()
    ensures Readable(l, d, Interleaved(l, d))
  {
    hide Interleaved, ReadBlock, BlockData, Codeword, Distance;
    DataSize(l);
    var r := Interleaved(l, d);
    assert r[..l.raw] == r;
    InterleavedIs(l, d, r);
    forall i | 0 <= i < l.numBlocks ensures Nearby(ReadBlock(l, r, i), BlockData(l, d, i), l.eccLen) {
      ReadBlockBack(l, d, r, i);
      DistanceZero(ReadBlock(l, r, i), ReadBlock(l, r, i));
    }
  }

  // ---- The whole symbol

  /** The data codewords: version, level and mask are read first, then the blocks. */
  ghost function ReadSymbol(m: Matrix): seq<Byte>
    requires IsMatrix(m) && HasFormat(m)
  {
    hide SymbolLayout, DataModules, WalkLength, Received;
    var version, (ecl, mask) := VersionOf(m), FormatOf(m);
    var l := SymbolLayout(version, ecl);
    RoomFor(version, ecl);
    ReadData(l, Received(m, version, mask, l.raw), l.numBlocks)
  }

  /** There is a data module for every bit of the codewords. */
  lemma RoomFor(version: int, ecl: int)
    requires ValidVersion(version, ecl)
    ensures var l := SymbolLayout(version, ecl);
      0 <= l.raw && 0 < l.numBlocks && 8 * l.raw <= DataModules(version, WalkLength(version))
  {
    hide SymbolLayout, DataModules, WalkLength, NumRawDataModules;
    Capacity(version);
    DataSize(SymbolLayout(version, ecl));
  }

  /** m shows the symbol of these segments, with at most three damaged modules in the format
      bits next to the upper left finder pattern and, in every block, at most half as many
      damaged bytes as it has error correction bytes. No other module matters. */
  ghost predicate Shows(m: Matrix, segs: seq<Segment>, version: int, ecl: int, mask: int)
    requires ValidVersion(version, ecl) && 0 <= mask <= 7 && ValidSegments(segs) && FitsSymbol(segs, version, ecl)
  {
    hide SymbolLayout, DataModules, WalkLength, Received;
    var l := SymbolLayout(version, ecl);
    RoomFor(version, ecl);
    && IsMatrix(m) && |m| == SizeOf(version) && ShowsFormat(m, ecl, mask)
    && Readable(l, DataCodewords(segs, version, ecl), Received(m, version, mask, l.raw))
  }

  /** Whatever the segments: a reader that sees such a matrix finds out version, level and
      mask, and gets the data bits, which begin with the bits of the segments. */
  lemma ReadsBack(m: Matrix, segs: seq<Segment>, version: int, ecl: int, mask: int)
    requires ValidVersion(version, ecl) && 0 <= mask <= 7 && ValidSegments(segs) && FitsSymbol(segs, version, ecl)
    requires Shows(m, segs, version, ecl, mask)
    ensures IsMatrix(m) && HasFormat(m) && VersionOf(m) == version && FormatOf(m) == (ecl, mask)
    ensures var bits := BitsOf(ReadSymbol(m));
      bits == CodewordBits(AllBits(segs, version), NumDataCodewords(version, ecl)) && AllBits(segs, version) <= bits
  {
    hide Received, CodewordBits, AllBits, BytesOf, BitsOf, SymbolLayout, ReadData, Readable, ShowsFormat, FormatOf;
    hide DataModules, WalkLength, NumDataCodewords, NumRawDataModules, FitsSymbol;
    FormatUnique(m, ecl, mask);
    RoomFor(version, ecl);
    var l := SymbolLayout(version, ecl);
    ReadDataBack(l, DataCodewords(segs, version, ecl), Received(m, version, mask, l.raw), l.numBlocks);
    DataBits(segs, version, ecl);
  }

  lemma DataBits(segs: seq<Segment>, version: int, ecl: int)
    requires ValidVersion(version, ecl) && ValidSegments(segs) && FitsSymbol(segs, version, ecl)
    ensures BitsOf(DataCodewords(segs, version, ecl))
         == CodewordBits(AllBits(segs, version), NumDataCodewords(version, ecl))
    ensures AllBits(segs, version) <= CodewordBits(AllBits(segs, version), NumDataCodewords(version, ecl))
  {
    hide CodewordBits, AllBits, BytesOf, BitsOf, NumDataCodewords;
    BytesBits(CodewordBits(AllBits(segs, version), NumDataCodewords(version, ecl)));
  }

  /** The symbol that the encoder draws is such a matrix. */
  lemma SymbolShows(segs: seq<Segment>, version: int, ecl: int, mask: int)
    requires ValidVersion(version, ecl) && 0 <= mask <= 7 && ValidSegments(segs) && FitsSymbol(segs, version, ecl)
    ensures Shows(SymbolOf(segs, version, ecl, mask), segs, version, ecl, mask)
  {
    hide Received, Symbol, Interleaved, DataCodewords, SymbolLayout, Readable, ShowsFormat, FitsSymbol;
    hide DataModules, WalkLength, NumDataCodewords;
    DrawnReadable(version, ecl, DataCodewords(segs, version, ecl), mask);
  }

  lemma DrawnReadable(version: int, ecl: int, d: seq<Byte>, mask: int)
    requires ValidVersion(version, ecl) && 0 <= mask <= 7 && |d| == NumDataCodewords(version, ecl)
    ensures var l := SymbolLayout(version, ecl);
      var m := Symbol(version, ecl, Interleaved(l, d), mask);
      && 0 <= l.raw && 8 * l.raw <= DataModules(version, WalkLength(version))
      && IsMatrix(m) && |m| == SizeOf(version) && ShowsFormat(m, ecl, mask)
      && Readable(l, d, Received(m, version, mask, l.raw))
  {
    hide Received, Symbol, Interleaved, SymbolLayout, Readable, ShowsFormat, NumDataCodewords, DataModules, WalkLength;
    var l := SymbolLayout(version, ecl);
    RoomFor(version, ecl);
    FormatShown(version, ecl, Interleaved(l, d), mask);
    ReceivedBack(version, ecl, Interleaved(l, d), mask);
    InterleavedReadable(l, d);
  }

  /** So reading what was encoded returns the data. */
  lemma SymbolRoundTrip(segs: seq<Segment>, version: int, ecl: int, mask: int)
    requires ValidVersion(version, ecl) && 0 <= mask <= 7 && ValidSegments(segs) && FitsSymbol(segs, version, ecl)
    ensures var m := SymbolOf(segs, version, ecl, mask);
      && IsMatrix(m) && HasFormat(m) && VersionOf(m) == version && FormatOf(m) == (ecl, mask)
      && var bits := BitsOf(ReadSymbol(m));
         bits == CodewordBits(AllBits(segs, version), NumDataCodewords(version, ecl)) && AllBits(segs, version) <= bits
  {
    hide SymbolOf, ReadSymbol, CodewordBits, AllBits, BitsOf, NumDataCodewords, Shows, FormatOf;
    SymbolShows(segs, version, ecl, mask);
    ReadsBack(SymbolOf(segs, version, ecl, mask), segs, version, ecl, mask);
  }

}
