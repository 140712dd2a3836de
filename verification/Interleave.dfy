/** The block structure of a QR symbol (qr.c): its tables, and addEccAndInterleave. */
module Interleave {
  import opened Arith
  import opened Gf256
  import opened ReedSolomon

  // ECC_CODEWORDS_PER_BLOCK, one function per error correction level.

  function EccLow(version: int): int {
    match version
    case 1 => 7 case 2 => 10 case 3 => 15 case 4 => 20 case 5 => 26 case 6 => 18 case 7 => 20 case 8 => 24
    case 9 => 30 case 10 => 18 case 11 => 20 case 12 => 24 case 13 => 26 case 14 => 30 case 15 => 22 case 16 => 24
    case 17 => 28 case 18 => 30 case 19 => 28 case 20 => 28 case 21 => 28 case 22 => 28 case 23 => 30 case 24 => 30
    case 25 => 26 case 26 => 28 case 27 => 30 case 28 => 30 case 29 => 30 case 30 => 30 case 31 => 30 case 32 => 30
    case 33 => 30 case 34 => 30 case 35 => 30 case 36 => 30 case 37 => 30 case 38 => 30 case 39 => 30 case _ => 30
  }

  function EccMedium(version: int): int {
    match version
    case 1 => 10 case 2 => 16 case 3 => 26 case 4 => 18 case 5 => 24 case 6 => 16 case 7 => 18 case 8 => 22
    case 9 => 22 case 10 => 26 case 11 => 30 case 12 => 22 case 13 => 22 case 14 => 24 case 15 => 24 case 16 => 28
    case 17 => 28 case 18 => 26 case 19 => 26 case 20 => 26 case 21 => 26 case 22 => 28 case 23 => 28 case 24 => 28
    case 25 => 28 case 26 => 28 case 27 => 28 case 28 => 28 case 29 => 28 case 30 => 28 case 31 => 28 case 32 => 28
    case 33 => 28 case 34 => 28 case 35 => 28 case 36 => 28 case 37 => 28 case 38 => 28 case 39 => 28 case _ => 28
  }

  function EccQuartile(version: int): int {
    match version
    case 1 => 13 case 2 => 22 case 3 => 18 case 4 => 26 case 5 => 18 case 6 => 24 case 7 => 18 case 8 => 22
    case 9 => 20 case 10 => 24 case 11 => 28 case 12 => 26 case 13 => 24 case 14 => 20 case 15 => 30 case 16 => 24
    case 17 => 28 case 18 => 28 case 19 => 26 case 20 => 30 case 21 => 28 case 22 => 30 case 23 => 30 case 24 => 30
    case 25 => 30 case 26 => 28 case 27 => 30 case 28 => 30 case 29 => 30 case 30 => 30 case 31 => 30 case 32 => 30
    case 33 => 30 case 34 => 30 case 35 => 30 case 36 => 30 case 37 => 30 case 38 => 30 case 39 => 30 case _ => 30
  }

  function EccHigh(version: int): int {
    match version
    case 1 => 17 case 2 => 28 case 3 => 22 case 4 => 16 case 5 => 22 case 6 => 28 case 7 => 26 case 8 => 26
    case 9 => 24 case 10 => 28 case 11 => 24 case 12 => 28 case 13 => 22 case 14 => 24 case 15 => 24 case 16 => 30
    case 17 => 28 case 18 => 28 case 19 => 26 case 20 => 28 case 21 => 30 case 22 => 24 case 23 => 30 case 24 => 30
    case 25 => 30 case 26 => 30 case 27 => 30 case 28 => 30 case 29 => 30 case 30 => 30 case 31 => 30 case 32 => 30
    case 33 => 30 case 34 => 30 case 35 => 30 case 36 => 30 case 37 => 30 case 38 => 30 case 39 => 30 case _ => 30
  }

  // NUM_ERROR_CORRECTION_BLOCKS, one function per error correction level.

  function BlocksLow(version: int): int {
    match version
    case 1 => 1 case 2 => 1 case 3 => 1 case 4 => 1 case 5 => 1 case 6 => 2 case 7 => 2 case 8 => 2
    case 9 => 2 case 10 => 4 case 11 => 4 case 12 => 4 case 13 => 4 case 14 => 4 case 15 => 6 case 16 => 6
    case 17 => 6 case 18 => 6 case 19 => 7 case 20 => 8 case 21 => 8 case 22 => 9 case 23 => 9 case 24 => 10
    case 25 => 12 case 26 => 12 case 27 => 12 case 28 => 13 case 29 => 14 case 30 => 15 case 31 => 16 case 32 => 17
    case 33 => 18 case 34 => 19 case 35 => 19 case 36 => 20 case 37 => 21 case 38 => 22 case 39 => 24 case _ => 25
  }

  function BlocksMedium(version: int): int {
    match version
    case 1 => 1 case 2 => 1 case 3 => 1 case 4 => 2 case 5 => 2 case 6 => 4 case 7 => 4 case 8 => 4
    case 9 => 5 case 10 => 5 case 11 => 5 case 12 => 8 case 13 => 9 case 14 => 9 case 15 => 10 case 16 => 10
    case 17 => 11 case 18 => 13 case 19 => 14 case 20 => 16 case 21 => 17 case 22 => 17 case 23 => 18 case 24 => 20
    case 25 => 21 case 26 => 23 case 27 => 25 case 28 => 26 case 29 => 28 case 30 => 29 case 31 => 31 case 32 => 33
    case 33 => 35 case 34 => 37 case 35 => 38 case 36 => 40 case 37 => 43 case 38 => 45 case 39 => 47 case _ => 49
  }

  function BlocksQuartile(version: int): int {
    match version
    case 1 => 1 case 2 => 1 case 3 => 2 case 4 => 2 case 5 => 4 case 6 => 4 case 7 => 6 case 8 => 6
    case 9 => 8 case 10 => 8 case 11 => 8 case 12 => 10 case 13 => 12 case 14 => 16 case 15 => 12 case 16 => 17
    case 17 => 16 case 18 => 18 case 19 => 21 case 20 => 20 case 21 => 23 case 22 => 23 case 23 => 25 case 24 => 27
    case 25 => 29 case 26 => 34 case 27 => 34 case 28 => 35 case 29 => 38 case 30 => 40 case 31 => 43 case 32 => 45
    case 33 => 48 case 34 => 51 case 35 => 53 case 36 => 56 case 37 => 59 case 38 => 62 case 39 => 65 case _ => 68
  }

  function BlocksHigh(version: int): int {
    match version
    case 1 => 1 case 2 => 1 case 3 => 2 case 4 => 4 case 5 => 4 case 6 => 4 case 7 => 5 case 8 => 6
    case 9 => 8 case 10 => 8 case 11 => 11 case 12 => 11 case 13 => 16 case 14 => 16 case 15 => 18 case 16 => 16
    case 17 => 19 case 18 => 21 case 19 => 25 case 20 => 25 case 21 => 25 case 22 => 34 case 23 => 30 case 24 => 32
    case 25 => 35 case 26 => 37 case 27 => 40 case 28 => 42 case 29 => 45 case 30 => 48 case 31 => 51 case 32 => 54
    case 33 => 57 case 34 => 60 case 35 => 63 case 36 => 66 case 37 => 70 case 38 => 74 case 39 => 77 case _ => 81
  }

  /** Error correction bytes per block. */
  function EccCodewordsPerBlock(ecl: int, version: int): int
    requires ValidVersion(version, ecl)
  {
    if ecl == 0 then EccLow(version) else if ecl == 1 then EccMedium(version)
    else if ecl == 2 then EccQuartile(version) else EccHigh(version)
  }

  /** Blocks per symbol. */
  function NumErrorCorrectionBlocks(ecl: int, version: int): int
    requires ValidVersion(version, ecl)
  {
    if ecl == 0 then BlocksLow(version) else if ecl == 1 then BlocksMedium(version)
    else if ecl == 2 then BlocksQuartile(version) else BlocksHigh(version)
  }

  predicate ValidVersion(version: int, ecl: int) {
    1 <= version <= 40 && 0 <= ecl < 4
  }

  /** getNumRawDataModules */
  function NumRawDataModules(ver: int): int
    requires 1 <= ver <= 40
  {
    var result := (16 * ver + 128) * ver + 64;
    if ver < 2 then result
    else
      var numAlign := ver / 7 + 2;
      result - ((25 * numAlign - 10) * numAlign - 55) - (if ver >= 7 then 36 else 0)
  }

  /** getNumDataCodewords */
  function NumDataCodewords(version: int, ecl: int): int
    requires ValidVersion(version, ecl)
  {
    NumRawDataModules(version) / 8 - EccCodewordsPerBlock(ecl, version) * NumErrorCorrectionBlocks(ecl, version)
  }

  /** Each block has at least one byte of data and at most 255 bytes in all. */
  predicate Fits(numBlocks: int, eccLen: int, raw: int) {
    0 < numBlocks && 1 <= eccLen <= 30 && (eccLen + 1) * numBlocks <= raw < 255 * numBlocks
  }

  /** numBlocks blocks of eccLen error correction bytes each, raw bytes in all. */
  datatype Layout = Layout(numBlocks: int, eccLen: int, raw: int) {

    predicate Valid() {
      Fits(numBlocks, eccLen, raw)
    }

    function NumShort(): int requires Valid() { numBlocks - raw % numBlocks }

    function ShortLen(): int requires Valid() { raw / numBlocks - eccLen }

    function DataLen(): int requires Valid() { raw - eccLen * numBlocks }

    /** Length of the data part of block i. */
    function BlockLen(i: int): int
      requires Valid()
    {
      ShortLen() + if i < NumShort() then 0 else 1
    }

    /** Where block i's data begins. */
    function BlockStart(i: int): int
      requires Valid()
    {
      i * ShortLen() + if i < NumShort() then 0 else i - NumShort()
    }
  }

  function LayoutOf(version: int, ecl: int): Layout
    requires ValidVersion(version, ecl)
  {
    Layout(NumErrorCorrectionBlocks(ecl, version), EccCodewordsPerBlock(ecl, version), NumRawDataModules(version) / 8)
  }

  /** The layout of a symbol, from the tables. */
  function SymbolLayout(version: int, ecl: int): (l: Layout)
    requires ValidVersion(version, ecl)
    ensures l.Valid()
    ensures l.DataLen() == NumDataCodewords(version, ecl) && l.raw == NumRawDataModules(version) / 8
  {
    TablesValid(version, ecl);
    LayoutOf(version, ecl)
  }

  /** Every entry of the tables describes a layout whose blocks have at most 255 bytes. */
  lemma TablesValid(version: int, ecl: int)
    requires ValidVersion(version, ecl)
    ensures LayoutOf(version, ecl).Valid()
  {
    hide NumRawDataModules;
    if ecl == 0 {
      if version <= 6 { Low1(version); } else if version <= 13 { Low2(version); }
      else if version <= 21 { Low3(version); } else if version <= 30 { Low4(version); } else { Low5(version); }
    } else if ecl == 1 {
      if version <= 6 { Medium1(version); } else if version <= 13 { Medium2(version); }
      else if version <= 21 { Medium3(version); } else if version <= 30 { Medium4(version); } else { Medium5(version); }
    } else if ecl == 2 {
      if version <= 6 { Quartile1(version); } else if version <= 13 { Quartile2(version); }
      else if version <= 21 { Quartile3(version); } else if version <= 30 { Quartile4(version); }
      else { Quartile5(version); }
    } else if ecl == 3 {
      if version <= 6 { High1(version); } else if version <= 13 { High2(version); }
      else if version <= 21 { High3(version); } else if version <= 30 { High4(version); } else { High5(version); }
    }
  }

  lemma Low1(v: int) requires 1 <= v <= 6 ensures Fits(BlocksLow(v), EccLow(v), NumRawDataModules(v) / 8) {}
  lemma Low2(v: int) requires 7 <= v <= 13 ensures Fits(BlocksLow(v), EccLow(v), NumRawDataModules(v) / 8) {}
  lemma Low3(v: int) requires 14 <= v <= 21 ensures Fits(BlocksLow(v), EccLow(v), NumRawDataModules(v) / 8) {}
  lemma Low4(v: int) requires 22 <= v <= 30 ensures Fits(BlocksLow(v), EccLow(v), NumRawDataModules(v) / 8) {}
  lemma Low5(v: int) requires 31 <= v <= 40 ensures Fits(BlocksLow(v), EccLow(v), NumRawDataModules(v) / 8) {}
  lemma Medium1(v: int) requires 1 <= v <= 6 ensures Fits(BlocksMedium(v), EccMedium(v), NumRawDataModules(v) / 8) {}
  lemma Medium2(v: int) requires 7 <= v <= 13 ensures Fits(BlocksMedium(v), EccMedium(v), NumRawDataModules(v) / 8) {}
  lemma Medium3(v: int) requires 14 <= v <= 21 ensures Fits(BlocksMedium(v), EccMedium(v), NumRawDataModules(v) / 8) {}
  lemma Medium4(v: int) requires 22 <= v <= 30 ensures Fits(BlocksMedium(v), EccMedium(v), NumRawDataModules(v) / 8) {}
  lemma Medium5(v: int) requires 31 <= v <= 40 ensures Fits(BlocksMedium(v), EccMedium(v), NumRawDataModules(v) / 8) {}
  lemma Quartile1(v: int)
    requires 1 <= v <= 6
    ensures Fits(BlocksQuartile(v), EccQuartile(v), NumRawDataModules(v) / 8)
  {}

  lemma Quartile2(v: int)
    requires 7 <= v <= 13
    ensures Fits(BlocksQuartile(v), EccQuartile(v), NumRawDataModules(v) / 8)
  {}

  lemma Quartile3(v: int)
    requires 14 <= v <= 21
    ensures Fits(BlocksQuartile(v), EccQuartile(v), NumRawDataModules(v) / 8)
  {}

  lemma Quartile4(v: int)
    requires 22 <= v <= 30
    ensures Fits(BlocksQuartile(v), EccQuartile(v), NumRawDataModules(v) / 8)
  {}

  lemma Quartile5(v: int)
    requires 31 <= v <= 40
    ensures Fits(BlocksQuartile(v), EccQuartile(v), NumRawDataModules(v) / 8)
  {}
  lemma High1(v: int) requires 1 <= v <= 6 ensures Fits(BlocksHigh(v), EccHigh(v), NumRawDataModules(v) / 8) {}
  lemma High2(v: int) requires 7 <= v <= 13 ensures Fits(BlocksHigh(v), EccHigh(v), NumRawDataModules(v) / 8) {}
  lemma High3(v: int) requires 14 <= v <= 21 ensures Fits(BlocksHigh(v), EccHigh(v), NumRawDataModules(v) / 8) {}
  lemma High4(v: int) requires 22 <= v <= 30 ensures Fits(BlocksHigh(v), EccHigh(v), NumRawDataModules(v) / 8) {}
  lemma High5(v: int) requires 31 <= v <= 40 ensures Fits(BlocksHigh(v), EccHigh(v), NumRawDataModules(v) / 8) {}

  // ---- Which byte of which block lies where in the result

  /** A byte of the interleaved result: byte `pos` of block `block`, of its data or of its
      error correction part. */
  datatype Slot = Data(block: int, pos: int) | Ecc(block: int, pos: int)

  predicate IsSlot(l: Layout, s: Slot)
    requires l.Valid()
  {
    0 <= s.block < l.numBlocks &&
    0 <= s.pos < if s.Data? then l.BlockLen(s.block) else l.eccLen
  }

  /** Where the source's loops put a slot: columns of the block matrix, the short blocks
      having no entry in the last data column. */
  function Index(l: Layout, s: Slot): int
    requires l.Valid()
  {
    match s
    case Data(i, j) => j * l.numBlocks + i - if j == l.ShortLen() then l.NumShort() else 0
    case Ecc(i, j) => l.DataLen() + j * l.numBlocks + i
  }

  /** The slot found at an index of the result. */
  function Owner(l: Layout, k: int): Slot
    requires l.Valid() && 0 <= k < l.raw
  {
    var n := l.numBlocks;
    if k < n * l.ShortLen() then Data(k % n, k / n)
    else if k < l.DataLen() then Data(l.NumShort() + k - n * l.ShortLen(), l.ShortLen())
    else Ecc((k - l.DataLen()) % n, (k - l.DataLen()) / n)
  }

  /** The data part of the result is made of whole columns and a partial last one. */
  lemma DataSize(l: Layout)
    requires l.Valid()
    ensures l.DataLen() == l.numBlocks * l.ShortLen() + l.raw % l.numBlocks
    ensures 0 < l.ShortLen() && l.ShortLen() + 1 + l.eccLen <= 255
    ensures 0 < l.NumShort() <= l.numBlocks
    ensures l.DataLen() + l.eccLen * l.numBlocks == l.raw
    ensures 0 < l.DataLen() && l.DataLen() + l.eccLen <= l.raw
    ensures 1 <= l.eccLen <= 30 && 0 < l.numBlocks
  {
    var n, q := l.numBlocks, l.raw / l.numBlocks;
    assert l.raw == n * q + l.raw % n;
    assert n * (q - l.eccLen) == n * q - n * l.eccLen;
    if q <= l.eccLen { MulMono(q, l.eccLen, n); }
    if q >= 255 { MulMono(255, q, n); }
    MulMono(1, l.ShortLen(), n);
    MulMono(1, n, l.eccLen);
  }

  /** Every slot is put inside the result, and the index determines it. */
  lemma OwnerOfIndex(l: Layout, s: Slot)
    requires l.Valid() && IsSlot(l, s)
    ensures 0 <= Index(l, s) < l.raw
    ensures Owner(l, Index(l, s)) == s
    ensures Index(l, s) < l.DataLen() <==> s.Data?
  {
    hide Index, Owner, Fits;
    if s.Ecc? {
      OwnerOfEcc(l, s.block, s.pos);
    } else if s.pos < l.ShortLen() {
      OwnerOfShort(l, s.block, s.pos);
    } else {
      OwnerOfLong(l, s.block);
    }
  }

  lemma OwnerOfEcc(l: Layout, i: int, j: int)
    requires l.Valid() && 0 <= i < l.numBlocks && 0 <= j < l.eccLen
    ensures var k := Index(l, Ecc(i, j)); 0 <= l.DataLen() <= k < l.raw && Owner(l, k) == Ecc(i, j)
  {
    DataSize(l);
    RowMajor(l.numBlocks, l.eccLen, i, j);
    assert Index(l, Ecc(i, j)) - l.DataLen() == j * l.numBlocks + i;
  }

  lemma OwnerOfShort(l: Layout, i: int, j: int)
    requires l.Valid() && 0 <= i < l.numBlocks && 0 <= j < l.ShortLen()
    ensures var k := Index(l, Data(i, j)); 0 <= k < l.DataLen() < l.raw && Owner(l, k) == Data(i, j)
  {
    DataSize(l);
    RowMajor(l.numBlocks, l.ShortLen(), i, j);
    assert Index(l, Data(i, j)) == j * l.numBlocks + i < l.ShortLen() * l.numBlocks;
  }

  lemma OwnerOfLong(l: Layout, i: int)
    requires l.Valid() && l.NumShort() <= i < l.numBlocks
    ensures var k := Index(l, Data(i, l.ShortLen()));
      0 <= k < l.DataLen() < l.raw && Owner(l, k) == Data(i, l.ShortLen())
  {
    DataSize(l);
    var whole := l.numBlocks * l.ShortLen();
    assert l.ShortLen() * l.numBlocks == whole;
    assert Index(l, Data(i, l.ShortLen())) == whole + (i - l.NumShort());
    MulMono(0, l.ShortLen(), l.numBlocks);
  }

  /** Every index of the result is that of a slot. With OwnerOfIndex: each byte of each
      block is written to one index, and each index holds one byte of one block. */
  lemma IndexOfOwner(l: Layout, k: int)
    requires l.Valid() && 0 <= k < l.raw
    ensures IsSlot(l, Owner(l, k))
    ensures Index(l, Owner(l, k)) == k
  {
    hide Index, IsSlot;
    DataSize(l);
    if k < l.numBlocks * l.ShortLen() {
      WholeColumn(l, k);
    } else if k < l.DataLen() {
      LastColumn(l, k);
    } else {
      EccColumn(l, k);
    }
  }

  lemma WholeColumn(l: Layout, k: int)
    requires l.Valid() && 0 <= k < l.numBlocks * l.ShortLen()
    ensures var s := Data(k % l.numBlocks, k / l.numBlocks); IsSlot(l, s) && Index(l, s) == k
  {
    Columns(l.numBlocks, k, l.ShortLen());
  }

  lemma LastColumn(l: Layout, k: int)
    requires l.Valid() && l.numBlocks * l.ShortLen() <= k < l.DataLen()
    ensures var s := Data(l.NumShort() + k - l.numBlocks * l.ShortLen(), l.ShortLen()); IsSlot(l, s) && Index(l, s) == k
  {
    DataSize(l);
  }

  lemma EccColumn(l: Layout, k: int)
    requires l.Valid() && l.DataLen() <= k < l.raw
    ensures var s := Ecc((k - l.DataLen()) % l.numBlocks, (k - l.DataLen()) / l.numBlocks);
      IsSlot(l, s) && Index(l, s) == k
  {
    DataSize(l);
    Columns(l.numBlocks, k - l.DataLen(), l.eccLen);
  }

  // ---- The blocks

  /** The blocks' data parts follow one another and fill the data. */
  lemma BlockBounds(l: Layout, i: int)
    requires l.Valid() && 0 <= i < l.numBlocks
    ensures 0 <= l.BlockStart(i) && l.BlockStart(i) + l.BlockLen(i) <= l.DataLen()
    ensures l.BlockStart(i) + l.BlockLen(i) == l.BlockStart(i + 1)
    ensures l.BlockStart(0) == 0 && l.BlockStart(l.numBlocks) == l.DataLen()
    ensures 0 < l.BlockLen(i) && l.BlockLen(i) + l.eccLen <= 255
  {
    DataSize(l);
    var m := l.ShortLen();
    MulMono(0, i, m);
    MulMono(i + 1, l.numBlocks, m);
    assert (i + 1) * m == i * m + m;
  }

  /** The data of block i, and its error correction bytes. */
  function BlockData(l: Layout, d: seq<Byte>, i: int): (b: seq<Byte>)
    requires l.Valid() && |d| == l.DataLen() && 0 <= i < l.numBlocks
    ensures |b| == l.BlockLen(i)
  {
    BlockBounds(l, i);
    d[l.BlockStart(i)..l.BlockStart(i) + l.BlockLen(i)]
  }

  function BlockEcc(l: Layout, d: seq<Byte>, i: int): (b: seq<Byte>)
    requires l.Valid() && |d| == l.DataLen() && 0 <= i < l.numBlocks
    ensures |b| == l.eccLen
  {
    Remainder(BlockData(l, d, i), Generator(l.eccLen)[1..])
  }

  /** The byte a slot holds. */
  function SlotByte(l: Layout, d: seq<Byte>, s: Slot): Byte
    requires l.Valid() && |d| == l.DataLen() && IsSlot(l, s)
  {
    if s.Data? then BlockData(l, d, s.block)[s.pos] else BlockEcc(l, d, s.block)[s.pos]
  }

  lemma SlotBytes(l: Layout, d: seq<Byte>, s: Slot)
    requires l.Valid() && |d| == l.DataLen() && IsSlot(l, s)
    ensures SlotByte(l, d, s) == if s.Data? then BlockData(l, d, s.block)[s.pos] else BlockEcc(l, d, s.block)[s.pos]
  {}

  lemma SlotIndex(l: Layout, s: Slot)
    requires l.Valid() && IsSlot(l, s)
    ensures s.Data? ==> Index(l, s) == s.pos * l.numBlocks + s.block - if s.pos >= l.ShortLen() then l.NumShort() else 0
    ensures s.Ecc? ==> Index(l, s) == l.DataLen() + s.pos * l.numBlocks + s.block
  {}

  /** Index k of the result holds what the slot there calls for. */
  ghost predicate SlotHolds(l: Layout, d: seq<Byte>, r: seq<Byte>, k: int)
    requires l.Valid() && |d| == l.DataLen() && 0 <= k < l.raw <= |r|
  {
    IndexOfOwner(l, k);
    r[k] == SlotByte(l, d, Owner(l, k))
  }

  /** Every index of the result holds its slot's byte. */
  ghost predicate IsInterleaved(l: Layout, d: seq<Byte>, r: seq<Byte>)
    requires l.Valid() && |d| == l.DataLen() && l.raw <= |r|
  {
    forall k :: 0 <= k < l.raw ==> SlotHolds(l, d, r, k)
  }

  /** The copying loops have done the slots of all blocks before i, and of block i the
      first `dataDone` data bytes and the first `eccDone` error correction bytes. */
  ghost predicate Progress(l: Layout, d: seq<Byte>, r: seq<Byte>, i: int, dataDone: int, eccDone: int)
    requires l.Valid() && |d| == l.DataLen() && l.raw <= |r|
  {
    forall k :: 0 <= k < l.raw ==>
      var s := Owner(l, k);
      s.block < i || (s.block == i && s.pos < if s.Data? then dataDone else eccDone) ==> SlotHolds(l, d, r, k)
  }

  lemma ProgressStep(l: Layout, d: seq<Byte>, r: seq<Byte>, s: Slot, dataDone: int, eccDone: int)
    requires l.Valid() && |d| == l.DataLen() && l.raw <= |r| && IsSlot(l, s)
    requires Progress(l, d, r, s.block, dataDone, eccDone)
    requires s.pos == if s.Data? then dataDone else eccDone
    ensures 0 <= Index(l, s) < l.raw
    ensures var r' := r[Index(l, s) := SlotByte(l, d, s)];
            if s.Data? then Progress(l, d, r', s.block, dataDone + 1, eccDone)
            else Progress(l, d, r', s.block, dataDone, eccDone + 1)
  {
    hide SlotByte, Index, Owner;
    OwnerOfIndex(l, s);
    var r' := r[Index(l, s) := SlotByte(l, d, s)];
    forall k | 0 <= k < l.raw
      ensures var t := Owner(l, k);
              t.block < s.block || (t.block == s.block && t.pos <
                if t.Data? then (if s.Data? then dataDone + 1 else dataDone)
                                                                  else if s.Data? then eccDone else eccDone + 1)
              ==> SlotHolds(l, d, r', k)
    {
      IndexOfOwner(l, k);
      if k != Index(l, s) {
        assert SlotHolds(l, d, r, k) ==> SlotHolds(l, d, r', k);
      }
    }
  }

  lemma ProgressNext(l: Layout, d: seq<Byte>, r: seq<Byte>, i: int)
    requires l.Valid() && |d| == l.DataLen() && l.raw <= |r| && 0 <= i < l.numBlocks
    requires Progress(l, d, r, i, l.BlockLen(i), l.eccLen)
    ensures Progress(l, d, r, i + 1, 0, 0)
  {
    hide SlotHolds, Owner;
    forall k | 0 <= k < l.raw
      ensures var s := Owner(l, k);
              s.block < i + 1 || (s.block == i + 1 && s.pos < 0) ==> SlotHolds(l, d, r, k)
    {
      IndexOfOwner(l, k);
    }
  }

  lemma ProgressStart(l: Layout, d: seq<Byte>, r: seq<Byte>)
    requires l.Valid() && |d| == l.DataLen() && l.raw <= |r|
    ensures Progress(l, d, r, 0, 0, 0)
  {
    hide SlotHolds, Owner;
    forall k | 0 <= k < l.raw
      ensures 0 <= Owner(l, k).block && 0 <= Owner(l, k).pos
    {
      IndexOfOwner(l, k);
    }
  }

  /** addEccAndInterleave. data[dataLen..] is scratch space for one block's error
      correction bytes. */
  method AddEccAndInterleave(data: array<Byte>, version: int, ecl: int, result: array<Byte>)
    requires ValidVersion(version, ecl)
    requires SymbolLayout(version, ecl).raw <= data.Length && SymbolLayout(version, ecl).raw <= result.Length
    requires data != result
    modifies data, result
    ensures var l := SymbolLayout(version, ecl);
            && IsInterleaved(l, old(data[..l.DataLen()]), result[..])
            && SameOutside(data, l.DataLen(), l.eccLen, old(data[..]))
            && result[l.raw..] == old(result[l.raw..])
  {
    hide *;
    var l := SymbolLayout(version, ecl);
    DataSize(l);
    var rsdiv := new Byte[30];
    ComputeDivisor(l.eccLen, rsdiv);
    AllBlocks(data, l, rsdiv, result);
  }

  /** The block loop of addEccAndInterleave. */
  method AllBlocks(data: array<Byte>, l: Layout, rsdiv: array<Byte>, result: array<Byte>)
    requires l.Valid() && l.raw <= data.Length && l.raw <= result.Length
    requires data != result && rsdiv != data && rsdiv != result
    requires l.eccLen <= rsdiv.Length && [1] + rsdiv[..l.eccLen] == Generator(l.eccLen)
    requires l.DataLen() + l.eccLen <= l.raw && 0 < l.DataLen()
    modifies data, result
    ensures IsInterleaved(l, old(data[..l.DataLen()]), result[..])
    ensures SameOutside(data, l.DataLen(), l.eccLen, old(data[..]))
    ensures result[l.raw..] == old(result[l.raw..])
  {
    hide Owner, SlotHolds, Remainder, Generator;
    var dataLen := l.DataLen();
    ghost var d := data[..dataLen];
    ghost var g := rsdiv[..l.eccLen];
    assert g == Generator(l.eccLen)[1..];
    ProgressStart(l, d, result[..]);
    var dat := 0;
    for i := 0 to l.numBlocks
      invariant dat == l.BlockStart(i)
      invariant SameOutside(data, dataLen, l.eccLen, old(data[..]))
      invariant Progress(l, d, result[..], i, 0, 0)
      invariant result[l.raw..] == old(result[l.raw..])
      invariant rsdiv[..l.eccLen] == g
    {
      BlockBounds(l, i);
      var datLen := l.BlockLen(i);
      ghost var b := BlockData(l, d, i);
      assert data[dat..dat + datLen] == b;
      ComputeRemainder(data, dat, datLen, rsdiv, l.eccLen, data, dataLen);
      assert data[dataLen..dataLen + l.eccLen] == BlockEcc(l, d, i);
      CopyData(data, dat, l, i, d, result);
      CopyEcc(data, l, i, d, result);
      ProgressNext(l, d, result[..], i);
      dat := dat + datLen;
    }
    BlocksDone(l, d, result[..]);
  }

  lemma BlocksDone(l: Layout, d: seq<Byte>, r: seq<Byte>)
    requires l.Valid() && |d| == l.DataLen() && l.raw <= |r|
    requires Progress(l, d, r, l.numBlocks, 0, 0)
    ensures IsInterleaved(l, d, r)
  {
    hide Owner, SlotHolds;
    forall k | 0 <= k < l.raw
      ensures SlotHolds(l, d, r, k)
    {
      IndexOfOwner(l, k);
    }
  }

  /** The first copying loop: the data of block i. */
  method CopyData(data: array<Byte>, dat: int, l: Layout, i: int, ghost d: seq<Byte>, result: array<Byte>)
    requires l.Valid() && l.raw <= data.Length && l.raw <= result.Length && data != result
    requires |d| == l.DataLen() && 0 <= i < l.numBlocks && dat == l.BlockStart(i)
    requires 0 <= dat <= dat + l.BlockLen(i) <= l.raw
    requires data[dat..dat + l.BlockLen(i)] == BlockData(l, d, i)
    requires Progress(l, d, result[..], i, 0, 0)
    modifies result
    ensures Progress(l, d, result[..], i, l.BlockLen(i), 0)
    ensures result[l.raw..] == old(result[l.raw..])
  {
    hide Owner, SlotHolds, Progress, BlockData, SlotByte, Index, Place;
    var datLen := l.BlockLen(i);
    PlaceStart(l, i);
    var j, k := 0, i;
    while j < datLen
      invariant 0 <= j <= datLen && k == Place(l, i, j)
      invariant Progress(l, d, result[..], i, j, 0)
      invariant result[l.raw..] == old(result[l.raw..])
    {
      label Before:
      PlaceStep(l, i, j);
      if j == l.ShortLen() {
        k := k - l.NumShort();
      }
      ghost var s := Data(i, j);
      ProgressStep(l, d, result[..], s, j, 0);
      SlotBytes(l, d, s);
      assert data[dat + j] == data[dat..dat + datLen][j];
      result[k] := data[dat + j];
      assert result[..] == old@Before(result[..])[k := SlotByte(l, d, s)];
      j, k := j + 1, k + l.numBlocks;
    }
  }

  /** Where the loop over block i stands at byte j, before a missing byte of the short
      blocks is stepped back over. */
  function Place(l: Layout, i: int, j: int): int
    requires l.Valid()
  {
    j * l.numBlocks + i - if j > l.ShortLen() then l.NumShort() else 0
  }

  lemma PlaceStart(l: Layout, i: int)
    requires l.Valid() && 0 <= i < l.numBlocks
    ensures Place(l, i, 0) == i && 0 <= l.BlockLen(i)
  {
    DataSize(l);
  }

  lemma PlaceStep(l: Layout, i: int, j: int)
    requires l.Valid() && 0 <= i < l.numBlocks && 0 <= j < l.BlockLen(i)
    ensures IsSlot(l, Data(i, j))
    ensures Index(l, Data(i, j)) == Place(l, i, j) - if j == l.ShortLen() then l.NumShort() else 0
    ensures Place(l, i, j + 1) == Index(l, Data(i, j)) + l.numBlocks
  {
    SlotIndex(l, Data(i, j));
    hide Index;
    assert (j + 1) * l.numBlocks == j * l.numBlocks + l.numBlocks;
  }

  /** The second copying loop: the error correction bytes of block i. */
  method CopyEcc(data: array<Byte>, l: Layout, i: int, ghost d: seq<Byte>, result: array<Byte>)
    requires l.Valid() && l.raw <= data.Length && l.raw <= result.Length && data != result
    requires |d| == l.DataLen() && 0 <= i < l.numBlocks && l.DataLen() + l.eccLen <= l.raw
    requires data[l.DataLen()..l.DataLen() + l.eccLen] == BlockEcc(l, d, i)
    requires Progress(l, d, result[..], i, l.BlockLen(i), 0)
    modifies result
    ensures Progress(l, d, result[..], i, l.BlockLen(i), l.eccLen)
    ensures result[l.raw..] == old(result[l.raw..])
  {
    hide Owner, SlotHolds, Progress, BlockEcc, SlotByte, Index;
    var j, k := 0, l.DataLen() + i;
    while j < l.eccLen
      invariant 0 <= j <= l.eccLen
      invariant k == l.DataLen() + j * l.numBlocks + i
      invariant Progress(l, d, result[..], i, l.BlockLen(i), j)
      invariant result[l.raw..] == old(result[l.raw..])
    {
      ghost var r := result[..];
      EccStep(l, d, r, i, j);
      assert data[l.DataLen() + j] == data[l.DataLen()..l.DataLen() + l.eccLen][j];
      result[k] := data[l.DataLen() + j];
      assert result[..] == r[k := BlockEcc(l, d, i)[j]];
      j, k := j + 1, k + l.numBlocks;
      assert k == l.DataLen() + j * l.numBlocks + i by { Distribute(j - 1, 1, l.numBlocks); }
    }
  }

  /** One more byte of block i's remainder. */
  lemma EccStep(l: Layout, d: seq<Byte>, r: seq<Byte>, i: int, j: int)
    requires l.Valid() && |d| == l.DataLen() && l.raw <= |r| && 0 <= i < l.numBlocks && 0 <= j < l.eccLen
    requires Progress(l, d, r, i, l.BlockLen(i), j)
    ensures var k := l.DataLen() + j * l.numBlocks + i;
      0 <= k < l.raw && Progress(l, d, r[k := BlockEcc(l, d, i)[j]], i, l.BlockLen(i), j + 1)
  {
    hide Owner, SlotHolds, Progress, BlockEcc, SlotByte, Index;
    var s := Ecc(i, j);
    SlotIndex(l, s);
    SlotBytes(l, d, s);
    ProgressStep(l, d, r, s, l.BlockLen(i), j);
  }

  // ---- Reading the blocks back

  /** The slot of byte j of block i, counting its data first. */
  function SlotAt(l: Layout, i: int, j: int): (s: Slot)
    requires l.Valid() && 0 <= i < l.numBlocks && 0 <= j < l.BlockLen(i) + l.eccLen
    ensures IsSlot(l, s)
  {
    if j < l.BlockLen(i) then Data(i, j) else Ecc(i, j - l.BlockLen(i))
  }

  /** Block i as a reader finds it in the interleaved bytes: its data, then its error
      correction bytes. */
  function ReadBlock(l: Layout, r: seq<Byte>, i: int): (b: seq<Byte>)
    requires l.Valid() && l.raw <= |r| && 0 <= i < l.numBlocks
    ensures |b| == l.BlockLen(i) + l.eccLen
  {
    DataSize(l);
    seq(l.BlockLen(i) + l.eccLen, j requires 0 <= j < l.BlockLen(i) + l.eccLen =>
      OwnerOfIndex(l, SlotAt(l, i, j));
      r[Index(l, SlotAt(l, i, j))])
  }

  /** De-interleaving returns each block's data followed by its own error correction bytes. */
  lemma ReadBlockBack(l: Layout, d: seq<Byte>, r: seq<Byte>, i: int)
    requires l.Valid() && |d| == l.DataLen() && l.raw <= |r| && 0 <= i < l.numBlocks
    requires IsInterleaved(l, d, r)
    ensures ReadBlock(l, r, i) == Codeword(BlockData(l, d, i), l.eccLen)
  {
    hide *;
    DataSize(l);
    var c := Codeword(BlockData(l, d, i), l.eccLen);
    forall j | 0 <= j < |c|
      ensures |c| == |ReadBlock(l, r, i)| && ReadBlock(l, r, i)[j] == c[j]
    {
      ReadByteBack(l, d, r, i, j);
    }
  }

  lemma ReadByteBack(l: Layout, d: seq<Byte>, r: seq<Byte>, i: int, j: int)
    requires l.Valid() && |d| == l.DataLen() && l.raw <= |r| && 0 <= i < l.numBlocks
    requires IsInterleaved(l, d, r) && 0 <= j < l.BlockLen(i) + l.eccLen
    ensures 1 <= l.eccLen <= 30
    ensures ReadBlock(l, r, i)[j] == Codeword(BlockData(l, d, i), l.eccLen)[j]
  {
    hide Index, IsSlot, Layout.BlockLen, IsInterleaved, SlotByte, BlockData, Remainder, Owner;
    DataSize(l);
    SlotRead(l, d, r, SlotAt(l, i, j));
    SlotBytes(l, d, SlotAt(l, i, j));
  }

  lemma SlotRead(l: Layout, d: seq<Byte>, r: seq<Byte>, s: Slot)
    requires l.Valid() && |d| == l.DataLen() && l.raw <= |r| && IsSlot(l, s)
    requires IsInterleaved(l, d, r)
    ensures 0 <= Index(l, s) < l.raw && r[Index(l, s)] == SlotByte(l, d, s)
  {
    hide Owner, Index, SlotByte;
    OwnerOfIndex(l, s);
    assert SlotHolds(l, d, r, Index(l, s));
  }

}
