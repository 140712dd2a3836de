/** Where the bytes and modules of a QR symbol go (ISO/IEC 18004, sections 7.6 and 7.7.3, and
    annex E): the order of interleaving, the zigzag walk step by step, and the alignment
    positions, described without the formulas of qr.c. */
module QrPlaces {
  import opened Arith
  import opened Bits
  import opened Bytes
  import opened FunctionModules
  import opened Interleave
  import opened QrMatrix
  import opened Zigzag

  // ---- Interleaving

  /** The order of the standard: all data before all error correction; of each the first
      bytes of all blocks, then the second ones, and so on. */
  predicate Precedes(s: Slot, t: Slot) {
    if s.Data? && t.Ecc? then true
    else if s.Ecc? && t.Data? then false
    else s.pos < t.pos || (s.pos == t.pos && s.block < t.block)
  }

  lemma InterleavingOrder(l: Layout, s: Slot, t: Slot)
    requires l.Valid() && IsSlot(l, s) && IsSlot(l, t)
    ensures Index(l, s) < Index(l, t) <==> Precedes(s, t)
  {
    if Precedes(s, t) {
      Ordered(l, s, t);
    } else if Precedes(t, s) {
      Ordered(l, t, s);
    } else {
      assert s == t;
    }
  }

  lemma Ordered(l: Layout, s: Slot, t: Slot)
    requires l.Valid() && IsSlot(l, s) && IsSlot(l, t) && Precedes(s, t)
    ensures Index(l, s) < Index(l, t)
  {
    hide Index;
    DataSize(l);
    Parts(l, s);
    Parts(l, t);
    InColumn(l, s);
    InColumn(l, t);
    var n := l.numBlocks;
    if s.Data? && t.Ecc? {
      Earlier(s.pos, l.ShortLen() - 1, n);
      MulMono(0, t.pos, n);
    } else if s.pos < t.pos {
      Earlier(s.pos, t.pos - 1, n);
    }
  }

  lemma Parts(l: Layout, s: Slot)
    requires l.Valid() && IsSlot(l, s)
    ensures 0 <= s.pos && 0 <= s.block < l.numBlocks && (s.Data? ==> s.pos <= l.ShortLen())
    ensures s.Data? && s.pos == l.ShortLen() ==> l.NumShort() <= s.block
    ensures l.DataLen() >= l.ShortLen() * l.numBlocks
  {
    DataSize(l);
  }

  lemma Earlier(p: int, q: int, n: int)
    requires n > 0
    ensures p <= q ==> p * n + n <= (q + 1) * n
  {
    Distribute(p, 1, n);
    if p <= q { MulMono(p + 1, q + 1, n); }
  }

  /** Where the column of a slot begins, and how wide it is at most. */
  lemma InColumn(l: Layout, s: Slot)
    requires l.Valid() && IsSlot(l, s)
    ensures var k, n := Index(l, s), l.numBlocks;
      if s.Ecc? then k == l.DataLen() + s.pos * n + s.block
      else
        && s.pos <= l.ShortLen()
        && (s.pos < l.ShortLen() ==> k == s.pos * n + s.block)
        && (s.pos == l.ShortLen() ==>
              l.NumShort() <= s.block && k == s.pos * n + s.block - l.NumShort() < l.DataLen())
  {
    DataSize(l);
  }

  /** The blocks share out the data one behind another, the shorter ones first, and none is
      longer by more than a byte. */
  lemma ShorterFirst(l: Layout, i: int, j: int)
    requires l.Valid() && 0 <= i < j < l.numBlocks
    ensures l.BlockStart(0) == 0 && l.BlockStart(i + 1) == l.BlockStart(i) + l.BlockLen(i)
    ensures l.BlockStart(l.numBlocks - 1) + l.BlockLen(l.numBlocks - 1) == l.DataLen()
    ensures l.BlockLen(i) <= l.BlockLen(j) <= l.BlockLen(i) + 1
  {
    Distribute(i, 1, l.ShortLen());
    Distribute(l.numBlocks - 1, 1, l.ShortLen());
    DataSize(l);
  }

  // ---- The zigzag walk

  /** From the lower right corner: left and right in a pair of columns, one row up or down,
      up in the first pair, down in the second, and so on; column 6 is left out. */
  lemma WalkOrder(size: int, t: nat)
    requires ValidSize(size) && t + 1 < Steps(size)
    ensures CellOf(size, 0) == (size - 1, size - 1)
    ensures var (x, y), (u, v) := CellOf(size, t), CellOf(size, t + 1);
      var up := t / 2 / size % 2 == 0;
      if t % 2 == 0 then u == x - 1 && v == y
      else if y == (if up then 0 else size - 1) then u == (if x == 7 then 5 else x - 1) && v == y
      else u == x + 1 && v == if up then y - 1 else y + 1
  {
    hide CellAt;
    var c, vert, j := t / 2 / size, t / 2 % size, t % 2;
    PairAndRow(size, t);
    PairAndRow(size, t + 1);
    NextParts(size, t);
    Turns(size, c, vert);
    Turns(size, 0, 0);
    assert 0 / 2 / size == 0 && 0 / 2 % size == 0 by { DivModUnique(size, 0, 0); }
  }

  lemma NextParts(size: int, t: nat)
    requires size > 0
    ensures var c, v, s, w := t / 2 / size, t / 2 % size, (t + 1) / 2 / size, (t + 1) / 2 % size;
      if t % 2 == 0 then s == c && w == v && (t + 1) % 2 == 1
      else if v < size - 1 then s == c && w == v + 1 && (t + 1) % 2 == 0
      else s == c + 1 && w == 0 && (t + 1) % 2 == 0
  {
    var h := t / 2;
    var c, v := h / size, h % size;
    if t % 2 == 1 {
      assert (t + 1) / 2 == h + 1 && h == c * size + v;
      if v < size - 1 {
        DivModUnique(size, c, v + 1);
      } else {
        Distribute(c, 1, size);
        DivModUnique(size, c + 1, 0);
      }
    }
  }

  /** The cells around row counter vert of pair c. */
  lemma Turns(size: int, c: int, vert: int)
    requires ValidSize(size) && 0 <= c < (size - 1) / 2 && 0 <= vert < size
    ensures CellAt(size, 0, 0, 0) == (size - 1, size - 1)
    ensures var (x, y), (u, v) := CellAt(size, c, vert, 0), CellAt(size, c, vert, 1);
      u == x - 1 && v == y
    ensures var (x, y), (u, v) := CellAt(size, c, vert, 1), CellAt(size, c, vert + 1, 0);
      u == x + 1 && v == if c % 2 == 0 then y - 1 else y + 1
    ensures var (x, y), (u, v) := CellAt(size, c, vert, 1), CellAt(size, c + 1, 0, 0);
      && (y == (if c % 2 == 0 then 0 else size - 1) <==> vert == size - 1)
      && (vert == size - 1 ==> u == (if x == 7 then 5 else x - 1) && v == y)
  {
    hide Right, Upward;
    Direction(size, 0);
    Direction(size, c);
    Direction(size, c + 1);
    Columns(size, c);
  }

  lemma Columns(size: int, c: int)
    requires ValidSize(size) && 0 <= c
    ensures Right(size, 0) == size - 1
    ensures var x := Right(size, c) - 1; Right(size, c + 1) == if x == 7 then 5 else x - 1
  {}

  lemma Direction(size: int, c: int)
    requires ValidSize(size) && 0 <= c
    ensures Upward(Right(size, c)) <==> c % 2 == 0
  {
    var q := size / 4;
    assert size == 4 * q + 1;
    if size - 1 - 2 * c > 6 {
      assert (Right(size, c) + 1) / 2 == 2 * q - c;
    } else {
      assert (Right(size, c) + 1) / 2 == 2 * q - c;
    }
  }

  // ---- Modules in the buffer

  /** Module j of the symbol, row after row. */
  predicate NthDark(q: seq<Byte>, j: nat)
    requires IsSymbol(q) && j < Size(q) * Size(q)
  {
    CellOfIndex(Size(q), j);
    Dark(q, j % Size(q), j / Size(q))
  }

  lemma CellOfIndex(size: nat, j: nat)
    requires j < size * size
    ensures 0 <= j / size < size && 0 <= j % size < size && j / size * size + j % size == j
  {
    Euclid(j, size);
    if j / size >= size { MulMono(size, j / size, size); }
  }

  /** Behind the size every byte holds eight modules of the symbol, the first one in its
      lowest bit. */
  lemma EightModules(q: seq<Byte>, k: nat)
    requires IsSymbol(q) && 8 * k + 8 <= Size(q) * Size(q)
    ensures k + 1 < |q|
    ensures q[k + 1] == BitWorth(NthDark(q, 8 * k), 1) + BitWorth(NthDark(q, 8 * k + 1), 2)
                      + BitWorth(NthDark(q, 8 * k + 2), 4) + BitWorth(NthDark(q, 8 * k + 3), 8)
                      + BitWorth(NthDark(q, 8 * k + 4), 16) + BitWorth(NthDark(q, 8 * k + 5), 32)
                      + BitWorth(NthDark(q, 8 * k + 6), 64) + BitWorth(NthDark(q, 8 * k + 7), 128)
  {
    hide Bit, BitWorth, NthDark;
    NthBit(q, k, 0);
    NthBit(q, k, 1);
    NthBit(q, k, 2);
    NthBit(q, k, 3);
    NthBit(q, k, 4);
    NthBit(q, k, 5);
    NthBit(q, k, 6);
    NthBit(q, k, 7);
    ByteWorth(q[k + 1]);
  }

  lemma NthBit(q: seq<Byte>, k: nat, i: nat)
    requires IsSymbol(q) && 8 * k + 8 <= Size(q) * Size(q) && i < 8
    ensures k + 1 < |q| && NthDark(q, 8 * k + i) == Bit(q[k + 1], i)
  {
    hide Bit;
    CellOfIndex(Size(q), 8 * k + i);
    assert (8 * k + i) / 8 == k && (8 * k + i) % 8 == i;
  }

  // ---- Alignment patterns

  /** From version 2 on: the first position is 6 and the last one seven modules from the
      edge; all gaps but the first are equal and even, and they are the smallest with which
      the first is no greater, except in version 32. */
  lemma AlignmentGaps(version: int)
    requires 2 <= version <= 40
    ensures var n := NumAlign(version);
      && n == version / 7 + 2 && AlignPos(version, 0) == 6 && AlignPos(version, n - 1) == 4 * version + 10
      && exists gap :: IsGap(version, n, gap)
  {
    hide AlignStep, AlignPos;
    var n, gap := NumAlign(version), AlignStep(version);
    Ends(version);
    GapBounds(version);
    forall i | 1 <= i < n - 1 ensures AlignPos(version, i + 1) - AlignPos(version, i) == gap {
      NextPosition(version, i);
    }
    assert IsGap(version, n, gap);
  }

  lemma Ends(version: int)
    requires 2 <= version <= 40
    ensures var n := NumAlign(version);
      n == version / 7 + 2 >= 2 && AlignPos(version, 0) == 6 && AlignPos(version, n - 1) == 4 * version + 10
  {
    hide AlignStep;
  }

  lemma NextPosition(version: int, i: int)
    requires 2 <= version <= 40 && 1 <= i < NumAlign(version) - 1
    ensures AlignPos(version, i + 1) - AlignPos(version, i) == AlignStep(version)
  {
    hide AlignStep, NumAlign;
    Distribute(NumAlign(version) - 1 - i, -1, AlignStep(version));
  }

  lemma GapBounds(version: int)
    requires 2 <= version <= 40
    ensures var n, gap := NumAlign(version), AlignStep(version);
      && gap % 2 == 0
      && if version == 32 then gap == 26 else (n - 1) * (gap - 2) < 4 * version + 4 <= (n - 1) * gap
  {
    hide NumAlign;
    var n := NumAlign(version);
    var d := n * 2 - 2;
    RoundedUp(4 * version + 4, d);
    Halved(n, (4 * version + 4 + d - 1) / d);
  }

  lemma RoundedUp(a: int, d: int)
    requires d > 0
    ensures var h := (a + d - 1) / d; h * d - d < a <= h * d
  {
    var h, r := (a + d - 1) / d, (a + d - 1) % d;
    assert a + d - 1 == h * d + r;
  }

  lemma Halved(n: int, h: int)
    ensures (n - 1) * (h * 2) == h * (n * 2 - 2) && (n - 1) * (h * 2 - 2) == h * (n * 2 - 2) - (n * 2 - 2)
  {}

  predicate IsGap(version: int, n: int, gap: int)
    requires 2 <= version <= 40 && n == NumAlign(version)
  {
    && gap % 2 == 0
    && (forall i | 1 <= i < n - 1 :: AlignPos(version, i + 1) - AlignPos(version, i) == gap)
    && if version == 32 then gap == 26 else (n - 1) * (gap - 2) < 4 * version + 4 <= (n - 1) * gap
  }
}
