/** What the rounds of Salsa20/8 (RFC 7914, section 3) do to single bits and to single words
    of a block. */
module SalsaFacts {
  import opened Arith
  import opened Bits
  import opened Words
  import opened Salsa

  // ---- Rotating sums of powers of two

  /** What falls out at the top comes in at the bottom. */
  lemma RotlIs(a: Word, k: nat)
    requires k <= 32
    ensures Rotl(a, k) == a * Pow2(k) % 0x1_0000_0000 + a * Pow2(k) / 0x1_0000_0000
  {
    hide Or, Pow2;
    WordPower();
    Pow2Sum(32 - k, k);
    ShlLow(a, k);
    var m, p := Pow2(32 - k), Pow2(k);
    OrSum(Shr(a, 32 - k), a % m, k);
    OrComm(Shr(a, 32 - k), a % m * p);
    Quotients(a, m, p);
  }

  lemma Quotients(a: nat, m: nat, p: nat)
    requires m > 0 && p > 0
    ensures a * p / (m * p) == a / m
  {
    var q, r := a / m, a % m;
    assert a == q * m + r;
    Distribute(q * m, r, p);
    assert q * m * p == q * (m * p);
    MulMono(0, r, p);
    MulMono(r, m - 1, p);
    assert (m - 1) * p == m * p - p;
    DivModUnique(m * p, q, r * p);
  }

  lemma RotlPower(i: nat, k: nat)
    requires i < 32 && k < 32
    ensures Pow2(i) < 0x1_0000_0000 && Rotl(Pow2(i), k) == Pow2((i + k) % 32)
  {
    hide Rotl, Pow2;
    WordPower();
    Pow2Mono(i + 1, 32);
    Pow2Double(i);
    RotlIs(Pow2(i), k);
    Pow2Sum(i, k);
    PowerParts(i + k);
  }

  lemma Pow2Double(i: nat)
    ensures Pow2(i + 1) == 2 * Pow2(i)
  {}

  /** A power of two below 2^64, over and modulo 2^32. */
  lemma PowerParts(n: nat)
    requires n < 64
    ensures Pow2(n) % 0x1_0000_0000 == (if n < 32 then Pow2(n) else 0)
    ensures Pow2(n) / 0x1_0000_0000 == (if n < 32 then 0 else Pow2(n - 32))
  {
    hide Pow2;
    WordPower();
    if n < 32 {
      Pow2Mono(n + 1, 32);
      Pow2Double(n);
    } else {
      Pow2Sum(n - 32, 32);
      DivModUnique(0x1_0000_0000, Pow2(n - 32), 0);
    }
  }

  lemma TwoPowers(n: nat, l: nat)
    requires n < 32 && l < 32 && n != l
    ensures Pow2(n) + Pow2(l) < 0x1_0000_0000
  {
    hide Pow2;
    WordPower();
    Pow2Mono(n + 1, 32);
    Pow2Mono(l + 1, 32);
    Pow2Double(n);
    Pow2Double(l);
    if n < l {
      Pow2Mono(n + 1, l);
    } else {
      Pow2Mono(l + 1, n);
    }
  }

  lemma RotlTwo(i: nat, j: nat, k: nat)
    requires i < 32 && j < 32 && i != j && k < 32
    ensures Pow2(i) + Pow2(j) < 0x1_0000_0000
    ensures Rotl(Pow2(i) + Pow2(j), k) == Pow2((i + k) % 32) + Pow2((j + k) % 32)
  {
    hide Rotl, Pow2;
    TwoPowers(i, j);
    TwoPowers((i + k) % 32, (j + k) % 32);
    RotlPower(i, k);
    RotlPower(j, k);
    RotlSum(Pow2(i), Pow2(j), k);
  }

  lemma RotlSum(a: Word, b: Word, k: nat)
    requires k <= 32 && a + b < 0x1_0000_0000 && Rotl(a, k) + Rotl(b, k) < 0x1_0000_0000
    ensures Rotl(a + b, k) == Rotl(a, k) + Rotl(b, k)
  {
    hide Rotl, Pow2;
    RotlIs(a, k);
    RotlIs(b, k);
    RotlIs(a + b, k);
    var p := Pow2(k);
    Distribute(a, b, p);
    SumParts(a * p, b * p);
  }

  lemma SumParts(a: nat, b: nat)
    requires a % 0x1_0000_0000 + b % 0x1_0000_0000 < 0x1_0000_0000
    ensures (a + b) % 0x1_0000_0000 == a % 0x1_0000_0000 + b % 0x1_0000_0000
    ensures (a + b) / 0x1_0000_0000 == a / 0x1_0000_0000 + b / 0x1_0000_0000
  {}

  // ---- The quarter round on single bits

  lemma Zeros(k: nat)
    requires k <= 32
    ensures Rotl(0, k) == 0 && AddWord(0, 0) == 0 && XorWord(0, 0) == 0
  {
    RotlIs(0, k);
    XorZero(0);
  }

  lemma PlusZero(a: Word)
    ensures AddWord(a, 0) == a == AddWord(0, a) && XorWord(a, 0) == a == XorWord(0, a)
  {
    XorZero(a);
  }

  /** A bit of the third word reaches the fourth and, by two ways, the first. */
  lemma ThirdWordBit(i: nat)
    requires i < 32
    ensures Pow2(i) < 0x1_0000_0000 && Pow2((i + 13) % 32) < 0x1_0000_0000
    ensures Pow2((i + 31) % 32) + Pow2((i + 18) % 32) < 0x1_0000_0000
    ensures QuarterRound(Quad(0, 0, Pow2(i), 0))
         == Quad(Pow2((i + 31) % 32) + Pow2((i + 18) % 32), 0, Pow2(i), Pow2((i + 13) % 32))
  {
    hide Rotl, Pow2, XorWord, AddWord;
    var j := (i + 13) % 32;
    RotlPower(i, 13);
    RotlPower(j, 0);
    RotlTwo(j, i, 18);
    Zeros(7);
    Zeros(9);
    PlusZero(Pow2(i));
    PlusZero(Pow2(j));
    PlusZero(Pow2((j + 18) % 32) + Pow2((i + 18) % 32));
    SumOf(Pow2(j), Pow2(i));
    assert (j + 18) % 32 == (i + 31) % 32;
  }

  /** Sums lose what does not fit into 32 bits. */
  lemma SumOf(a: Word, b: Word)
    ensures AddWord(a, b) == if a as int + b < 0x1_0000_0000 then a + b else a + b - 0x1_0000_0000
  {}

  /** And xor is bit by bit. */
  lemma XorOf(a: Word, b: Word, k: nat)
    ensures Bit(XorWord(a, b), k) == (Bit(a, k) != Bit(b, k))
  {
    XorBit(a, b, k);
  }

  /** A bit of the first word reaches the second and, by two ways, the third. */
  lemma FirstWordBit(i: nat)
    requires i < 32
    ensures Pow2(i) < 0x1_0000_0000
    ensures QuarterRound(Quad(Pow2(i), 0, 0, 0)).b == Pow2((i + 7) % 32)
    ensures QuarterRound(Quad(Pow2(i), 0, 0, 0)).c == Pow2((i + 16) % 32) + Pow2((i + 9) % 32)
  {
    hide Rotl, Pow2, XorWord, AddWord;
    var j := (i + 7) % 32;
    RotlPower(i, 7);
    RotlPower(j, 0);
    RotlTwo(j, i, 9);
    PlusZero(Pow2(i));
    PlusZero(Pow2(j));
    PlusZero(Pow2((j + 9) % 32) + Pow2((i + 9) % 32));
    SumOf(Pow2(j), Pow2(i));
    assert (j + 9) % 32 == (i + 16) % 32;
  }

  /** A bit of the second word reaches the third and, by two ways, the fourth. */
  lemma SecondWordBit(i: nat)
    requires i < 32
    ensures Pow2(i) < 0x1_0000_0000
    ensures QuarterRound(Quad(0, Pow2(i), 0, 0)).b == Pow2(i)
    ensures QuarterRound(Quad(0, Pow2(i), 0, 0)).c == Pow2((i + 9) % 32)
    ensures QuarterRound(Quad(0, Pow2(i), 0, 0)).d == Pow2((i + 22) % 32) + Pow2((i + 13) % 32)
  {
    hide Rotl, Pow2, XorWord, AddWord;
    var j := (i + 9) % 32;
    RotlPower(i, 9);
    RotlPower(j, 0);
    RotlTwo(j, i, 13);
    Zeros(7);
    PlusZero(Pow2(i));
    PlusZero(Pow2(j));
    PlusZero(Pow2((j + 13) % 32) + Pow2((i + 13) % 32));
    SumOf(Pow2(j), Pow2(i));
    assert (j + 13) % 32 == (i + 22) % 32;
  }

  /** A bit of the fourth word reaches the second like one of the first word. */
  lemma FourthWordBit(i: nat)
    requires i < 32
    ensures Pow2(i) < 0x1_0000_0000
    ensures QuarterRound(Quad(0, 0, 0, Pow2(i))).b == Pow2((i + 7) % 32)
    ensures QuarterRound(Quad(0, 0, 0, Pow2(i))).c == Pow2((i + 16) % 32)
  {
    hide Rotl, Pow2, XorWord, AddWord;
    var j := (i + 7) % 32;
    RotlPower(i, 7);
    RotlPower(j, 9);
    PlusZero(Pow2(i));
    PlusZero(Pow2(j));
    PlusZero(Pow2((j + 9) % 32));
    assert (j + 9) % 32 == (i + 16) % 32;
  }

  // ---- The rounds on a block

  /** Row r and column c of the block move to row r + 1 and column c + 1, around. */
  function Shifted(s: Block): Block {
    Block(s.x15, s.x12, s.x13, s.x14,
          s.x03, s.x00, s.x01, s.x02,
          s.x07, s.x04, s.x05, s.x06,
          s.x11, s.x08, s.x09, s.x10)
  }

  function Transposed(s: Block): Block {
    Block(s.x00, s.x04, s.x08, s.x12,
          s.x01, s.x05, s.x09, s.x13,
          s.x02, s.x06, s.x10, s.x14,
          s.x03, s.x07, s.x11, s.x15)
  }

  /** A column round treats all columns alike, each from its diagonal on; a row round does
      to the rows what a column round does to the columns. */
  lemma RoundsAlike(s: Block)
    ensures ColumnRound(Shifted(s)) == Shifted(ColumnRound(s))
    ensures RowRound(s) == Transposed(ColumnRound(Transposed(s)))
  {
    hide QuarterRound;
  }

  /** The words of the first column depend on that column alone, and make a quarter round. */
  lemma FirstColumn(s: Block)
    ensures var r, q := ColumnRound(s), QuarterRound(Quad(s.x00, s.x04, s.x08, s.x12));
      r.x00 == q.a && r.x04 == q.b && r.x08 == q.c && r.x12 == q.d
  {
    hide QuarterRound;
  }

  /** A word outside a column does not influence it. */
  lemma ColumnsApart(s: Block, t: Block)
    ensures var u, v := ColumnRound(s), ColumnRound(t);
      && (s.x00 == t.x00 && s.x04 == t.x04 && s.x08 == t.x08 && s.x12 == t.x12 ==>
            u.x00 == v.x00 && u.x04 == v.x04 && u.x08 == v.x08 && u.x12 == v.x12)
      && (s.x01 == t.x01 && s.x05 == t.x05 && s.x09 == t.x09 && s.x13 == t.x13 ==>
            u.x01 == v.x01 && u.x05 == v.x05 && u.x09 == v.x09 && u.x13 == v.x13)
      && (s.x02 == t.x02 && s.x06 == t.x06 && s.x10 == t.x10 && s.x14 == t.x14 ==>
            u.x02 == v.x02 && u.x06 == v.x06 && u.x10 == v.x10 && u.x14 == v.x14)
      && (s.x03 == t.x03 && s.x07 == t.x07 && s.x11 == t.x11 && s.x15 == t.x15 ==>
            u.x03 == v.x03 && u.x07 == v.x07 && u.x11 == v.x11 && u.x15 == v.x15)
  {
    hide QuarterRound;
  }
}
