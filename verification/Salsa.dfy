/** The Salsa20/8 core of scrypt (RFC 7914, section 3), in the plain form of scrypt.c
    and in the four-lane form of scrypt-sse2.c. */
module Salsa {
  import opened Bits
  import opened Words

  /** Four words: the arguments of a quarter round, or the lanes of an __m128i. */
  datatype Quad = Quad(a: Word, b: Word, c: Word, d: Word)

  /** Sixteen words, in the order of RFC 7914. */
  datatype Block = Block(x00: Word, x01: Word, x02: Word, x03: Word, x04: Word, x05: Word, x06: Word, x07: Word,
                         x08: Word, x09: Word, x10: Word, x11: Word, x12: Word, x13: Word, x14: Word, x15: Word)

  /** x ^= ROTL(a + b, k). */
  function Mix(x: Word, a: Word, b: Word, k: nat): Word
    requires k <= 32
  {
    XorWord(x, Rotl(AddWord(a, b), k))
  }

  function QuarterRound(q: Quad): Quad {
    var b := Mix(q.b, q.a, q.d, 7);
    var c := Mix(q.c, b, q.a, 9);
    var d := Mix(q.d, c, b, 13);
    Quad(Mix(q.a, d, c, 18), b, c, d)
  }

  /** Quarter rounds down the columns, each starting on the diagonal. */
  function ColumnRound(s: Block): Block {
    var q0 := QuarterRound(Quad(s.x00, s.x04, s.x08, s.x12));
    var q1 := QuarterRound(Quad(s.x05, s.x09, s.x13, s.x01));
    var q2 := QuarterRound(Quad(s.x10, s.x14, s.x02, s.x06));
    var q3 := QuarterRound(Quad(s.x15, s.x03, s.x07, s.x11));
    Block(q0.a, q1.d, q2.c, q3.b,
          q0.b, q1.a, q2.d, q3.c,
          q0.c, q1.b, q2.a, q3.d,
          q0.d, q1.c, q2.b, q3.a)
  }

  /** Quarter rounds along the rows, each starting on the diagonal. */
  function RowRound(s: Block): Block {
    var q0 := QuarterRound(Quad(s.x00, s.x01, s.x02, s.x03));
    var q1 := QuarterRound(Quad(s.x05, s.x06, s.x07, s.x04));
    var q2 := QuarterRound(Quad(s.x10, s.x11, s.x08, s.x09));
    var q3 := QuarterRound(Quad(s.x15, s.x12, s.x13, s.x14));
    Block(q0.a, q0.b, q0.c, q0.d,
          q1.d, q1.a, q1.b, q1.c,
          q2.c, q2.d, q2.a, q2.b,
          q3.b, q3.c, q3.d, q3.a)
  }

  /** n double rounds. */
  function Rounds(s: Block, n: nat): Block {
    if n == 0 then s else RowRound(ColumnRound(Rounds(s, n - 1)))
  }

  /** Word by word. */
  function XorBlock(s: Block, t: Block): Block {
    Block(XorWord(s.x00, t.x00), XorWord(s.x01, t.x01), XorWord(s.x02, t.x02), XorWord(s.x03, t.x03),
          XorWord(s.x04, t.x04), XorWord(s.x05, t.x05), XorWord(s.x06, t.x06), XorWord(s.x07, t.x07),
          XorWord(s.x08, t.x08), XorWord(s.x09, t.x09), XorWord(s.x10, t.x10), XorWord(s.x11, t.x11),
          XorWord(s.x12, t.x12), XorWord(s.x13, t.x13), XorWord(s.x14, t.x14), XorWord(s.x15, t.x15))
  }

  /** Word by word, without carries between them. */
  function AddBlock(s: Block, t: Block): Block {
    Block(AddWord(s.x00, t.x00), AddWord(s.x01, t.x01), AddWord(s.x02, t.x02), AddWord(s.x03, t.x03),
          AddWord(s.x04, t.x04), AddWord(s.x05, t.x05), AddWord(s.x06, t.x06), AddWord(s.x07, t.x07),
          AddWord(s.x08, t.x08), AddWord(s.x09, t.x09), AddWord(s.x10, t.x10), AddWord(s.x11, t.x11),
          AddWord(s.x12, t.x12), AddWord(s.x13, t.x13), AddWord(s.x14, t.x14), AddWord(s.x15, t.x15))
  }

  /** What xor_salsa8 leaves in its first argument. */
  function Salsa8(b: Block, bx: Block): Block {
    var x := XorBlock(b, bx);
    AddBlock(x, Rounds(x, 4))
  }

  // ---- The plain form

  function BlockAt(X: array<Word>, o: nat): Block
    requires o + 16 <= X.Length
    reads X
  {
    Block(X[o], X[o + 1], X[o + 2], X[o + 3],
          X[o + 4], X[o + 5], X[o + 6], X[o + 7],
          X[o + 8], X[o + 9], X[o + 10], X[o + 11],
          X[o + 12], X[o + 13], X[o + 14], X[o + 15])
  }

  /** One pass of the loop in xor_salsa8, statement by statement. */
  method DoubleRound(s: Block) returns (r: Block)
    ensures r == RowRound(ColumnRound(s))
  {
    hide Mix;
    var x00, x01, x02, x03 := s.x00, s.x01, s.x02, s.x03;
    var x04, x05, x06, x07 := s.x04, s.x05, s.x06, s.x07;
    var x08, x09, x10, x11 := s.x08, s.x09, s.x10, s.x11;
    var x12, x13, x14, x15 := s.x12, s.x13, s.x14, s.x15;
    // Operate on columns.
    x04 := Mix(x04, x00, x12, 7); x09 := Mix(x09, x05, x01, 7);
    x14 := Mix(x14, x10, x06, 7); x03 := Mix(x03, x15, x11, 7);
    x08 := Mix(x08, x04, x00, 9); x13 := Mix(x13, x09, x05, 9);
    x02 := Mix(x02, x14, x10, 9); x07 := Mix(x07, x03, x15, 9);
    x12 := Mix(x12, x08, x04, 13); x01 := Mix(x01, x13, x09, 13);
    x06 := Mix(x06, x02, x14, 13); x11 := Mix(x11, x07, x03, 13);
    x00 := Mix(x00, x12, x08, 18); x05 := Mix(x05, x01, x13, 18);
    x10 := Mix(x10, x06, x02, 18); x15 := Mix(x15, x11, x07, 18);
    // Operate on rows.
    x01 := Mix(x01, x00, x03, 7); x06 := Mix(x06, x05, x04, 7);
    x11 := Mix(x11, x10, x09, 7); x12 := Mix(x12, x15, x14, 7);
    x02 := Mix(x02, x01, x00, 9); x07 := Mix(x07, x06, x05, 9);
    x08 := Mix(x08, x11, x10, 9); x13 := Mix(x13, x12, x15, 9);
    x03 := Mix(x03, x02, x01, 13); x04 := Mix(x04, x07, x06, 13);
    x09 := Mix(x09, x08, x11, 13); x14 := Mix(x14, x13, x12, 13);
    x00 := Mix(x00, x03, x02, 18); x05 := Mix(x05, x04, x07, 18);
    x10 := Mix(x10, x09, x08, 18); x15 := Mix(x15, x14, x13, 18);
    r := Block(x00, x01, x02, x03, x04, x05, x06, x07,
               x08, x09, x10, x11, x12, x13, x14, x15);
  }

  predicate Halves(b: nat, bx: nat) { (b == 0 && bx == 16) || (b == 16 && bx == 0) }

  /** xor_salsa8 on the halves of X at b and bx; the sixteen statements before the loop
      and the sixteen behind it touch different words. */
  method XorSalsa8(X: array<Word>, b: nat, bx: nat)
    requires X.Length == 32 && Halves(b, bx)
    modifies X
    ensures BlockAt(X, b) == Salsa8(old(BlockAt(X, b)), old(BlockAt(X, bx)))
    ensures BlockAt(X, bx) == old(BlockAt(X, bx))
  {
    hide Rounds, XorWord, AddWord;
    forall k | 0 <= k < 16 { X[b + k] := XorWord(X[b + k], X[bx + k]); }
    ghost var x := BlockAt(X, b);
    assert BlockAt(X, bx) == old(BlockAt(X, bx));
    assert x == XorBlock(old(BlockAt(X, b)), old(BlockAt(X, bx)));
    var y := FourRounds(BlockAt(X, b));
    var ys := Listed(y);
    forall k | 0 <= k < 16 { X[b + k] := AddWord(X[b + k], ys[k]); }
    assert BlockAt(X, b) == AddBlock(x, y);
  }

  function Listed(s: Block): (ws: seq<Word>)
    ensures |ws| == 16
  {
    [s.x00, s.x01, s.x02, s.x03, s.x04, s.x05, s.x06, s.x07, s.x08, s.x09, s.x10, s.x11, s.x12, s.x13, s.x14, s.x15]
  }

  method FourRounds(x: Block) returns (y: Block)
    ensures y == Rounds(x, 4)
  {
    hide ColumnRound, RowRound;
    y := x;
    var i := 0;
    while i < 8
      invariant 0 <= i <= 8 && i % 2 == 0 && y == Rounds(x, i / 2)
    {
      y := DoubleRound(y);
      i := i + 2;
    }
  }

}
