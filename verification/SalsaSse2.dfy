/** xor_salsa8_sse2 (scrypt-sse2.c): four quarter rounds at once, one per lane. */
module SalsaSse2 {
  import opened Bits
  import opened Words
  import opened Salsa

  // ---- The SSE2 operations, lane by lane

  function AddLanes(v: Quad, w: Quad): Quad {
    Quad(AddWord(v.a, w.a), AddWord(v.b, w.b), AddWord(v.c, w.c), AddWord(v.d, w.d))
  }

  function XorLanes(v: Quad, w: Quad): Quad {
    Quad(XorWord(v.a, w.a), XorWord(v.b, w.b), XorWord(v.c, w.c), XorWord(v.d, w.d))
  }

  function ShlLanes(v: Quad, k: nat): Quad { Quad(Shl(v.a, k), Shl(v.b, k), Shl(v.c, k), Shl(v.d, k)) }

  function ShrLanes(v: Quad, k: nat): Quad { Quad(Shr(v.a, k), Shr(v.b, k), Shr(v.c, k), Shr(v.d, k)) }

  function Lane(v: Quad, k: nat): Word
    requires k < 4
  {
    if k == 0 then v.a else if k == 1 then v.b else if k == 2 then v.c else v.d
  }

  /** _mm_shuffle_epi32: two bits of the immediate select each lane. */
  function Shuffle(v: Quad, imm: nat): Quad {
    Quad(Lane(v, imm % 4), Lane(v, imm / 4 % 4), Lane(v, imm / 16 % 4), Lane(v, imm / 64 % 4))
  }

  lemma Rearrangements(v: Quad)
    ensures Shuffle(v, 0x93) == Quad(v.d, v.a, v.b, v.c)
    ensures Shuffle(v, 0x4E) == Quad(v.c, v.d, v.a, v.b)
    ensures Shuffle(v, 0x39) == Quad(v.b, v.c, v.d, v.a)
  {}

  /** Adding, shifting both ways and folding in: a Mix in every lane. */
  lemma MixLanes(x: Quad, v: Quad, w: Quad, k: nat)
    requires k <= 32
    ensures var t := AddLanes(v, w);
      XorLanes(XorLanes(x, ShlLanes(t, k)), ShrLanes(t, 32 - k))
      == Quad(Mix(x.a, v.a, w.a, k), Mix(x.b, v.b, w.b, k), Mix(x.c, v.c, w.c, k), Mix(x.d, v.d, w.d, k))
  {
    hide Shl, Shr, Rotl, XorWord, AddWord;
    var t := AddLanes(v, w);
    RotlHalves(x.a, t.a, k);
    RotlHalves(x.b, t.b, k);
    RotlHalves(x.c, t.c, k);
    RotlHalves(x.d, t.d, k);
  }

  datatype Lanes = Lanes(v0: Quad, v1: Quad, v2: Quad, v3: Quad)

  /** Word i of the lanes is word 5 * i % 16 of the block: lane j holds the words that
      quarter round j of a column round works on. */
  function Spread(v: Lanes): Block {
    Block(v.v0.a, v.v3.b, v.v2.c, v.v1.d,
          v.v1.a, v.v0.b, v.v3.c, v.v2.d,
          v.v2.a, v.v1.b, v.v0.c, v.v3.d,
          v.v3.a, v.v2.b, v.v1.c, v.v0.d)
  }

  /** One pass of the loop in xor_salsa8_sse2, statement by statement. */
  method DoubleRoundSse2(v: Lanes) returns (r: Lanes)
    ensures Spread(r) == RowRound(ColumnRound(Spread(v)))
  {
    hide Mix, AddLanes, XorLanes, ShlLanes, ShrLanes, Shuffle;
    var X0, X1, X2, X3 := v.v0, v.v1, v.v2, v.v3;
    // Operate on "columns".
    MixLanes(X1, X0, X3, 7);
    var T := AddLanes(X0, X3);
    X1 := XorLanes(X1, ShlLanes(T, 7));
    X1 := XorLanes(X1, ShrLanes(T, 25));
    MixLanes(X2, X1, X0, 9);
    T := AddLanes(X1, X0);
    X2 := XorLanes(X2, ShlLanes(T, 9));
    X2 := XorLanes(X2, ShrLanes(T, 23));
    MixLanes(X3, X2, X1, 13);
    T := AddLanes(X2, X1);
    X3 := XorLanes(X3, ShlLanes(T, 13));
    X3 := XorLanes(X3, ShrLanes(T, 19));
    MixLanes(X0, X3, X2, 18);
    T := AddLanes(X3, X2);
    X0 := XorLanes(X0, ShlLanes(T, 18));
    X0 := XorLanes(X0, ShrLanes(T, 14));
    assert Spread(Lanes(X0, X1, X2, X3)) == ColumnRound(Spread(v));
    // Rearrange data.
    Rearrangements(X1);
    Rearrangements(X2);
    Rearrangements(X3);
    X1 := Shuffle(X1, 0x93);
    X2 := Shuffle(X2, 0x4E);
    X3 := Shuffle(X3, 0x39);
    // Operate on "rows".
    MixLanes(X3, X0, X1, 7);
    T := AddLanes(X0, X1);
    X3 := XorLanes(X3, ShlLanes(T, 7));
    X3 := XorLanes(X3, ShrLanes(T, 25));
    MixLanes(X2, X3, X0, 9);
    T := AddLanes(X3, X0);
    X2 := XorLanes(X2, ShlLanes(T, 9));
    X2 := XorLanes(X2, ShrLanes(T, 23));
    MixLanes(X1, X2, X3, 13);
    T := AddLanes(X2, X3);
    X1 := XorLanes(X1, ShlLanes(T, 13));
    X1 := XorLanes(X1, ShrLanes(T, 19));
    MixLanes(X0, X1, X2, 18);
    T := AddLanes(X1, X2);
    X0 := XorLanes(X0, ShlLanes(T, 18));
    X0 := XorLanes(X0, ShrLanes(T, 14));
    // Rearrange data.
    Rearrangements(X1);
    Rearrangements(X2);
    Rearrangements(X3);
    X1 := Shuffle(X1, 0x39);
    X2 := Shuffle(X2, 0x4E);
    X3 := Shuffle(X3, 0x93);
    r := Lanes(X0, X1, X2, X3);
  }

  /** The four lanes of X.i128[k]. */
  function LanesAt(X: array<Word>, k: nat): Quad
    requires 4 * k + 4 <= X.Length
    reads X
  {
    Quad(X[4 * k], X[4 * k + 1], X[4 * k + 2], X[4 * k + 3])
  }

  /** The block that the words from X.i128[k] on stand for. */
  function SpreadAt(X: array<Word>, k: nat): Block
    requires 4 * k + 16 <= X.Length
    reads X
  {
    Spread(Lanes(LanesAt(X, k), LanesAt(X, k + 1), LanesAt(X, k + 2), LanesAt(X, k + 3)))
  }

  method Store(X: array<Word>, k: nat, v: Quad)
    requires 4 * k + 4 <= X.Length
    modifies X
    ensures LanesAt(X, k) == v
    ensures forall i | 0 <= i < X.Length && !(4 * k <= i < 4 * k + 4) :: X[i] == old(X[i])
  {
    X[4 * k], X[4 * k + 1], X[4 * k + 2], X[4 * k + 3] := v.a, v.b, v.c, v.d;
  }

  /** xor_salsa8_sse2 on X.i128[b..] and X.i128[bx..]. */
  method XorSalsa8Sse2(X: array<Word>, b: nat, bx: nat)
    requires X.Length == 32 && Halves(4 * b, 4 * bx)
    modifies X
    ensures SpreadAt(X, b) == Salsa8(old(SpreadAt(X, b)), old(SpreadAt(X, bx)))
    ensures SpreadAt(X, bx) == old(SpreadAt(X, bx))
  {
    hide Rounds, XorWord, AddWord;
    Store(X, b, XorLanes(LanesAt(X, b), LanesAt(X, bx)));
    Store(X, b + 1, XorLanes(LanesAt(X, b + 1), LanesAt(X, bx + 1)));
    Store(X, b + 2, XorLanes(LanesAt(X, b + 2), LanesAt(X, bx + 2)));
    Store(X, b + 3, XorLanes(LanesAt(X, b + 3), LanesAt(X, bx + 3)));
    ghost var x := SpreadAt(X, b);
    assert x == XorBlock(old(SpreadAt(X, b)), old(SpreadAt(X, bx)));
    var y := FourRoundsSse2(Lanes(LanesAt(X, b), LanesAt(X, b + 1), LanesAt(X, b + 2), LanesAt(X, b + 3)));
    Store(X, b, AddLanes(LanesAt(X, b), y.v0));
    Store(X, b + 1, AddLanes(LanesAt(X, b + 1), y.v1));
    Store(X, b + 2, AddLanes(LanesAt(X, b + 2), y.v2));
    Store(X, b + 3, AddLanes(LanesAt(X, b + 3), y.v3));
    assert SpreadAt(X, b) == AddBlock(x, Spread(y));
  }

  method FourRoundsSse2(x: Lanes) returns (y: Lanes)
    ensures Spread(y) == Rounds(Spread(x), 4)
  {
    hide ColumnRound, RowRound, Spread;
    y := x;
    var i := 0;
    while i < 8
      invariant 0 <= i <= 8 && i % 2 == 0 && Spread(y) == Rounds(Spread(x), i / 2)
    {
      y := DoubleRoundSse2(y);
      i := i + 2;
    }
  }

}
