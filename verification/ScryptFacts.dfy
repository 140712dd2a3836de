/** The hash of scrypt.c by the words of RFC 7914 (sections 4 to 6, with N = 1024, r = 1 and
    p = 1): a row of mixed states, and a walk through it. */
module ScryptFacts {
  import opened Bits
  import opened Bytes
  import opened Words
  import opened Salsa
  import opened Scrypt

  lemma {:induction false} RowIs(xs: seq<State>, n: nat)
    requires n < |xs| <= 1025 && forall i :: 0 <= i < |xs| - 1 ==> xs[i + 1] == BlockMix(xs[i])
    ensures xs[n] == Iterate(xs[0], n)
  {
    hide BlockMix;
    if n > 0 { RowIs(xs, n - 1); }
  }

  lemma {:induction false} WalkIs(xs: seq<State>, ys: seq<State>, n: nat)
    requires |xs| == 1025 && forall i :: 0 <= i < 1024 ==> xs[i + 1] == BlockMix(xs[i])
    requires n < |ys| <= 1025 && ys[0] == xs[1024]
    requires forall i :: 0 <= i < |ys| - 1 ==> ys[i + 1] == BlockMix(XorState(ys[i], xs[ys[i].hi.x00 % 1024]))
    ensures ys[n] == Mixed(xs[0], n)
  {
    hide BlockMix, XorState, Iterate, Integerify;
    if n == 0 {
      RowIs(xs, 1024);
    } else {
      WalkIs(xs, ys, n - 1);
      var j := ys[n - 1].hi.x00 % 1024;
      RowIs(xs, j);
      Selected(ys[n - 1]);
    }
  }

  /** The first word of the second half selects, modulo 1024. */
  lemma Selected(s: State)
    ensures Integerify(s) == s.hi.x00 % 1024
  {
    assert Pow2(10) == 1024;
    MaskIsRemainder(s.hi.x00, 10);
  }

  /** xs are the 1024 entries of the scratchpad and the state behind them, ys the states of
      the walk; the key derivation makes the first of xs and takes the last of ys. */
  lemma HashIs(pbkdf2: Pbkdf2, input: seq<Byte>, xs: seq<State>, ys: seq<State>)
    requires |xs| == 1025 && xs[0] == StateIn(pbkdf2(input, input, 128))
    requires forall i :: 0 <= i < 1024 ==> xs[i + 1] == BlockMix(xs[i])
    requires |ys| == 1025 && ys[0] == xs[1024]
    requires forall i :: 0 <= i < 1024 ==> ys[i + 1] == BlockMix(XorState(ys[i], xs[ys[i].hi.x00 % 1024]))
    ensures var out := pbkdf2(input, StateBytes(ys[1024]), 32);
      |ScryptHash(pbkdf2, input)| == 32 && forall i :: 0 <= i < 32 ==> ScryptHash(pbkdf2, input)[i] == out[31 - i]
  {
    hide BlockMix, XorState, Iterate, Integerify, Mixed, StateIn, StateBytes;
    WalkIs(xs, ys, 1024);
  }

  /** A round down the columns and one along the rows. */
  function Twice(x: Block): Block { RowRound(ColumnRound(x)) }

  /** Each half is mixed with the other, the second with the first as it is then; a half is
      eight rounds added to itself. */
  lemma BlockMixIs(s: State)
    ensures var x := XorBlock(s.lo, s.hi);
      var lo := AddBlock(x, Twice(Twice(Twice(Twice(x)))));
      var y := XorBlock(s.hi, lo);
      var hi := AddBlock(y, Twice(Twice(Twice(Twice(y)))));
      BlockMix(s) == State(lo, hi)
  {
    hide RowRound, ColumnRound, XorBlock, AddBlock;
    FourRounds(XorBlock(s.lo, s.hi));
    FourRounds(XorBlock(s.hi, BlockMix(s).lo));
  }

  lemma FourRounds(x: Block)
    ensures Rounds(x, 4) == Twice(Twice(Twice(Twice(x))))
  {
    hide RowRound, ColumnRound;
    assert Rounds(x, 0) == x;
    assert Rounds(x, 2) == RowRound(ColumnRound(Rounds(x, 1)));
    assert Rounds(x, 3) == RowRound(ColumnRound(Rounds(x, 2)));
  }

  /** Words are taken from the bytes, and written, lowest byte first. */
  lemma LowestFirst(B: seq<Byte>, p: nat)
    requires 4 * p + 4 <= |B|
    ensures WordBytes(WordAt(B, p)) == B[4 * p..4 * p + 4]
    ensures WordAt(B, p) % 0x100 == B[4 * p] && WordAt(B, p) / 0x100 % 0x100 == B[4 * p + 1]
    ensures WordAt(B, p) / 0x1_0000 % 0x100 == B[4 * p + 2] && WordAt(B, p) / 0x100_0000 == B[4 * p + 3]
  {
    var w := WordAt(B, p);
    var b1: int, b2: int, b3: int := B[4 * p + 1], B[4 * p + 2], B[4 * p + 3];
    assert w / 0x100 == b1 + b2 * 0x100 + b3 * 0x1_0000;
    assert w / 0x1_0000 == b2 + b3 * 0x100;
    assert WordBytes(w) == [B[4 * p], B[4 * p + 1], B[4 * p + 2], B[4 * p + 3]];
  }

  /** The sixteen words of each half stand in the bytes in this order. */
  lemma WordsPlaced(B: seq<Byte>, p: nat)
    requires |B| == 128 && p < 16
    ensures var s := StateIn(B);
      && [s.lo.x00, s.lo.x01, s.lo.x02, s.lo.x03, s.lo.x04, s.lo.x05, s.lo.x06, s.lo.x07,
           s.lo.x08, s.lo.x09, s.lo.x10, s.lo.x11, s.lo.x12, s.lo.x13, s.lo.x14, s.lo.x15][p] == WordAt(B, p)
      && [s.hi.x00, s.hi.x01, s.hi.x02, s.hi.x03, s.hi.x04, s.hi.x05, s.hi.x06, s.hi.x07,
           s.hi.x08, s.hi.x09, s.hi.x10, s.hi.x11, s.hi.x12, s.hi.x13, s.hi.x14, s.hi.x15][p] == WordAt(B, 16 + p)
  {
    hide WordAt;
  }

  /** And they are written where they were read. */
  lemma BytesBack(B: seq<Byte>)
    requires |B| == 128
    ensures StateBytes(StateIn(B)) == B
  {
    hide WordAt, WordBytes, StateIn;
    forall i | 0 <= i < 128 ensures StateBytes(StateIn(B))[i] == B[i] {
      LowestFirst(B, i / 4);
      WordListed(B, i / 4);
    }
  }

  lemma WordListed(B: seq<Byte>, p: nat)
    requires |B| == 128 && p < 32
    ensures StateWords(StateIn(B))[p] == WordAt(B, p)
  {
    hide WordAt;
  }
}
