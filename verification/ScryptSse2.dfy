/** The SSE2 form of scrypt (scrypt-sse2.c): the words lie in another order, and the
    result is the same. */
module ScryptSse2 {
  import opened Bytes
  import Arith
  import opened Bits
  import opened Words
  import opened Salsa
  import opened SalsaSse2
  import opened Scrypt

  /** Word 16k + i of the union holds word 16k + Place(i) of the plain form. */
  function Place(i: nat): (p: nat)
    ensures p < 16
  {
    i * 5 % 16
  }

  function Origin(p: nat): (i: nat)
    ensures i < 16
  {
    p * 13 % 16
  }

  lemma PlaceOrigin(p: nat)
    requires p < 16
    ensures Place(Origin(p)) == p && Origin(Place(p)) == p
  {
    var a, b := p * 13 / 16, p * 5 / 16;
    assert Origin(p) == p * 13 - 16 * a && Place(p) == p * 5 - 16 * b;
    Arith.DivModUnique(16, 4 * p - 5 * a, p);
    Arith.DivModUnique(16, 4 * p - 13 * b, p);
  }

  function Rearranged(b: Block): Block {
    Block(b.x00, b.x13, b.x10, b.x07,
          b.x04, b.x01, b.x14, b.x11,
          b.x08, b.x05, b.x02, b.x15,
          b.x12, b.x09, b.x06, b.x03)
  }

  /** The state that the words stand for in this layout. */
  function Spreading(s: State): State { State(Rearranged(s.lo), Rearranged(s.hi)) }

  lemma SpreadIsRearranged(X: array<Word>)
    requires X.Length == 32
    ensures SpreadAt(X, 0) == Rearranged(BlockAt(X, 0)) && SpreadAt(X, 4) == Rearranged(BlockAt(X, 16))
  {}

  /** The layout relation itself, word by word. */
  lemma RearrangedWord(b: Block, i: nat)
    requires i < 16
    ensures Listed(Rearranged(b))[Place(i)] == Listed(b)[i]
  {
    hide Place;
    Places();
    assert i == 0 || i == 1 || i == 2 || i == 3 || i == 4 || i == 5 || i == 6 || i == 7
        || i == 8 || i == 9 || i == 10 || i == 11 || i == 12 || i == 13 || i == 14 || i == 15;
  }

  /** The two calls that make one block mix. */
  method Mix2Sse2(X: array<Word>)
    requires X.Length == 32
    modifies X
    ensures Spreading(StateAt(X, 0)) == BlockMix(old(Spreading(StateAt(X, 0))))
  {
    hide Salsa8, BlockAt, SpreadAt, Rearranged;
    SpreadIsRearranged(X);
    XorSalsa8Sse2(X, 0, 4);
    XorSalsa8Sse2(X, 4, 0);
    SpreadIsRearranged(X);
  }

  method StoreLanes(X: array<Word>, V: array<Word>, i: nat)
    requires X.Length == 32 && V != X && 32 * i + 32 <= V.Length
    modifies V
    ensures forall l | 0 <= l < 32 :: V[32 * i + l] == X[l]
    ensures forall l | 0 <= l < 32 * i :: V[l] == old(V[l])
  {
    hide LanesAt;
    for k := 0 to 8
      invariant forall l | 0 <= l < 4 * k :: V[32 * i + l] == X[l]
      invariant forall l | 0 <= l < 32 * i :: V[l] == old(V[l])
    {
      LanesWords(X, k);
      Store(V, i * 8 + k, LanesAt(X, k));
      LanesWords(V, i * 8 + k);
    }
  }

  /** V[i * 8 + k] = X.i128[k] for all k. */
  method SaveSse2(X: array<Word>, V: array<Word>, i: nat, ghost vs: seq<State>)
    requires X.Length == 32 && V != X && Saved(V, vs) && i == |vs| && 32 * i + 32 <= V.Length
    modifies V
    ensures Saved(V, vs + [StateAt(X, 0)])
  {
    StoreLanes(X, V, i);
    forall j | 0 <= j < i + 1 ensures StateAt(V, 32 * j) == (vs + [StateAt(X, 0)])[j] {
      if j == i {
        assert BlockAt(V, 32 * i) == BlockAt(X, 0);
        assert BlockAt(V, 32 * i + 16) == BlockAt(X, 16);
      } else {
        assert old(StateAt(V, 32 * j)) == vs[j];
      }
    }
  }

  lemma LanesWords(X: array<Word>, k: nat)
    requires 4 * k + 4 <= X.Length
    ensures LanesAt(X, k) == Quad(X[4 * k], X[4 * k + 1], X[4 * k + 2], X[4 * k + 3])
  {}

  /** X.i128[k] ^= V[j + k] for all k. */
  method XorEntrySse2(X: array<Word>, V: array<Word>, j: nat)
    requires X.Length == 32 && V != X && 4 * j + 32 <= V.Length
    modifies X
    ensures StateAt(X, 0) == XorState(old(StateAt(X, 0)), StateAt(V, 4 * j))
  {
    hide XorWord, LanesAt;
    for k := 0 to 8
      invariant forall l | 0 <= l < 4 * k :: X[l] == XorWord(old(X[l]), V[4 * j + l])
      invariant forall l | 4 * k <= l < 32 :: X[l] == old(X[l])
    {
      LanesWords(X, k);
      LanesWords(V, j + k);
      Store(X, k, XorLanes(LanesAt(X, k), LanesAt(V, j + k)));
      LanesWords(X, k);
    }
    assert BlockAt(X, 0) == XorBlock(old(BlockAt(X, 0)), BlockAt(V, 4 * j));
    assert BlockAt(X, 16) == XorBlock(old(BlockAt(X, 16)), BlockAt(V, 4 * j + 16));
  }

  lemma XorSpreading(s: State, t: State)
    ensures Spreading(XorState(s, t)) == XorState(Spreading(s), Spreading(t))
  {
    hide XorWord;
  }

  /** The two loops over the scratchpad. */
  method RoMixSse2(X: array<Word>, V: array<Word>)
    requires X.Length == 32 && V.Length == 32 * N && V != X
    modifies X, V
    ensures Spreading(StateAt(X, 0)) == Mixed(old(Spreading(StateAt(X, 0))), N)
  {
    hide BlockMix, StateAt, Integerify, XorState, Spreading, Saved;
    ghost var s := Spreading(StateAt(X, 0));
    ghost var vs: seq<State> := [];
    NothingSaved(V);
    for i := 0 to N
      invariant |vs| == i && Saved(V, vs) && Spreading(StateAt(X, 0)) == Iterate(s, i)
      invariant forall j :: 0 <= j < i ==> Spreading(vs[j]) == Iterate(s, j)
    {
      SaveSse2(X, V, i, vs);
      vs := vs + [StateAt(X, 0)];
      Mix2Sse2(X);
    }
    for i := 0 to N
      invariant Saved(V, vs) && Spreading(StateAt(X, 0)) == Mixed(s, i)
    {
      SelectsSse2(X);
      var j := 8 * And(X[16], 1023);
      EntryIs(V, vs, And(X[16], 1023));
      XorSpreading(StateAt(X, 0), StateAt(V, 4 * j));
      XorEntrySse2(X, V, j);
      Mix2Sse2(X);
    }
  }

  lemma NothingSaved(V: array<Word>)
    ensures Saved(V, [])
  {}

  lemma EntryIs(V: array<Word>, vs: seq<State>, j: nat)
    requires Saved(V, vs) && j < |vs|
    ensures 32 * j + 32 <= V.Length && StateAt(V, 32 * j) == vs[j]
  {}

  lemma SelectsSse2(X: array<Word>)
    requires X.Length == 32
    ensures And(X[16], 1023) == Integerify(Spreading(StateAt(X, 0)))
  {}

  /** The words of B, each at its place in the rearranged layout. */
  method LoadSse2(B: seq<Byte>, X: array<Word>)
    requires |B| == 128 && X.Length == 32
    modifies X
    ensures Spreading(StateAt(X, 0)) == StateIn(B)
  {
    hide WordAt, StateAt, StateIn;
    for k := 0 to 2
      invariant forall l | 0 <= l < 16 * k :: X[l] == WordAt(B, l / 16 * 16 + Place(l % 16))
    {
      for i := 0 to 16
        invariant forall l | 0 <= l < 16 * k + i :: X[l] == WordAt(B, l / 16 * 16 + Place(l % 16))
      {
        assert (16 * k + i) / 16 == k && (16 * k + i) % 16 == i;
        X[k * 16 + i] := WordAt(B, k * 16 + i * 5 % 16);
      }
    }
    Loaded(B, X);
  }

  lemma LoadedHalf(B: seq<Byte>, X: array<Word>, k: nat)
    requires |B| == 128 && X.Length == 32 && k < 2
    requires forall l | 0 <= l < 32 :: X[l] == WordAt(B, l / 16 * 16 + Place(l % 16))
    ensures Rearranged(BlockAt(X, 16 * k)) == BlockIn(B, 16 * k)
  {
    hide WordAt, Place, Rearranged, BlockAt, BlockIn;
    var o := 16 * k;
    forall i | 0 <= i < 16 ensures X[o + i] == WordAt(B, o + Place(i)) {
      assert (o + i) / 16 == k && (o + i) % 16 == i;
    }
    RearrangedIs(B, X, o);
  }

  lemma RearrangedIs(B: seq<Byte>, X: array<Word>, o: nat)
    requires 4 * o + 64 <= |B| && o + 16 <= X.Length
    requires forall i {:trigger Place(i)} | 0 <= i < 16 :: X[o + i] == WordAt(B, o + Place(i))
    ensures Rearranged(BlockAt(X, o)) == BlockIn(B, o)
  {
    hide WordAt, Place;
    Places();
  }

  lemma Places()
    ensures Place(0) == 0 && Place(1) == 5 && Place(2) == 10 && Place(3) == 15
    ensures Place(4) == 4 && Place(5) == 9 && Place(6) == 14 && Place(7) == 3
    ensures Place(8) == 8 && Place(9) == 13 && Place(10) == 2 && Place(11) == 7
    ensures Place(12) == 12 && Place(13) == 1 && Place(14) == 6 && Place(15) == 11
  {}

  lemma Loaded(B: seq<Byte>, X: array<Word>)
    requires |B| == 128 && X.Length == 32
    requires forall l | 0 <= l < 32 :: X[l] == WordAt(B, l / 16 * 16 + Place(l % 16))
    ensures Spreading(StateAt(X, 0)) == StateIn(B)
  {
    hide WordAt;
    LoadedHalf(B, X, 0);
    LoadedHalf(B, X, 1);
  }

  /** Back to the layout of B: each of its words is written once. */
  method StoreSse2(X: array<Word>, B: array<Byte>)
    requires X.Length == 32 && B.Length == 128
    modifies B
    ensures B[..] == StateBytes(Spreading(StateAt(X, 0)))
  {
    hide StateAt, Spreading, StateBytes, Stored;
    NoneStored(X, B);
    for k := 0 to 2
      invariant Stored(X, B, k, 0)
    {
      for i := 0 to 16
        invariant Stored(X, B, k, i)
      {
        StoreWord(X, B, k, i);
      }
      HalfStored(X, B, k);
    }
    StoredWords(X, B);
  }

  /** The loops of StoreSse2 have passed the words before word i of half k. */
  ghost predicate Stored(X: array<Word>, B: array<Byte>, k: nat, i: nat)
    requires X.Length == 32 && B.Length == 128 && k <= 2
    reads X, B
  {
    forall p | 0 <= p < 32 && (p / 16 < k || (p / 16 == k && Origin(p % 16) < i)) ::
      HasWord(B, p, X[p / 16 * 16 + Origin(p % 16)])
  }

  lemma NoneStored(X: array<Word>, B: array<Byte>)
    requires X.Length == 32 && B.Length == 128
    ensures Stored(X, B, 0, 0)
  {}

  lemma HalfStored(X: array<Word>, B: array<Byte>, k: nat)
    requires X.Length == 32 && B.Length == 128 && k < 2 && Stored(X, B, k, 16)
    ensures Stored(X, B, k + 1, 0)
  {
    hide HasWord, Origin;
  }

  method StoreWord(X: array<Word>, B: array<Byte>, k: nat, i: nat)
    requires X.Length == 32 && B.Length == 128 && k < 2 && i < 16 && Stored(X, B, k, i)
    modifies B
    ensures Stored(X, B, k, i + 1)
  {
    hide WordBytes, Place, Origin;
    PlaceMeans(i);
    ghost var p := 16 * k + Place(i);
    assert p / 16 == k && p % 16 == Place(i);
    PlaceOrigin(i);
    PutWord(B, k * 16 + i * 5 % 16, X[k * 16 + i]);
    forall p' | 0 <= p' < 32 && (p' / 16 < k || (p' / 16 == k && Origin(p' % 16) < i + 1))
      ensures HasWord(B, p', X[p' / 16 * 16 + Origin(p' % 16)])
    {
      if p' != p {
        if p' / 16 == k { PlaceOrigin(p' % 16); }
        assert old(HasWord(B, p', X[p' / 16 * 16 + Origin(p' % 16)]));
      }
    }
  }

  lemma PlaceMeans(i: nat)
    ensures Place(i) == i * 5 % 16 && Place(i) < 16
  {}

  lemma StoredWords(X: array<Word>, B: array<Byte>)
    requires X.Length == 32 && B.Length == 128
    requires Stored(X, B, 2, 0)
    ensures B[..] == StateBytes(Spreading(StateAt(X, 0)))
  {
    hide HasWord, StateBytes, Rearranged, BlockAt, Listed, Place, Origin;
    var s := Spreading(StateAt(X, 0));
    forall p | 0 <= p < 32 ensures HasWord(B, p, StateWords(s)[p]) {
      var k, i := p / 16, Origin(p % 16);
      PlaceOrigin(p % 16);
      RearrangedWord(BlockAt(X, 16 * k), i);
      ListedWord(X, 16 * k, i);
      assert StateWords(s)[p] == Listed(Rearranged(BlockAt(X, 16 * k)))[p % 16] by {
        if p < 16 { assert k == 0 && p % 16 == p; } else { assert k == 1 && p % 16 == p - 16; }
      }
    }
    AllWords(B, s);
  }

  lemma ListedWord(X: array<Word>, o: nat, i: nat)
    requires o + 16 <= X.Length && i < 16
    ensures Listed(BlockAt(X, o))[i] == X[o + i]
  {}

  /** scrypt_1024_1_1_256_sp_sse2 returns what the plain form returns. */
  method ScryptLanes(pbkdf2: Pbkdf2, input: seq<Byte>) returns (output: array<Byte>)
    ensures output[..] == ScryptHash(pbkdf2, input)
  {
    hide StateIn, StateBytes, Mixed, StateAt, Reverse, Spreading;
    var X := new Word[32](_ => 0);
    var V := new Word[32 * N](_ => 0);
    var B := new Byte[128](_ => 0);
    LoadSse2(pbkdf2(input, input, 128), X);
    RoMixSse2(X, V);
    StoreSse2(X, B);
    output := Finish(pbkdf2, input, B[..]);
    HashIs(pbkdf2, input);
  }

}
