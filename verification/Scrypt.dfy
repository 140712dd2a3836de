/** scrypt with N = 1024, r = 1, p = 1 (RFC 7914, sections 4 to 6), and the plain form
    of it in scrypt.c. PBKDF2-HMAC-SHA256 is any function with results of the asked length. */
module Scrypt {
  import opened Bytes
  import opened Bits
  import opened Words
  import opened Salsa

  type Pbkdf2 = f: (seq<Byte>, seq<Byte>, nat) -> seq<Byte> | forall p, s, n :: |f(p, s, n)| == n
    witness (p: seq<Byte>, s: seq<Byte>, n: nat) => seq(n, _ => 0)

  const N := 1024

  // ---- What scrypt computes

  datatype State = State(lo: Block, hi: Block)

  function BlockMix(s: State): State {
    var lo := Salsa8(s.lo, s.hi);
    State(lo, Salsa8(s.hi, lo))
  }

  function XorState(s: State, t: State): State { State(XorBlock(s.lo, t.lo), XorBlock(s.hi, t.hi)) }

  /** The scratchpad entry n: n block mixes. */
  function Iterate(s: State, n: nat): State {
    if n == 0 then s else BlockMix(Iterate(s, n - 1))
  }

  function Integerify(s: State): (j: nat)
    ensures j < N
  {
    MaskBound(s.hi.x00, 1023);
    And(s.hi.x00, 1023)
  }

  /** n rounds of mixing in the entries that the state itself selects. */
  function Mixed(s: State, n: nat): State {
    if n == 0 then Iterate(s, N)
    else
      var x := Mixed(s, n - 1);
      BlockMix(XorState(x, Iterate(s, Integerify(x))))
  }

  function BlockIn(B: seq<Byte>, p: nat): Block
    requires 4 * p + 64 <= |B|
  {
    Block(WordAt(B, p), WordAt(B, p + 1), WordAt(B, p + 2), WordAt(B, p + 3),
          WordAt(B, p + 4), WordAt(B, p + 5), WordAt(B, p + 6), WordAt(B, p + 7),
          WordAt(B, p + 8), WordAt(B, p + 9), WordAt(B, p + 10), WordAt(B, p + 11),
          WordAt(B, p + 12), WordAt(B, p + 13), WordAt(B, p + 14), WordAt(B, p + 15))
  }

  function StateIn(B: seq<Byte>): State
    requires |B| == 128
  {
    State(BlockIn(B, 0), BlockIn(B, 16))
  }

  function StateWords(s: State): (ws: seq<Word>)
    ensures |ws| == 32
  {
    Listed(s.lo) + Listed(s.hi)
  }

  function StateBytes(s: State): (b: seq<Byte>)
    ensures |b| == 128
  {
    seq(128, i requires 0 <= i < 128 => WordBytes(StateWords(s)[i / 4])[i % 4])
  }

  function Reverse(b: seq<Byte>): (r: seq<Byte>)
    ensures |r| == |b|
  {
    seq(|b|, i requires 0 <= i < |b| => b[|b| - 1 - i])
  }

  /** The hash of a block header. */
  function ScryptHash(pbkdf2: Pbkdf2, input: seq<Byte>): seq<Byte> {
    var s := StateIn(pbkdf2(input, input, 128));
    Reverse(pbkdf2(input, StateBytes(Mixed(s, N)), 32))
  }

  // ---- The scratchpad

  function StateAt(X: array<Word>, o: nat): State
    requires o + 32 <= X.Length
    reads X
  {
    State(BlockAt(X, o), BlockAt(X, o + 16))
  }

  /** The scratchpad holds these states, 32 words each. */
  predicate Saved(V: array<Word>, vs: seq<State>)
    reads V
  {
    32 * |vs| <= V.Length && forall j :: 0 <= j < |vs| ==> StateAt(V, 32 * j) == vs[j]
  }

  /** memcpy of X to entry i of the scratchpad. */
  method Save(X: array<Word>, V: array<Word>, i: nat, ghost vs: seq<State>)
    requires X.Length == 32 && V != X && Saved(V, vs) && i == |vs| && 32 * i + 32 <= V.Length
    modifies V
    ensures Saved(V, vs + [StateAt(X, 0)])
  {
    forall k | 0 <= k < 32 { V[32 * i + k] := X[k]; }
    forall j | 0 <= j < i + 1 ensures StateAt(V, 32 * j) == (vs + [StateAt(X, 0)])[j] {
      if j == i {
        assert BlockAt(V, 32 * i) == BlockAt(X, 0);
        assert BlockAt(V, 32 * i + 16) == BlockAt(X, 16);
      } else {
        assert old(StateAt(V, 32 * j)) == vs[j];
      }
    }
  }

  /** X[k] ^= V[j + k] for all words. */
  method XorEntry(X: array<Word>, V: array<Word>, j: nat)
    requires X.Length == 32 && V != X && j + 32 <= V.Length
    modifies X
    ensures StateAt(X, 0) == XorState(old(StateAt(X, 0)), StateAt(V, j))
  {
    hide XorWord;
    for k := 0 to 32
      invariant forall l :: 0 <= l < k ==> X[l] == XorWord(old(X[l]), V[j + l])
      invariant forall l :: k <= l < 32 ==> X[l] == old(X[l])
    {
      X[k] := XorWord(X[k], V[j + k]);
    }
    assert BlockAt(X, 0) == XorBlock(old(BlockAt(X, 0)), BlockAt(V, j));
    assert BlockAt(X, 16) == XorBlock(old(BlockAt(X, 16)), BlockAt(V, j + 16));
  }

  /** The two calls that make one block mix. */
  method Mix2(X: array<Word>)
    requires X.Length == 32
    modifies X
    ensures StateAt(X, 0) == BlockMix(old(StateAt(X, 0)))
  {
    hide Salsa8, BlockAt;
    XorSalsa8(X, 0, 16);
    XorSalsa8(X, 16, 0);
  }

  /** The two loops over the scratchpad. */
  method RoMix(X: array<Word>, V: array<Word>)
    requires X.Length == 32 && V.Length == 32 * N && V != X
    modifies X, V
    ensures StateAt(X, 0) == Mixed(old(StateAt(X, 0)), N)
  {
    hide BlockMix, StateAt, Integerify, XorState;
    ghost var s := StateAt(X, 0);
    ghost var vs: seq<State> := [];
    for i := 0 to N
      invariant |vs| == i && Saved(V, vs) && StateAt(X, 0) == Iterate(s, i)
      invariant forall j :: 0 <= j < i ==> vs[j] == Iterate(s, j)
    {
      Save(X, V, i, vs);
      vs := vs + [StateAt(X, 0)];
      Mix2(X);
    }
    for i := 0 to N
      invariant Saved(V, vs) && StateAt(X, 0) == Mixed(s, i)
    {
      Selects(X);
      var j := 32 * And(X[16], 1023);
      XorEntry(X, V, j);
      Mix2(X);
    }
  }

  lemma Selects(X: array<Word>)
    requires X.Length == 32
    ensures And(X[16], 1023) == Integerify(StateAt(X, 0))
  {}

  // ---- Bytes in and out

  /** le32enc at word p of B. */
  method PutWord(B: array<Byte>, p: nat, w: Word)
    requires 4 * p + 4 <= B.Length
    modifies B
    ensures forall m | 0 <= m < 4 :: B[4 * p + m] == WordBytes(w)[m]
    ensures forall i | 0 <= i < B.Length && i / 4 != p :: B[i] == old(B[i])
  {
    B[4 * p] := w % 0x100;
    B[4 * p + 1] := w / 0x100 % 0x100;
    B[4 * p + 2] := w / 0x1_0000 % 0x100;
    B[4 * p + 3] := w / 0x100_0000 % 0x100;
  }

  /** Word p of B is done: its bytes are those of w. */
  predicate HasWord(B: array<Byte>, p: nat, w: Word)
    requires 4 * p + 4 <= B.Length
    reads B
  {
    forall m | 0 <= m < 4 :: B[4 * p + m] == WordBytes(w)[m]
  }

  lemma AllWords(B: array<Byte>, s: State)
    requires B.Length == 128 && forall p | 0 <= p < 32 :: HasWord(B, p, StateWords(s)[p])
    ensures B[..] == StateBytes(s)
  {
    forall i | 0 <= i < 128 ensures B[i] == StateBytes(s)[i] {
      assert HasWord(B, i / 4, StateWords(s)[i / 4]);
      assert i == 4 * (i / 4) + i % 4;
      assert B[4 * (i / 4) + i % 4] == WordBytes(StateWords(s)[i / 4])[i % 4];
    }
  }

  /** The words of X in order, if they are what StateAt reads. */
  lemma WordsOf(X: array<Word>)
    requires X.Length == 32
    ensures forall k | 0 <= k < 32 :: StateWords(StateAt(X, 0))[k] == X[k]
  {}

  /** le32dec of the 32 words of B. */
  method LoadWords(B: seq<Byte>, X: array<Word>)
    requires |B| == 128 && X.Length == 32
    modifies X
    ensures StateAt(X, 0) == StateIn(B)
  {
    hide WordAt;
    for k := 0 to 32
      invariant forall l | 0 <= l < k :: X[l] == WordAt(B, l)
    {
      X[k] := WordAt(B, k);
    }
    assert BlockAt(X, 0) == BlockIn(B, 0);
    assert BlockAt(X, 16) == BlockIn(B, 16);
  }

  /** le32enc of the 32 words of X. */
  method StoreWords(X: array<Word>, B: array<Byte>)
    requires X.Length == 32 && B.Length == 128
    modifies B
    ensures B[..] == StateBytes(StateAt(X, 0))
  {
    hide WordBytes, StateWords, StateBytes, StateAt;
    WordsOf(X);
    ghost var ws := StateWords(StateAt(X, 0));
    for k := 0 to 32
      invariant forall p | 0 <= p < k :: HasWord(B, p, ws[p])
    {
      PutWord(B, k, X[k]);
    }
    AllWords(B, StateAt(X, 0));
  }

  /** swap_bytes. */
  method SwapBytes(buf: array<Byte>)
    modifies buf
    ensures buf[..] == Reverse(old(buf[..]))
  {
    var n := buf.Length;
    var i := 0;
    while i < n / 2
      invariant 0 <= i <= n / 2
      invariant forall k | 0 <= k < i :: buf[k] == old(buf[n - 1 - k]) && buf[n - 1 - k] == old(buf[k])
      invariant forall k | i <= k < n - i :: buf[k] == old(buf[k])
    {
      var temp := buf[i];
      buf[i] := buf[n - i - 1];
      buf[n - i - 1] := temp;
      i := i + 1;
    }
    ghost var r := Reverse(old(buf[..]));
    forall k | 0 <= k < n ensures buf[k] == r[k] {
      if n - i <= k { assert buf[n - 1 - (n - 1 - k)] == old(buf[n - 1 - k]); }
    }
  }

  /** The last lines of both forms. */
  method Finish(pbkdf2: Pbkdf2, input: seq<Byte>, B: seq<Byte>) returns (output: array<Byte>)
    ensures fresh(output) && output[..] == Reverse(pbkdf2(input, B, 32))
  {
    var out := pbkdf2(input, B, 32);
    output := new Byte[32](i requires 0 <= i < 32 => out[i]);
    assert output[..] == out;
    SwapBytes(output);
  }

  /** scrypt_1024_1_1_256_sp_generic. */
  method ScryptGeneric(pbkdf2: Pbkdf2, input: seq<Byte>) returns (output: array<Byte>)
    ensures output[..] == ScryptHash(pbkdf2, input)
  {
    hide StateIn, StateBytes, Mixed, StateAt, Reverse;
    var X := new Word[32](_ => 0);
    var V := new Word[32 * N](_ => 0);
    var B := new Byte[128](_ => 0);
    LoadWords(pbkdf2(input, input, 128), X);
    RoMix(X, V);
    StoreWords(X, B);
    output := Finish(pbkdf2, input, B[..]);
    HashIs(pbkdf2, input);
  }

  lemma HashIs(pbkdf2: Pbkdf2, input: seq<Byte>)
    ensures ScryptHash(pbkdf2, input)
         == Reverse(pbkdf2(input, StateBytes(Mixed(StateIn(pbkdf2(input, input, 128)), N)), 32))
  {}

}
