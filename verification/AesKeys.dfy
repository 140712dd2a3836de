/** The key expansion of ctaes.c (AES_setup): the round keys in their slices are the key
    schedule of FIPS 197, section 5.2. */
module AesKeys {
  import Arith
  import opened Bits
  import opened Bytes
  import opened AesSbox
  import opened AesCipher
  import opened AesSlices
  import opened AesSubBytes
  import opened AesBytes
  import opened AesRounds

  // ---- The key schedule

  /** A word: a column of the state. */
  type Column = c: seq<Octet> | |c| == 4 witness [ZERO, ZERO, ZERO, ZERO]

  function SubWord(w: Column): Column { seq(4, r requires 0 <= r < 4 => SBox(w[r])) }

  function RotWord(w: Column): Column { [w[1], w[2], w[3], w[0]] }

  function PlusWord(v: Column, w: Column): Column {
    [Plus(v[0], w[0]), Plus(v[1], w[1]), Plus(v[2], w[2]), Plus(v[3], w[3])]
  }

  /** The n-th power of x. */
  function Rcon(n: nat): Octet {
    if n == 0 then OctetOf(1) else XTimes(Rcon(n - 1))
  }

  function RconWord(n: nat): Column { [Rcon(n), ZERO, ZERO, ZERO] }

  /** The word before word i, transformed. */
  function Transformed(nk: nat, i: nat, w: Column): Column
    requires i >= nk > 0
  {
    hide *;
    Multiple(nk, i);
    if i % nk == 0 then PlusWord(RotWord(SubWord(w)), RconWord(i / nk - 1))
    else if nk > 6 && i % nk == 4 then SubWord(w)
    else w
  }

  lemma Multiple(nk: nat, i: nat)
    requires i >= nk > 0
    ensures 1 <= i / nk
  {
    Arith.Euclid(i, nk);
    if i / nk <= 0 { Arith.MulMono(i / nk, 0, nk); }
  }

  function KeyWord(key: seq<Byte>, nk: nat, i: nat): Column
    requires nk > 0 && |key| == 4 * nk
  {
    if i < nk then [OctetOf(key[4 * i]), OctetOf(key[4 * i + 1]), OctetOf(key[4 * i + 2]), OctetOf(key[4 * i + 3])]
    else PlusWord(KeyWord(key, nk, i - nk), Transformed(nk, i, KeyWord(key, nk, i - 1)))
  }

  /** Round key n holds words 4n to 4n + 3. */
  function KeySchedule(key: seq<Byte>, nk: nat, nrounds: nat): (keys: seq<State>)
    requires nk > 0 && |key| == 4 * nk
    ensures |keys| == nrounds + 1
  {
    seq(nrounds + 1, n requires 0 <= n => seq(16, k requires 0 <= k < 16 => KeyWord(key, nk, 4 * n + k % 4)[k / 4]))
  }

  // ---- The steps on slices

  const COLUMN_0: Slice := 0x1111

  lemma ColumnBits()
    ensures forall k | 0 <= k < 16 :: Bit(COLUMN_0, k) == (k % 4 == 0)
  {
    assert Bit(0x1111, 0) && !Bit(0x1111, 1) && !Bit(0x1111, 2) && !Bit(0x1111, 3);
    assert Bit(0x1111, 4) && !Bit(0x1111, 5) && !Bit(0x1111, 6) && !Bit(0x1111, 7);
    assert Bit(0x1111, 8) && !Bit(0x1111, 9) && !Bit(0x1111, 10) && !Bit(0x1111, 11);
    assert Bit(0x1111, 12) && Pow2(13) == 0x2000 by { assert Pow2(8) == 0x100; }
    forall k | 13 <= k < 16 ensures !Bit(0x1111, k) { HighBitsClear(0x1111, 13, k); }
    forall k | 0 <= k < 16 ensures Bit(COLUMN_0, k) == (k % 4 == 0) {
      assert k == 0 || k == 1 || k == 2 || k == 3 || k == 4 || k == 5 || k == 6 || k == 7
          || k == 8 || k == 9 || k == 10 || k == 11 || k == 12 || k == 13 || k == 14 || k == 15;
    }
  }

  /** Column 0 of s holds w. */
  predicate InColumn(s: array<Slice>, w: Column)
    requires s.Length == 8
    reads s
  {
    forall r | 0 <= r < 4 :: Lane(s, 4 * r) == w[r]
  }

  /** GetOneColumn */
  method GetOneColumn(s: array<Slice>, rk: array2<Slice>, n: nat, c: nat)
    requires s.Length == 8 && n < rk.Length0 && rk.Length1 == 8 && c < 4
    modifies s
    ensures forall r | 0 <= r < 4 :: Lane(s, 4 * r) == KeyLane(rk, n, 4 * r + c)
  {
    hide Bit, AndS, ShrS;
    ColumnBits();
    for b := 0 to 8
      invariant forall j, r | 0 <= j < b && 0 <= r < 4 :: Bit(s[j], 4 * r) == Bit(rk[n, j], 4 * r + c)
    {
      s[b] := AndS(ShrS(rk[n, b], c), COLUMN_0);
    }
  }

  /** KeySetupTransform */
  method KeySetupTransform(s: array<Slice>, r: array<Slice>)
    requires s.Length == 8 && r.Length == 8 && s != r
    modifies s
    ensures forall k | 0 <= k < 16 :: Lane(s, k) == Plus(old(Lane(s, (k + 4) % 16)), Lane(r, k))
  {
    hide Bit, OrS, ShrS, ShlS, XorS;
    for b := 0 to 8
      invariant forall j, k | 0 <= j < b && 0 <= k < 16 ::
                  Bit(s[j], k) == (Bit(old(s[j]), (k + 4) % 16) != Bit(r[j], k))
      invariant forall j | b <= j < 8 :: s[j] == old(s[j])
    {
      s[b] := XorS(OrS(ShrS(s[b], 4), ShlS(s[b], 12)), r[b]);
    }
  }

  /** MultX */
  method MultX(s: array<Slice>)
    requires s.Length == 8
    modifies s
    ensures forall k | 0 <= k < 16 :: Lane(s, k) == XTimes(old(Lane(s, k)))
  {
    hide Bit, XorS;
    var top := s[7];
    s[7] := s[6];
    s[6] := s[5];
    s[5] := s[4];
    s[4] := XorS(s[3], top);
    s[3] := XorS(s[2], top);
    s[2] := s[1];
    s[1] := XorS(s[0], top);
    s[0] := top;
  }

  /** A slice with column c2 of another one xor-ed into its column 0. */
  function Taken(s: Slice, a: Slice, c2: nat): (t: Slice)
    requires c2 < 4
    ensures forall r | 0 <= r < 4 :: Bit(t, 4 * r) == (Bit(s, 4 * r) != Bit(a, 4 * r + c2))
  {
    hide Bit, XorS, AndS, ShrS;
    ColumnBits();
    XorS(s, AndS(ShrS(a, c2), COLUMN_0))
  }

  /** A slice with column 0 of another one or-ed into its column c1. */
  function Given(r: Slice, s: Slice, c1: nat): (t: Slice)
    requires c1 < 4
    ensures forall k | 0 <= k < 16 :: Bit(t, k) == (Bit(r, k) || (k % 4 == c1 && Bit(s, k - c1)))
  {
    hide Bit, OrS, AndS, ShlS;
    var column := AndS(s, COLUMN_0);
    ColumnShifted(s, c1);
    OrS(r, ShlS(column, c1))
  }

  lemma ColumnShifted(s: Slice, c1: nat)
    requires c1 < 4
    ensures forall k | 0 <= k < 16 :: Bit(ShlS(AndS(s, COLUMN_0), c1), k) == (k % 4 == c1 && Bit(s, k - c1))
  {
    hide Bit, AndS, ShlS;
    ColumnBits();
    forall k | 0 <= k < 16 ensures Bit(ShlS(AndS(s, COLUMN_0), c1), k) == (k % 4 == c1 && Bit(s, k - c1)) {
      if k >= c1 { assert (k - c1) % 4 == 0 <==> k % 4 == c1; }
    }
  }

  /** KeySetupColumnMix: column 0 of s takes in column c2 of round key m, and goes to
      column c1 of round key n, which is clear. */
  method KeySetupColumnMix(s: array<Slice>, rk: array2<Slice>, n: nat, m: nat, c1: nat, c2: nat)
    requires s.Length == 8 && m < n < rk.Length0 && rk.Length1 == 8 && c1 < 4 && c2 < 4
    requires forall r | 0 <= r < 4 :: KeyLane(rk, n, 4 * r + c1) == ZERO
    modifies s, rk
    ensures forall r | 0 <= r < 4 :: Lane(s, 4 * r) == Plus(old(Lane(s, 4 * r)), old(KeyLane(rk, m, 4 * r + c2)))
    ensures forall r | 0 <= r < 4 :: KeyLane(rk, n, 4 * r + c1) == Lane(s, 4 * r)
    ensures forall k | 0 <= k < 16 && k % 4 != c1 :: KeyLane(rk, n, k) == old(KeyLane(rk, n, k))
    ensures forall l, k | 0 <= l < rk.Length0 && l != n && 0 <= k < 16 :: KeyLane(rk, l, k) == old(KeyLane(rk, l, k))
  {
    hide Bit, Taken, Given;
    for b := 0 to 8
      invariant forall j | 0 <= j < b :: s[j] == Taken(old(s[j]), old(rk[m, j]), c2)
      invariant forall j | 0 <= j < b :: rk[n, j] == Given(old(rk[n, j]), s[j], c1)
      invariant forall j | b <= j < 8 :: s[j] == old(s[j]) && rk[n, j] == old(rk[n, j])
      invariant forall l, j | 0 <= l < rk.Length0 && l != n && 0 <= j < 8 :: rk[l, j] == old(rk[l, j])
    {
      s[b] := Taken(s[b], rk[m, b], c2);
      rk[n, b] := Given(rk[n, b], s[b], c1);
    }
  }

  // ---- AES_setup

  /** LoadByte on a round key. */
  method LoadKeyByte(rk: array2<Slice>, n: nat, byte: Byte, r: nat, c: nat)
    requires n < rk.Length0 && rk.Length1 == 8 && r < 4 && c < 4
    requires KeyLane(rk, n, 4 * r + c) == ZERO
    modifies rk
    ensures KeyLane(rk, n, 4 * r + c) == OctetOf(byte)
    ensures forall k | 0 <= k < 16 && k != 4 * r + c :: KeyLane(rk, n, k) == old(KeyLane(rk, n, k))
    ensures forall l, k | 0 <= l < rk.Length0 && l != n && 0 <= k < 16 :: KeyLane(rk, l, k) == old(KeyLane(rk, l, k))
  {
    hide Bit, OrS, ShlS;
    var v: nat := byte;
    for i := 0 to 8
      invariant forall j | 0 <= j :: Bit(v, j) == Bit(byte, i + j)
      invariant forall j, k | 0 <= j < i && 0 <= k < 16 ::
                  Bit(rk[n, j], k) == (Bit(old(rk[n, j]), k) || (k == 4 * r + c && Bit(byte, j)))
      invariant forall j | i <= j < 8 :: rk[n, j] == old(rk[n, j])
      invariant forall l, j | 0 <= l < rk.Length0 && l != n && 0 <= j < 8 :: rk[l, j] == old(rk[l, j])
    {
      OneBit(v);
      assert Bit(v, 0) == Bit(byte, i + 0);
      rk[n, i] := OrS(rk[n, i], ShlS(v % 2, r * 4 + c));
      v := v / 2;
    }
  }

  /** Byte r of word w in a table of round keys. */
  function WordByte(keys: seq<State>, w: nat, r: nat): Octet
    requires w / 4 < |keys| && r < 4
  {
    keys[w / 4][4 * r + w % 4]
  }

  /** The round keys hold the first i words, and the first rows bytes of the next one. */
  ghost predicate Expanded(keys: seq<State>, key: seq<Byte>, nk: nat, i: nat, rows: nat)
    requires nk > 0 && |key| == 4 * nk
  {
    forall w, r | 0 <= w < 4 * |keys| && 0 <= r < 4 ::
      WordByte(keys, w, r) == if w < i || (w == i && r < rows) then KeyWord(key, nk, w)[r] else ZERO
  }

  /** One more byte of the key itself. */
  method LoadNext(rk: array2<Slice>, key: seq<Byte>, nk: nat, i: nat, r: nat)
    requires nk > 0 && |key| == 4 * nk && rk.Length1 == 8 && i < nk && i < 4 * rk.Length0 && r < 4
    requires Expanded(Keys(rk), key, nk, i, r)
    modifies rk
    ensures Expanded(Keys(rk), key, nk, i, r + 1)
  {
    hide KeyLane, OctetOf, KeyWord, Expanded;
    ghost var keys := Keys(rk);
    KeysAre(rk);
    ByteIs(keys, key, nk, i, r, i, r);
    LoadKeyByte(rk, i / 4, key[4 * i + r], r, i % 4);
    KeysAre(rk);
    BytePut(keys, Keys(rk), i / 4, 4 * r + i % 4, OctetOf(key[4 * i + r]));
    ByteLoaded(keys, key, nk, i, r);
  }

  lemma KeysAre(rk: array2<Slice>)
    requires rk.Length1 == 8
    ensures forall n, k | 0 <= n < rk.Length0 && 0 <= k < 16 :: Keys(rk)[n][k] == KeyLane(rk, n, k)
  {
    hide Bit;
  }

  lemma ByteIs(keys: seq<State>, key: seq<Byte>, nk: nat, i: nat, rows: nat, w: nat, r: nat)
    requires nk > 0 && |key| == 4 * nk && w < 4 * |keys| && r < 4 && Expanded(keys, key, nk, i, rows)
    ensures keys[w / 4][4 * r + w % 4] == if w < i || (w == i && r < rows) then KeyWord(key, nk, w)[r] else ZERO
  {
    hide KeyWord;
    assert WordByte(keys, w, r) == keys[w / 4][4 * r + w % 4];
  }

  lemma BytePut(keys: seq<State>, now: seq<State>, n: nat, k: nat, o: Octet)
    requires |now| == |keys| && n < |keys| && k < 16 && now[n][k] == o
    requires forall l, j | 0 <= l < |keys| && l != n && 0 <= j < 16 :: now[l][j] == keys[l][j]
    requires forall j | 0 <= j < 16 && j != k :: now[n][j] == keys[n][j]
    ensures now == keys[n := keys[n][k := o]]
  {
    assert now[n] == keys[n][k := o];
    forall l | 0 <= l < |keys| && l != n ensures now[l] == keys[l] {}
  }

  lemma ByteLoaded(keys: seq<State>, key: seq<Byte>, nk: nat, i: nat, r: nat)
    requires nk > 0 && |key| == 4 * nk && i < nk && i < 4 * |keys| && r < 4 && Expanded(keys, key, nk, i, r)
    ensures Expanded(keys[i / 4 := keys[i / 4][4 * r + i % 4 := OctetOf(key[4 * i + r])]], key, nk, i, r + 1)
  {
    hide KeyWord, OctetOf;
    KeyItself(key, nk, i, r);
    var now := keys[i / 4 := keys[i / 4][4 * r + i % 4 := OctetOf(key[4 * i + r])]];
    forall w, q | 0 <= w < 4 * |keys| && 0 <= q < 4
      ensures WordByte(now, w, q) == if w < i || (w == i && q < r + 1) then KeyWord(key, nk, w)[q] else ZERO
    {
      assert WordByte(keys, w, q) == if w < i || (w == i && q < r) then KeyWord(key, nk, w)[q] else ZERO;
    }
  }

  lemma KeyItself(key: seq<Byte>, nk: nat, i: nat, r: nat)
    requires i < nk && |key| == 4 * nk && r < 4
    ensures KeyWord(key, nk, i)[r] == OctetOf(key[4 * i + r])
  {
    hide OctetOf;
  }

  lemma RowsDone(keys: seq<State>, key: seq<Byte>, nk: nat, i: nat)
    requires nk > 0 && |key| == 4 * nk
    ensures Expanded(keys, key, nk, i, 4) <==> Expanded(keys, key, nk, i + 1, 0)
  {
    hide WordByte, KeyWord;
  }

  /** rcon holds the q-th power of x, in row 0 of column 0. */
  predicate RconAt(rcon: array<Slice>, q: nat)
    requires rcon.Length == 8
    reads rcon
  {
    forall k | 0 <= k < 16 :: Lane(rcon, k) == if k == 0 then Rcon(q) else ZERO
  }

  /** How many multiples of nk lie between nk and i - 1. */
  function Multiples(nk: nat, i: nat): nat
    requires i >= 1 && nk > 0
  {
    Arith.Quotient(i - 1, nk);
    (i - 1) / nk
  }

  lemma MultiplesStep(nk: nat, i: nat)
    requires i >= nk > 0
    ensures Multiples(nk, i + 1) == if i % nk == 0 then Multiples(nk, i) + 1 else Multiples(nk, i)
    ensures i % nk == 0 ==> Multiples(nk, i) == i / nk - 1
    ensures (i + 1) % nk == if i % nk == nk - 1 then 0 else i % nk + 1
  {
    var q, p := i / nk, i % nk;
    Arith.Euclid(i, nk);
    if p == 0 {
      Arith.Distribute(q, -1, nk);
      Arith.DivModUnique(nk, q - 1, nk - 1);
    } else {
      Arith.DivModUnique(nk, q, p - 1);
    }
    if p == nk - 1 {
      Arith.Distribute(q, 1, nk);
      Arith.DivModUnique(nk, q + 1, 0);
    } else {
      Arith.DivModUnique(nk, q, p + 1);
    }
  }

  /** SubBytes on a column. */
  method SubColumn(s: array<Slice>, ghost w: Column)
    requires s.Length == 8 && InColumn(s, w)
    modifies s
    ensures InColumn(s, SubWord(w))
  {
    hide SBox, Lane;
    SubWordIs(w);
    SubBytes(s, false);
  }

  lemma SubWordIs(w: Column)
    ensures forall r | 0 <= r < 4 :: SubWord(w)[r] == SBox(w[r])
  {
    hide SBox;
  }

  /** KeySetupTransform on a column. */
  method TurnColumn(s: array<Slice>, rcon: array<Slice>, ghost w: Column, ghost q: nat)
    requires s.Length == 8 && rcon.Length == 8 && s != rcon && InColumn(s, w) && RconAt(rcon, q)
    modifies s
    ensures InColumn(s, PlusWord(RotWord(w), RconWord(q)))
  {
    hide Lane, Plus, Rcon, InColumn;
    ghost var c := Rcon(q);
    InColumnIs(s, w);
    assert Lane(rcon, 0) == c && Lane(rcon, 4) == Lane(rcon, 8) == Lane(rcon, 12) == ZERO;
    KeySetupTransform(s, rcon);
    InColumnIs(s, PlusWord(RotWord(w), RconWord(q)));
  }

  /** The transformation of the word in front of a multiple of nk. */
  method TransformFirst(s: array<Slice>, rcon: array<Slice>, ghost w: Column, ghost q: nat)
    requires s.Length == 8 && rcon.Length == 8 && s != rcon && InColumn(s, w) && RconAt(rcon, q)
    modifies s, rcon
    ensures InColumn(s, PlusWord(RotWord(SubWord(w)), RconWord(q))) && RconAt(rcon, q + 1)
  {
    hide Lane, XTimes, PlusWord, RotWord, SubWord, Rcon, RconWord, InColumn;
    NextRcon(q);
    SubColumn(s, w);
    TurnColumn(s, rcon, SubWord(w), q);
    MultX(rcon);
  }

  lemma NextRcon(q: nat)
    ensures Rcon(q + 1) == XTimes(Rcon(q)) && XTimes(ZERO) == ZERO
  {}

  lemma InColumnIs(s: array<Slice>, w: Column)
    requires s.Length == 8
    ensures InColumn(s, w) <==> Lane(s, 0) == w[0] && Lane(s, 4) == w[1] && Lane(s, 8) == w[2] && Lane(s, 12) == w[3]
  {
    hide Lane;
    if Lane(s, 0) == w[0] && Lane(s, 4) == w[1] && Lane(s, 8) == w[2] && Lane(s, 12) == w[3] {
      forall r | 0 <= r < 4 ensures Lane(s, 4 * r) == w[r] {
        assert r == 0 || r == 1 || r == 2 || r == 3;
      }
    }
  }

  /** The transformation of the column in front of word i. */
  method TransformColumn(s: array<Slice>, rcon: array<Slice>, nk: nat, i: nat, pos: nat, ghost w: Column)
    requires i >= nk > 0 && s.Length == 8 && rcon.Length == 8 && s != rcon && pos == i % nk
    requires InColumn(s, w) && RconAt(rcon, Multiples(nk, i))
    modifies s, rcon
    ensures InColumn(s, Transformed(nk, i, w)) && RconAt(rcon, Multiples(nk, i + 1))
  {
    hide Lane, PlusWord, RotWord, SubWord, RconWord, Multiples, RconAt, Rcon, InColumn;
    MultiplesStep(nk, i);
    if pos == 0 {
      TransformFirst(s, rcon, w, Multiples(nk, i));
    } else if nk > 6 && pos == 4 {
      SubColumn(s, w);
    }
  }

  /** A round key with w in column c. */
  function WithColumn(st: State, c: nat, w: Column): State
    requires c < 4
  {
    seq(16, k requires 0 <= k < 16 => if k % 4 == c then w[k / 4] else st[k])
  }

  /** The new word: the transformed column and the word nk before it. */
  method MixNext(s: array<Slice>, rk: array2<Slice>, key: seq<Byte>, nk: nat, i: nat)
    requires s.Length == 8 && rk.Length1 == 8 && 4 <= nk <= i < 4 * rk.Length0 && |key| == 4 * nk
    requires Expanded(Keys(rk), key, nk, i, 0) && InColumn(s, Transformed(nk, i, KeyWord(key, nk, i - 1)))
    modifies s, rk
    ensures Expanded(Keys(rk), key, nk, i + 1, 0) && InColumn(s, KeyWord(key, nk, i))
  {
    hide KeyLane, Lane, KeyWord, Transformed, Plus, PlusWord, Expanded;
    ghost var keys := Keys(rk);
    NewWord(key, nk, i);
    PlusRows(KeyWord(key, nk, i - nk), Transformed(nk, i, KeyWord(key, nk, i - 1)));
    KeysAre(rk);
    forall r | 0 <= r < 4
      ensures KeyLane(rk, i / 4, 4 * r + i % 4) == ZERO
      ensures KeyLane(rk, (i - nk) / 4, 4 * r + (i - nk) % 4) == KeyWord(key, nk, i - nk)[r]
    {
      ByteIs(keys, key, nk, i, 0, i, r);
      ByteIs(keys, key, nk, i, 0, i - nk, r);
    }
    KeySetupColumnMix(s, rk, i / 4, (i - nk) / 4, i % 4, (i - nk) % 4);
    KeysAre(rk);
    ColumnPut(keys, Keys(rk), i / 4, i % 4, KeyWord(key, nk, i));
    WordMixed(keys, key, nk, i);
  }

  lemma ColumnPut(keys: seq<State>, now: seq<State>, n: nat, c: nat, w: Column)
    requires |now| == |keys| && n < |keys| && c < 4
    requires forall l, k | 0 <= l < |keys| && l != n && 0 <= k < 16 :: now[l][k] == keys[l][k]
    requires forall k | 0 <= k < 16 && k % 4 != c :: now[n][k] == keys[n][k]
    requires forall r | 0 <= r < 4 :: now[n][4 * r + c] == w[r]
    ensures now == keys[n := WithColumn(keys[n], c, w)]
  {
    forall k | 0 <= k < 16 ensures now[n][k] == WithColumn(keys[n], c, w)[k] {
      if k % 4 == c { assert k == 4 * (k / 4) + c; }
    }
    assert now[n] == WithColumn(keys[n], c, w);
    forall l | 0 <= l < |keys| && l != n ensures now[l] == keys[l] {}
  }

  lemma WordMixed(keys: seq<State>, key: seq<Byte>, nk: nat, i: nat)
    requires nk > 0 && |key| == 4 * nk && i < 4 * |keys| && Expanded(keys, key, nk, i, 0)
    ensures Expanded(keys[i / 4 := WithColumn(keys[i / 4], i % 4, KeyWord(key, nk, i))], key, nk, i + 1, 0)
  {
    hide KeyWord, WithColumn, WordByte;
    var now := keys[i / 4 := WithColumn(keys[i / 4], i % 4, KeyWord(key, nk, i))];
    forall w, q | 0 <= w < 4 * |keys| && 0 <= q < 4
      ensures WordByte(now, w, q) == if w < i + 1 then KeyWord(key, nk, w)[q] else ZERO
    {
      WordPut(keys, i, KeyWord(key, nk, i), w, q);
    }
  }

  lemma WordPut(keys: seq<State>, i: nat, v: Column, w: nat, q: nat)
    requires i < 4 * |keys| && w < 4 * |keys| && q < 4
    ensures WordByte(keys[i / 4 := WithColumn(keys[i / 4], i % 4, v)], w, q)
            == if w == i then v[q] else WordByte(keys, w, q)
  {
    Arith.Euclid(i, 4);
    Arith.Euclid(w, 4);
    assert (4 * q + w % 4) % 4 == w % 4 && (4 * q + w % 4) / 4 == q;
  }

  lemma NewWord(key: seq<Byte>, nk: nat, i: nat)
    requires i >= nk > 0 && |key| == 4 * nk
    ensures KeyWord(key, nk, i) == PlusWord(KeyWord(key, nk, i - nk), Transformed(nk, i, KeyWord(key, nk, i - 1)))
  {
    hide PlusWord, Transformed;
  }

  lemma PlusRows(v: Column, w: Column)
    ensures forall r | 0 <= r < 4 :: PlusWord(v, w)[r] == Plus(w[r], v[r])
  {
    hide Plus;
    forall r | 0 <= r < 4 ensures PlusWord(v, w)[r] == Plus(w[r], v[r]) { PlusCancel(v[r], w[r]); }
  }

  /** The words that are the key itself. */
  method LoadKey(rk: array2<Slice>, key: seq<Byte>, nk: nat)
    requires rk.Length1 == 8 && 0 < nk <= 4 * rk.Length0 && |key| == 4 * nk
    requires Expanded(Keys(rk), key, nk, 0, 0)
    modifies rk
    ensures Expanded(Keys(rk), key, nk, nk, 0)
  {
    hide Expanded, Keys;
    for i := 0 to nk
      invariant Expanded(Keys(rk), key, nk, i, 0)
    {
      for r := 0 to 4
        invariant Expanded(Keys(rk), key, nk, i, r)
      {
        LoadNext(rk, key, nk, i, r);
      }
      RowsDone(Keys(rk), key, nk, i);
    }
  }

  lemma NothingLoaded(rk: array2<Slice>, key: seq<Byte>, nk: nat)
    requires rk.Length1 == 8 && nk > 0 && |key| == 4 * nk
    requires forall n, b | 0 <= n < rk.Length0 && 0 <= b < 8 :: rk[n, b] == 0
    ensures Expanded(Keys(rk), key, nk, 0, 0)
  {
    hide Bit, KeyWord;
    ZeroBits();
  }

  lemma AllExpanded(keys: seq<State>, key: seq<Byte>, nk: nat, nrounds: nat)
    requires |keys| == nrounds + 1 && nk > 0 && |key| == 4 * nk
    requires Expanded(keys, key, nk, 4 * |keys|, 0)
    ensures keys == KeySchedule(key, nk, nrounds)
  {
    hide KeyWord;
    forall n | 0 <= n <= nrounds ensures keys[n] == KeySchedule(key, nk, nrounds)[n] {
      forall k | 0 <= k < 16 ensures keys[n][k] == KeySchedule(key, nk, nrounds)[n][k] {
        var w, r := 4 * n + k % 4, k / 4;
        assert w / 4 == n && w % 4 == k % 4 && 4 * r + w % 4 == k;
        assert WordByte(keys, w, r) == KeyWord(key, nk, w)[r];
      }
    }
  }

  lemma LastWord(s: array<Slice>, rk: array2<Slice>, key: seq<Byte>, nk: nat)
    requires s.Length == 8 && rk.Length1 == 8 && 0 < nk <= 4 * rk.Length0 && |key| == 4 * nk
    requires Expanded(Keys(rk), key, nk, nk, 0)
    requires forall r | 0 <= r < 4 :: Lane(s, 4 * r) == KeyLane(rk, (nk - 1) / 4, 4 * r + (nk - 1) % 4)
    ensures InColumn(s, KeyWord(key, nk, nk - 1))
  {
    hide KeyWord, KeyLane, Lane, Expanded, Keys;
    KeysAre(rk);
    forall r | 0 <= r < 4 ensures Lane(s, 4 * r) == KeyWord(key, nk, nk - 1)[r] {
      ByteIs(Keys(rk), key, nk, nk, 0, nk - 1, r);
    }
  }

  /** AES_setup. The round keys are taken from words that lie nk words back, which must be
      in earlier round keys; AES has nk = 4, 6 or 8. */
  method AesSetup(rounds: array2<Slice>, key: seq<Byte>, nkeywords: nat, nrounds: nat)
    requires rounds.Length1 == 8 && rounds.Length0 == nrounds + 1
    requires 4 <= nkeywords <= 4 * (nrounds + 1) && |key| == 4 * nkeywords
    modifies rounds
    ensures Keys(rounds) == KeySchedule(key, nkeywords, nrounds)
  {
    hide Keys, KeySchedule, Expanded, InColumn, KeyWord, Transformed, Lane, RconAt, KeyLane, Multiples;
    var rcon := new Slice[8](b => if b == 0 then 1 else 0);
    var column := new Slice[8](_ => 0);
    var pos := 0;
    Clear(rounds);
    NothingLoaded(rounds, key, nkeywords);
    LoadKey(rounds, key, nkeywords);
    GetOneColumn(column, rounds, (nkeywords - 1) / 4, (nkeywords - 1) % 4);
    LastWord(column, rounds, key, nkeywords);
    FirstRcon(rcon, nkeywords);
    for i := nkeywords to 4 * (nrounds + 1)
      invariant pos == i % nkeywords && fresh(column) && fresh(rcon)
      invariant Expanded(Keys(rounds), key, nkeywords, i, 0)
      invariant InColumn(column, KeyWord(key, nkeywords, i - 1))
      invariant RconAt(rcon, Multiples(nkeywords, i))
    {
      MultiplesStep(nkeywords, i);
      TransformColumn(column, rcon, nkeywords, i, pos, KeyWord(key, nkeywords, i - 1));
      pos := pos + 1;
      if pos == nkeywords {
        pos := 0;
      }
      MixNext(column, rounds, key, nkeywords, i);
    }
    AllExpanded(Keys(rounds), key, nkeywords, nrounds);
  }

  method Clear(rounds: array2<Slice>)
    requires rounds.Length1 == 8
    modifies rounds
    ensures forall n, b | 0 <= n < rounds.Length0 && 0 <= b < 8 :: rounds[n, b] == 0
  {
    for i := 0 to rounds.Length0
      invariant forall n, b | 0 <= n < i && 0 <= b < 8 :: rounds[n, b] == 0
    {
      for b := 0 to 8
        invariant forall n, j | 0 <= n < i && 0 <= j < 8 :: rounds[n, j] == 0
        invariant forall j | 0 <= j < b :: rounds[i, j] == 0
      {
        rounds[i, b] := 0;
      }
    }
  }

  lemma FirstRcon(rcon: array<Slice>, nk: nat)
    requires rcon.Length == 8 && nk > 0 && forall b | 0 <= b < 8 :: rcon[b] == if b == 0 then 1 else 0
    ensures RconAt(rcon, Multiples(nk, nk)) && nk % nk == 0
  {
    Arith.DivModUnique(nk, 0, nk - 1);
    Arith.DivModUnique(nk, 1, 0);
    OneOnly();
    ZeroBits();
    hide Bit;
    assert Multiples(nk, nk) == 0;
  }

}
