/** The round steps of ctaes.c on the slices, and AES_encrypt and AES_decrypt. */
module AesRounds {
  import opened Bytes
  import opened Bits
  import opened AesSbox
  import opened AesCipher
  import opened AesSlices
  import opened AesSubBytes
  import opened AesBytes

  // ---- ShiftRows

  function Masked(v: Slice, from: nat, to: nat): Slice
    requires from <= to <= 16
  {
    AndS(v, BitRange(from, to))
  }

  /** Bits from..mid moved up by l, bits mid..to moved down by r: one row. */
  function Row(v: Slice, from: nat, mid: nat, to: nat, l: nat, r: nat): Slice
    requires from <= mid <= to <= 16
  {
    OrS(ShlS(Masked(v, from, mid), l), ShrS(Masked(v, mid, to), r))
  }

  lemma RowBit(v: Slice, from: nat, mid: nat, to: nat, l: nat, r: nat, k: nat)
    requires from <= mid <= to <= 16 && k < 16
    ensures Bit(Row(v, from, mid, to, l, r), k)
        == ((from + l <= k < mid + l && Bit(v, k - l)) || (mid <= k + r < to && Bit(v, k + r)))
  {
    hide Bit, OrS, AndS, ShlS, ShrS, BitRange;
  }

  /** The right hand side in ShiftRows. */
  function ShiftedSlice(v: Slice): Slice {
    OrS(OrS(Masked(v, 0, 4), Row(v, 4, 5, 8, 3, 1)), OrS(Row(v, 8, 10, 12, 2, 2), Row(v, 12, 15, 16, 1, 3)))
  }

  /** The right hand side in InvShiftRows. */
  function UnshiftedSlice(v: Slice): Slice {
    OrS(OrS(Masked(v, 0, 4), Row(v, 4, 7, 8, 1, 3)), OrS(Row(v, 8, 10, 12, 2, 2), Row(v, 12, 13, 16, 3, 1)))
  }

  function MovedFrom(k: nat): nat {
    if k < 4 then k else if k < 7 then k + 1 else if k < 8 then k - 3
    else if k < 10 then k + 2 else if k < 12 then k - 2 else if k < 13 then k + 3 else k - 1
  }

  function MovedBackFrom(k: nat): nat {
    if k < 4 then k else if k < 5 then k + 3 else if k < 8 then k - 1
    else if k < 10 then k + 2 else if k < 12 then k - 2 else if k < 15 then k + 1 else k - 3
  }

  lemma Moves(k: nat)
    requires k < 16
    ensures MovedFrom(k) == ShiftFrom(k)
    ensures MovedBackFrom(k) == ShiftTo(k)
  {
    hide ShiftFrom, ShiftTo;
    var r := k / 4;
    RowMoves(r, k - 4 * r);
  }

  lemma RowMoves(r: nat, c: nat)
    requires r < 4 && c < 4
    ensures ShiftFrom(4 * r + c) == 4 * r + if c + r < 4 then c + r else c + r - 4
    ensures ShiftTo(4 * r + c) == 4 * r + if c >= r then c - r else c + 4 - r
  {
    assert (4 * r + c) / 4 == r && (4 * r + c) % 4 == c;
  }

  lemma ShiftedSliceBit(v: Slice, k: nat)
    requires k < 16
    ensures Bit(ShiftedSlice(v), k) == Bit(v, ShiftFrom(k))
  {
    hide Bit, OrS, AndS, BitRange, Row, ShiftFrom, ShiftTo;
    RowBit(v, 4, 5, 8, 3, 1, k);
    RowBit(v, 8, 10, 12, 2, 2, k);
    RowBit(v, 12, 15, 16, 1, 3, k);
    Moves(k);
    assert Bit(ShiftedSlice(v), k) == Bit(v, MovedFrom(k));
  }

  lemma UnshiftedSliceBit(v: Slice, k: nat)
    requires k < 16
    ensures Bit(UnshiftedSlice(v), k) == Bit(v, ShiftTo(k))
  {
    hide Bit, OrS, AndS, BitRange, Row, ShiftFrom, ShiftTo;
    RowBit(v, 4, 7, 8, 1, 3, k);
    RowBit(v, 8, 10, 12, 2, 2, k);
    RowBit(v, 12, 13, 16, 3, 1, k);
    Moves(k);
    assert Bit(UnshiftedSlice(v), k) == Bit(v, MovedBackFrom(k));
  }

  /** ShiftRows: each row, four bits of every slice, is turned. */
  method ShiftRows(s: array<Slice>)
    requires s.Length == 8
    modifies s
    ensures SlicesState(s) == Shift(old(SlicesState(s)))
  {
    hide Bit, ShiftedSlice, ShiftFrom;
    for i := 0 to 8
      invariant forall j | 0 <= j < i :: s[j] == ShiftedSlice(old(s[j]))
      invariant forall j | i <= j < 8 :: s[j] == old(s[j])
    {
      var v := s[i];
      s[i] := ShiftedSlice(v);
    }
    forall k | 0 <= k < 16 ensures SlicesState(s)[k] == Shift(old(SlicesState(s)))[k] {
      forall i | 0 <= i < 8 ensures Bit(s[i], k) == Bit(old(s[i]), ShiftFrom(k)) {
        ShiftedSliceBit(old(s[i]), k);
      }
    }
  }

  /** InvShiftRows. */
  method InvShiftRows(s: array<Slice>)
    requires s.Length == 8
    modifies s
    ensures SlicesState(s) == InverseShift(old(SlicesState(s)))
  {
    hide Bit, UnshiftedSlice, ShiftTo;
    for i := 0 to 8
      invariant forall j | 0 <= j < i :: s[j] == UnshiftedSlice(old(s[j]))
      invariant forall j | i <= j < 8 :: s[j] == old(s[j])
    {
      var v := s[i];
      s[i] := UnshiftedSlice(v);
    }
    forall k | 0 <= k < 16 ensures SlicesState(s)[k] == InverseShift(old(SlicesState(s)))[k] {
      forall i | 0 <= i < 8 ensures Bit(s[i], k) == Bit(old(s[i]), ShiftTo(k)) {
        UnshiftedSliceBit(old(s[i]), k);
      }
    }
  }

  // ---- AddRoundKey

  /** Byte k of round key n. */
  function KeyLane(rk: array2<Slice>, n: nat, k: nat): Octet
    requires n < rk.Length0 && rk.Length1 == 8
    reads rk
  {
    Octet(Bit(rk[n, 0], k), Bit(rk[n, 1], k), Bit(rk[n, 2], k), Bit(rk[n, 3], k),
          Bit(rk[n, 4], k), Bit(rk[n, 5], k), Bit(rk[n, 6], k), Bit(rk[n, 7], k))
  }

  /** Round key n. */
  function KeyState(rk: array2<Slice>, n: nat): State
    requires n < rk.Length0 && rk.Length1 == 8
    reads rk
  {
    seq(16, k requires 0 <= k < 16 && n < rk.Length0 && rk.Length1 == 8 reads rk => KeyLane(rk, n, k))
  }

  /** AddRoundKey: the slices of round key n are xor-ed in. */
  method AddRoundKey(s: array<Slice>, rk: array2<Slice>, n: nat)
    requires s.Length == 8 && n < rk.Length0 && rk.Length1 == 8
    modifies s
    ensures SlicesState(s) == Add(old(SlicesState(s)), KeyState(rk, n))
  {
    hide Bit, XorS;
    for b := 0 to 8
      invariant forall j | 0 <= j < b :: s[j] == XorS(old(s[j]), rk[n, j])
      invariant forall j | b <= j < 8 :: s[j] == old(s[j])
    {
      s[b] := XorS(s[b], rk[n, b]);
    }
  }

  // ---- MixColumns

  /** (x^3 + 1) times the columns. */
  function Sum01(x: Slice): (r: Slice)
    ensures forall k :: 0 <= k < 16 ==> Bit(r, k) == (Bit(x, k) != Bit(x, (k + 4) % 16))
  {
    hide Bit, XorS, Rot;
    XorS(x, Rot(x, 1))
  }

  /** (x^3 + x^2 + x) times the columns. */
  function Sum123(x: Slice): (r: Slice)
    ensures forall k :: 0 <= k < 16 ==>
              Bit(r, k) == (Bit(x, (k + 4) % 16) != (Bit(x, (k + 8) % 16) != Bit(x, (k + 12) % 16)))
  {
    Sum123Bits(x);
    XorS(Rot(Sum01(x), 1), Rot(x, 3))
  }

  lemma Sum123Bits(x: Slice)
    ensures forall k :: 0 <= k < 16 ==>
              Bit(XorS(Rot(Sum01(x), 1), Rot(x, 3)), k)
              == (Bit(x, (k + 4) % 16) != (Bit(x, (k + 8) % 16) != Bit(x, (k + 12) % 16)))
  {
    hide Bit, XorS, Rot, Sum01;
    forall k | 0 <= k < 16
      ensures Bit(XorS(Rot(Sum01(x), 1), Rot(x, 3)), k)
           == (Bit(x, (k + 4) % 16) != (Bit(x, (k + 8) % 16) != Bit(x, (k + 12) % 16)))
    {
      Sum123Bit(x, k);
    }
  }

  lemma Sum123Bit(x: Slice, k: nat)
    requires k < 16
    ensures Bit(XorS(Rot(Sum01(x), 1), Rot(x, 3)), k)
         == (Bit(x, (k + 4) % 16) != (Bit(x, (k + 8) % 16) != Bit(x, (k + 12) % 16)))
  {
    hide Bit, XorS, Rot, Sum01;
    var j := (k + 4) % 16;
    assert (j + 4) % 16 == (k + 8) % 16;
    assert Bit(Sum01(x), j) == (Bit(x, j) != Bit(x, (k + 8) % 16));
  }

  /** The sums of the rows of each column that MixColumns needs. */
  method ColumnSums(s: array<Slice>) returns (s01: array<Slice>, s123: array<Slice>)
    requires s.Length == 8
    ensures fresh(s01) && fresh(s123) && s01.Length == 8 && s123.Length == 8
    ensures forall k | 0 <= k < 16 :: Lane(s01, k) == Plus(Lane(s, k), Lane(s, (k + 4) % 16))
    ensures forall k | 0 <= k < 16 ::
              Lane(s123, k) == Plus(Lane(s, (k + 4) % 16), Plus(Lane(s, (k + 8) % 16), Lane(s, (k + 12) % 16)))
  {
    hide Bit, Sum01, Sum123;
    s01 := new Slice[8](i requires 0 <= i < 8 && s.Length == 8 reads s => Sum01(s[i]));
    s123 := new Slice[8](i requires 0 <= i < 8 && s.Length == 8 reads s => Sum123(s[i]));
  }

  /** The mixed columns: s123 + {02} * s01. */
  method Doubled(s: array<Slice>, s01: array<Slice>, s123: array<Slice>)
    requires s.Length == 8 && s01.Length == 8 && s123.Length == 8 && s != s01 && s != s123
    modifies s
    ensures forall k | 0 <= k < 16 :: Lane(s, k) == Plus(XTimes(Lane(s01, k)), Lane(s123, k))
  {
    hide Bit, XorS;
    s[0] := XorS(s01[7], s123[0]);
    s[1] := XorS(XorS(s01[7], s01[0]), s123[1]);
    s[2] := XorS(s01[1], s123[2]);
    s[3] := XorS(XorS(s01[7], s01[2]), s123[3]);
    s[4] := XorS(XorS(s01[7], s01[3]), s123[4]);
    s[5] := XorS(s01[4], s123[5]);
    s[6] := XorS(s01[5], s123[6]);
    s[7] := XorS(s01[6], s123[7]);
  }

  method SumsAcross(s: array<Slice>) returns (t02: array<Slice>)
    requires s.Length == 8
    ensures fresh(t02) && t02.Length == 8
    ensures forall k | 0 <= k < 16 :: Lane(t02, k) == Plus(Lane(s, k), Lane(s, (k + 8) % 16))
  {
    hide Bit, XorS, Rot;
    t02 := new Slice[8](i requires 0 <= i < 8 && s.Length == 8 reads s => XorS(s[i], Rot(s[i], 2)));
  }

  /** The slices of s + {04} * t02, from the lowest up. */
  method PlusFourfold(s: array<Slice>, t02: array<Slice>)
      returns (e0: Slice, e1: Slice, e2: Slice, e3: Slice, e4: Slice, e5: Slice, e6: Slice, e7: Slice)
    requires s.Length == 8 && t02.Length == 8
    ensures forall k | 0 <= k < 16 ::
              Octet(Bit(e0, k), Bit(e1, k), Bit(e2, k), Bit(e3, k), Bit(e4, k), Bit(e5, k), Bit(e6, k), Bit(e7, k))
              == Plus(Lane(s, k), XTimes(XTimes(Lane(t02, k))))
  {
    hide Bit, XorS, Plus, XTimes;
    e0 := XorS(s[0], t02[6]);
    e1 := XorS(s[1], XorS(t02[6], t02[7]));
    e2 := XorS(s[2], XorS(t02[0], t02[7]));
    e3 := XorS(s[3], XorS(t02[1], t02[6]));
    e4 := XorS(s[4], XorS(XorS(t02[2], t02[6]), t02[7]));
    e5 := XorS(s[5], XorS(t02[3], t02[7]));
    e6 := XorS(s[6], t02[4]);
    e7 := XorS(s[7], t02[5]);
    forall k | 0 <= k < 16 { PlusFourTimes(Lane(s, k), Lane(t02, k)); }
  }

  /** s += {04} * t02. */
  method AddFourfold(s: array<Slice>, t02: array<Slice>)
    requires s.Length == 8 && t02.Length == 8 && s != t02
    modifies s
    ensures forall k | 0 <= k < 16 :: Lane(s, k) == Plus(old(Lane(s, k)), XTimes(XTimes(Lane(t02, k))))
  {
    hide Bit, Plus, XTimes;
    s[0], s[1], s[2], s[3], s[4], s[5], s[6], s[7] := PlusFourfold(s, t02);
  }

  lemma PlusFourTimes(a: Octet, x: Octet)
    ensures Plus(a, XTimes(XTimes(x)))
            == Octet(a.b0 != x.b6, a.b1 != (x.b6 != x.b7), a.b2 != (x.b0 != x.b7), a.b3 != (x.b1 != x.b6),
                     a.b4 != ((x.b2 != x.b6) != x.b7), a.b5 != (x.b3 != x.b7), a.b6 != x.b4, a.b7 != x.b5)
  {}

  /** MixColumns, and for deciphering the forward matrix followed by its square. */
  method MixColumns(s: array<Slice>, inv: bool)
    requires s.Length == 8
    modifies s
    ensures SlicesState(s) == if inv then InverseMix(old(SlicesState(s))) else Mix(old(SlicesState(s)))
  {
    hide Lane, Plus, XTimes;
    ghost var was := SlicesState(s);
    ghost var lanes := was;
    var s01, s123 := ColumnSums(s);
    forall k | 0 <= k < 16
      ensures Lane(s01, k) == Plus(Around(was, k), Around(was, k + 4))
      ensures Lane(s123, k) == Plus(Around(was, k + 4), Plus(Around(was, k + 8), Around(was, k + 12)))
    {
      assert k % 16 == k;
    }
    Doubled(s, s01, s123);
    assert SlicesState(s) == Mix(was);
    if inv {
      ghost var mixed := SlicesState(s);
      var t02 := SumsAcross(s);
      forall k | 0 <= k < 16 ensures Lane(t02, k) == Plus(mixed[k], Around(mixed, k + 8)) {}
      AddFourfold(s, t02);
      assert SlicesState(s) == Square(mixed);
    }
  }

  // ---- The cipher

  function Keys(rk: array2<Slice>): (keys: seq<State>)
    requires rk.Length1 == 8
    reads rk
    ensures |keys| == rk.Length0
  {
    seq(rk.Length0, n requires 0 <= n < rk.Length0 && rk.Length1 == 8 reads rk => KeyState(rk, n))
  }

  method SubState(s: array<Slice>, inv: bool)
    requires s.Length == 8
    modifies s
    ensures SlicesState(s) == if inv then InverseSub(old(SlicesState(s))) else AesCipher.Sub(old(SlicesState(s)))
  {
    hide Lane, SBox, InverseSBox;
    SubBytes(s, inv);
  }

  /** AES_encrypt. */
  method AesEncrypt(rk: array2<Slice>, nrounds: nat, plain16: Block) returns (cipher16: array<Byte>)
    requires nrounds >= 1 && rk.Length0 == nrounds + 1 && rk.Length1 == 8
    ensures fresh(cipher16) && cipher16[..] == EncryptBlock(Keys(rk), plain16)
  {
    hide SlicesState, KeyState, Add, Mix, Shift, AesCipher.Sub, StateOf, BlockOf;
    var s := new Slice[8](_ => 0);
    ghost var keys := Keys(rk);
    ghost var p := StateOf(plain16);
    LoadBytes(s, plain16);
    AddRoundKey(s, rk, 0);
    for round := 1 to nrounds
      invariant Keys(rk) == keys && SlicesState(s) == Rounds(keys, p, round - 1)
    {
      SubState(s, false);
      ShiftRows(s);
      MixColumns(s, false);
      AddRoundKey(s, rk, round);
    }
    SubState(s, false);
    ShiftRows(s);
    AddRoundKey(s, rk, nrounds);
    cipher16 := SaveBytes(s);
  }

  /** AES_decrypt. */
  method AesDecrypt(rk: array2<Slice>, nrounds: nat, cipher16: Block) returns (plain16: array<Byte>)
    requires nrounds >= 1 && rk.Length0 == nrounds + 1 && rk.Length1 == 8
    ensures fresh(plain16) && plain16[..] == DecryptBlock(Keys(rk), cipher16)
  {
    hide SlicesState, KeyState, Add, InverseMix, InverseShift, InverseSub, StateOf, BlockOf;
    var s := new Slice[8](_ => 0);
    ghost var keys := Keys(rk);
    ghost var c := StateOf(cipher16);
    LoadBytes(s, cipher16);
    AddRoundKey(s, rk, nrounds);
    for round := 1 to nrounds
      invariant Keys(rk) == keys && SlicesState(s) == Descending(keys, c, nrounds - round)
    {
      InvShiftRows(s);
      SubState(s, true);
      AddRoundKey(s, rk, nrounds - round);
      MixColumns(s, true);
    }
    InvShiftRows(s);
    SubState(s, true);
    AddRoundKey(s, rk, 0);
    plain16 := SaveBytes(s);
  }

}
