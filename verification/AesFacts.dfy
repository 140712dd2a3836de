/** What the cipher of ctaes.c does to single bytes (FIPS 197, sections 4.2 and 5.1): byte r
    of column c of a block is its byte 4c + r, and byte 4r + c of a state. */
module AesFacts {
  import opened Bits
  import opened Bytes
  import opened AesSbox
  import opened AesCipher
  import opened AesBytes

  // ---- Bytes and their bits

  function Worth(o: Octet): nat {
    BitWorth(o.b0, 1) + BitWorth(o.b1, 2) + BitWorth(o.b2, 4) + BitWorth(o.b3, 8)
    + BitWorth(o.b4, 16) + BitWorth(o.b5, 32) + BitWorth(o.b6, 64) + BitWorth(o.b7, 128)
  }

  /** The octet of a byte holds its binary digits. */
  lemma OctetWorth(b: Byte)
    ensures Worth(OctetOf(b)) == b
  {
    hide Bit, BitWorth;
    ByteWorth(b);
  }

  /** Doubling in the field: one bit up, and the polynomial 0x11B taken away from what is
      too large. Three times is twice and once. */
  lemma Doubled(b: Byte)
    ensures Times(OctetOf(b), OctetOf(2))
         == if b < 128 then OctetOf(2 * b) else Plus(OctetOf(2 * b - 256), OctetOf(0x1B))
    ensures Times(OctetOf(b), OctetOf(3)) == Plus(Times(OctetOf(b), OctetOf(2)), OctetOf(b))
  {
    hide Times, Bit, BitWorth;
    TimesForward(OctetOf(b));
    TwoAndThree();
    OctetWorth(b);
    var low := b % 128;
    UpByOne(low);
    SevenBits(b);
  }

  lemma TwoAndThree()
    ensures OctetOf(2) == X02 && OctetOf(3) == X03
    ensures OctetOf(0x1B) == Octet(true, true, false, true, true, false, false, false)
  {}

  lemma UpByOne(b: nat)
    ensures var o := OctetOf(b);
      OctetOf(2 * b) == Octet(false, o.b0, o.b1, o.b2, o.b3, o.b4, o.b5, o.b6)
  {
    Twice(b, 0);
    Twice(b, 1);
    Twice(b, 2);
    Twice(b, 3);
    Twice(b, 4);
    Twice(b, 5);
    Twice(b, 6);
    hide Bit;
  }

  lemma Twice(b: nat, k: nat)
    ensures !Bit(2 * b, 0) && Bit(2 * b, k + 1) == Bit(b, k)
  {}

  lemma LowerSeven(b: Byte, k: nat)
    requires k < 7
    ensures Bit(b % 128, k) == Bit(b, k)
  {
    assert Pow2(7) == 128;
    LowBitKept(b, 7, k);
  }

  /** The seven lower bits of a byte, and the highest. */
  lemma SevenBits(b: Byte)
    ensures var o, l := OctetOf(b), OctetOf(b % 128);
      o.(b7 := false) == l && (o.b7 <==> b >= 128)
  {
    hide Bit;
    OctetWorth(b);
    OctetWorth(b % 128);
    LowerSeven(b, 0);
    LowerSeven(b, 1);
    LowerSeven(b, 2);
    LowerSeven(b, 3);
    LowerSeven(b, 4);
    LowerSeven(b, 5);
    LowerSeven(b, 6);
  }

  lemma Values()
    ensures SBox(OctetOf(0)) == OctetOf(0x63) && SBox(OctetOf(1)) == OctetOf(0x7C)
    ensures SBox(OctetOf(0x53)) == OctetOf(0xED)
  {
  }

  // ---- The rounds

  /** The first step adds the first round key to the bytes of the block. */
  lemma FirstBytes(keys: seq<State>, d: Block, r: nat, c: nat)
    requires |keys| >= 2 && r < 4 && c < 4
    ensures Rounds(keys, StateOf(d), 0)[4 * r + c] == Plus(OctetOf(d[4 * c + r]), keys[0][4 * r + c])
  {
    hide OctetOf, Plus;
    TransposeAt(r, c);
  }

  /** The byte of a state that ShiftRows brings to row r (going around) of column c, through
      the S-box. */
  function Met(s: State, r: nat, c: nat): Octet {
    SBox(s[4 * (r % 4) + (c + r % 4) % 4])
  }

  lemma MetIs(s: State, r: nat, c: nat)
    requires c < 4
    ensures Around(Shift(Sub(s)), 4 * r + c) == Met(s, r, c)
  {
    hide SBox;
    assert (4 * r + c) % 16 == 4 * (r % 4) + c;
    assert (4 * (r % 4) + c) / 4 == r % 4 && (4 * (r % 4) + c) % 4 == c;
  }

  /** An inner round: byte r of a column becomes the sum of {02} times itself, {03} times the
      byte below, the two others, and the key. */
  lemma InnerBytes(keys: seq<State>, s: State, n: nat, r: nat, c: nat)
    requires 0 < n <= |keys| - 2 && r < 4 && c < 4
    ensures var p := Rounds(keys, s, n - 1);
      Rounds(keys, s, n)[4 * r + c]
      == Plus(Plus(Plus(Times(Met(p, r, c), OctetOf(2)), Times(Met(p, r + 1, c), OctetOf(3))),
                   Plus(Met(p, r + 2, c), Met(p, r + 3, c))),
              keys[n][4 * r + c])
  {
    hide Plus, Times, SBox, Shift, Sub, Around, Met, MixByte;
    var p := Rounds(keys, s, n - 1);
    var t := Shift(Sub(p));
    MetIs(p, r, c);
    MetIs(p, r + 1, c);
    MetIs(p, r + 2, c);
    MetIs(p, r + 3, c);
    MixMeaning(Met(p, r, c), Met(p, r + 1, c), Met(p, r + 2, c), Met(p, r + 3, c));
    assert OctetOf(2) == X02 && OctetOf(3) == X03;
  }

  /** The last round only moves and substitutes before it adds the last key. */
  lemma LastBytes(keys: seq<State>, d: Block, r: nat, c: nat)
    requires |keys| >= 2 && r < 4 && c < 4
    ensures OctetOf(EncryptBlock(keys, d)[4 * c + r])
         == Plus(Met(Rounds(keys, StateOf(d), |keys| - 2), r, c), keys[|keys| - 1][4 * r + c])
  {
    hide OctetOf, Plus, SBox, Rounds, Shift, Sub, ByteOf, StateOf, Around, Met, Transpose;
    var s := StateOf(d);
    var t := Shift(Sub(Rounds(keys, s, |keys| - 2)));
    MetIs(Rounds(keys, s, |keys| - 2), r, c);
    assert Around(t, 4 * r + c) == t[4 * r + c] by { AroundAgain(t, 4 * r + c, 0); }
    TransposeAt(r, c);
    Transposed(4 * r + c);
    OctetOfByte(Cipher(keys, s)[4 * r + c]);
  }

}
