/** Bytes in and out of the slices of ctaes.c: LoadBytes and SaveBytes. */
module AesBytes {
  import opened Bits
  import opened AesSbox
  import opened AesCipher
  import opened AesSlices
  import opened Bytes

  type Block = b: seq<Byte> | |b| == 16 witness seq(16, _ => 0)

  // ---- A byte and its bits

  function OctetOf(b: nat): Octet {
    Octet(Bit(b, 0), Bit(b, 1), Bit(b, 2), Bit(b, 3), Bit(b, 4), Bit(b, 5), Bit(b, 6), Bit(b, 7))
  }

  function BitAt(o: Octet, i: nat): bool
    requires i < 8
  {
    match i case 0 => o.b0 case 1 => o.b1 case 2 => o.b2 case 3 => o.b3
            case 4 => o.b4 case 5 => o.b5 case 6 => o.b6 case _ => o.b7
  }

  /** The number whose lowest bit is bit i. */
  function FromBit(o: Octet, i: nat): (n: nat)
    requires i <= 8
    ensures n < Pow2(8 - i)
    decreases 8 - i
  {
    if i == 8 then 0 else (if BitAt(o, i) then 1 else 0) + 2 * FromBit(o, i + 1)
  }

  function ByteOf(o: Octet): Byte {
    assert Pow2(8) == 256;
    FromBit(o, 0)
  }

  lemma {:induction false} FromBitBits(o: Octet, i: nat, k: nat)
    requires i <= 8
    ensures Bit(FromBit(o, i), k) == (i + k < 8 && BitAt(o, i + k))
    decreases k
  {
    hide BitAt;
    if i == 8 {
      ZeroBit(k);
    } else {
      Halved(BitAt(o, i), FromBit(o, i + 1));
      if k > 0 { FromBitBits(o, i + 1, k - 1); }
    }
  }

  lemma Halved(on: bool, n: nat)
    ensures var m := (if on then 1 else 0) + 2 * n; m / 2 == n && (m % 2 == 1 <==> on)
  {}

  lemma OctetOfByte(o: Octet)
    ensures OctetOf(ByteOf(o)) == o
  {
    hide Bit, FromBit;
    FromBitBits(o, 0, 0); FromBitBits(o, 0, 1); FromBitBits(o, 0, 2); FromBitBits(o, 0, 3);
    FromBitBits(o, 0, 4); FromBitBits(o, 0, 5); FromBitBits(o, 0, 6); FromBitBits(o, 0, 7);
  }

  /** Bytes with the same bits are the same. */
  lemma SameByte(a: Byte, b: Byte)
    requires OctetOf(a) == OctetOf(b)
    ensures a == b
  {
    assert Pow2(8) == 256;
    hide Bit, Pow2;
    forall k: nat | k < 8 ensures Bit(a, k) == Bit(b, k) {
      OctetBit(a, k);
      OctetBit(b, k);
    }
    SameBits(a, b, 8);
  }

  lemma OctetBit(b: nat, k: nat)
    requires k < 8
    ensures BitAt(OctetOf(b), k) == Bit(b, k)
  {
    hide Bit;
  }

  // ---- Blocks and states: byte 4c + r of a block is in row r and column c

  function Transpose(k: nat): (j: nat)
    requires k < 16
    ensures j < 16
  {
    4 * (k % 4) + k / 4
  }

  lemma Transposed(k: nat)
    requires k < 16
    ensures Transpose(Transpose(k)) == k
  {
    var j := Transpose(k);
    assert j % 4 == k / 4 && j / 4 == k % 4;
  }

  function StateOf(d: Block): State { seq(16, k requires 0 <= k < 16 => OctetOf(d[Transpose(k)])) }

  function BlockOf(s: State): Block { seq(16, j requires 0 <= j < 16 => ByteOf(s[Transpose(j)])) }

  lemma StateOfBlock(s: State)
    ensures StateOf(BlockOf(s)) == s
  {
    hide OctetOf, ByteOf, Transpose;
    forall k | 0 <= k < 16 ensures StateOf(BlockOf(s))[k] == s[k] {
      Transposed(k);
      OctetOfByte(s[k]);
    }
  }

  lemma BlockOfState(d: Block)
    ensures BlockOf(StateOf(d)) == d
  {
    hide OctetOf, ByteOf, Transpose;
    forall j | 0 <= j < 16 ensures BlockOf(StateOf(d))[j] == d[j] {
      Transposed(j);
      OctetOfByte(OctetOf(d[j]));
      SameByte(ByteOf(OctetOf(d[j])), d[j]);
    }
  }

  /** Sixteen bytes under the round keys, and back. */
  function EncryptBlock(keys: seq<State>, d: Block): Block
    requires |keys| >= 2
  {
    BlockOf(Cipher(keys, StateOf(d)))
  }

  function DecryptBlock(keys: seq<State>, d: Block): Block
    requires |keys| >= 2
  {
    BlockOf(Decipher(keys, StateOf(d)))
  }

  /** Decryption undoes encryption, for every block, number of rounds and round keys. */
  lemma DecryptUndoes(keys: seq<State>, d: Block)
    requires |keys| >= 2
    ensures DecryptBlock(keys, EncryptBlock(keys, d)) == d
  {
    hide BlockOf, StateOf, Cipher, Decipher;
    StateOfBlock(Cipher(keys, StateOf(d)));
    DecipherUndoes(keys, StateOf(d));
    BlockOfState(d);
  }

  // ---- The loops

  /** The state in the slices. */
  function SlicesState(s: array<Slice>): State
    requires s.Length == 8
    reads s
  {
    seq(16, k requires 0 <= k < 16 && s.Length == 8 reads s => Lane(s, k))
  }

  /** LoadByte: the bits of a byte are or-ed into one lane. */
  method LoadByte(s: array<Slice>, byte: Byte, r: nat, c: nat)
    requires s.Length == 8 && r < 4 && c < 4
    modifies s
    ensures forall i, k | 0 <= i < 8 && 0 <= k < 16 ::
              Bit(s[i], k) == (old(Bit(s[i], k)) || (k == r * 4 + c && Bit(byte, i)))
  {
    hide Bit, OrS, ShlS;
    var b: nat := byte;
    for i := 0 to 8
      invariant forall j | 0 <= j :: Bit(b, j) == Bit(byte, i + j)
      invariant forall j, k | 0 <= j < i && 0 <= k < 16 ::
                  Bit(s[j], k) == (old(Bit(s[j], k)) || (k == r * 4 + c && Bit(byte, j)))
      invariant forall j | i <= j < 8 :: s[j] == old(s[j])
    {
      OneBit(b);
      assert Bit(b, 0) == Bit(byte, i + 0);
      s[i] := OrS(s[i], ShlS(b % 2, r * 4 + c));
      b := b / 2;
    }
  }

  /** The two lowest levels of Bit. */
  lemma OneBit(b: nat)
    ensures Bit(b % 2, 0) == Bit(b, 0)
    ensures forall j | j > 0 :: !Bit(b % 2, j)
    ensures forall j | 0 <= j :: Bit(b / 2, j) == Bit(b, j + 1)
  {
    forall j: nat | j > 0 ensures !Bit(b % 2, j) { ZeroBit(j - 1); }
  }

  lemma TransposeAt(r: nat, c: nat)
    requires r < 4 && c < 4
    ensures Transpose(r * 4 + c) == 4 * c + r
    ensures forall k | 0 <= k < 16 :: Transpose(k) == 4 * c + r ==> k == r * 4 + c
  {
    assert (r * 4 + c) / 4 == r && (r * 4 + c) % 4 == c;
    forall k | 0 <= k < 16 ensures Transpose(k) == 4 * c + r ==> k == r * 4 + c {
      if Transpose(k) == 4 * c + r {
        Transposed(k);
        Transposed(r * 4 + c);
      }
    }
  }

  /** The first n bytes of the block are in their lanes, and nothing else. */
  predicate Loaded(s: array<Slice>, data: Block, n: nat)
    requires s.Length == 8
    reads s
  {
    forall i, k | 0 <= i < 8 && 0 <= k < 16 :: Bit(s[i], k) == (Transpose(k) < n && Bit(data[Transpose(k)], i))
  }

  /** LoadBytes into slices that are zero. */
  method LoadBytes(s: array<Slice>, data: Block)
    requires s.Length == 8 && forall i | 0 <= i < 8 :: s[i] == 0
    modifies s
    ensures SlicesState(s) == StateOf(data)
  {
    hide Bit, Transpose;
    ZeroBits();
    for c := 0 to 4
      invariant Loaded(s, data, 4 * c)
    {
      for r := 0 to 4
        invariant Loaded(s, data, 4 * c + r)
      {
        TransposeAt(r, c);
        LoadByte(s, data[4 * c + r], r, c);
      }
    }
    assert forall k | 0 <= k < 16 :: Lane(s, k) == OctetOf(data[Transpose(k)]);
  }

  lemma ZeroBits()
    ensures forall k: nat :: !Bit(0, k)
  {
    forall k: nat ensures !Bit(0, k) { ZeroBit(k); }
  }

  lemma OneOnly()
    ensures forall k: nat :: Bit(1, k) == (k == 0)
  {
    forall k: nat ensures Bit(1, k) == (k == 0) {
      if k > 0 { ZeroBit(k - 1); }
    }
  }

  lemma SmallSlice(v: Slice)
    requires forall k :: 8 <= k < 16 ==> !Bit(v, k)
    ensures v < 256
  {
    assert Pow2(8) == 256;
    hide Bit, Pow2;
    forall k | 0 <= k < 16 ensures Bit(v, k) == Bit(v % 256, k) {
      if k < 8 { LowBitKept(v, 8, k); } else { HighBitsClear(v % 256, 8, k); }
    }
    SameSlice(v, v % 256);
  }

  /** The inner loop of SaveBytes: the byte of lane k. */
  method GatherByte(s: array<Slice>, k: nat) returns (byte: Byte)
    requires s.Length == 8 && k < 16
    ensures OctetOf(byte) == Lane(s, k)
  {
    hide Bit, OrS, AndS, ShlS, ShrS;
    ZeroBits();
    OneOnly();
    var v: Slice := 0;
    for b := 0 to 8
      invariant forall j :: 0 <= j < 16 ==> Bit(v, j) == (j < b && Bit(s[j], k))
    {
      v := OrS(v, ShlS(AndS(ShrS(s[b], k), 1), b));
    }
    SmallSlice(v);
    byte := v;
  }

  /** SaveBytes. */
  method SaveBytes(s: array<Slice>) returns (data16: array<Byte>)
    requires s.Length == 8
    ensures fresh(data16) && data16.Length == 16 && data16[..] == BlockOf(SlicesState(s))
  {
    hide Bit, Transpose, OctetOf, ByteOf, Lane;
    data16 := new Byte[16](_ => 0);
    for c := 0 to 4
      invariant forall j | 0 <= j < 4 * c :: OctetOf(data16[j]) == Lane(s, Transpose(j))
    {
      for r := 0 to 4
        invariant forall j | 0 <= j < 4 * c + r :: OctetOf(data16[j]) == Lane(s, Transpose(j))
      {
        TransposeAt(r, c);
        Transposed(r * 4 + c);
        data16[4 * c + r] := GatherByte(s, r * 4 + c);
      }
    }
    forall j | 0 <= j < 16 ensures data16[j] == BlockOf(SlicesState(s))[j] {
      OctetOfByte(Lane(s, Transpose(j)));
      SameByte(data16[j], ByteOf(Lane(s, Transpose(j))));
    }
  }

}
