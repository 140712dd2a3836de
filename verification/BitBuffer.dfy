/** The bit buffer of the QR encoder (appendBitsToBuffer in qr.c). */
module BitBuffer {
  import opened Bits
  import opened BitStrings
  import opened Bytes

  function ZeroBits(n: nat): (bits: seq<bool>)
    ensures |bits| == n
  {
    seq(n, _ => false)
  }

  /** The buffer begins with these bits, and is all zeros after them. */
  ghost predicate Holds(buffer: seq<Byte>, bits: seq<bool>) {
    |bits| <= 8 * |buffer| &&
    forall i :: 0 <= i < 8 * |buffer| ==> DataBit(buffer, i) == (i < |bits| && bits[i])
  }

  /** appendBitsToBuffer, with the source's own precondition on numBits and val. Only the
      first lim bytes of the buffer are in use. */
  method AppendBits(val: nat, numBits: int, buffer: array<Byte>, bitLen0: int, ghost lim: nat, ghost bits: seq<bool>)
    returns (bitLen: int)
    requires 0 <= numBits <= 16 && val < Pow2(numBits)
    requires lim <= buffer.Length && bitLen0 == |bits| && Holds(buffer[..lim], bits)
    requires bitLen0 + numBits <= 8 * lim
    modifies buffer
    ensures bitLen == bitLen0 + numBits
    ensures Holds(buffer[..lim], bits + BigEndian(val, numBits))
    ensures buffer[lim..] == old(buffer[lim..])
  {
    hide Bit, Or, Pow2, Holds;
    bitLen := bitLen0;
    var i := numBits - 1;
    assert bits + BigEndian(val, numBits)[..0] == bits;
    while i >= 0
      invariant -1 <= i <= numBits - 1
      invariant bitLen == bitLen0 + numBits - 1 - i
      invariant Holds(buffer[..lim], bits + BigEndian(val, numBits)[..numBits - 1 - i])
      invariant buffer[lim..] == old(buffer[lim..])
    {
      ghost var had := bits + BigEndian(val, numBits)[..numBits - 1 - i];
      ghost var was := buffer[..lim];
      var k := bitLen / 8;
      SetOne(was, had, Bit(val, i));
      OrOneBound(buffer[k], 7 - bitLen % 8, Bit(val, i));
      buffer[k] := Or(buffer[k], if Bit(val, i) then Pow2(7 - bitLen % 8) else 0);
      assert buffer[..lim] == WithOne(was, bitLen, Bit(val, i));
      assert had + [Bit(val, i)] == bits + BigEndian(val, numBits)[..numBits - i];
      bitLen := bitLen + 1;
      i := i - 1;
    }
    assert BigEndian(val, numBits)[..numBits] == BigEndian(val, numBits);
  }

  /** The buffer with a one or-ed in at place n, if on. */
  function WithOne(buffer: seq<Byte>, n: nat, on: bool): (r: seq<Byte>)
    requires n < 8 * |buffer|
    ensures |r| == |buffer|
  {
    OrOneBound(buffer[n / 8], 7 - n % 8, on);
    buffer[n / 8 := Or(buffer[n / 8], if on then Pow2(7 - n % 8) else 0)]
  }

  /** Only the bit at that place changes. */
  lemma WithOneBit(buffer: seq<Byte>, n: nat, on: bool, i: nat)
    requires n < 8 * |buffer| && i < 8 * |buffer|
    ensures DataBit(WithOne(buffer, n, on), i) == (DataBit(buffer, i) || (i == n && on))
  {
    hide Bit, Or, Pow2;
    if i / 8 == n / 8 {
      assert i == n <==> i % 8 == n % 8;
      OrOneBit(buffer[n / 8], 7 - n % 8, on, 7 - i % 8);
    }
  }

  /** One more bit behind those that the buffer holds. */
  lemma SetOne(buffer: seq<Byte>, bits: seq<bool>, on: bool)
    requires Holds(buffer, bits) && |bits| < 8 * |buffer|
    ensures Holds(WithOne(buffer, |bits|, on), bits + [on])
  {
    hide DataBit, WithOne;
    forall i | 0 <= i < 8 * |buffer|
      ensures DataBit(WithOne(buffer, |bits|, on), i) == (i < |bits| + 1 && (bits + [on])[i])
    {
      WithOneBit(buffer, |bits|, on, i);
    }
  }

  lemma OrOneBound(b: Byte, j: nat, on: bool)
    requires j < 8
    ensures Or(b, if on then Pow2(j) else 0) < 256
  {
    hide Bit, Or, Pow2;
    Pow2Small(j);
    Pow2Eight();
    OrBound(b, if on then Pow2(j) else 0, 8);
  }

  lemma OrOneBit(b: Byte, j: nat, on: bool, k: nat)
    ensures Bit(Or(b, if on then Pow2(j) else 0), k) == (Bit(b, k) || (on && k == j))
  {
    hide Bit, Or, Pow2;
    OrBit(b, if on then Pow2(j) else 0, k);
    Pow2Bit(j, k);
    ZeroBit(k);
  }

  lemma Pow2Eight()
    ensures Pow2(8) == 256
  {}

  /** The bytes filled so far, as bits. */
  lemma HeldBytes(buffer: seq<Byte>, bits: seq<bool>, n: nat)
    requires Holds(buffer, bits) && |bits| == 8 * n && n <= |buffer|
    ensures BitsOf(buffer[..n]) == bits
  {
    hide Bit;
    forall i | 0 <= i < 8 * n
      ensures BitsOf(buffer[..n])[i] == bits[i]
    {
      assert DataBit(buffer, i) == bits[i];
    }
  }

}
