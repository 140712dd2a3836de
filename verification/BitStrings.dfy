/** Strings of bits: those of bytes and of numbers, the highest bit first. */
module BitStrings {
  import opened Arith
  import opened Bits
  import opened Bytes

  /** Bit i of a byte sequence, the high bits of each byte first. */
  predicate DataBit(data: seq<Byte>, i: int)
    requires 0 <= i < 8 * |data|
  {
    Bit(data[i / 8], 7 - i % 8)
  }

  function BitsOf(data: seq<Byte>): (bits: seq<bool>)
    ensures |bits| == 8 * |data|
  {
    seq(8 * |data|, i requires 0 <= i < 8 * |data| => DataBit(data, i))
  }

  /** The n lowest bits of val, the highest of them first. */
  function BigEndian(val: nat, n: nat): (bits: seq<bool>)
    ensures |bits| == n
  {
    seq(n, j requires 0 <= j < n => Bit(val, n - 1 - j))
  }

  /** The number written in these bits, the highest first. */
  function Number(bits: seq<bool>): nat {
    if bits == [] then 0 else 2 * Number(bits[..|bits| - 1]) + if bits[|bits| - 1] then 1 else 0
  }

  lemma {:induction false} NumberOfBigEndian(val: nat, n: nat)
    requires val < Pow2(n)
    ensures Number(BigEndian(val, n)) == val
  {
    if n > 0 {
      NumberOfBigEndian(val / 2, n - 1);
      var b := BigEndian(val, n);
      forall j | 0 <= j < n - 1
        ensures b[j] == BigEndian(val / 2, n - 1)[j]
      {
        assert Bit(val, n - 1 - j) == Bit(val / 2, n - 2 - j);
      }
      assert b[..n - 1] == BigEndian(val / 2, n - 1);
      assert b[n - 1] == Bit(val, 0) == (val % 2 == 1);
    }
  }

  /** The bits of a number are those of its high part and those of its low part. */
  lemma BigEndianSplit(val: nat, n: nat, m: nat)
    ensures 0 <= val / Pow2(m) && 0 <= val % Pow2(m)
    ensures BigEndian(val, n + m) == BigEndian(val / Pow2(m), n) + BigEndian(val % Pow2(m), m)
  {
    hide Bit, Pow2;
    HighBitKept(val, m, 0);
    forall j | 0 <= j < n + m
      ensures BigEndian(val, n + m)[j] == (BigEndian(val / Pow2(m), n) + BigEndian(val % Pow2(m), m))[j]
    {
      if j < n {
        HighBitKept(val, m, n - 1 - j);
      } else {
        LowBitKept(val, m, n + m - 1 - j);
      }
    }
  }

  /** Only the low bits of a number count. */
  lemma BigEndianLow(val: nat, n: nat)
    ensures 0 <= val % Pow2(n) && BigEndian(val, n) == BigEndian(val % Pow2(n), n)
  {
    hide Bit, Pow2;
    forall j | 0 <= j < n
      ensures BigEndian(val, n)[j] == BigEndian(val % Pow2(n), n)[j]
    {
      LowBitKept(val, n, n - 1 - j);
    }
  }

  /** The number of some bits has these bits. */
  lemma {:induction false} BitsOfNumber(bits: seq<bool>)
    ensures Number(bits) < Pow2(|bits|) && BigEndian(Number(bits), |bits|) == bits
  {
    if bits != [] {
      var n := |bits| - 1;
      BitsOfNumber(bits[..n]);
      var v, h := Number(bits), Number(bits[..n]);
      assert v / 2 == h;
      forall j | 0 <= j <= n ensures BigEndian(v, n + 1)[j] == bits[j] {
        BitStep(v, n - j);
        if j < n { assert BigEndian(h, n)[j] == Bit(h, n - 1 - j); }
      }
    }
  }

  lemma {:induction false} BitsOfAppend(a: seq<Byte>, b: seq<Byte>)
    ensures BitsOf(a + b) == BitsOf(a) + BitsOf(b)
  {
    hide Bit;
  }

  /** One byte. */
  lemma BitsOfByte(b: Byte)
    ensures BitsOf([b]) == BigEndian(b, 8)
  {
    hide Bit;
  }

  /** The first bit of a byte is worth 128, the last one 1. */
  lemma FirstAndLast(b: Byte)
    ensures BitsOf([b])[0] == (b >= 128) && BitsOf([b])[7] == (b % 2 == 1) && Number(BitsOf([b])) == b
  {
    BitsOfByte(b);
    assert Pow2(8) == 256 && Pow2(7) == 128;
    NumberOfBigEndian(b, 8);
    HighestBit(b);
    hide Number;
  }

  lemma HighestBit(b: Byte)
    ensures Bit(b, 7) == (b / 2 / 2 / 2 / 2 / 2 / 2 / 2 % 2 == 1)
    ensures Bit(b, 7) == (b >= 128)
  {
    assert Bit(b, 7) == Bit(b / 2 / 2, 5) == Bit(b / 2 / 2 / 2 / 2, 3) == Bit(b / 2 / 2 / 2 / 2 / 2 / 2, 1);
  }

}
