/** The 16-bit slices of ctaes.c, and what the operators do to their bits. */
module AesSlices {
  import opened Bytes
  import Arith
  import opened Bits
  import opened Words
  import opened AesSbox

  /** uint16_t. */
  type Slice = x: int | 0 <= x < 0x1_0000

  lemma SlicePower()
    ensures Pow2(16) == 0x1_0000
  {
    assert Pow2(8) == 0x100;
  }

  function XorS(a: Slice, b: Slice): (r: Slice)
    ensures forall k :: 0 <= k < 16 ==> Bit(r, k) == (Bit(a, k) != Bit(b, k))
  {
    SlicePower();
    XorBound(a, b, 16);
    assert forall k :: 0 <= k < 16 ==> Bit(Xor(a, b), k) == (Bit(a, k) != Bit(b, k)) by {
      forall k | 0 <= k < 16 { XorBit(a, b, k); }
    }
    Xor(a, b)
  }

  function AndS(a: Slice, b: Slice): (r: Slice)
    ensures forall k :: 0 <= k < 16 ==> Bit(r, k) == (Bit(a, k) && Bit(b, k))
  {
    SlicePower();
    AndBound(a, b, 16);
    assert forall k :: 0 <= k < 16 ==> Bit(And(a, b), k) == (Bit(a, k) && Bit(b, k)) by {
      forall k | 0 <= k < 16 { AndBit(a, b, k); }
    }
    And(a, b)
  }

  function OrS(a: Slice, b: Slice): (r: Slice)
    ensures forall k :: 0 <= k < 16 ==> Bit(r, k) == (Bit(a, k) || Bit(b, k))
  {
    SlicePower();
    OrBound(a, b, 16);
    assert forall k :: 0 <= k < 16 ==> Bit(Or(a, b), k) == (Bit(a, k) || Bit(b, k)) by {
      forall k | 0 <= k < 16 { OrBit(a, b, k); }
    }
    Or(a, b)
  }

  /** ~a, truncated to sixteen bits. */
  function NotS(a: Slice): (r: Slice)
    ensures forall k :: 0 <= k < 16 ==> Bit(r, k) == !Bit(a, k)
  {
    SlicePower();
    assert forall k :: 0 <= k < 16 ==> Bit(0xFFFF - a, k) == !Bit(a, k) by {
      forall k | 0 <= k < 16 { ComplementBit(a, 16, k); }
    }
    0xFFFF - a
  }

  lemma {:induction false} ComplementBit(a: nat, n: nat, k: nat)
    requires a < Pow2(n) && k < n
    ensures Bit(Pow2(n) - 1 - a, k) == !Bit(a, k)
  {
    assert (Pow2(n) - 1 - a) / 2 == Pow2(n - 1) - 1 - a / 2;
    if k > 0 { ComplementBit(a / 2, n - 1, k - 1); }
  }

  // ---- Shifts and masks

  lemma {:induction false} ShiftedBit(a: nat, n: nat, k: nat)
    ensures Bit(a * Pow2(n), k) == (k >= n && Bit(a, k - n))
  {
    if n > 0 {
      assert a * Pow2(n) == 2 * (a * Pow2(n - 1));
      if k > 0 { ShiftedBit(a, n - 1, k - 1); }
    }
  }

  /** x << n, truncated to sixteen bits. */
  function ShlS(x: Slice, n: nat): (r: Slice)
    ensures forall k :: 0 <= k < 16 ==> Bit(r, k) == (k >= n && Bit(x, k - n))
  {
    var r: Slice := x * Pow2(n) % 0x1_0000;
    ShlSBits(x, n, r);
    r
  }

  lemma ShlSBits(x: Slice, n: nat, r: nat)
    requires r == x * Pow2(n) % 0x1_0000
    ensures forall k :: 0 <= k < 16 ==> Bit(r, k) == (k >= n && Bit(x, k - n))
  {
    forall k | 0 <= k < 16 ensures Bit(r, k) == (k >= n && Bit(x, k - n)) {
      SlicePower();
      LowBitKept(x * Pow2(n), 16, k);
      ShiftedBit(x, n, k);
    }
  }

  /** x >> n. */
  function ShrS(x: Slice, n: nat): (r: Slice)
    ensures forall k :: 0 <= k < 16 ==> Bit(r, k) == (k + n < 16 && Bit(x, k + n))
  {
    Arith.Quotient(x, Pow2(n));
    var r: Slice := x / Pow2(n);
    ShrSBits(x, n, r);
    r
  }

  lemma ShrSBits(x: Slice, n: nat, r: nat)
    requires r == x / Pow2(n)
    ensures forall k :: 0 <= k < 16 ==> Bit(r, k) == (k + n < 16 && Bit(x, k + n))
  {
    forall k | 0 <= k < 16 ensures Bit(r, k) == (k + n < 16 && Bit(x, k + n)) {
      SlicePower();
      HighBitKept(x, n, k);
      if k + n >= 16 { HighBitsClear(x, 16, k + n); }
    }
  }

  /** BIT_RANGE: the bits from..to. */
  function BitRange(from: nat, to: nat): (r: Slice)
    requires from <= to <= 16
    ensures forall k :: 0 <= k < 16 ==> Bit(r, k) == (from <= k < to)
  {
    RangeBound(from, to);
    var r: Slice := (Pow2(to - from) - 1) * Pow2(from);
    BitRangeBits(from, to, r);
    r
  }

  lemma BitRangeBits(from: nat, to: nat, r: nat)
    requires from <= to <= 16
    requires r == (Pow2(to - from) - 1) * Pow2(from)
    ensures forall k :: 0 <= k < 16 ==> Bit(r, k) == (from <= k < to)
  {
    forall k | 0 <= k < 16 ensures Bit(r, k) == (from <= k < to) {
      ShiftedBit(Pow2(to - from) - 1, from, k);
      if k >= from { OnesBit(to - from, k - from); }
    }
  }

  lemma RangeBound(from: nat, to: nat)
    requires from <= to <= 16
    ensures 0 <= (Pow2(to - from) - 1) * Pow2(from) < 0x1_0000
  {
    hide Pow2;
    Pow2Sum(to - from, from);
    assert to - from + from == to;
    Pow2Mono(to, 16);
    SlicePower();
    OneLess(Pow2(to - from), Pow2(from));
  }

  lemma OneLess(p: int, q: int)
    requires p > 0 && q > 0
    ensures 0 <= (p - 1) * q < p * q
  {
    Arith.MulMono(0, p - 1, q);
    assert (p - 1) * q == p * q - q;
  }

  /** ROT: right by b rows. */
  function Rot(x: Slice, b: nat): (r: Slice)
    requires b <= 4
    ensures forall k :: 0 <= k < 16 ==> Bit(r, k) == Bit(x, (k + 4 * b) % 16)
  {
    OrS(ShrS(x, 4 * b), ShlS(x, (4 - b) * 4))
  }

  /** Slices with the same bits are the same. */
  lemma SameSlice(a: Slice, b: Slice)
    requires forall k :: 0 <= k < 16 ==> Bit(a, k) == Bit(b, k)
    ensures a == b
  {
    SlicePower();
    SameBits(a, b, 16);
  }

  /** Byte k of the sixteen: its bit i is bit k of slice i. */
  function Lane(s: array<Slice>, k: nat): Octet
    requires s.Length == 8
    reads s
  {
    Octet(Bit(s[0], k), Bit(s[1], k), Bit(s[2], k), Bit(s[3], k), Bit(s[4], k), Bit(s[5], k), Bit(s[6], k),
          Bit(s[7], k))
  }

}
