/** The element 0x02 generates the field GF(2^8/0x11D): its first 255 powers are
    distinct and are all the nonzero bytes. Concrete powers are computed on octets,
    bytes taken apart into their bits. */
module Gf256Generator {
  import opened Bits
  import opened Gf256

  /** The bits of a byte, the highest first. */
  datatype Oct = Oct(b7: bool, b6: bool, b5: bool, b4: bool, b3: bool, b2: bool, b1: bool, b0: bool)

  function Bits8(z: Byte): Oct {
    Oct(Bit(z, 7), Bit(z, 6), Bit(z, 5), Bit(z, 4), Bit(z, 3), Bit(z, 2), Bit(z, 1), Bit(z, 0))
  }

  function Double(o: Oct): Oct {
    Oct(o.b6, o.b5, o.b4, o.b3 != o.b7, o.b2 != o.b7, o.b1 != o.b7, o.b0, o.b7)
  }

  /** n doublings. */
  function Iter(n: nat, o: Oct): Oct
    decreases n
  {
    if n == 0 then o else Iter(n - 1, Double(o))
  }

  const ONE := Oct(false, false, false, false, false, false, false, true)

  function O(a7: nat, a6: nat, a5: nat, a4: nat, a3: nat, a2: nat, a1: nat, a0: nat): Oct {
    Oct(a7 == 1, a6 == 1, a5 == 1, a4 == 1, a3 == 1, a2 == 1, a1 == 1, a0 == 1)
  }

  // ---- Octets and bytes double alike

  lemma DoubleBits(z: Byte, k: nat)
    ensures Bit(2 * z, k) == (k > 0 && Bit(z, k - 1))
  {}

  lemma {:induction false} LowBits(z: nat, n: nat, k: nat)
    requires k < n && z >= Pow2(n)
    ensures Bit(z - Pow2(n), k) == Bit(z, k)
  {
    assert Pow2(n) == 2 * Pow2(n - 1);
    if k > 0 {
      assert (z - Pow2(n)) / 2 == z / 2 - Pow2(n - 1);
      LowBits(z / 2, n - 1, k - 1);
    }
  }

  lemma ReductionBits(k: nat)
    requires k < 8
    ensures Bit(0x1D, k) == (k == 0 || k == 2 || k == 3 || k == 4)
  {
    assert Bit(0x1D, k) == if k == 0 then true else Bit(14, k - 1);
    assert k > 0 ==> Bit(14, k - 1) == if k == 1 then false else Bit(7, k - 2);
    assert k > 1 ==> Bit(7, k - 2) == if k == 2 then true else Bit(3, k - 3);
    assert k > 2 ==> Bit(3, k - 3) == if k == 3 then true else Bit(1, k - 4);
    if k > 4 { ZeroBit(k - 5); }
  }

  lemma TopBit(z: Byte)
    ensures Bit(z, 7) <==> z >= 128
  {
    if z < 128 {
      assert Pow2(7) == 128;
      HighBitsClear(z, 7, 7);
    } else {
      var h := z / 2 / 2 / 2;
      assert Bit(z, 7) == Bit(z / 2, 6) == Bit(z / 2 / 2, 5) == Bit(h, 4);
      assert Bit(h, 4) == Bit(h / 2, 3) == Bit(h / 2 / 2, 2) == Bit(h / 2 / 2 / 2, 1) == Bit(1, 0);
    }
  }

  lemma XTimeBit(z: Byte, k: nat)
    requires k < 8
    ensures Bit(XTime(z), k) == ((k > 0 && Bit(z, k - 1)) != (z >= 128 && (k == 0 || k == 2 || k == 3 || k == 4)))
  {
    hide Xor, Bit;
    DoubleBits(z, k);
    if z >= 128 {
      XorBit(2 * z - 256, 0x1D, k);
      assert Pow2(8) == 256;
      LowBits(2 * z, 8, k);
      ReductionBits(k);
    }
  }

  lemma BitsDouble(z: Byte)
    ensures Bits8(XTime(z)) == Double(Bits8(z))
  {
    hide Bit, XTime;
    TopBit(z);
    forall k: nat | k < 8
      ensures Bit(XTime(z), k) == ((k > 0 && Bit(z, k - 1)) != (z >= 128 && (k == 0 || k == 2 || k == 3 || k == 4)))
    {
      XTimeBit(z, k);
    }
  }

  // ---- Powers of 0x02

  function Gen(k: nat): Byte { Pow(2, k) }

  lemma {:induction false} IterAdd(a: nat, b: nat, o: Oct)
    ensures Iter(a + b, o) == Iter(b, Iter(a, o))
  {
    if a > 0 { IterAdd(a - 1, b, Double(o)); }
  }

  lemma {:induction false} GenBits(k: nat)
    ensures Bits8(Gen(k)) == Iter(k, ONE)
  {
    hide Mul, XTime, Double;
    if k == 0 {
      assert Bits8(1) == ONE;
    } else {
      GenBits(k - 1);
      MulTwo(Gen(k - 1));
      BitsDouble(Gen(k - 1));
      IterAdd(k - 1, 1, ONE);
      assert Iter(1, Iter(k - 1, ONE)) == Double(Iter(k - 1, ONE));
    }
  }

  /** The 16 first powers. */
  function BabyPower(k: nat): Oct
  {
    match k
    case 0 => O(0, 0, 0, 0, 0, 0, 0, 1)
    case 1 => O(0, 0, 0, 0, 0, 0, 1, 0)
    case 2 => O(0, 0, 0, 0, 0, 1, 0, 0)
    case 3 => O(0, 0, 0, 0, 1, 0, 0, 0)
    case 4 => O(0, 0, 0, 1, 0, 0, 0, 0)
    case 5 => O(0, 0, 1, 0, 0, 0, 0, 0)
    case 6 => O(0, 1, 0, 0, 0, 0, 0, 0)
    case 7 => O(1, 0, 0, 0, 0, 0, 0, 0)
    case 8 => O(0, 0, 0, 1, 1, 1, 0, 1)
    case 9 => O(0, 0, 1, 1, 1, 0, 1, 0)
    case 10 => O(0, 1, 1, 1, 0, 1, 0, 0)
    case 11 => O(1, 1, 1, 0, 1, 0, 0, 0)
    case 12 => O(1, 1, 0, 0, 1, 1, 0, 1)
    case 13 => O(1, 0, 0, 0, 0, 1, 1, 1)
    case 14 => O(0, 0, 0, 1, 0, 0, 1, 1)
    case _ => O(0, 0, 1, 0, 0, 1, 1, 0)
  }

  /** Every 16th power, counted down from the 255th. */
  function GiantPower(k: nat): Oct
  {
    match k
    case 0 => O(0, 0, 0, 0, 0, 0, 0, 1)
    case 1 => O(0, 0, 0, 1, 0, 1, 1, 0)
    case 2 => O(0, 0, 0, 0, 1, 0, 0, 1)
    case 3 => O(1, 0, 1, 0, 0, 1, 1, 0)
    case 4 => O(0, 1, 0, 0, 0, 0, 0, 1)
    case 5 => O(1, 1, 1, 1, 1, 1, 1, 1)
    case 6 => O(0, 1, 1, 1, 0, 0, 1, 1)
    case 7 => O(0, 1, 0, 1, 0, 1, 0, 0)
    case 8 => O(1, 1, 0, 0, 1, 1, 0, 0)
    case 9 => O(1, 1, 0, 0, 1, 1, 1, 0)
    case 10 => O(1, 1, 1, 0, 0, 0, 1, 0)
    case 11 => O(1, 1, 1, 1, 0, 0, 0, 0)
    case 12 => O(1, 0, 1, 0, 0, 0, 0, 1)
    case 13 => O(0, 0, 1, 0, 0, 0, 1, 1)
    case 14 => O(1, 1, 0, 0, 0, 0, 0, 0)
    case _ => O(0, 0, 1, 0, 0, 1, 1, 0)
  }

  lemma {:induction false} Baby(k: nat)
    requires k < 16
    ensures Iter(k, ONE) == BabyPower(k)
  {
    if k > 0 {
      Baby(k - 1);
      IterAdd(k - 1, 1, ONE);
      BabyStep(k - 1);
    }
  }

  lemma BabyStep(k: nat)
    requires k < 15
    ensures Iter(1, BabyPower(k)) == BabyPower(k + 1)
  {}

  lemma {:induction false} Giant(a: nat)
    requires a < 16
    ensures Iter(255 - 16 * a, ONE) == GiantPower(a)
    decreases 16 - a
  {
    if a == 15 {
      Baby(15);
    } else {
      Giant(a + 1);
      IterAdd(255 - 16 * (a + 1), 16, ONE);
      GiantStep(a + 1);
    }
  }

  lemma GiantStep(a: nat)
    requires 0 < a < 16
    ensures Iter(16, GiantPower(a)) == GiantPower(a - 1)
  {
    hide Iter;
    var o := GiantPower(a);
    Iter16(o);
    assert Times16(o) == GiantPower(a - 1) by { GiantTable(a); }
  }

  /** Sixteen doublings. */
  function Times16(o: Oct): Oct {
    var p := Double(Double(Double(Double(o))));
    var q := Double(Double(Double(Double(p))));
    var r := Double(Double(Double(Double(q))));
    Double(Double(Double(Double(r))))
  }

  lemma GiantTable(a: nat)
    requires 0 < a < 16
    ensures Times16(GiantPower(a)) == GiantPower(a - 1)
  {
    if a < 5 { if a == 1 {} else if a == 2 {} else if a == 3 {} else {} }
    else if a < 9 { if a == 5 {} else if a == 6 {} else if a == 7 {} else {} }
    else if a < 13 { if a == 9 {} else if a == 10 {} else if a == 11 {} else {} }
    else { if a == 13 {} else if a == 14 {} else {} }
  }

  lemma Iter16(o: Oct)
    ensures Iter(16, o) == Times16(o)
  {
    hide Iter, Double;
    Iter4(o);
    Iter4(Iter(4, o));
    Iter4(Iter(8, o));
    Iter4(Iter(12, o));
    IterAdd(4, 4, o);
    IterAdd(8, 4, o);
    IterAdd(12, 4, o);
  }

  lemma Iter4(o: Oct)
    ensures Iter(4, o) == Double(Double(Double(Double(o))))
  {}

  /** No power of 0x02 below the 255th is 1. */
  lemma OrderIs255(d: nat)
    requires Iter(d, ONE) == ONE
    ensures d == 0 || d >= 255
  {
    if 0 < d < 255 {
      var a, b := d / 16, d % 16;
      IterAdd(d, 255 - 16 * a, ONE);
      IterAdd(255, b, ONE);
      Giant(0);
      Giant(a);
      Baby(b);
      NoCollision(a, b);
    }
  }

  lemma NoCollision(a: nat, b: nat)
    requires a < 16 && b < 16
    requires GiantPower(a) == BabyPower(b)
    ensures a == b == 0 || a == b == 15
  {
    if a < 8 {} else {}
  }

  lemma BitsOne()
    ensures Bits8(1) == ONE
  {}

  lemma GenPeriod()
    ensures Gen(255) == 1
  {
    hide Bit, Iter, Gen, Xor;
    GenBits(255);
    Giant(0);
    BitsOne();
    assert GiantPower(0) == ONE;
    forall k: nat | k < 8
      ensures Bit(Gen(255), k) == Bit(1, k)
    {
      assert Bits8(Gen(255)) == Bits8(1);
    }
    assert Pow2(8) == 256;
    SameBits(Gen(255), 1, 8);
  }

  /** The first 255 powers of 0x02 are pairwise distinct. */
  lemma GenDistinct(i: nat, j: nat)
    requires i < j < 255
    ensures Gen(i) != Gen(j)
  {
    hide Mul, Bit, Iter;
    if Gen(i) == Gen(j) {
      GenBits(i);
      GenBits(j);
      IterAdd(j, 255 - i, ONE);
      IterAdd(i, 255 - i, ONE);
      IterAdd(255, j - i, ONE);
      Giant(0);
      OrderIs255(j - i);
    }
  }

  lemma GenNonzero(k: nat)
    requires k < 255
    ensures Gen(k) != 0
  {
    PowAdd(2, 255 - k, k);
    GenPeriod();
    MulZero(Gen(255 - k));
  }

  // ---- Every nonzero byte is a power of 0x02

  ghost function Powers(n: nat): set<Byte> {
    if n == 0 then {} else Powers(n - 1) + {Gen(n - 1)}
  }

  lemma {:induction false} PowersAre(n: nat)
    requires n <= 255
    ensures forall x: Byte :: x in Powers(n) <==> exists k: nat :: k < n && Gen(k) == x
    ensures |Powers(n)| == n
    ensures 0 !in Powers(n)
  {
    hide Gen;
    if n > 0 {
      PowersAre(n - 1);
      GenNonzero(n - 1);
      forall k: nat | k < n - 1
        ensures Gen(k) != Gen(n - 1)
      {
        GenDistinct(k, n - 1);
      }
    }
  }

  ghost function Below(n: nat): (s: set<Byte>)
    requires n <= 255
    ensures |s| == n
    ensures forall x: Byte :: x in s <==> 1 <= x <= n
  {
    if n == 0 then {} else Below(n - 1) + {n}
  }

  lemma FullSubset<T>(a: set<T>, b: set<T>)
    requires a <= b && |a| == |b|
    ensures a == b
  {
    assert |b - a| == |b| - |a|;
  }

  lemma Log(x: Byte) returns (k: nat)
    requires x != 0
    ensures k < 255 && Gen(k) == x
  {
    hide Powers, Below, Gen;
    PowersAre(255);
    assert Powers(255) <= Below(255);
    FullSubset(Powers(255), Below(255));
    assert x in Below(255);
    k :| k < 255 && Gen(k) == x;
  }

  lemma Inverse(x: Byte) returns (y: Byte)
    requires x != 0
    ensures Mul(x, y) == 1
  {
    var k := Log(x);
    y := Gen(255 - k);
    PowAdd(2, k, 255 - k);
    GenPeriod();
  }

  /** The field has no zero divisors. */
  lemma NoZeroDivisors(x: Byte, y: Byte)
    requires Mul(x, y) == 0
    ensures x == 0 || y == 0
  {
    if x != 0 {
      hide Mul;
      var x' := Inverse(x);
      MulAssoc(x', x, y);
      MulComm(x', x);
      MulOneLeft(y);
      MulZero(x');
    }
  }

}
