/** Arithmetic of the field GF(2^8/0x11D) used by the QR symbol encoder's
    Reed-Solomon code (qr.c). A byte is a polynomial over GF(2); addition is Xor. */
module Gf256 {
  import Arith
  import opened Bits
  import Bytes

  type Byte = Bytes.Byte

  function Add(a: Byte, b: Byte): Byte {
    XorBound(a, b, 8);
    Xor(a, b)
  }

  /** Multiplication by x: shift left and reduce by 0x11D when the top bit falls out. */
  function XTime(z: Byte): Byte {
    if z < 128 then 2 * z else Add(2 * z - 256, 0x1D)
  }

  /** The n lowest bits of y times x, by Horner's rule from the highest of them down. */
  function MulBits(x: Byte, y: Byte, n: nat): Byte
    decreases n, x, y
  {
    if n == 0 then 0 else Add(XTime(MulBits(x, y / 2, n - 1)), if y % 2 == 1 then x else 0)
  }

  /** The product in GF(2^8/0x11D). */
  function Mul(x: Byte, y: Byte): Byte { MulBits(x, y, 8) }

  /** Russian-peasant multiplication, as the source writes it. */
  method Multiply(x: Byte, y: Byte) returns (z: Byte)
    ensures z == Mul(x, y)
  {
    hide Xor, XTime, Pow2;
    z := 0;
    var i := 7;
    while i >= 0
      invariant -1 <= i <= 7
      invariant z == MulBits(x, y / Pow2(i + 1), 7 - i)
    {
      ShiftStep(y, i);
      Doubling(z);
      z := Xor(z * 2, (z / 128) * 0x11D) % 256;
      AddBit(z, x, y / Pow2(i) % 2);
      z := Xor(z, (y / Pow2(i) % 2) * x);
      i := i - 1;
    }
    ShiftStep(y, 0);
  }

  lemma PowerSteps(i: nat)
    ensures Pow2(i + 1) == 2 * Pow2(i) && Pow2(0) == 1
  {}

  lemma ShiftStep(y: Byte, i: nat)
    requires i < 8
    ensures y / Pow2(i) / 2 == y / Pow2(i + 1)
    ensures i == 0 ==> y / Pow2(i) == y
    ensures y / Pow2(i) < 256 && y / Pow2(i + 1) < 256
  {
    hide Pow2;
    PowerSteps(i);
    Arith.DivDiv(y, Pow2(i), 2);
    Arith.Quotient(y, Pow2(i));
    Arith.Quotient(y, Pow2(i + 1));
  }

  /** Truncating the nine-bit reduction to a byte is XTime. */
  lemma Doubling(z: Byte)
    ensures Xor(z * 2, (z / 128) * 0x11D) % 256 == XTime(z)
  {
    hide Xor;
    if z < 128 {
      XorZero(2 * z);
    } else {
      XorSplit(1, 2 * z - 256, 1, 0x1D, 8);
      XorSelf(1);
      XorBound(2 * z - 256, 0x1D, 8);
    }
  }

  lemma AddBit(z: Byte, x: Byte, b: nat)
    requires b < 2
    ensures b * x < 256
    ensures Xor(z, b * x) == Add(z, if b == 1 then x else 0)
  {
    hide Xor;
    assert b == 0 || b == 1;
  }

  // ---- Linearity

  lemma AddRegroup(a: Byte, b: Byte, c: Byte, d: Byte)
    ensures Add(Add(a, b), Add(c, d)) == Add(Add(a, c), Add(b, d))
  {
    XorRegroup(a, b, c, d);
  }

  lemma AddZero(a: Byte)
    ensures Add(a, 0) == a == Add(0, a)
  {
    XorZero(a);
  }

  lemma AddSelf(a: Byte)
    ensures Add(a, a) == 0
  {
    XorSelf(a);
  }

  lemma AddComm(a: Byte, b: Byte)
    ensures Add(a, b) == Add(b, a)
  {
    XorComm(a, b);
  }

  lemma AddAssoc(a: Byte, b: Byte, c: Byte)
    ensures Add(Add(a, b), c) == Add(a, Add(b, c))
  {
    XorAssoc(a, b, c);
  }

  /** Shifting out the top bit, and the bit shifted out, are both additive. */
  lemma SevenBits()
    ensures Pow2(7) == 128
  {}

  lemma DoubleAdd(a: Byte, b: Byte)
    ensures Add(a, b) < 128 <==> (a < 128 <==> b < 128)
    ensures (2 * Add(a, b)) % 256 == Add((2 * a) % 256, (2 * b) % 256)
  {
    hide *;
    AddTop(a, b);
    DoubleLow(a);
    DoubleLow(b);
    DoubleLow(Add(a, b));
    DoubledXor(a % 128, b % 128);
  }

  lemma DoubleLow(a: Byte)
    ensures (2 * a) % 256 == 2 * (a % 128)
  {}

  lemma DoubledXor(u: nat, v: nat)
    requires u < 128 && v < 128
    ensures Add(2 * u, 2 * v) == 2 * Xor(u, v)
  {
    hide Xor;
    XorHalves(2 * u, 2 * v);
  }

  /** The top bits of two bytes are added apart from the others. */
  lemma AddTop(a: Byte, b: Byte)
    ensures Xor(a % 128, b % 128) < 128
    ensures Add(a, b) == (if a < 128 <==> b < 128 then 0 else 128) + Xor(a % 128, b % 128)
  {
    hide Xor, Pow2;
    var u, v := a % 128, b % 128;
    SevenBits();
    XorSplit(a / 128, u, b / 128, v, 7);
    XorBound(u, v, 7);
    XorZero(1);
    XorSelf(1);
    XorSelf(0);
  }

  lemma XTimeAdd(a: Byte, b: Byte)
    ensures XTime(Add(a, b)) == Add(XTime(a), XTime(b))
  {
    hide Add;
    DoubleAdd(a, b);
    var a2, b2 := (2 * a) % 256, (2 * b) % 256;
    XTimeForm(a);
    XTimeForm(b);
    XTimeForm(Add(a, b));
    AddRegroup(a2, if a < 128 then 0 else 0x1D, b2, if b < 128 then 0 else 0x1D);
    AddSelf(0x1D);
    AddZero(0x1D);
    AddZero(0);
  }

  lemma XTimeForm(a: Byte)
    ensures XTime(a) == Add((2 * a) % 256, if a < 128 then 0 else 0x1D)
  {
    hide Add;
    AddZero((2 * a) % 256);
  }

  lemma {:induction false} MulBitsAddLeft(x: Byte, x': Byte, y: Byte, n: nat)
    ensures MulBits(Add(x, x'), y, n) == Add(MulBits(x, y, n), MulBits(x', y, n))
  {
    hide Add, XTime;
    AddZero(0);
    if n > 0 {
      var h, h' := MulBits(x, y / 2, n - 1), MulBits(x', y / 2, n - 1);
      MulBitsAddLeft(x, x', y / 2, n - 1);
      XTimeAdd(h, h');
      AddRegroup(XTime(h), if y % 2 == 1 then x else 0, XTime(h'), if y % 2 == 1 then x' else 0);
    }
  }

  lemma AddHalves(a: Byte, b: Byte)
    ensures Add(a, b) / 2 == Add(a / 2, b / 2)
    ensures Add(a, b) % 2 == (a % 2 + b % 2) % 2
  {
    XorHalves(a, b);
  }

  lemma {:induction false} MulBitsAddRight(x: Byte, y: Byte, y': Byte, n: nat)
    ensures MulBits(x, Add(y, y'), n) == Add(MulBits(x, y, n), MulBits(x, y', n))
  {
    hide Add, XTime;
    AddZero(0);
    if n > 0 {
      var h, h' := MulBits(x, y / 2, n - 1), MulBits(x, y' / 2, n - 1);
      AddHalves(y, y');
      MulBitsAddRight(x, y / 2, y' / 2, n - 1);
      XTimeAdd(h, h');
      AddRegroup(XTime(h), if y % 2 == 1 then x else 0, XTime(h'), if y' % 2 == 1 then x else 0);
      AddSelf(x);
      AddZero(x);
    }
  }

  lemma {:induction false} MulBitsXTime(x: Byte, y: Byte, n: nat)
    ensures MulBits(XTime(x), y, n) == XTime(MulBits(x, y, n))
  {
    assert XTime(0) == 0;
    hide Add, XTime;
    if n > 0 {
      MulBitsXTime(x, y / 2, n - 1);
      XTimeAdd(XTime(MulBits(x, y / 2, n - 1)), if y % 2 == 1 then x else 0);
    }
  }

  lemma {:induction false} MulBitsZero(y: Byte, n: nat)
    ensures MulBits(0, y, n) == 0
  {
    if n > 0 {
      MulBitsZero(y / 2, n - 1);
      AddZero(0);
    }
  }

  /** Multiplying Horner's rule for w * x by another factor: (w * x) * y, bit by bit of x. */
  lemma {:induction false} MulBitsHorner(w: Byte, x: Byte, y: Byte, n: nat)
    ensures Mul(MulBits(w, x, n), y) == MulBits(Mul(w, y), x, n)
  {
    hide Add, XTime;
    MulBitsZero(y, 8);
    if n > 0 {
      var hi := MulBits(w, x / 2, n - 1);
      MulBitsHorner(w, x / 2, y, n - 1);
      MulBitsAddLeft(XTime(hi), if x % 2 == 1 then w else 0, y, 8);
      MulBitsXTime(hi, y, 8);
    }
  }

  // ---- The field laws

  lemma MulAddLeft(x: Byte, x': Byte, y: Byte)
    ensures Mul(Add(x, x'), y) == Add(Mul(x, y), Mul(x', y))
  {
    MulBitsAddLeft(x, x', y, 8);
  }

  lemma MulAddRight(x: Byte, y: Byte, y': Byte)
    ensures Mul(x, Add(y, y')) == Add(Mul(x, y), Mul(x, y'))
  {
    MulBitsAddRight(x, y, y', 8);
  }

  /** Multiplying 1 copies the bits of y, n at a time. */
  lemma {:induction false} MulBitsOne(y: Byte, n: nat)
    requires n <= 8 && y < Pow2(n)
    ensures MulBits(1, y, n) == y
  {
    if n > 0 {
      MulBitsOne(y / 2, n - 1);
      assert y / 2 < 128 by { Pow2Mono(n, 8); }
      EvenPlusBit(y / 2, y % 2);
    }
  }

  lemma EvenPlusBit(h: Byte, b: nat)
    requires h < 128 && b < 2
    ensures Add(2 * h, b) == 2 * h + b
  {
    XorHalves(2 * h, b);
    XorZero(h);
  }

  lemma MulOneLeft(y: Byte)
    ensures Mul(1, y) == y
  {
    assert Pow2(8) == 256;
    MulBitsOne(y, 8);
  }

  lemma MulComm(x: Byte, y: Byte)
    ensures Mul(x, y) == Mul(y, x)
  {
    hide Mul, MulBits;
    MulIsMulBits(1, x);
    MulBitsHorner(1, x, y, 8);
    MulOneLeft(x);
    MulOneLeft(y);
    MulIsMulBits(y, x);
  }

  lemma MulIsMulBits(x: Byte, y: Byte)
    ensures Mul(x, y) == MulBits(x, y, 8)
  {}

  /** With MulComm, MulAddLeft, MulOneLeft and Gf256Generator.Inverse: a field. */
  lemma MulAssoc(x: Byte, y: Byte, w: Byte)
    ensures Mul(Mul(x, y), w) == Mul(x, Mul(y, w))
  {
    hide Mul, MulBits;
    MulIsMulBits(y, x);
    MulBitsHorner(y, x, w, 8);
    MulComm(x, y);
    MulComm(x, Mul(y, w));
    MulIsMulBits(Mul(y, w), x);
  }

  lemma MulOneRight(x: Byte)
    ensures Mul(x, 1) == x
  {
    MulComm(x, 1);
    MulOneLeft(x);
  }

  lemma MulZero(x: Byte)
    ensures Mul(0, x) == 0 == Mul(x, 0)
  {
    MulBitsZero(x, 8);
    MulComm(x, 0);
  }

  lemma MulTwo(x: Byte)
    ensures Mul(2, x) == XTime(x)
  {
    hide Mul, MulBits;
    MulIsMulBits(1, x);
    MulIsMulBits(2, x);
    assert XTime(1) == 2;
    MulBitsXTime(1, x, 8);
    MulOneLeft(x);
  }

  // ---- Powers

  function Pow(x: Byte, n: nat): Byte {
    if n == 0 then 1 else Mul(x, Pow(x, n - 1))
  }

  lemma {:induction false} PowAdd(x: Byte, a: nat, b: nat)
    ensures Pow(x, a + b) == Mul(Pow(x, a), Pow(x, b))
  {
    hide Mul;
    if a == 0 {
      MulOneLeft(Pow(x, b));
    } else {
      PowAdd(x, a - 1, b);
      MulAssoc(x, Pow(x, a - 1), Pow(x, b));
    }
  }

  lemma {:induction false} PowMul(x: Byte, a: nat, b: nat)
    ensures Pow(Pow(x, a), b) == Pow(x, a * b)
  {
    hide Mul;
    if b > 0 {
      PowMul(x, a, b - 1);
      PowAdd(x, a, a * (b - 1));
      assert a + a * (b - 1) == a * b;
    }
  }

  /** Multiplication by 2 and by 1: the field is that of the polynomial 0x11D, and with the
      laws above this leaves one product. */
  lemma TimesTwo(x: Byte)
    ensures Mul(x, 2) == Xor(2 * x % 256, if x >= 128 then 0x1D else 0) && Mul(x, 1) == x
    ensures Mul(128, 2) == 0x1D
  {
    hide Xor, Mul;
    MulComm(x, 2);
    MulTwo(x);
    XTimeForm(x);
    MulOneRight(x);
    MulComm(128, 2);
    MulTwo(128);
    AddZero(0x1D);
  }

}
