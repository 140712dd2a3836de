/** Bitwise operators on unsigned integers, written out on numbers so that every
    law used elsewhere is proved here once, for words of any width. */
module Bits {
  import Arith

  function Pow2(n: nat): (p: nat)
    ensures p > 0
  {
    if n == 0 then 1 else 2 * Pow2(n - 1)
  }

  lemma {:induction false} Pow2Mono(n: nat, m: nat)
    requires n <= m
    ensures Pow2(n) <= Pow2(m)
  {
    if n < m { Pow2Mono(n, m - 1); }
  }

  /** Bit k of n, the source's `(n >> k) & 1`. */
  predicate Bit(n: nat, k: nat)
  {
    if k == 0 then n % 2 == 1 else Bit(n / 2, k - 1)
  }

  function Xor(a: nat, b: nat): nat
  {
    if a == 0 then b else if b == 0 then a
    else if a % 2 == b % 2 then 2 * Xor(a / 2, b / 2) else 1 + 2 * Xor(a / 2, b / 2)
  }

  function And(a: nat, b: nat): nat
  {
    if a == 0 || b == 0 then 0 else
    (if a % 2 == 1 && b % 2 == 1 then 1 else 0) + 2 * And(a / 2, b / 2)
  }

  function Or(a: nat, b: nat): nat
  {
    if a == 0 then b else if b == 0 then a
    else (if a % 2 == 1 || b % 2 == 1 then 1 else 0) + 2 * Or(a / 2, b / 2)
  }

  // ---- What the operators do to single bits

  lemma {:induction false} ZeroBit(k: nat)
    ensures !Bit(0, k)
  {
    if k > 0 { ZeroBit(k - 1); }
  }

  lemma {:induction false} XorBit(a: nat, b: nat, k: nat)
    ensures Bit(Xor(a, b), k) == (Bit(a, k) != Bit(b, k))
  {
    if a == 0 || b == 0 {
      ZeroBit(k);
    } else if k > 0 {
      XorBit(a / 2, b / 2, k - 1);
    }
  }

  lemma {:induction false} AndBit(a: nat, b: nat, k: nat)
    ensures Bit(And(a, b), k) == (Bit(a, k) && Bit(b, k))
  {
    if a == 0 || b == 0 {
      ZeroBit(k);
    } else if k > 0 {
      AndBit(a / 2, b / 2, k - 1);
    }
  }

  lemma {:induction false} OrBit(a: nat, b: nat, k: nat)
    ensures Bit(Or(a, b), k) == (Bit(a, k) || Bit(b, k))
  {
    if a == 0 || b == 0 {
      ZeroBit(k);
    } else if k > 0 {
      OrBit(a / 2, b / 2, k - 1);
    }
  }

  lemma {:induction false} Pow2Bit(n: nat, k: nat)
    ensures Bit(Pow2(n), k) == (n == k)
  {
    if n > 0 && k > 0 {
      assert Pow2(n) / 2 == Pow2(n - 1);
      Pow2Bit(n - 1, k - 1);
    } else if k > 0 {
      ZeroBit(k - 1);
    }
  }

  /** Numbers below 2^n have no bit at n or above, and only they do. */
  lemma {:induction false} HighBitsClear(a: nat, n: nat, k: nat)
    requires a < Pow2(n) && n <= k
    ensures !Bit(a, k)
  {
    if n == 0 { ZeroBit(k); } else { HighBitsClear(a / 2, n - 1, k - 1); }
  }

  lemma {:induction false} XorBound(a: nat, b: nat, n: nat)
    requires a < Pow2(n) && b < Pow2(n)
    ensures Xor(a, b) < Pow2(n)
  {
    if n > 0 { XorBound(a / 2, b / 2, n - 1); }
  }

  lemma {:induction false} AndBound(a: nat, b: nat, n: nat)
    requires a < Pow2(n) && b < Pow2(n)
    ensures And(a, b) < Pow2(n)
  {
    if n > 0 && a != 0 && b != 0 {
      AndBound(a / 2, b / 2, n - 1);
    }
  }

  lemma {:induction false} MaskBound(a: nat, m: nat)
    ensures And(a, m) <= m
  {
    if a != 0 && m != 0 { MaskBound(a / 2, m / 2); }
  }

  lemma {:induction false} OrBound(a: nat, b: nat, n: nat)
    requires a < Pow2(n) && b < Pow2(n)
    ensures Or(a, b) < Pow2(n)
  {
    if n > 0 { OrBound(a / 2, b / 2, n - 1); }
  }

  // ---- Laws of Xor

  lemma XorZero(a: nat)
    ensures Xor(0, a) == a && Xor(a, 0) == a
  {}

  lemma {:induction false} XorComm(a: nat, b: nat)
    ensures Xor(a, b) == Xor(b, a)
  {
    if a != 0 || b != 0 { XorComm(a / 2, b / 2); }
  }

  lemma {:induction false} OrComm(a: nat, b: nat)
    ensures Or(a, b) == Or(b, a)
  {
    if a != 0 && b != 0 { OrComm(a / 2, b / 2); }
  }

  lemma {:induction false} XorAssoc(a: nat, b: nat, c: nat)
    ensures Xor(Xor(a, b), c) == Xor(a, Xor(b, c))
  {
    if a != 0 || b != 0 || c != 0 {
      XorAssoc(a / 2, b / 2, c / 2);
      var l, r := Xor(Xor(a, b), c), Xor(a, Xor(b, c));
      assert l / 2 == r / 2 by {
        XorHalves(a, b); XorHalves(Xor(a, b), c);
        XorHalves(b, c); XorHalves(a, Xor(b, c));
      }
      assert l % 2 == r % 2 by { XorParity(a, b, c); }
    }
  }

  lemma XorParity(a: nat, b: nat, c: nat)
    ensures Xor(Xor(a, b), c) % 2 == Xor(a, Xor(b, c)) % 2
  {
    hide Xor;
    var ab, bc := Xor(a, b), Xor(b, c);
    assert ab % 2 == (a % 2 + b % 2) % 2 && Xor(ab, c) % 2 == (ab % 2 + c % 2) % 2 by {
      XorHalves(a, b); XorHalves(ab, c);
    }
    assert bc % 2 == (b % 2 + c % 2) % 2 && Xor(a, bc) % 2 == (a % 2 + bc % 2) % 2 by {
      XorHalves(b, c); XorHalves(a, bc);
    }
    Parity3(a % 2, b % 2, c % 2);
  }

  lemma Parity3(p: nat, q: nat, r: nat)
    requires p < 2 && q < 2 && r < 2
    ensures ((p + q) % 2 + r) % 2 == (p + (q + r) % 2) % 2
  {}

  lemma XorHalves(a: nat, b: nat)
    ensures Xor(a, b) % 2 == (a % 2 + b % 2) % 2
    ensures Xor(a, b) / 2 == Xor(a / 2, b / 2)
    ensures Xor(a, b) == Xor(a, b) % 2 + 2 * Xor(a / 2, b / 2)
  {}

  lemma {:induction false} XorSelf(a: nat)
    ensures Xor(a, a) == 0
  {
    if a != 0 { XorSelf(a / 2); }
  }

  lemma XorRegroup(a: nat, b: nat, c: nat, d: nat)
    ensures Xor(Xor(a, b), Xor(c, d)) == Xor(Xor(a, c), Xor(b, d))
  {
    XorAssoc(a, b, Xor(c, d));
    XorAssoc(b, c, d);
    XorComm(b, c);
    XorAssoc(c, b, d);
    XorAssoc(a, c, Xor(b, d));
  }

  /** a + b = 0 only when a = b. */
  lemma XorCancel(a: nat, b: nat)
    requires Xor(a, b) == 0
    ensures a == b
  {
    XorAssoc(a, b, b);
    XorSelf(b);
    XorZero(a);
    XorZero(b);
  }

  /** Xor works separately on the n low bits and on what lies above them. */
  lemma {:induction false} XorSplit(p: nat, u: nat, q: nat, v: nat, n: nat)
    requires u < Pow2(n) && v < Pow2(n)
    ensures Xor(p * Pow2(n) + u, q * Pow2(n) + v) == Xor(p, q) * Pow2(n) + Xor(u, v)
  {
    hide Xor;
    if n == 0 {
      XorZero(0);
    } else {
      var h := Pow2(n - 1);
      XorSplit(p, u / 2, q, v / 2, n - 1);
      var a, b := p * Pow2(n) + u, q * Pow2(n) + v;
      HalfSplit(p, u, h);
      HalfSplit(q, v, h);
      XorHalves(a, b);
      XorHalves(u, v);
      assert a / 2 == p * h + u / 2 && b / 2 == q * h + v / 2;
      assert a % 2 == u % 2 && b % 2 == v % 2;
      assert Xor(p, q) * Pow2(n) == 2 * (Xor(p, q) * h);
    }
  }

  lemma HalfSplit(p: nat, u: nat, h: nat)
    ensures (p * (2 * h) + u) / 2 == p * h + u / 2
    ensures (p * (2 * h) + u) % 2 == u % 2
  {
    assert p * (2 * h) == 2 * (p * h);
  }

  /** A number below 2^n is given by its n low bits. */
  lemma {:induction false} SameBits(a: nat, b: nat, n: nat)
    requires a < Pow2(n) && b < Pow2(n)
    requires forall k: nat :: k < n ==> Bit(a, k) == Bit(b, k)
    ensures a == b
  {
    if n > 0 {
      assert Bit(a, 0) == Bit(b, 0);
      forall k: nat | k < n - 1
        ensures Bit(a / 2, k) == Bit(b / 2, k)
      {
        assert Bit(a, k + 1) == Bit(b, k + 1);
      }
      SameBits(a / 2, b / 2, n - 1);
    }
  }

  lemma Pow2Small(k: nat)
    requires k < 8
    ensures Pow2(k) < 256
  {
    Pow2Mono(k, 7);
    assert Pow2(7) == 128;
  }

  /** For a power of two the mask takes the remainder. */
  lemma {:induction false} MaskIsRemainder(a: nat, k: nat)
    ensures And(a, Pow2(k) - 1) == a % Pow2(k)
  {
    if k > 0 {
      var p := Pow2(k - 1);
      assert (2 * p - 1) / 2 == p - 1 && (2 * p - 1) % 2 == 1;
      MaskIsRemainder(a / 2, k - 1);
      MaskStep(a, 2 * p - 1);
      Arith.Halves(a, p);
    } else {
      assert And(a, 0) == 0;
    }
  }

  lemma MaskStep(a: nat, m: nat)
    ensures And(a, m) == (if a % 2 == 1 && m % 2 == 1 then 1 else 0) + 2 * And(a / 2, m / 2)
  {}

  lemma BitStep(n: nat, k: nat)
    ensures Bit(n, k) == if k == 0 then n % 2 == 1 else Bit(n / 2, k - 1)
  {}

  /** The low bits stay when the high ones are cut off. */
  lemma {:induction false} LowBitKept(a: nat, n: nat, k: nat)
    requires k < n
    ensures Bit(a % Pow2(n), k) == Bit(a, k)
  {
    var p := Pow2(n - 1);
    Arith.Halves(a, p);
    var m := a % (2 * p);
    assert m / 2 == a / 2 % p && m % 2 == a % 2 && m == a % Pow2(n);
    BitStep(m, k);
    BitStep(a, k);
    if k > 0 { LowBitKept(a / 2, n - 1, k - 1); }
  }

  lemma {:induction false} HighBitKept(a: nat, n: nat, k: nat)
    ensures 0 <= a / Pow2(n) && Bit(a / Pow2(n), k) == Bit(a, k + n)
  {
    if n > 0 {
      Arith.Halves(a, Pow2(n - 1));
      HighBitKept(a / 2, n - 1, k);
      BitStep(a, k + n);
    }
  }

  lemma {:induction false} Pow2Sum(m: nat, n: nat)
    ensures Pow2(m + n) == Pow2(m) * Pow2(n)
  {
    if m > 0 { Pow2Sum(m - 1, n); }
  }

  /** The n lowest bits, all set. */
  lemma {:induction false} OnesBit(n: nat, k: nat)
    ensures Bit(Pow2(n) - 1, k) == (k < n)
  {
    if n == 0 {
      ZeroBit(k);
    } else {
      assert (Pow2(n) - 1) / 2 == Pow2(n - 1) - 1 && (Pow2(n) - 1) % 2 == 1;
      if k > 0 { OnesBit(n - 1, k - 1); }
    }
  }

  /** Bits above and below place k do not meet. */
  lemma {:induction false} Disjoint(h: nat, l: nat, k: nat)
    requires l < Pow2(k)
    ensures Or(h * Pow2(k), l) == Xor(h * Pow2(k), l)
  {
    if k == 0 {
      XorZero(h);
    } else {
      var p := Pow2(k - 1);
      assert h * Pow2(k) == 2 * (h * p);
      Disjoint(h, l / 2, k - 1);
    }
  }

  /** Or-ing numbers whose bits do not meet adds them. */
  lemma OrSum(l: nat, h: nat, k: nat)
    requires l < Pow2(k)
    ensures Or(l, h * Pow2(k)) == h * Pow2(k) + l
  {
    hide *;
    Disjoint(h, l, k);
    OrComm(l, h * Pow2(k));
    XorSplit(h, 0, 0, l, k);
    XorZero(h);
    XorZero(l);
  }

  // ---- A byte is the sum of its bits

  function BitWorth(on: bool, w: nat): nat { if on then w else 0 }

  function Nibble(b: nat): nat {
    BitWorth(Bit(b, 0), 1) + BitWorth(Bit(b, 1), 2) + BitWorth(Bit(b, 2), 4) + BitWorth(Bit(b, 3), 8)
  }

  lemma Lowest(b: nat, k: nat)
    ensures b == BitWorth(Bit(b, 0), 1) + 2 * (b / 2) && Bit(b, k + 1) == Bit(b / 2, k)
  {}

  lemma LowNibble(b: nat)
    ensures b == Nibble(b) + 16 * (b / 2 / 2 / 2 / 2)
  {
    Lowest(b, 0);
    Lowest(b / 2, 0);
    Lowest(b / 2 / 2, 0);
    Lowest(b / 2 / 2 / 2, 0);
    Lowest(b, 1);
    Lowest(b, 2);
    Lowest(b / 2, 1);
    hide Bit;
  }

  lemma FourUp(b: nat, k: nat)
    ensures Bit(b, k + 4) == Bit(b / 2 / 2 / 2 / 2, k)
  {
    assert Bit(b, k + 4) == Bit(b / 2, k + 3) == Bit(b / 2 / 2, k + 2) == Bit(b / 2 / 2 / 2, k + 1);
  }

  lemma SixteenTimes(w: bool, x: bool, y: bool, z: bool)
    ensures 16 * (BitWorth(w, 1) + BitWorth(x, 2) + BitWorth(y, 4) + BitWorth(z, 8))
         == BitWorth(w, 16) + BitWorth(x, 32) + BitWorth(y, 64) + BitWorth(z, 128)
  {}

  lemma HighNibble(b: nat)
    ensures 16 * Nibble(b / 2 / 2 / 2 / 2)
         == BitWorth(Bit(b, 4), 16) + BitWorth(Bit(b, 5), 32) + BitWorth(Bit(b, 6), 64) + BitWorth(Bit(b, 7), 128)
  {
    hide Bit, BitWorth;
    var c := b / 2 / 2 / 2 / 2;
    FourUp(b, 0);
    FourUp(b, 1);
    FourUp(b, 2);
    FourUp(b, 3);
    SixteenTimes(Bit(c, 0), Bit(c, 1), Bit(c, 2), Bit(c, 3));
  }

  lemma ByteNibbles(b: nat)
    requires b < 256
    ensures b == Nibble(b) + 16 * Nibble(b / 2 / 2 / 2 / 2)
  {
    hide Nibble;
    var c := b / 2 / 2 / 2 / 2;
    LowNibble(b);
    LowNibble(c);
    assert c < 16 && c / 2 / 2 / 2 / 2 == 0;
  }

  lemma ByteWorth(b: nat)
    requires b < 256
    ensures b == BitWorth(Bit(b, 0), 1) + BitWorth(Bit(b, 1), 2) + BitWorth(Bit(b, 2), 4) + BitWorth(Bit(b, 3), 8)
               + BitWorth(Bit(b, 4), 16) + BitWorth(Bit(b, 5), 32) + BitWorth(Bit(b, 6), 64) + BitWorth(Bit(b, 7), 128)
  {
    hide Bit, BitWorth;
    ByteNibbles(b);
    HighNibble(b);
  }

}
