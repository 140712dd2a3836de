/** The codes behind the format and version bits of a QR symbol: division of polynomials
    over GF(2) by a shift register, and how far apart the words are. */
module BchCodes {
  import opened Arith
  import opened Bits
  import opened Gates

  // ---- Polynomials over GF(2), given by their bits

  function Product(q: nat, g: nat): nat {
    if q == 0 then 0 else Xor(q % 2 * g, 2 * Product(q / 2, g))
  }

  ghost predicate IsMultiple(w: nat, g: nat) { exists q :: Product(q, g) == w }

  /** g has degree d. */
  predicate HasDegree(g: nat, d: nat) { Pow2(d) <= g < Pow2(d + 1) }

  lemma ProductUnfold(q: nat, g: nat)
    ensures Product(q, g) == Xor(q % 2 * g, 2 * Product(q / 2, g))
  {
    XorZero(0);
  }

  lemma XorDouble(a: nat, b: nat)
    ensures Xor(2 * a, 2 * b) == 2 * Xor(a, b)
  {
    XorHalves(2 * a, 2 * b);
  }

  lemma ParityProduct(p: nat, q: nat, g: nat)
    requires p < 2 && q < 2
    ensures (p + q) % 2 * g == Xor(p * g, q * g)
  {
    hide Xor;
    XorZero(g);
    XorZero(0);
    XorSelf(g);
  }

  lemma {:induction false} ProductXor(p: nat, q: nat, g: nat)
    ensures Product(Xor(p, q), g) == Xor(Product(p, g), Product(q, g))
    decreases p + q
  {
    hide Xor, Product;
    ProductUnfold(p, g);
    ProductUnfold(q, g);
    ProductUnfold(Xor(p, q), g);
    XorHalves(p, q);
    if p == 0 && q == 0 {
      ProductZero(g);
      XorZero(0);
    } else {
      ProductXor(p / 2, q / 2, g);
      ParityProduct(p % 2, q % 2, g);
      XorDouble(Product(p / 2, g), Product(q / 2, g));
      XorRegroup(p % 2 * g, 2 * Product(p / 2, g), q % 2 * g, 2 * Product(q / 2, g));
    }
  }

  lemma ProductZero(g: nat)
    ensures Product(0, g) == 0
  {}

  /** Degrees add up. */
  lemma {:induction false} ProductDegree(q: nat, k: nat, g: nat, d: nat)
    requires HasDegree(q, k) && HasDegree(g, d)
    ensures HasDegree(Product(q, g), k + d)
  {
    hide Xor, Product;
    ProductUnfold(q, g);
    if k == 0 {
      assert Pow2(1) == 2 && q == 1;
      ProductZero(g);
      XorZero(g);
    } else {
      ProductDegree(q / 2, k - 1, g, d);
      var low := q % 2 * g;
      Pow2Mono(d + 1, k + d);
      TopBitStays(low, 2 * Product(q / 2, g), k + d);
    }
  }

  lemma TopBitStays(a: nat, b: nat, n: nat)
    requires a < Pow2(n) && HasDegree(b, n)
    ensures HasDegree(Xor(a, b), n)
  {
    hide Xor, Pow2;
    Pow2Double(n);
    XorSplit(0, a, 1, b - Pow2(n), n);
    XorZero(1);
    XorBound(a, b - Pow2(n), n);
  }

  lemma {:induction false} Degree(q: nat) returns (k: nat)
    requires q > 0
    ensures HasDegree(q, k)
  {
    if q == 1 {
      k := 0;
      assert Pow2(1) == 2;
    } else {
      var h := Degree(q / 2);
      k := h + 1;
    }
  }

  lemma SmallQuotient(q: nat, g: nat, d: nat, m: nat)
    requires HasDegree(g, d) && d <= m && Product(q, g) < Pow2(m)
    ensures q < Pow2(m - d)
  {
    hide Product;
    if q > 0 {
      var k := Degree(q);
      ProductDegree(q, k, g, d);
      if k >= m - d { Pow2Mono(m, k + d); }
      Pow2Mono(k + 1, m - d);
    }
  }

  /** Two multiples of g that agree above its degree are the same. */
  lemma MultipleUnique(u: nat, v: nat, g: nat, d: nat, a: nat, x: nat, y: nat)
    requires HasDegree(g, d) && IsMultiple(u, g) && IsMultiple(v, g)
    requires u == a * Pow2(d) + x && v == a * Pow2(d) + y && x < Pow2(d) && y < Pow2(d)
    ensures u == v
  {
    hide Xor, Product, Pow2;
    var p, q :| Product(p, g) == u && Product(q, g) == v;
    ProductXor(p, q, g);
    XorSplit(a, x, a, y, d);
    XorSelf(a);
    XorBound(x, y, d);
    SmallQuotient(Xor(p, q), g, d, d);
    assert Xor(p, q) == 0 by { PowZero(); }
    ProductZero(g);
    XorCancel(u, v);
  }

  lemma PowZero()
    ensures Pow2(0) == 1
  {}

  // ---- The shift register

  /** n steps from data: the register is doubled, and g taken away if its top bit, half,
      falls out. */
  function Remainder(data: nat, g: nat, half: nat, n: nat): nat
    requires half > 0
  {
    if n == 0 then data else
      var rem := Remainder(data, g, half, n - 1);
      Quotient(rem, half);
      Xor(rem * 2, rem / half * g)
  }

  /** The bits that have fallen out. */
  function Dropped(data: nat, g: nat, half: nat, n: nat): nat
    requires half > 0
  {
    if n == 0 then 0 else
      var rem := Remainder(data, g, half, n - 1);
      Quotient(rem, half);
      2 * Dropped(data, g, half, n - 1) + rem / half
  }

  lemma TopBit(rem: nat, d: nat)
    requires rem < Pow2(d + 1)
    ensures rem / Pow2(d) == if rem < Pow2(d) then 0 else 1
  {
    hide Pow2;
    assert Pow2(d + 1) == 2 * Pow2(d) by { Pow2Double(d); }
    if rem < Pow2(d) { DivModUnique(Pow2(d), 0, rem); } else { DivModUnique(Pow2(d), 1, rem - Pow2(d)); }
  }

  lemma Pow2Double(d: nat)
    ensures Pow2(d + 1) == 2 * Pow2(d)
  {}

  lemma {:induction false} RemainderBound(data: nat, g: nat, d: nat, n: nat)
    requires data < Pow2(d + 1) && HasDegree(g, d + 1)
    ensures Remainder(data, g, Pow2(d), n) < Pow2(d + 1)
  {
    hide Xor, Pow2;
    if n > 0 {
      RemainderBound(data, g, d, n - 1);
      var rem := Remainder(data, g, Pow2(d), n - 1);
      Pow2Double(d);
      Pow2Double(d + 1);
      TopBit(rem, d);
      if rem < Pow2(d) {
        XorZero(rem * 2);
      } else {
        XorSplit(1, rem * 2 - Pow2(d + 1), 1, g - Pow2(d + 1), d + 1);
        XorSelf(1);
        XorBound(rem * 2 - Pow2(d + 1), g - Pow2(d + 1), d + 1);
      }
    }
  }

  /** Data and remainder together are a multiple of g. */
  lemma {:induction false} WordIsProduct(data: nat, g: nat, d: nat, n: nat)
    requires data < Pow2(d + 1) && HasDegree(g, d + 1)
    ensures Xor(data * Pow2(n), Remainder(data, g, Pow2(d), n)) == Product(Dropped(data, g, Pow2(d), n), g)
  {
    hide Xor, Product, Pow2;
    if n == 0 {
      XorSelf(data);
      ProductZero(g);
      PowZero();
    } else {
      WordIsProduct(data, g, d, n - 1);
      RemainderBound(data, g, d, n - 1);
      var rem, q := Remainder(data, g, Pow2(d), n - 1), Dropped(data, g, Pow2(d), n - 1);
      TopBit(rem, d);
      Pow2Double(n - 1);
      assert data * Pow2(n) == 2 * (data * Pow2(n - 1));
      NextProduct(data * Pow2(n - 1), rem, q, rem / Pow2(d), g);
    }
  }

  lemma NextProduct(w: nat, rem: nat, q: nat, t: nat, g: nat)
    requires Xor(w, rem) == Product(q, g) && t < 2
    ensures Xor(2 * w, Xor(rem * 2, t * g)) == Product(2 * q + t, g)
  {
    hide Xor, Product;
    ProductUnfold(2 * q + t, g);
    assert (2 * q + t) / 2 == q && (2 * q + t) % 2 == t;
    XorDouble(w, rem);
    XorAssoc(2 * w, 2 * rem, t * g);
    XorComm(Xor(2 * w, 2 * rem), t * g);
  }

  /** The word of the source, data above and remainder below: the only multiple of g with
      this data. */
  lemma Systematic(data: nat, g: nat, d: nat)
    requires data < Pow2(d + 1) && HasDegree(g, d + 1)
    ensures var rem := Remainder(data, g, Pow2(d), d + 1);
      && rem < Pow2(d + 1)
      && Or(data * Pow2(d + 1), rem) == data * Pow2(d + 1) + rem
      && IsMultiple(Or(data * Pow2(d + 1), rem), g)
  {
    hide Xor, Or, Product, Pow2, Remainder;
    var rem := Remainder(data, g, Pow2(d), d + 1);
    RemainderBound(data, g, d, d + 1);
    WordIsProduct(data, g, d, d + 1);
    OrSum(rem, data, d + 1);
    OrComm(rem, data * Pow2(d + 1));
    XorSplit(data, 0, 0, rem, d + 1);
    XorZero(data);
    XorZero(rem);
  }

  // ---- Distance

  /** How many of the n lowest bits are set. */
  function Weight(w: nat, n: nat): (k: nat)
    ensures k <= n
  {
    if n == 0 then 0 else Weight(w, n - 1) + if Bit(w, n - 1) then 1 else 0
  }

  /** In how many of the n lowest bits two words differ. */
  function Distance(u: nat, v: nat, n: nat): nat { Weight(Xor(u, v), n) }

  lemma DistanceSymmetric(u: nat, v: nat, n: nat)
    ensures Distance(u, v, n) == Distance(v, u, n)
  {
    XorComm(u, v);
  }

  lemma {:induction false} Triangle(u: nat, v: nat, w: nat, n: nat)
    ensures Distance(u, w, n) <= Distance(u, v, n) + Distance(v, w, n)
  {
    hide Xor, Bit;
    if n > 0 {
      Triangle(u, v, w, n - 1);
      XorBit(u, w, n - 1);
      XorBit(u, v, n - 1);
      XorBit(v, w, n - 1);
    }
  }

  lemma ProductBit(q: nat, g: nat, i: nat)
    ensures Bit(Product(q, g), i) == ((q % 2 == 1 && Bit(g, i)) != (i > 0 && Bit(Product(q / 2, g), i - 1)))
  {
    hide Xor, Product;
    var h := 2 * Product(q / 2, g);
    ProductUnfold(q, g);
    XorBit(q % 2 * g, h, i);
    BitStep(h, i);
    ZeroBit(i);
  }

  // ---- The bits of a product, on wires

  function WireAt(w: nat, i: nat): Wire { Carry(Bit(w, i)) }

  function One(w: Wire): nat { if w == On then 1 else 0 }

  function Three(a: Wire, b: Wire, c: Wire): nat { One(a) + One(b) + One(c) }

  lemma WeightThree(w: nat, n: nat)
    ensures Weight(w, n + 3) == Weight(w, n) + Three(WireAt(w, n), WireAt(w, n + 1), WireAt(w, n + 2))
  {
    hide Bit;
    assert Weight(w, n + 1) == Weight(w, n) + One(WireAt(w, n));
    assert Weight(w, n + 2) == Weight(w, n + 1) + One(WireAt(w, n + 1));
  }

  lemma ProductWire(q: nat, g: nat, i: nat)
    ensures var rest := if i > 0 then WireAt(Product(q / 2, g), i - 1) else Off;
      WireAt(Product(q, g), i) == if Bit(g, i) then XorGate(Carry(q % 2 == 1), rest) else rest
  {
    hide Bit, Product;
    ProductBit(q, g, i);
  }

  /** What a bit of the quotient adds to bit i of the product. */
  function Fed(g: nat, n: nat, i: int, rest: Wire): Wire {
    if i >= 0 && Bit(g, i) then XorGate(Carry(n % 2 == 1), rest) else rest
  }

  lemma WeightNone(w: nat)
    ensures Weight(w, 0) == 0
  {}

  lemma CarryNothing()
    ensures Carry(false) == Off
  {}

  lemma NoWires(g: nat)
    ensures Product(0, g) == 0 && forall i: nat :: WireAt(0, i) == Off
  {
    forall i: nat ensures WireAt(0, i) == Off { ZeroBit(i); }
  }

  // ---- The generator 0x537: 15 bits, 5 of them data

  lemma FormatCases(q0: bool, q1: bool, q2: bool, q3: bool, q4: bool)
    requires q0 || q1 || q2 || q3 || q4
    ensures
      var c0 := Xor2(q0, false);
      var c1 := Xor2(q0, Xor2(q1, false));
      var c2 := Xor2(q0, Xor2(q1, Xor2(q2, false)));
      var c3 := Xor2(q1, Xor2(q2, Xor2(q3, false)));
      var c4 := Xor2(q0, Xor2(q2, Xor2(q3, Xor2(q4, false))));
      var c5 := Xor2(q0, Xor2(q1, Xor2(q3, Xor2(q4, false))));
      var c6 := Xor2(q1, Xor2(q2, Xor2(q4, false)));
      var c7 := Xor2(q2, Xor2(q3, false));
      var c8 := Xor2(q0, Xor2(q3, Xor2(q4, false)));
      var c9 := Xor2(q1, Xor2(q4, false));
      var c10 := Xor2(q0, Xor2(q2, false));
      var c11 := Xor2(q1, Xor2(q3, false));
      var c12 := Xor2(q2, Xor2(q4, false));
      var c13 := Xor2(q3, false);
      var c14 := Xor2(q4, false);
      Three(Carry(c0), Carry(c1), Carry(c2)) + Three(Carry(c3), Carry(c4), Carry(c5))
      + Three(Carry(c6), Carry(c7), Carry(c8))
      + Three(Carry(c9), Carry(c10), Carry(c11)) + Three(Carry(c12), Carry(c13), Carry(c14)) >= 7
  {}

  /** The weight of every word but zero. */
  lemma FormatWires(q0: bool, q1: bool, q2: bool, q3: bool, q4: bool)
    requires q0 || q1 || q2 || q3 || q4
    ensures
      var w0, w1, w2, w3, w4 := Carry(q0), Carry(q1), Carry(q2), Carry(q3), Carry(q4);
      var c0 := XorGate(w0, Off);
      var c1 := XorGate(w0, XorGate(w1, Off));
      var c2 := XorGate(w0, XorGate(w1, XorGate(w2, Off)));
      var c3 := XorGate(w1, XorGate(w2, XorGate(w3, Off)));
      var c4 := XorGate(w0, XorGate(w2, XorGate(w3, XorGate(w4, Off))));
      var c5 := XorGate(w0, XorGate(w1, XorGate(w3, XorGate(w4, Off))));
      var c6 := XorGate(w1, XorGate(w2, XorGate(w4, Off)));
      var c7 := XorGate(w2, XorGate(w3, Off));
      var c8 := XorGate(w0, XorGate(w3, XorGate(w4, Off)));
      var c9 := XorGate(w1, XorGate(w4, Off));
      var c10 := XorGate(w0, XorGate(w2, Off));
      var c11 := XorGate(w1, XorGate(w3, Off));
      var c12 := XorGate(w2, XorGate(w4, Off));
      var c13 := XorGate(w3, Off);
      var c14 := XorGate(w4, Off);
      Three(c0, c1, c2) + Three(c3, c4, c5) + Three(c6, c7, c8)
      + Three(c9, c10, c11) + Three(c12, c13, c14) >= 7
  {
    hide Xor2, XorGate, Carry, Three;
    Carried();
    assert Carry(false) == Off by { CarryNothing(); }
    FormatCases(q0, q1, q2, q3, q4);
  }

  lemma FormatTaps()
    ensures Bit(0x537, 0) && Bit(0x537, 1) && Bit(0x537, 2) && !Bit(0x537, 3) && Bit(0x537, 4)
    ensures Bit(0x537, 5) && !Bit(0x537, 6) && !Bit(0x537, 7) && Bit(0x537, 8) && !Bit(0x537, 9)
    ensures Bit(0x537, 10) && !Bit(0x537, 11) && !Bit(0x537, 12) && !Bit(0x537, 13) && !Bit(0x537, 14)
  {
    assert Bit(0x537, 0) && Bit(0x537, 1) && Bit(0x537, 2) && !Bit(0x537, 3);
    assert Bit(0x537, 4) && Bit(0x537, 5) && !Bit(0x537, 6) && !Bit(0x537, 7);
    assert Bit(0x537, 8) && !Bit(0x537, 9) && Bit(0x537, 10);
    forall i: nat | 11 <= i ensures !Bit(0x537, i) {
      assert Pow2(11) == 2048 by { assert Pow2(8) == 256; }
      HighBitsClear(0x537, 11, i);
    }
  }

  lemma FormatWire(q: nat, n1: nat, n2: nat, n3: nat, n4: nat, i: nat)
    requires n1 == q / 2 && n2 == n1 / 2 && n3 == n2 / 2 && n4 == n3 / 2 && n4 < 2
    ensures WireAt(Product(q, 0x537), i)
            == Fed(0x537, q, i, Fed(0x537, n1, i - 1,
              Fed(0x537, n2, i - 2, Fed(0x537, n3, i - 3, Fed(0x537, n4, i - 4, Off)))))
  {
    hide Bit, Product, WireAt, XorGate, Carry;
    NoWires(0x537);
    ProductWire(q, 0x537, i);
    if i >= 1 { ProductWire(n1, 0x537, i - 1); }
    if i >= 2 { ProductWire(n2, 0x537, i - 2); }
    if i >= 3 { ProductWire(n3, 0x537, i - 3); }
    if i >= 4 { ProductWire(n4, 0x537, i - 4); }
  }

  lemma FormatWord(q: nat, n1: nat, n2: nat, n3: nat, n4: nat)
    requires n1 == q / 2 && n2 == n1 / 2 && n3 == n2 / 2 && n4 == n3 / 2 && n4 < 2
    ensures
      var w := Product(q, 0x537);
      var w0, w1, w2, w3, w4 := Carry(q % 2 == 1), Carry(n1 % 2 == 1), Carry(n2 % 2 == 1), Carry(n3 % 2 == 1),
        Carry(n4 % 2 == 1);
      && WireAt(w, 0) == XorGate(w0, Off)
      && WireAt(w, 1) == XorGate(w0, XorGate(w1, Off))
      && WireAt(w, 2) == XorGate(w0, XorGate(w1, XorGate(w2, Off)))
      && WireAt(w, 3) == XorGate(w1, XorGate(w2, XorGate(w3, Off)))
      && WireAt(w, 4) == XorGate(w0, XorGate(w2, XorGate(w3, XorGate(w4, Off))))
      && WireAt(w, 5) == XorGate(w0, XorGate(w1, XorGate(w3, XorGate(w4, Off))))
      && WireAt(w, 6) == XorGate(w1, XorGate(w2, XorGate(w4, Off)))
      && WireAt(w, 7) == XorGate(w2, XorGate(w3, Off))
      && WireAt(w, 8) == XorGate(w0, XorGate(w3, XorGate(w4, Off)))
      && WireAt(w, 9) == XorGate(w1, XorGate(w4, Off))
      && WireAt(w, 10) == XorGate(w0, XorGate(w2, Off))
      && WireAt(w, 11) == XorGate(w1, XorGate(w3, Off))
      && WireAt(w, 12) == XorGate(w2, XorGate(w4, Off))
      && WireAt(w, 13) == XorGate(w3, Off)
      && WireAt(w, 14) == XorGate(w4, Off)
  {
    hide Bit, Product, WireAt, XorGate, Carry;
    FormatTaps();
    FormatWire(q, n1, n2, n3, n4, 0);
    FormatWire(q, n1, n2, n3, n4, 1);
    FormatWire(q, n1, n2, n3, n4, 2);
    FormatWire(q, n1, n2, n3, n4, 3);
    FormatWire(q, n1, n2, n3, n4, 4);
    FormatWire(q, n1, n2, n3, n4, 5);
    FormatWire(q, n1, n2, n3, n4, 6);
    FormatWire(q, n1, n2, n3, n4, 7);
    FormatWire(q, n1, n2, n3, n4, 8);
    FormatWire(q, n1, n2, n3, n4, 9);
    FormatWire(q, n1, n2, n3, n4, 10);
    FormatWire(q, n1, n2, n3, n4, 11);
    FormatWire(q, n1, n2, n3, n4, 12);
    FormatWire(q, n1, n2, n3, n4, 13);
    FormatWire(q, n1, n2, n3, n4, 14);
  }

  lemma FormatSum(w: nat, q0: bool, q1: bool, q2: bool, q3: bool, q4: bool)
    requires q0 || q1 || q2 || q3 || q4
    requires
      var w0, w1, w2, w3, w4 := Carry(q0), Carry(q1), Carry(q2), Carry(q3), Carry(q4);
      && WireAt(w, 0) == XorGate(w0, Off)
      && WireAt(w, 1) == XorGate(w0, XorGate(w1, Off))
      && WireAt(w, 2) == XorGate(w0, XorGate(w1, XorGate(w2, Off)))
      && WireAt(w, 3) == XorGate(w1, XorGate(w2, XorGate(w3, Off)))
      && WireAt(w, 4) == XorGate(w0, XorGate(w2, XorGate(w3, XorGate(w4, Off))))
      && WireAt(w, 5) == XorGate(w0, XorGate(w1, XorGate(w3, XorGate(w4, Off))))
      && WireAt(w, 6) == XorGate(w1, XorGate(w2, XorGate(w4, Off)))
      && WireAt(w, 7) == XorGate(w2, XorGate(w3, Off))
      && WireAt(w, 8) == XorGate(w0, XorGate(w3, XorGate(w4, Off)))
      && WireAt(w, 9) == XorGate(w1, XorGate(w4, Off))
      && WireAt(w, 10) == XorGate(w0, XorGate(w2, Off))
      && WireAt(w, 11) == XorGate(w1, XorGate(w3, Off))
      && WireAt(w, 12) == XorGate(w2, XorGate(w4, Off))
      && WireAt(w, 13) == XorGate(w3, Off)
      && WireAt(w, 14) == XorGate(w4, Off)
    ensures Weight(w, 15) >= 7
  {
    hide Bit, WireAt, XorGate, Carry, Three, Weight;
    WeightThree(w, 0);
    WeightThree(w, 3);
    WeightThree(w, 6);
    WeightThree(w, 9);
    WeightThree(w, 12);
    WeightNone(w);
    FormatWires(q0, q1, q2, q3, q4);
  }

  /** Every multiple of 0x537 in 15 bits but zero has at least 7 bits set. */
  lemma FormatWeight(q: nat)
    requires 0 < q < 32
    ensures Weight(Product(q, 0x537), 15) >= 7
  {
    hide Bit, Product, WireAt, XorGate, Carry, Weight;
    var n1 := q / 2;
    var n2 := n1 / 2;
    var n3 := n2 / 2;
    var n4 := n3 / 2;
    FormatWord(q, n1, n2, n3, n4);
    FormatSum(Product(q, 0x537), q % 2 == 1, n1 % 2 == 1, n2 % 2 == 1, n3 % 2 == 1, n4 % 2 == 1);
  }

  // ---- The generator 0x1F25: 18 bits, 6 of them data

  lemma VersionCases(q0: bool, q1: bool, q2: bool, q3: bool, q4: bool, q5: bool)
    requires q0 || q1 || q2 || q3 || q4 || q5
    ensures
      var c0 := Xor2(q0, false);
      var c1 := Xor2(q1, false);
      var c2 := Xor2(q0, Xor2(q2, false));
      var c3 := Xor2(q1, Xor2(q3, false));
      var c4 := Xor2(q2, Xor2(q4, false));
      var c5 := Xor2(q0, Xor2(q3, Xor2(q5, false)));
      var c6 := Xor2(q1, Xor2(q4, false));
      var c7 := Xor2(q2, Xor2(q5, false));
      var c8 := Xor2(q0, Xor2(q3, false));
      var c9 := Xor2(q0, Xor2(q1, Xor2(q4, false)));
      var c10 := Xor2(q0, Xor2(q1, Xor2(q2, Xor2(q5, false))));
      var c11 := Xor2(q0, Xor2(q1, Xor2(q2, Xor2(q3, false))));
      var c12 := Xor2(q0, Xor2(q1, Xor2(q2, Xor2(q3, Xor2(q4, false)))));
      var c13 := Xor2(q1, Xor2(q2, Xor2(q3, Xor2(q4, Xor2(q5, false)))));
      var c14 := Xor2(q2, Xor2(q3, Xor2(q4, Xor2(q5, false))));
      var c15 := Xor2(q3, Xor2(q4, Xor2(q5, false)));
      var c16 := Xor2(q4, Xor2(q5, false));
      var c17 := Xor2(q5, false);
      Three(Carry(c0), Carry(c1), Carry(c2)) + Three(Carry(c3), Carry(c4), Carry(c5))
      + Three(Carry(c6), Carry(c7), Carry(c8))
      + Three(Carry(c9), Carry(c10), Carry(c11)) + Three(Carry(c12), Carry(c13), Carry(c14))
      + Three(Carry(c15), Carry(c16), Carry(c17)) >= 8
  {}

  /** The weight of every word but zero. */
  lemma VersionWires(q0: bool, q1: bool, q2: bool, q3: bool, q4: bool, q5: bool)
    requires q0 || q1 || q2 || q3 || q4 || q5
    ensures
      var w0, w1, w2, w3, w4, w5 := Carry(q0), Carry(q1), Carry(q2), Carry(q3), Carry(q4), Carry(q5);
      var c0 := XorGate(w0, Off);
      var c1 := XorGate(w1, Off);
      var c2 := XorGate(w0, XorGate(w2, Off));
      var c3 := XorGate(w1, XorGate(w3, Off));
      var c4 := XorGate(w2, XorGate(w4, Off));
      var c5 := XorGate(w0, XorGate(w3, XorGate(w5, Off)));
      var c6 := XorGate(w1, XorGate(w4, Off));
      var c7 := XorGate(w2, XorGate(w5, Off));
      var c8 := XorGate(w0, XorGate(w3, Off));
      var c9 := XorGate(w0, XorGate(w1, XorGate(w4, Off)));
      var c10 := XorGate(w0, XorGate(w1, XorGate(w2, XorGate(w5, Off))));
      var c11 := XorGate(w0, XorGate(w1, XorGate(w2, XorGate(w3, Off))));
      var c12 := XorGate(w0, XorGate(w1, XorGate(w2, XorGate(w3, XorGate(w4, Off)))));
      var c13 := XorGate(w1, XorGate(w2, XorGate(w3, XorGate(w4, XorGate(w5, Off)))));
      var c14 := XorGate(w2, XorGate(w3, XorGate(w4, XorGate(w5, Off))));
      var c15 := XorGate(w3, XorGate(w4, XorGate(w5, Off)));
      var c16 := XorGate(w4, XorGate(w5, Off));
      var c17 := XorGate(w5, Off);
      Three(c0, c1, c2) + Three(c3, c4, c5) + Three(c6, c7, c8)
      + Three(c9, c10, c11) + Three(c12, c13, c14) + Three(c15, c16, c17) >= 8
  {
    hide Xor2, XorGate, Carry, Three;
    Carried();
    assert Carry(false) == Off by { CarryNothing(); }
    VersionCases(q0, q1, q2, q3, q4, q5);
  }

  lemma VersionTaps()
    ensures Bit(0x1F25, 0) && !Bit(0x1F25, 1) && Bit(0x1F25, 2) && !Bit(0x1F25, 3) && !Bit(0x1F25, 4)
    ensures Bit(0x1F25, 5) && !Bit(0x1F25, 6) && !Bit(0x1F25, 7) && Bit(0x1F25, 8) && Bit(0x1F25, 9)
    ensures Bit(0x1F25, 10) && Bit(0x1F25, 11) && Bit(0x1F25, 12) && !Bit(0x1F25, 13) && !Bit(0x1F25, 14)
    ensures !Bit(0x1F25, 15) && !Bit(0x1F25, 16) && !Bit(0x1F25, 17)
  {
    assert Bit(0x1F25, 0) && !Bit(0x1F25, 1) && Bit(0x1F25, 2) && !Bit(0x1F25, 3);
    assert !Bit(0x1F25, 4) && Bit(0x1F25, 5) && !Bit(0x1F25, 6) && !Bit(0x1F25, 7);
    assert Bit(0x1F25, 8) && Bit(0x1F25, 9) && Bit(0x1F25, 10) && Bit(0x1F25, 11);
    assert Bit(0x1F25, 12);
    forall i: nat | 13 <= i ensures !Bit(0x1F25, i) {
      assert Pow2(13) == 8192 by { assert Pow2(8) == 256; }
      HighBitsClear(0x1F25, 13, i);
    }
  }

  lemma VersionWire(q: nat, n1: nat, n2: nat, n3: nat, n4: nat, n5: nat, i: nat)
    requires n1 == q / 2 && n2 == n1 / 2 && n3 == n2 / 2 && n4 == n3 / 2 && n5 == n4 / 2 && n5 < 2
    ensures WireAt(Product(q, 0x1F25), i)
            == Fed(0x1F25, q, i, Fed(0x1F25, n1, i - 1,
              Fed(0x1F25, n2, i - 2, Fed(0x1F25, n3, i - 3, Fed(0x1F25, n4, i - 4, Fed(0x1F25, n5, i - 5, Off))))))
  {
    hide Bit, Product, WireAt, XorGate, Carry;
    NoWires(0x1F25);
    ProductWire(q, 0x1F25, i);
    if i >= 1 { ProductWire(n1, 0x1F25, i - 1); }
    if i >= 2 { ProductWire(n2, 0x1F25, i - 2); }
    if i >= 3 { ProductWire(n3, 0x1F25, i - 3); }
    if i >= 4 { ProductWire(n4, 0x1F25, i - 4); }
    if i >= 5 { ProductWire(n5, 0x1F25, i - 5); }
  }

  lemma VersionWord(q: nat, n1: nat, n2: nat, n3: nat, n4: nat, n5: nat)
    requires n1 == q / 2 && n2 == n1 / 2 && n3 == n2 / 2 && n4 == n3 / 2 && n5 == n4 / 2 && n5 < 2
    ensures
      var w := Product(q, 0x1F25);
      var w0, w1, w2, w3, w4, w5 := Carry(q % 2 == 1), Carry(n1 % 2 == 1), Carry(n2 % 2 == 1), Carry(n3 % 2 == 1),
        Carry(n4 % 2 == 1), Carry(n5 % 2 == 1);
      && WireAt(w, 0) == XorGate(w0, Off)
      && WireAt(w, 1) == XorGate(w1, Off)
      && WireAt(w, 2) == XorGate(w0, XorGate(w2, Off))
      && WireAt(w, 3) == XorGate(w1, XorGate(w3, Off))
      && WireAt(w, 4) == XorGate(w2, XorGate(w4, Off))
      && WireAt(w, 5) == XorGate(w0, XorGate(w3, XorGate(w5, Off)))
      && WireAt(w, 6) == XorGate(w1, XorGate(w4, Off))
      && WireAt(w, 7) == XorGate(w2, XorGate(w5, Off))
      && WireAt(w, 8) == XorGate(w0, XorGate(w3, Off))
      && WireAt(w, 9) == XorGate(w0, XorGate(w1, XorGate(w4, Off)))
      && WireAt(w, 10) == XorGate(w0, XorGate(w1, XorGate(w2, XorGate(w5, Off))))
      && WireAt(w, 11) == XorGate(w0, XorGate(w1, XorGate(w2, XorGate(w3, Off))))
      && WireAt(w, 12) == XorGate(w0, XorGate(w1, XorGate(w2, XorGate(w3, XorGate(w4, Off)))))
      && WireAt(w, 13) == XorGate(w1, XorGate(w2, XorGate(w3, XorGate(w4, XorGate(w5, Off)))))
      && WireAt(w, 14) == XorGate(w2, XorGate(w3, XorGate(w4, XorGate(w5, Off))))
      && WireAt(w, 15) == XorGate(w3, XorGate(w4, XorGate(w5, Off)))
      && WireAt(w, 16) == XorGate(w4, XorGate(w5, Off))
      && WireAt(w, 17) == XorGate(w5, Off)
  {
    hide Bit, Product, WireAt, XorGate, Carry;
    VersionTaps();
    VersionWire(q, n1, n2, n3, n4, n5, 0);
    VersionWire(q, n1, n2, n3, n4, n5, 1);
    VersionWire(q, n1, n2, n3, n4, n5, 2);
    VersionWire(q, n1, n2, n3, n4, n5, 3);
    VersionWire(q, n1, n2, n3, n4, n5, 4);
    VersionWire(q, n1, n2, n3, n4, n5, 5);
    VersionWire(q, n1, n2, n3, n4, n5, 6);
    VersionWire(q, n1, n2, n3, n4, n5, 7);
    VersionWire(q, n1, n2, n3, n4, n5, 8);
    VersionWire(q, n1, n2, n3, n4, n5, 9);
    VersionWire(q, n1, n2, n3, n4, n5, 10);
    VersionWire(q, n1, n2, n3, n4, n5, 11);
    VersionWire(q, n1, n2, n3, n4, n5, 12);
    VersionWire(q, n1, n2, n3, n4, n5, 13);
    VersionWire(q, n1, n2, n3, n4, n5, 14);
    VersionWire(q, n1, n2, n3, n4, n5, 15);
    VersionWire(q, n1, n2, n3, n4, n5, 16);
    VersionWire(q, n1, n2, n3, n4, n5, 17);
  }

  lemma VersionSum(w: nat, q0: bool, q1: bool, q2: bool, q3: bool, q4: bool, q5: bool)
    requires q0 || q1 || q2 || q3 || q4 || q5
    requires
      var w0, w1, w2, w3, w4, w5 := Carry(q0), Carry(q1), Carry(q2), Carry(q3), Carry(q4), Carry(q5);
      && WireAt(w, 0) == XorGate(w0, Off)
      && WireAt(w, 1) == XorGate(w1, Off)
      && WireAt(w, 2) == XorGate(w0, XorGate(w2, Off))
      && WireAt(w, 3) == XorGate(w1, XorGate(w3, Off))
      && WireAt(w, 4) == XorGate(w2, XorGate(w4, Off))
      && WireAt(w, 5) == XorGate(w0, XorGate(w3, XorGate(w5, Off)))
      && WireAt(w, 6) == XorGate(w1, XorGate(w4, Off))
      && WireAt(w, 7) == XorGate(w2, XorGate(w5, Off))
      && WireAt(w, 8) == XorGate(w0, XorGate(w3, Off))
      && WireAt(w, 9) == XorGate(w0, XorGate(w1, XorGate(w4, Off)))
      && WireAt(w, 10) == XorGate(w0, XorGate(w1, XorGate(w2, XorGate(w5, Off))))
      && WireAt(w, 11) == XorGate(w0, XorGate(w1, XorGate(w2, XorGate(w3, Off))))
      && WireAt(w, 12) == XorGate(w0, XorGate(w1, XorGate(w2, XorGate(w3, XorGate(w4, Off)))))
      && WireAt(w, 13) == XorGate(w1, XorGate(w2, XorGate(w3, XorGate(w4, XorGate(w5, Off)))))
      && WireAt(w, 14) == XorGate(w2, XorGate(w3, XorGate(w4, XorGate(w5, Off))))
      && WireAt(w, 15) == XorGate(w3, XorGate(w4, XorGate(w5, Off)))
      && WireAt(w, 16) == XorGate(w4, XorGate(w5, Off))
      && WireAt(w, 17) == XorGate(w5, Off)
    ensures Weight(w, 18) >= 8
  {
    hide Bit, WireAt, XorGate, Carry, Three, Weight;
    WeightThree(w, 0);
    WeightThree(w, 3);
    WeightThree(w, 6);
    WeightThree(w, 9);
    WeightThree(w, 12);
    WeightThree(w, 15);
    WeightNone(w);
    VersionWires(q0, q1, q2, q3, q4, q5);
  }

  /** Every multiple of 0x1F25 in 18 bits but zero has at least 8 bits set. */
  lemma VersionWeight(q: nat)
    requires 0 < q < 64
    ensures Weight(Product(q, 0x1F25), 18) >= 8
  {
    hide Bit, Product, WireAt, XorGate, Carry, Weight;
    var n1 := q / 2;
    var n2 := n1 / 2;
    var n3 := n2 / 2;
    var n4 := n3 / 2;
    var n5 := n4 / 2;
    VersionWord(q, n1, n2, n3, n4, n5);
    VersionSum(Product(q, 0x1F25), q % 2 == 1, n1 % 2 == 1, n2 % 2 == 1, n3 % 2 == 1, n4 % 2 == 1, n5 % 2 == 1);
  }

  // ---- Words of the two codes

  lemma Powers()
    ensures Pow2(5) == 32 && Pow2(6) == 64 && Pow2(9) == 512 && Pow2(10) == 1024 && Pow2(11) == 2048
    ensures Pow2(12) == 4096 && Pow2(13) == 8192 && Pow2(15) == 0x8000 && Pow2(18) == 0x40000
  {
    hide *;
    PowZero();
    Pow2Double(0);
    Pow2Double(1);
    Pow2Double(2);
    Pow2Double(3);
    Pow2Double(4);
    Pow2Double(5);
    Pow2Double(6);
    Pow2Double(7);
    Pow2Double(8);
    Pow2Double(9);
    Pow2Double(10);
    Pow2Double(11);
    Pow2Double(12);
    Pow2Double(13);
    Pow2Double(14);
    Pow2Double(15);
    Pow2Double(16);
    Pow2Double(17);
  }

  /** Two multiples of g differ by another one, of a small quotient. */
  lemma DifferenceIsProduct(u: nat, v: nat, g: nat, d: nat, m: nat) returns (q: nat)
    requires IsMultiple(u, g) && IsMultiple(v, g) && u != v && HasDegree(g, d) && d <= m
    requires u < Pow2(m) && v < Pow2(m)
    ensures 0 < q < Pow2(m - d) && Xor(u, v) == Product(q, g)
  {
    hide Xor, Product, Pow2;
    var a, b :| Product(a, g) == u && Product(b, g) == v;
    ProductXor(a, b, g);
    XorBound(u, v, m);
    q := Xor(a, b);
    SmallQuotient(q, g, d, m);
    ProductZero(g);
    if q == 0 { XorCancel(u, v); }
  }

  /** Different words of the format code differ in at least seven bits. */
  lemma FormatDistance(u: nat, v: nat)
    requires IsMultiple(u, 0x537) && IsMultiple(v, 0x537) && u < 0x8000 && v < 0x8000 && u != v
    ensures Distance(u, v, 15) >= 7
  {
    hide Xor, Product, Weight, Pow2, IsMultiple;
    Powers();
    var q := DifferenceIsProduct(u, v, 0x537, 10, 15);
    FormatWeight(q);
  }

  /** Different words of the version code differ in at least eight bits. */
  lemma VersionDistance(u: nat, v: nat)
    requires IsMultiple(u, 0x1F25) && IsMultiple(v, 0x1F25) && u < 0x40000 && v < 0x40000 && u != v
    ensures Distance(u, v, 18) >= 8
  {
    hide Xor, Product, Weight, Pow2, IsMultiple;
    Powers();
    var q := DifferenceIsProduct(u, v, 0x1F25, 12, 18);
    VersionWeight(q);
  }

}
