/** The S-box of AES (FIPS 197, section 5.1.1) as the gate circuit of ctaes.c, for one
    of its sixteen lanes. The names of the wires are those of the source. */
module AesSbox {
  import opened Gates

  /** A byte as its bits; b0 is the lowest. */
  datatype Octet = Octet(b0: bool, b1: bool, b2: bool, b3: bool, b4: bool, b5: bool, b6: bool, b7: bool)

  /** The eight wires of a byte. */
  datatype Lines = Lines(
    b0: Wire, b1: Wire, b2: Wire, b3: Wire, b4: Wire, b5: Wire, b6: Wire, b7: Wire)

  /** The wires into the shared middle of the circuit. */
  datatype Wires = Wires(
    T1: Wire, T2: Wire, T3: Wire, T4: Wire, T6: Wire, T8: Wire, T9: Wire, T10: Wire, T13: Wire, T14: Wire, T15: Wire,
    T16: Wire, T17: Wire, T19: Wire, T20: Wire, T22: Wire, T23: Wire, T24: Wire, T25: Wire, T26: Wire, T27: Wire,
    D: Wire)

  /** Four bits: an element of the field below. */
  datatype Nibble = Nibble(
    M20: Wire, M21: Wire, M22: Wire, M23: Wire)

  /** Its inverse, and the sums of parts of it. */
  datatype Shared = Shared(
    M37: Wire, M38: Wire, M39: Wire, M40: Wire, M41: Wire, M42: Wire, M43: Wire, M44: Wire, M45: Wire)

  /** The eighteen products that leave the middle. */
  datatype Products = Products(
    M46: Wire, M47: Wire, M48: Wire, M49: Wire, M50: Wire, M51: Wire, M52: Wire, M53: Wire, M54: Wire, M55: Wire,
    M56: Wire, M57: Wire, M58: Wire, M59: Wire, M60: Wire, M61: Wire, M62: Wire, M63: Wire)

  // ---- The circuit

  /** Linear preprocessing. */
  function Before(x: Lines): Wires {
    var U0, U1, U2, U3, U4, U5, U6, U7 := x.b7, x.b6, x.b5, x.b4, x.b3, x.b2, x.b1, x.b0;
    var T1 := XorGate(U0, U3);
    var T2 := XorGate(U0, U5);
    var T3 := XorGate(U0, U6);
    var T4 := XorGate(U3, U5);
    var T5 := XorGate(U4, U6);
    var T6 := XorGate(T1, T5);
    var T7 := XorGate(U1, U2);
    var T8 := XorGate(U7, T6);
    var T9 := XorGate(U7, T7);
    var T10 := XorGate(T6, T7);
    var T11 := XorGate(U1, U5);
    var T12 := XorGate(U2, U5);
    var T13 := XorGate(T3, T4);
    var T14 := XorGate(T6, T11);
    var T15 := XorGate(T5, T11);
    var T16 := XorGate(T5, T12);
    var T17 := XorGate(T9, T16);
    var T18 := XorGate(U3, U7);
    var T19 := XorGate(T7, T18);
    var T20 := XorGate(T1, T19);
    var T21 := XorGate(U6, U7);
    var T22 := XorGate(T7, T21);
    var T23 := XorGate(T2, T22);
    var T24 := XorGate(T2, T10);
    var T25 := XorGate(T20, T17);
    var T26 := XorGate(T3, T16);
    var T27 := XorGate(T1, T12);
    var D := U7;
    Wires(T1, T2, T3, T4, T6, T8, T9, T10, T13, T14, T15, T16, T17, T19, T20, T22, T23, T24, T25, T26, T27, D)
  }

  /** Undo linear postprocessing. */
  function BeforeInverse(x: Lines): Wires {
    var U0, U1, U2, U3, U4, U5, U6, U7 := x.b7, x.b6, x.b5, x.b4, x.b3, x.b2, x.b1, x.b0;
    var T23 := XorGate(U0, U3);
    var T22 := NotGate(XorGate(U1, U3));
    var T2 := NotGate(XorGate(U0, U1));
    var T1 := XorGate(U3, U4);
    var T24 := NotGate(XorGate(U4, U7));
    var R5 := XorGate(U6, U7);
    var T8 := NotGate(XorGate(U1, T23));
    var T19 := XorGate(T22, R5);
    var T9 := NotGate(XorGate(U7, T1));
    var T10 := XorGate(T2, T24);
    var T13 := XorGate(T2, R5);
    var T3 := XorGate(T1, R5);
    var T25 := NotGate(XorGate(U2, T1));
    var R13 := XorGate(U1, U6);
    var T17 := NotGate(XorGate(U2, T19));
    var T20 := XorGate(T24, R13);
    var T4 := XorGate(U4, T8);
    var R17 := NotGate(XorGate(U2, U5));
    var R18 := NotGate(XorGate(U5, U6));
    var R19 := NotGate(XorGate(U2, U4));
    var D := XorGate(U0, R17);
    var T6 := XorGate(T22, R17);
    var T16 := XorGate(R13, R19);
    var T27 := XorGate(T1, R18);
    var T15 := XorGate(T10, T27);
    var T14 := XorGate(T10, R18);
    var T26 := XorGate(T3, T16);
    Wires(T1, T2, T3, T4, T6, T8, T9, T10, T13, T14, T15, T16, T17, T19, T20, T22, T23, T24, T25, T26, T27, D)
  }

  /** The non-linear transformation: down to four bits, their inverse, and up again. */
  function Descend(w: Wires): Nibble {
    var T1, T2, T3, T4, T6, T8, T9, T10, T13, T14, T15 :=
      w.T1, w.T2, w.T3, w.T4, w.T6, w.T8, w.T9, w.T10, w.T13, w.T14, w.T15;
    var T16, T17, T19, T20, T22, T23, T24, T25, T26, T27, D :=
      w.T16, w.T17, w.T19, w.T20, w.T22, w.T23, w.T24, w.T25, w.T26, w.T27, w.D;
    var M1 := AndGate(T13, T6);
    var M6 := AndGate(T3, T16);
    var M11 := AndGate(T1, T15);
    var M13 := XorGate(AndGate(T4, T27), M11);
    var M15 := XorGate(AndGate(T2, T10), M11);
    var M20 := XorGate(XorGate(XorGate(T14, M1), AndGate(T23, T8)), M13);
    var M21 := XorGate(XorGate(XorGate(AndGate(T19, D), M1), T24), M15);
    var M22 := XorGate(XorGate(XorGate(T26, M6), AndGate(T22, T9)), M13);
    var M23 := XorGate(XorGate(XorGate(AndGate(T20, T17), M6), M15), T25);
    Nibble(M20, M21, M22, M23)
  }

  /** Inversion in the field of sixteen elements. */
  function Invert(n: Nibble): Shared {
    var M20, M21, M22, M23 := n.M20, n.M21, n.M22, n.M23;
    var M25 := AndGate(M22, M20);
    var M37 := XorGate(M21, AndGate(XorGate(M20, M21), XorGate(M23, M25)));
    var M38 := XorGate(XorGate(M20, M25), OrGate(M21, AndGate(M20, M23)));
    var M39 := XorGate(M23, AndGate(XorGate(M22, M23), XorGate(M21, M25)));
    var M40 := XorGate(XorGate(M22, M25), OrGate(M23, AndGate(M21, M22)));
    var M41 := XorGate(M38, M40);
    var M42 := XorGate(M37, M39);
    var M43 := XorGate(M37, M38);
    var M44 := XorGate(M39, M40);
    var M45 := XorGate(M42, M41);
    Shared(M37, M38, M39, M40, M41, M42, M43, M44, M45)
  }

  function Ascend(w: Wires, h: Shared): Products {
    var T1, T2, T3, T4, T6, T8, T9, T10, T13, T14, T15 :=
      w.T1, w.T2, w.T3, w.T4, w.T6, w.T8, w.T9, w.T10, w.T13, w.T14, w.T15;
    var T16, T17, T19, T20, T22, T23, T24, T25, T26, T27, D :=
      w.T16, w.T17, w.T19, w.T20, w.T22, w.T23, w.T24, w.T25, w.T26, w.T27, w.D;
    var M37, M38, M39, M40, M41, M42, M43, M44, M45 :=
      h.M37, h.M38, h.M39, h.M40, h.M41, h.M42, h.M43, h.M44, h.M45;
    Products(AndGate(M44, T6), AndGate(M40, T8), AndGate(M39, D), AndGate(M43, T16), AndGate(M38, T9),
             AndGate(M37, T17), AndGate(M42, T15), AndGate(M45, T27), AndGate(M41, T10), AndGate(M44, T13),
             AndGate(M40, T23), AndGate(M39, T19), AndGate(M43, T3), AndGate(M38, T22), AndGate(M37, T20),
             AndGate(M42, T1), AndGate(M45, T4), AndGate(M41, T2))
  }

  function Middle(w: Wires): Products { Ascend(w, Invert(Descend(w))) }

  /** Linear postprocessing. */
  function After(m: Products): Lines {
    var M46, M47, M48, M49, M50, M51, M52, M53, M54 :=
      m.M46, m.M47, m.M48, m.M49, m.M50, m.M51, m.M52, m.M53, m.M54;
    var M55, M56, M57, M58, M59, M60, M61, M62, M63 :=
      m.M55, m.M56, m.M57, m.M58, m.M59, m.M60, m.M61, m.M62, m.M63;
    var L0 := XorGate(M61, M62);
    var L1 := XorGate(M50, M56);
    var L2 := XorGate(M46, M48);
    var L3 := XorGate(M47, M55);
    var L4 := XorGate(M54, M58);
    var L5 := XorGate(M49, M61);
    var L6 := XorGate(M62, L5);
    var L7 := XorGate(M46, L3);
    var L8 := XorGate(M51, M59);
    var L9 := XorGate(M52, M53);
    var L10 := XorGate(M53, L4);
    var L11 := XorGate(M60, L2);
    var L12 := XorGate(M48, M51);
    var L13 := XorGate(M50, L0);
    var L14 := XorGate(M52, M61);
    var L15 := XorGate(M55, L1);
    var L16 := XorGate(M56, L0);
    var L17 := XorGate(M57, L1);
    var L18 := XorGate(M58, L8);
    var L19 := XorGate(M63, L4);
    var L20 := XorGate(L0, L1);
    var L21 := XorGate(L1, L7);
    var L22 := XorGate(L3, L12);
    var L23 := XorGate(L18, L2);
    var L24 := XorGate(L15, L9);
    var L25 := XorGate(L6, L10);
    var L26 := XorGate(L7, L9);
    var L27 := XorGate(L8, L10);
    var L28 := XorGate(L11, L14);
    var L29 := XorGate(L11, L17);
    Lines(NotGate(XorGate(L6, L23)), NotGate(XorGate(L13, L27)), XorGate(L25, L29), XorGate(L20, L22),
          XorGate(L6, L21), NotGate(XorGate(L19, L28)), NotGate(XorGate(L16, L26)), XorGate(L6, L24))
  }

  /** Undo linear preprocessing. */
  function AfterInverse(m: Products): Lines {
    var M46, M47, M48, M49, M50, M51, M52, M53, M54 :=
      m.M46, m.M47, m.M48, m.M49, m.M50, m.M51, m.M52, m.M53, m.M54;
    var M55, M56, M57, M58, M59, M60, M61, M62, M63 :=
      m.M55, m.M56, m.M57, m.M58, m.M59, m.M60, m.M61, m.M62, m.M63;
    var P0 := XorGate(M52, M61);
    var P1 := XorGate(M58, M59);
    var P2 := XorGate(M54, M62);
    var P3 := XorGate(M47, M50);
    var P4 := XorGate(M48, M56);
    var P5 := XorGate(M46, M51);
    var P6 := XorGate(M49, M60);
    var P7 := XorGate(P0, P1);
    var P8 := XorGate(M50, M53);
    var P9 := XorGate(M55, M63);
    var P10 := XorGate(M57, P4);
    var P11 := XorGate(P0, P3);
    var P12 := XorGate(M46, M48);
    var P13 := XorGate(M49, M51);
    var P14 := XorGate(M49, M62);
    var P15 := XorGate(M54, M59);
    var P16 := XorGate(M57, M61);
    var P17 := XorGate(M58, P2);
    var P18 := XorGate(M63, P5);
    var P19 := XorGate(P2, P3);
    var P20 := XorGate(P4, P6);
    var P22 := XorGate(P2, P7);
    var P23 := XorGate(P7, P8);
    var P24 := XorGate(P5, P7);
    var P25 := XorGate(P6, P10);
    var P26 := XorGate(P9, P11);
    var P27 := XorGate(P10, P18);
    var P28 := XorGate(P11, P25);
    var P29 := XorGate(P15, P20);
    Lines(XorGate(P9, P16), XorGate(P14, P23), XorGate(P19, P24), XorGate(P23, P27), XorGate(P12, P22),
          XorGate(P17, P28), XorGate(P26, P29), XorGate(P13, P22))
  }

  /** The circuit, and the circuit for the inverse S-box. */
  function Circuit(inv: bool, x: Lines): Lines {
    if inv then AfterInverse(Middle(BeforeInverse(x))) else After(Middle(Before(x)))
  }

  // ---- Bytes on the wires

  function LinesOf(x: Octet): Lines {
    Lines(Carry(x.b0), Carry(x.b1), Carry(x.b2), Carry(x.b3), Carry(x.b4), Carry(x.b5), Carry(x.b6), Carry(x.b7))
  }

  function OctetOn(l: Lines): Octet {
    Octet(l.b0 == On, l.b1 == On, l.b2 == On, l.b3 == On, l.b4 == On, l.b5 == On, l.b6 == On, l.b7 == On)
  }

  lemma BothWays(x: Octet, l: Lines)
    ensures OctetOn(LinesOf(x)) == x && LinesOf(OctetOn(l)) == l
  {}

  function SBox(x: Octet): Octet { OctetOn(Circuit(false, LinesOf(x))) }

  function InverseSBox(x: Octet): Octet { OctetOn(Circuit(true, LinesOf(x))) }

  // ---- The inverse circuit undoes the circuit

  // Each circuit law is proved for the bytes below 128 and for the others, with the bits as
  // parameters of their own.

  lemma LowUndone(b0: bool, b1: bool, b2: bool, b3: bool, b4: bool, b5: bool, b6: bool)
    ensures var l := Lines(Carry(b0), Carry(b1), Carry(b2), Carry(b3), Carry(b4), Carry(b5), Carry(b6), Carry(false));
      Circuit(true, Circuit(false, l)) == l
  {
    hide XorGate, AndGate, OrGate, NotGate, Carry;
    Carried();
  }

  lemma HighUndone(b0: bool, b1: bool, b2: bool, b3: bool, b4: bool, b5: bool, b6: bool)
    ensures var l := Lines(Carry(b0), Carry(b1), Carry(b2), Carry(b3), Carry(b4), Carry(b5), Carry(b6), Carry(true));
      Circuit(true, Circuit(false, l)) == l
  {
    hide XorGate, AndGate, OrGate, NotGate, Carry;
    Carried();
  }

  /** For every byte, the inverse S-box takes the S-box back. */
  lemma InverseUndoes(x: Octet)
    ensures InverseSBox(SBox(x)) == x
  {
    hide Circuit;
    BothWays(x, Circuit(false, LinesOf(x)));
    if x.b7 {
      HighUndone(x.b0, x.b1, x.b2, x.b3, x.b4, x.b5, x.b6);
    } else {
      LowUndone(x.b0, x.b1, x.b2, x.b3, x.b4, x.b5, x.b6);
    }
  }

  // ---- What the circuit computes: FIPS 197, sections 4.2 and 5.1.1

  function Plus(x: Octet, y: Octet): Octet {
    Octet(x.b0 != y.b0, x.b1 != y.b1, x.b2 != y.b2, x.b3 != y.b3,
          x.b4 != y.b4, x.b5 != y.b5, x.b6 != y.b6, x.b7 != y.b7)
  }

  const ZERO := Octet(false, false, false, false, false, false, false, false)
  const ONE := Octet(true, false, false, false, false, false, false, false)

  /** Multiplication by x modulo x^8 + x^4 + x^3 + x + 1. */
  function XTimes(x: Octet): Octet {
    Octet(x.b7, x.b0 != x.b7, x.b1, x.b2 != x.b7, x.b3 != x.b7, x.b4, x.b5, x.b6)
  }

  /** The product of two bytes in GF(2^8): the fifteen coefficients of the polynomial
      product, the seven highest of them reduced. */
  function TimesLines(x: Lines, y: Lines): Lines {
    var c0 := AndGate(x.b0, y.b0);
    var c1 := XorGate(AndGate(x.b0, y.b1), AndGate(x.b1, y.b0));
    var c2 := XorGate(XorGate(AndGate(x.b0, y.b2), AndGate(x.b1, y.b1)), AndGate(x.b2, y.b0));
    var c3 := XorGate(XorGate(XorGate(AndGate(x.b0, y.b3), AndGate(x.b1, y.b2)), AndGate(x.b2, y.b1)), AndGate(x.b3,
        y.b0));
    var c4 := XorGate(XorGate(XorGate(XorGate(AndGate(x.b0, y.b4), AndGate(x.b1, y.b3)), AndGate(x.b2, y.b2)),
        AndGate(x.b3, y.b1)), AndGate(x.b4, y.b0));
    var c5 := XorGate(XorGate(XorGate(XorGate(XorGate(AndGate(x.b0, y.b5), AndGate(x.b1, y.b4)), AndGate(x.b2,
        y.b3)), AndGate(x.b3, y.b2)), AndGate(x.b4, y.b1)), AndGate(x.b5, y.b0));
    var c6 := XorGate(XorGate(XorGate(XorGate(XorGate(XorGate(AndGate(x.b0, y.b6), AndGate(x.b1, y.b5)),
        AndGate(x.b2, y.b4)), AndGate(x.b3, y.b3)), AndGate(x.b4, y.b2)), AndGate(x.b5, y.b1)), AndGate(x.b6, y.b0));
    var c7 := XorGate(XorGate(XorGate(XorGate(XorGate(XorGate(XorGate(AndGate(x.b0, y.b7), AndGate(x.b1, y.b6)),
        AndGate(x.b2, y.b5)), AndGate(x.b3, y.b4)), AndGate(x.b4, y.b3)), AndGate(x.b5, y.b2)), AndGate(x.b6,
        y.b1)), AndGate(x.b7, y.b0));
    var c8 := XorGate(XorGate(XorGate(XorGate(XorGate(XorGate(AndGate(x.b1, y.b7), AndGate(x.b2, y.b6)),
        AndGate(x.b3, y.b5)), AndGate(x.b4, y.b4)), AndGate(x.b5, y.b3)), AndGate(x.b6, y.b2)), AndGate(x.b7, y.b1));
    var c9 := XorGate(XorGate(XorGate(XorGate(XorGate(AndGate(x.b2, y.b7), AndGate(x.b3, y.b6)), AndGate(x.b4,
        y.b5)), AndGate(x.b5, y.b4)), AndGate(x.b6, y.b3)), AndGate(x.b7, y.b2));
    var c10 := XorGate(XorGate(XorGate(XorGate(AndGate(x.b3, y.b7), AndGate(x.b4, y.b6)), AndGate(x.b5, y.b5)),
        AndGate(x.b6, y.b4)), AndGate(x.b7, y.b3));
    var c11 := XorGate(XorGate(XorGate(AndGate(x.b4, y.b7), AndGate(x.b5, y.b6)), AndGate(x.b6, y.b5)),
        AndGate(x.b7, y.b4));
    var c12 := XorGate(XorGate(AndGate(x.b5, y.b7), AndGate(x.b6, y.b6)), AndGate(x.b7, y.b5));
    var c13 := XorGate(AndGate(x.b6, y.b7), AndGate(x.b7, y.b6));
    var c14 := AndGate(x.b7, y.b7);
    Lines(XorGate(XorGate(XorGate(c0, c8), c12), c13),
          XorGate(XorGate(XorGate(XorGate(c1, c8), c9), c12), c14),
          XorGate(XorGate(XorGate(c2, c9), c10), c13),
          XorGate(XorGate(XorGate(XorGate(XorGate(XorGate(c3, c8), c10), c11), c12), c13), c14),
          XorGate(XorGate(XorGate(XorGate(c4, c8), c9), c11), c14),
          XorGate(XorGate(XorGate(c5, c9), c10), c12),
          XorGate(XorGate(XorGate(c6, c10), c11), c13),
          XorGate(XorGate(XorGate(c7, c11), c12), c14))
  }

  function AffineLines(y: Lines): Lines {
    Lines(NotGate(XorGate(XorGate(XorGate(XorGate(y.b0, y.b4), y.b5), y.b6), y.b7)),
          NotGate(XorGate(XorGate(XorGate(XorGate(y.b1, y.b5), y.b6), y.b7), y.b0)),
          XorGate(XorGate(XorGate(XorGate(y.b2, y.b6), y.b7), y.b0), y.b1),
          XorGate(XorGate(XorGate(XorGate(y.b3, y.b7), y.b0), y.b1), y.b2),
          XorGate(XorGate(XorGate(XorGate(y.b4, y.b0), y.b1), y.b2), y.b3),
          NotGate(XorGate(XorGate(XorGate(XorGate(y.b5, y.b1), y.b2), y.b3), y.b4)),
          NotGate(XorGate(XorGate(XorGate(XorGate(y.b6, y.b2), y.b3), y.b4), y.b5)),
          XorGate(XorGate(XorGate(XorGate(y.b7, y.b3), y.b4), y.b5), y.b6))
  }

  function UnaffineLines(z: Lines): Lines {
    Lines(NotGate(XorGate(XorGate(z.b2, z.b5), z.b7)),
          XorGate(XorGate(z.b3, z.b6), z.b0),
          NotGate(XorGate(XorGate(z.b4, z.b7), z.b1)),
          XorGate(XorGate(z.b5, z.b0), z.b2),
          XorGate(XorGate(z.b6, z.b1), z.b3),
          XorGate(XorGate(z.b7, z.b2), z.b4),
          XorGate(XorGate(z.b0, z.b3), z.b5),
          XorGate(XorGate(z.b1, z.b4), z.b6))
  }

  function Times(x: Octet, y: Octet): Octet { OctetOn(TimesLines(LinesOf(x), LinesOf(y))) }

  /** The affine transformation, and the one that undoes it. */
  function Affine(y: Octet): Octet { OctetOn(AffineLines(LinesOf(y))) }

  function Unaffine(z: Octet): Octet { OctetOn(UnaffineLines(LinesOf(z))) }

  lemma AffineUndone(b0: bool, b1: bool, b2: bool, b3: bool, b4: bool, b5: bool, b6: bool, b7: bool)
    ensures var l := Lines(Carry(b0), Carry(b1), Carry(b2), Carry(b3), Carry(b4), Carry(b5), Carry(b6), Carry(b7));
      AffineLines(UnaffineLines(l)) == l
  {
    hide XorGate, AndGate, OrGate, NotGate, Carry;
    Carried();
  }

  lemma AffineUnaffine(z: Octet)
    ensures Affine(Unaffine(z)) == z
  {
    hide AffineLines, UnaffineLines;
    BothWays(z, UnaffineLines(LinesOf(z)));
    AffineUndone(z.b0, z.b1, z.b2, z.b3, z.b4, z.b5, z.b6, z.b7);
  }

  lemma LowInverse(b0: bool, b1: bool, b2: bool, b3: bool, b4: bool, b5: bool, b6: bool)
    requires b0 || b1 || b2 || b3 || b4 || b5 || b6
    ensures var l := Lines(Carry(b0), Carry(b1), Carry(b2), Carry(b3), Carry(b4), Carry(b5), Carry(b6), Carry(false));
      TimesLines(l, UnaffineLines(Circuit(false, l))) == LinesOf(ONE)
  {
    hide XorGate, AndGate, OrGate, NotGate, Carry;
    Carried();
  }

  lemma HighInverse(b0: bool, b1: bool, b2: bool, b3: bool, b4: bool, b5: bool, b6: bool)
    ensures var l := Lines(Carry(b0), Carry(b1), Carry(b2), Carry(b3), Carry(b4), Carry(b5), Carry(b6), Carry(true));
      TimesLines(l, UnaffineLines(Circuit(false, l))) == LinesOf(ONE)
  {
    hide XorGate, AndGate, OrGate, NotGate, Carry;
    Carried();
  }

  /** Without the affine transformation, the circuit gives the inverse in the field. */
  lemma InverseInField(x: Octet)
    requires x != ZERO
    ensures Times(x, Unaffine(SBox(x))) == ONE
  {
    hide TimesLines, UnaffineLines, Circuit;
    BothWays(x, Circuit(false, LinesOf(x)));
    BothWays(x, UnaffineLines(Circuit(false, LinesOf(x))));
    if x.b7 {
      HighInverse(x.b0, x.b1, x.b2, x.b3, x.b4, x.b5, x.b6);
    } else {
      LowInverse(x.b0, x.b1, x.b2, x.b3, x.b4, x.b5, x.b6);
    }
  }

  lemma SBoxOfZero()
    ensures Unaffine(SBox(ZERO)) == ZERO
  {}

  /** The circuit is the S-box of FIPS 197: the affine transformation of the inverse in
      GF(2^8), with zero its own inverse. */
  lemma SBoxMeaning(x: Octet) returns (y: Octet)
    ensures SBox(x) == Affine(y)
    ensures if x == ZERO then y == ZERO else Times(x, y) == ONE
  {
    hide Affine, Unaffine, Times, SBox;
    y := Unaffine(SBox(x));
    AffineUnaffine(SBox(x));
    if x == ZERO { SBoxOfZero(); } else { InverseInField(x); }
  }

}
