/** SubBytes of ctaes.c: the S-box circuit on eight 16-bit slices works on sixteen bytes
    at once. */
module AesSubBytes {
  import opened Bits
  import opened Gates
  import opened AesSbox
  import opened AesSlices

  /** What a slice carries in lane k. */
  function WireAt(v: Slice, k: nat): Wire { Carry(Bit(v, k)) }

  /** The bitwise operators are gates in every lane. */
  lemma GatesInLanes(k: nat)
    requires k < 16
    ensures forall a: Slice, b: Slice {:trigger XorS(a, b)} ::
              WireAt(XorS(a, b), k) == XorGate(WireAt(a, k), WireAt(b, k))
    ensures forall a: Slice, b: Slice {:trigger AndS(a, b)} ::
              WireAt(AndS(a, b), k) == AndGate(WireAt(a, k), WireAt(b, k))
    ensures forall a: Slice, b: Slice {:trigger OrS(a, b)} :: WireAt(OrS(a, b), k) == OrGate(WireAt(a, k), WireAt(b, k))
    ensures forall a: Slice {:trigger NotS(a)} :: WireAt(NotS(a), k) == NotGate(WireAt(a, k))
  {
    hide XorS, AndS, OrS, NotS, Bit;
  }

  function LinesAt(U0: Slice, U1: Slice, U2: Slice, U3: Slice, U4: Slice, U5: Slice, U6: Slice, U7: Slice,
                   k: nat): Lines {
    Lines(WireAt(U7, k), WireAt(U6, k), WireAt(U5, k), WireAt(U4, k), WireAt(U3, k), WireAt(U2, k), WireAt(U1, k),
          WireAt(U0, k))
  }

  lemma LaneLines(s: array<Slice>, k: nat)
    requires s.Length == 8
    ensures LinesOf(Lane(s, k)) == LinesAt(s[7], s[6], s[5], s[4], s[3], s[2], s[1], s[0], k)
    ensures Lane(s, k) == OctetOn(LinesOf(Lane(s, k)))
  {
    hide Bit;
  }

  datatype WiresSlices = WiresSlices(
    T1: Slice, T2: Slice, T3: Slice, T4: Slice, T6: Slice, T8: Slice, T9: Slice, T10: Slice, T13: Slice, T14: Slice,
    T15: Slice, T16: Slice, T17: Slice, T19: Slice, T20: Slice, T22: Slice, T23: Slice, T24: Slice, T25: Slice,
    T26: Slice, T27: Slice, D: Slice)

  datatype ProductsSlices = ProductsSlices(
    M46: Slice, M47: Slice, M48: Slice, M49: Slice, M50: Slice, M51: Slice, M52: Slice, M53: Slice, M54: Slice,
    M55: Slice, M56: Slice, M57: Slice, M58: Slice, M59: Slice, M60: Slice, M61: Slice, M62: Slice, M63: Slice)

  function WiresAt(v: WiresSlices, k: nat): Wires {
    Wires(WireAt(v.T1, k), WireAt(v.T2, k), WireAt(v.T3, k), WireAt(v.T4, k), WireAt(v.T6, k), WireAt(v.T8, k),
          WireAt(v.T9, k), WireAt(v.T10, k), WireAt(v.T13, k), WireAt(v.T14, k), WireAt(v.T15, k), WireAt(v.T16, k),
          WireAt(v.T17, k), WireAt(v.T19, k), WireAt(v.T20, k), WireAt(v.T22, k), WireAt(v.T23, k), WireAt(v.T24, k),
          WireAt(v.T25, k), WireAt(v.T26, k), WireAt(v.T27, k), WireAt(v.D, k))
  }

  function ProductsAt(v: ProductsSlices, k: nat): Products {
    Products(WireAt(v.M46, k), WireAt(v.M47, k), WireAt(v.M48, k), WireAt(v.M49, k), WireAt(v.M50, k),
             WireAt(v.M51, k), WireAt(v.M52, k), WireAt(v.M53, k), WireAt(v.M54, k), WireAt(v.M55, k),
             WireAt(v.M56, k), WireAt(v.M57, k), WireAt(v.M58, k), WireAt(v.M59, k), WireAt(v.M60, k),
             WireAt(v.M61, k), WireAt(v.M62, k), WireAt(v.M63, k))
  }

  /** The linear layer in front of the middle, or that of the inverse. */
  method SlicesBefore(s: array<Slice>, inv: bool) returns (w: WiresSlices)
    requires s.Length == 8
    ensures forall k | 0 <= k < 16 ::
              WiresAt(w, k) == if inv then BeforeInverse(LinesOf(Lane(s, k))) else Before(LinesOf(Lane(s, k)))
  {
    hide XorS, AndS, OrS, NotS, WireAt, Lane, LinesOf, XorGate, AndGate, OrGate, NotGate;
    var U0, U1, U2, U3 := s[7], s[6], s[5], s[4];
    var U4, U5, U6, U7 := s[3], s[2], s[1], s[0];
    var T1: Slice, T2: Slice, T3: Slice, T4: Slice, T5: Slice, T6: Slice, T7: Slice, T8: Slice, T9: Slice;
    var T10: Slice, T11: Slice, T12: Slice, T13: Slice, T14: Slice, T15: Slice, T16: Slice, T17: Slice, T18: Slice;
    var T19: Slice, T20: Slice, T21: Slice, T22: Slice, T23: Slice, T24: Slice, T25: Slice, T26: Slice, T27: Slice,
      D: Slice;
    if inv {
      T23 := XorS(U0, U3);
      T22 := NotS(XorS(U1, U3));
      T2 := NotS(XorS(U0, U1));
      T1 := XorS(U3, U4);
      T24 := NotS(XorS(U4, U7));
      var R5 := XorS(U6, U7);
      T8 := NotS(XorS(U1, T23));
      T19 := XorS(T22, R5);
      T9 := NotS(XorS(U7, T1));
      T10 := XorS(T2, T24);
      T13 := XorS(T2, R5);
      T3 := XorS(T1, R5);
      T25 := NotS(XorS(U2, T1));
      var R13 := XorS(U1, U6);
      T17 := NotS(XorS(U2, T19));
      T20 := XorS(T24, R13);
      T4 := XorS(U4, T8);
      var R17 := NotS(XorS(U2, U5));
      var R18 := NotS(XorS(U5, U6));
      var R19 := NotS(XorS(U2, U4));
      D := XorS(U0, R17);
      T6 := XorS(T22, R17);
      T16 := XorS(R13, R19);
      T27 := XorS(T1, R18);
      T15 := XorS(T10, T27);
      T14 := XorS(T10, R18);
      T26 := XorS(T3, T16);
    } else {
      T1 := XorS(U0, U3);
      T2 := XorS(U0, U5);
      T3 := XorS(U0, U6);
      T4 := XorS(U3, U5);
      T5 := XorS(U4, U6);
      T6 := XorS(T1, T5);
      T7 := XorS(U1, U2);
      T8 := XorS(U7, T6);
      T9 := XorS(U7, T7);
      T10 := XorS(T6, T7);
      T11 := XorS(U1, U5);
      T12 := XorS(U2, U5);
      T13 := XorS(T3, T4);
      T14 := XorS(T6, T11);
      T15 := XorS(T5, T11);
      T16 := XorS(T5, T12);
      T17 := XorS(T9, T16);
      T18 := XorS(U3, U7);
      T19 := XorS(T7, T18);
      T20 := XorS(T1, T19);
      T21 := XorS(U6, U7);
      T22 := XorS(T7, T21);
      T23 := XorS(T2, T22);
      T24 := XorS(T2, T10);
      T25 := XorS(T20, T17);
      T26 := XorS(T3, T16);
      T27 := XorS(T1, T12);
      D := U7;
    }
    w := WiresSlices(T1, T2, T3, T4, T6, T8, T9, T10, T13, T14, T15, T16, T17, T19, T20, T22, T23, T24, T25, T26, T27,
                     D);
    forall k | 0 <= k < 16
      ensures WiresAt(w, k) == if inv then BeforeInverse(LinesOf(Lane(s, k))) else Before(LinesOf(Lane(s, k)))
    {
      GatesInLanes(k);
      LaneLines(s, k);
    }
  }

  /** The shared middle. */
  method SlicesMiddle(w: WiresSlices) returns (m: ProductsSlices)
    ensures forall k | 0 <= k < 16 :: ProductsAt(m, k) == Middle(WiresAt(w, k))
  {
    hide XorS, AndS, OrS, NotS, WireAt, XorGate, AndGate, OrGate, NotGate;
    var T1, T2, T3, T4, T6, T8, T9, T10, T13, T14, T15 :=
      w.T1, w.T2, w.T3, w.T4, w.T6, w.T8, w.T9, w.T10, w.T13, w.T14, w.T15;
    var T16, T17, T19, T20, T22, T23, T24, T25, T26, T27, D :=
      w.T16, w.T17, w.T19, w.T20, w.T22, w.T23, w.T24, w.T25, w.T26, w.T27, w.D;
    var M1 := AndS(T13, T6);
    var M6 := AndS(T3, T16);
    var M11 := AndS(T1, T15);
    var M13 := XorS(AndS(T4, T27), M11);
    var M15 := XorS(AndS(T2, T10), M11);
    var M20 := XorS(XorS(XorS(T14, M1), AndS(T23, T8)), M13);
    var M21 := XorS(XorS(XorS(AndS(T19, D), M1), T24), M15);
    var M22 := XorS(XorS(XorS(T26, M6), AndS(T22, T9)), M13);
    var M23 := XorS(XorS(XorS(AndS(T20, T17), M6), M15), T25);
    var M25 := AndS(M22, M20);
    var M37 := XorS(M21, AndS(XorS(M20, M21), XorS(M23, M25)));
    var M38 := XorS(XorS(M20, M25), OrS(M21, AndS(M20, M23)));
    var M39 := XorS(M23, AndS(XorS(M22, M23), XorS(M21, M25)));
    var M40 := XorS(XorS(M22, M25), OrS(M23, AndS(M21, M22)));
    var M41 := XorS(M38, M40);
    var M42 := XorS(M37, M39);
    var M43 := XorS(M37, M38);
    var M44 := XorS(M39, M40);
    var M45 := XorS(M42, M41);
    var M46 := AndS(M44, T6);
    var M47 := AndS(M40, T8);
    var M48 := AndS(M39, D);
    var M49 := AndS(M43, T16);
    var M50 := AndS(M38, T9);
    var M51 := AndS(M37, T17);
    var M52 := AndS(M42, T15);
    var M53 := AndS(M45, T27);
    var M54 := AndS(M41, T10);
    var M55 := AndS(M44, T13);
    var M56 := AndS(M40, T23);
    var M57 := AndS(M39, T19);
    var M58 := AndS(M43, T3);
    var M59 := AndS(M38, T22);
    var M60 := AndS(M37, T20);
    var M61 := AndS(M42, T1);
    var M62 := AndS(M45, T4);
    var M63 := AndS(M41, T2);
    m := ProductsSlices(M46, M47, M48, M49, M50, M51, M52, M53, M54, M55, M56, M57, M58, M59, M60, M61, M62, M63);
    forall k | 0 <= k < 16 ensures ProductsAt(m, k) == Middle(WiresAt(w, k)) { GatesInLanes(k); }
  }

  /** The linear layer behind the middle, or that of the inverse: the slices from the lowest up. */
  method SlicesAfter(m: ProductsSlices, inv: bool)
      returns (S0: Slice, S1: Slice, S2: Slice, S3: Slice, S4: Slice, S5: Slice, S6: Slice, S7: Slice)
    ensures forall k | 0 <= k < 16 ::
              LinesAt(S7, S6, S5, S4, S3, S2, S1, S0, k)
              == if inv then AfterInverse(ProductsAt(m, k)) else After(ProductsAt(m, k))
  {
    hide XorS, AndS, OrS, NotS, WireAt, XorGate, AndGate, OrGate, NotGate;
    var M46, M47, M48, M49, M50, M51, M52, M53, M54 :=
      m.M46, m.M47, m.M48, m.M49, m.M50, m.M51, m.M52, m.M53, m.M54;
    var M55, M56, M57, M58, M59, M60, M61, M62, M63 :=
      m.M55, m.M56, m.M57, m.M58, m.M59, m.M60, m.M61, m.M62, m.M63;
    if inv {
      var P0 := XorS(M52, M61);
      var P1 := XorS(M58, M59);
      var P2 := XorS(M54, M62);
      var P3 := XorS(M47, M50);
      var P4 := XorS(M48, M56);
      var P5 := XorS(M46, M51);
      var P6 := XorS(M49, M60);
      var P7 := XorS(P0, P1);
      var P8 := XorS(M50, M53);
      var P9 := XorS(M55, M63);
      var P10 := XorS(M57, P4);
      var P11 := XorS(P0, P3);
      var P12 := XorS(M46, M48);
      var P13 := XorS(M49, M51);
      var P14 := XorS(M49, M62);
      var P15 := XorS(M54, M59);
      var P16 := XorS(M57, M61);
      var P17 := XorS(M58, P2);
      var P18 := XorS(M63, P5);
      var P19 := XorS(P2, P3);
      var P20 := XorS(P4, P6);
      var P22 := XorS(P2, P7);
      var P23 := XorS(P7, P8);
      var P24 := XorS(P5, P7);
      var P25 := XorS(P6, P10);
      var P26 := XorS(P9, P11);
      var P27 := XorS(P10, P18);
      var P28 := XorS(P11, P25);
      var P29 := XorS(P15, P20);
      S7 := XorS(P13, P22);
      S6 := XorS(P26, P29);
      S5 := XorS(P17, P28);
      S4 := XorS(P12, P22);
      S3 := XorS(P23, P27);
      S2 := XorS(P19, P24);
      S1 := XorS(P14, P23);
      S0 := XorS(P9, P16);
    } else {
      var L0 := XorS(M61, M62);
      var L1 := XorS(M50, M56);
      var L2 := XorS(M46, M48);
      var L3 := XorS(M47, M55);
      var L4 := XorS(M54, M58);
      var L5 := XorS(M49, M61);
      var L6 := XorS(M62, L5);
      var L7 := XorS(M46, L3);
      var L8 := XorS(M51, M59);
      var L9 := XorS(M52, M53);
      var L10 := XorS(M53, L4);
      var L11 := XorS(M60, L2);
      var L12 := XorS(M48, M51);
      var L13 := XorS(M50, L0);
      var L14 := XorS(M52, M61);
      var L15 := XorS(M55, L1);
      var L16 := XorS(M56, L0);
      var L17 := XorS(M57, L1);
      var L18 := XorS(M58, L8);
      var L19 := XorS(M63, L4);
      var L20 := XorS(L0, L1);
      var L21 := XorS(L1, L7);
      var L22 := XorS(L3, L12);
      var L23 := XorS(L18, L2);
      var L24 := XorS(L15, L9);
      var L25 := XorS(L6, L10);
      var L26 := XorS(L7, L9);
      var L27 := XorS(L8, L10);
      var L28 := XorS(L11, L14);
      var L29 := XorS(L11, L17);
      S7 := XorS(L6, L24);
      S6 := NotS(XorS(L16, L26));
      S5 := NotS(XorS(L19, L28));
      S4 := XorS(L6, L21);
      S3 := XorS(L20, L22);
      S2 := XorS(L25, L29);
      S1 := NotS(XorS(L13, L27));
      S0 := NotS(XorS(L6, L23));
    }
    forall k | 0 <= k < 16
      ensures LinesAt(S7, S6, S5, S4, S3, S2, S1, S0, k)
              == if inv then AfterInverse(ProductsAt(m, k)) else After(ProductsAt(m, k))
    {
      GatesInLanes(k);
    }
  }

  /** SubBytes: the S-box, or its inverse, in every lane. */
  method SubBytes(s: array<Slice>, inv: bool)
    requires s.Length == 8
    modifies s
    ensures forall k | 0 <= k < 16 ::
              Lane(s, k) == if inv then InverseSBox(old(Lane(s, k))) else SBox(old(Lane(s, k)))
  {
    hide Lane, LinesOf, LinesAt, WiresAt, ProductsAt, Before, BeforeInverse, Middle, After, AfterInverse, OctetOn;
    var w := SlicesBefore(s, inv);
    var m := SlicesMiddle(w);
    s[0], s[1], s[2], s[3], s[4], s[5], s[6], s[7] := SlicesAfter(m, inv);
    forall k | 0 <= k < 16
      ensures Lane(s, k) == if inv then InverseSBox(old(Lane(s, k))) else SBox(old(Lane(s, k)))
    {
      LaneLines(s, k);
    }
  }

}
