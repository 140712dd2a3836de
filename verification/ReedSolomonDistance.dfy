/** What the error correction bytes are for: two blocks of at most 255 bytes that differ
    in their data differ, once encoded, in more than `degree` places, so degree / 2
    damaged bytes still leave the original block the nearest one. */
module ReedSolomonDistance {
  import opened Gf256
  import opened Gf256Generator
  import opened ReedSolomon
  import opened Sequences

  /** cs[0] * as[0]^i + cs[1] * as[1]^i + ... */
  function PowerSum(cs: seq<Byte>, points: seq<Byte>, i: nat): Byte
    requires |cs| == |points|
  {
    if cs == [] then 0
    else Add(PowerSum(cs[..|cs| - 1], points[..|cs| - 1], i), Mul(cs[|cs| - 1], Pow(points[|cs| - 1], i)))
  }

  /** cs with each entry multiplied by (its point - a). */
  function Eliminate(cs: seq<Byte>, points: seq<Byte>, a: Byte): (r: seq<Byte>)
    requires |cs| == |points|
    ensures |r| == |cs|
  {
    seq(|cs|, k requires 0 <= k < |cs| => Mul(cs[k], Add(points[k], a)))
  }

  lemma {:induction false} EliminateSum(cs: seq<Byte>, points: seq<Byte>, a: Byte, i: nat)
    requires |cs| == |points|
    ensures PowerSum(Eliminate(cs, points, a), points, i)
         == Add(PowerSum(cs, points, i + 1), Mul(PowerSum(cs, points, i), a))
  {
    hide Add, Mul, Pow;
    if cs == [] {
      MulZero(a);
      AddZero(0);
    } else {
      var n := |cs| - 1;
      var cs', ps' := cs[..n], points[..n];
      var c, p := cs[n], points[n];
      var P := Pow(p, i);
      EliminateSum(cs', ps', a, i);
      assert Eliminate(cs, points, a)[..n] == Eliminate(cs', ps', a);
      // c * (p + a) * p^i == c * p^(i+1) + (c * p^i) * a
      PowStep(p, i + 1);
      MulAddRight(c, p, a);
      MulAddLeft(Mul(c, p), Mul(c, a), P);
      MulAssoc(c, p, P);
      MulAssoc(c, a, P);
      MulComm(a, P);
      MulAssoc(c, P, a);
      MulAddLeft(PowerSum(cs', ps', i), Mul(c, P), a);
      AddRegroup(PowerSum(cs', ps', i + 1), Mul(PowerSum(cs', ps', i), a), Mul(c, Pow(p, i + 1)), Mul(Mul(c, P), a));
    }
  }

  /** Distinct points: w power sums that all vanish leave only zero coefficients. */
  lemma {:induction false} Vandermonde(cs: seq<Byte>, points: seq<Byte>)
    requires |cs| == |points| && Distinct(points)
    requires forall i: nat :: i < |cs| ==> PowerSum(cs, points, i) == 0
    ensures forall k :: 0 <= k < |cs| ==> cs[k] == 0
    decreases |cs|
  {
    hide Add, Mul, Pow;
    if cs != [] {
      var n := |cs| - 1;
      var cs', ps' := cs[..n], points[..n];
      var c, a := cs[n], points[n];
      var es := Eliminate(cs', ps', a);
      forall i: nat | i < n
        ensures PowerSum(es, ps', i) == 0
      {
        LastTerm(cs, points, i);
        LastTerm(cs, points, i + 1);
        EliminateSum(cs', ps', a, i);
        PowStep(a, i + 1);
        MulComm(a, Pow(a, i));
        MulAssoc(c, Pow(a, i), a);
        AddSelf(Mul(c, Pow(a, i + 1)));
      }
      Vandermonde(es, ps');
      forall k | 0 <= k < n
        ensures cs[k] == 0
      {
        assert es[k] == 0;
        NoZeroDivisors(cs[k], Add(points[k], a));
        SumZero(points[k], a);
      }
      LastTerm(cs, points, 0);
      ZeroCoefficients(cs', ps', 0);
      assert Pow(a, 0) == 1 by { PowZero(a); }
      MulOneRight(c);
    }
  }

  lemma PowZero(a: Byte)
    ensures Pow(a, 0) == 1
  {}

  lemma LastTerm(cs: seq<Byte>, points: seq<Byte>, i: nat)
    requires |cs| == |points| > 0
    requires PowerSum(cs, points, i) == 0
    ensures PowerSum(cs[..|cs| - 1], points[..|cs| - 1], i) == Mul(cs[|cs| - 1], Pow(points[|cs| - 1], i))
  {
    hide Add, Mul, Pow;
    SumZero(PowerSum(cs[..|cs| - 1], points[..|cs| - 1], i), Mul(cs[|cs| - 1], Pow(points[|cs| - 1], i)));
  }

  lemma {:induction false} ZeroCoefficients(cs: seq<Byte>, points: seq<Byte>, i: nat)
    requires |cs| == |points|
    requires forall k :: 0 <= k < |cs| ==> cs[k] == 0
    ensures PowerSum(cs, points, i) == 0
  {
    hide Add, Mul, Pow;
    AddZero(0);
    if cs != [] {
      ZeroCoefficients(cs[..|cs| - 1], points[..|cs| - 1], i);
      MulZero(Pow(points[|cs| - 1], i));
    }
  }

  // ---- The nonzero places of a polynomial

  /** Number of places where two blocks differ. */
  function Distance(p: seq<Byte>, q: seq<Byte>): nat
    requires |p| == |q|
  {
    if p == [] then 0 else (if p[0] == q[0] then 0 else 1) + Distance(p[1..], q[1..])
  }

  /** The nonzero coefficients, the last one first. */
  function Values(p: seq<Byte>): (r: seq<Byte>)
    ensures forall k :: 0 <= k < |r| ==> r[k] != 0
  {
    if p == [] then [] else Values(p[1..]) + if p[0] == 0 then [] else [p[0]]
  }

  /** For each nonzero coefficient of x^e, the point 2^e. */
  function Points(p: seq<Byte>): (r: seq<Byte>)
    ensures |r| == |Values(p)|
  {
    if p == [] then [] else Points(p[1..]) + if p[0] == 0 then [] else [Gen(|p| - 1)]
  }

  lemma {:induction false} PointsDistinct(p: seq<Byte>)
    requires |p| <= 255
    ensures Distinct(Points(p))
    ensures forall x :: x in Points(p) ==> exists e: nat :: e < |p| && Gen(e) == x
  {
    hide Gen;
    if p != [] {
      PointsDistinct(p[1..]);
      forall e: nat | e < |p| - 1
        ensures Gen(e) != Gen(|p| - 1)
      {
        GenDistinct(e, |p| - 1);
      }
      var Q := Points(p[1..]);
      forall j | 0 <= j < |Q|
        ensures Q[j] != Gen(|p| - 1)
      {
        var x := Q[j];
        assert x in Q;
        var e: nat :| e < |p| - 1 && Gen(e) == x;
      }
      forall x | x in Points(p)
        ensures exists e: nat :: e < |p| && Gen(e) == x
      {
        if x in Q {
          var e: nat :| e < |p| - 1 && Gen(e) == x;
        } else {
          assert x == Gen(|p| - 1);
        }
      }
    }
  }

  /** Evaluating at 2^i is the i-th power sum of the points. */
  lemma {:induction false} EvalIsPowerSum(p: seq<Byte>, i: nat)
    ensures Eval(p, Gen(i)) == PowerSum(Values(p), Points(p), i)
  {
    hide Add, Mul, Gen;
    if p != [] {
      EvalIsPowerSum(p[1..], i);
      var e := |p| - 1;
      var V, Q := Values(p[1..]), Points(p[1..]);
      GenPow(i, e);
      AddComm(Mul(p[0], Pow(Gen(i), e)), Eval(p[1..], Gen(i)));
      if p[0] == 0 {
        MulZero(Pow(Gen(i), e));
        AddZero(Eval(p[1..], Gen(i)));
        assert V + [] == V && Q + [] == Q;
      } else {
        assert (V + [p[0]])[..|V|] == V && (Q + [Gen(e)])[..|V|] == Q;
      }
    }
  }

  lemma GenPow(i: nat, e: nat)
    ensures Pow(Gen(i), e) == Pow(Gen(e), i)
  {
    PowMul(2, i, e);
    PowMul(2, e, i);
    assert i * e == e * i;
  }

  lemma {:induction false} DistanceIsWeight(p: seq<Byte>, q: seq<Byte>)
    requires |p| == |q|
    ensures Distance(p, q) == |Values(Sum(p, q))|
  {
    hide Add;
    if p != [] {
      assert Sum(p, q)[1..] == Sum(p[1..], q[1..]);
      DistanceIsWeight(p[1..], q[1..]);
      SumZero(p[0], q[0]);
    }
  }

  lemma {:induction false} DistanceZero(p: seq<Byte>, q: seq<Byte>)
    requires |p| == |q|
    ensures Distance(p, q) == 0 <==> p == q
  {
    if p != [] {
      DistanceZero(p[1..], q[1..]);
      assert p == [p[0]] + p[1..] && q == [q[0]] + q[1..];
    }
  }

  /** A nonzero polynomial of at most 255 terms that vanishes at `degree` consecutive
      powers of 2 has more than `degree` terms. */
  lemma FarFromZero(p: seq<Byte>, degree: nat)
    requires |p| <= 255
    requires forall i: nat :: i < degree ==> Eval(p, Gen(i)) == 0
    ensures Values(p) == [] || |Values(p)| > degree
  {
    hide Eval, Gen, Values, Points, PowerSum;
    if Values(p) != [] && |Values(p)| <= degree {
      var first := Values(p)[0];
      PointsDistinct(p);
      forall i: nat | i < |Values(p)|
        ensures PowerSum(Values(p), Points(p), i) == 0
      {
        EvalIsPowerSum(p, i);
      }
      Vandermonde(Values(p), Points(p));
    }
  }

  /** The minimum distance of the code. */
  lemma MinimumDistance(d: seq<Byte>, d': seq<Byte>, degree: nat)
    requires degree > 0 && |d| == |d'| && |d| + degree <= 255 && d != d'
    ensures Distance(Codeword(d, degree), Codeword(d', degree)) > degree
  {
    hide Eval, Gen, Values, Remainder;
    var c, c' := Codeword(d, degree), Codeword(d', degree);
    var s := Sum(c, c');
    forall i: nat | i < degree
      ensures Eval(s, Gen(i)) == 0
    {
      CodewordRoots(d, degree, i);
      CodewordRoots(d', degree, i);
      EvalSum(c, c', Gen(i));
      AddZero(0);
    }
    FarFromZero(s, degree);
    DistanceIsWeight(c, c');
    DistanceZero(c, c');
    assert c[..|d|] == d && c'[..|d|] == d';
  }

  /** The roots leave no other choice of error correction bytes. */
  lemma RemainderUnique(d: seq<Byte>, ecc: seq<Byte>, degree: nat)
    requires degree > 0 && |ecc| == degree && |d| + degree <= 255
    requires forall i: nat :: i < degree ==> Eval(d + ecc, Gen(i)) == 0
    ensures d + ecc == Codeword(d, degree)
  {
    hide Eval, Gen, Values, Remainder;
    var c, c' := d + ecc, Codeword(d, degree);
    var s := Sum(c, c');
    forall i: nat | i < degree
      ensures Eval(s, Gen(i)) == 0
    {
      CodewordRoots(d, degree, i);
      EvalSum(c, c', Gen(i));
      AddZero(0);
    }
    FarFromZero(s, degree);
    DistanceIsWeight(c, c');
    DistanceZero(c, c');
    DistancePrefix(d, ecc, c'[|d|..]);
    assert c' == d + c'[|d|..];
  }

  lemma {:induction false} DistancePrefix(d: seq<Byte>, p: seq<Byte>, q: seq<Byte>)
    requires |p| == |q|
    ensures Distance(d + p, d + q) <= |p|
  {
    if d == [] {
      assert d + p == p && d + q == q;
      DistanceBound(p, q);
    } else {
      assert (d + p)[1..] == d[1..] + p && (d + q)[1..] == d[1..] + q;
      DistancePrefix(d[1..], p, q);
    }
  }

  lemma {:induction false} DistanceBound(p: seq<Byte>, q: seq<Byte>)
    requires |p| == |q|
    ensures Distance(p, q) <= |p|
  {
    if p != [] { DistanceBound(p[1..], q[1..]); }
  }

  /** Any block within degree / 2 damaged bytes of a codeword is that far from no other. */
  lemma NearestBlock(d: seq<Byte>, d': seq<Byte>, degree: nat, received: seq<Byte>)
    requires degree > 0 && |d| == |d'| && |d| + degree <= 255 && |received| == |d| + degree
    requires 2 * Distance(Codeword(d, degree), received) <= degree
    requires Distance(Codeword(d', degree), received) <= Distance(Codeword(d, degree), received)
    ensures d == d'
  {
    hide Codeword, Distance;
    if d != d' {
      MinimumDistance(d, d', degree);
      Triangle(Codeword(d, degree), received, Codeword(d', degree));
      DistanceSymmetric(Codeword(d', degree), received);
    }
  }

  lemma {:induction false} Triangle(p: seq<Byte>, q: seq<Byte>, r: seq<Byte>)
    requires |p| == |q| == |r|
    ensures Distance(p, r) <= Distance(p, q) + Distance(q, r)
  {
    if p != [] { Triangle(p[1..], q[1..], r[1..]); }
  }

  lemma {:induction false} DistanceSymmetric(p: seq<Byte>, q: seq<Byte>)
    requires |p| == |q|
    ensures Distance(p, q) == Distance(q, p)
  {
    if p != [] { DistanceSymmetric(p[1..], q[1..]); }
  }

}
