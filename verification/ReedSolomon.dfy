/** The Reed-Solomon error correction code of the QR symbol encoder (qr.c):
    the generator polynomial, the remainder, and what the remainder is for. */
module ReedSolomon {
  import opened Gf256
  import opened Gf256Generator

  // ---- Polynomials over the field, highest coefficient first

  function Eval(p: seq<Byte>, r: Byte): Byte {
    if p == [] then 0 else Add(Mul(p[0], Pow(r, |p| - 1)), Eval(p[1..], r))
  }

  function Sum(p: seq<Byte>, q: seq<Byte>): (s: seq<Byte>)
    requires |p| == |q|
    ensures |s| == |p|
  {
    seq(|p|, i requires 0 <= i < |p| => Add(p[i], q[i]))
  }

  function Scale(c: Byte, p: seq<Byte>): (s: seq<Byte>)
    ensures |s| == |p|
  {
    seq(|p|, i requires 0 <= i < |p| => Mul(p[i], c))
  }

  /** The coefficient of x^e, zero beyond the leading one. */
  function Coef(p: seq<Byte>, e: nat): Byte {
    if e < |p| then p[|p| - 1 - e] else 0
  }

  /** p * (x - r). */
  function TimesRoot(p: seq<Byte>, r: Byte): (s: seq<Byte>)
    ensures |s| == |p| + 1
  {
    Sum(p + [0], Scale(r, [0] + p))
  }

  /** (x - 2^0) * ... * (x - 2^(k-1)). */
  function Generator(k: nat): (s: seq<Byte>)
    ensures |s| == k + 1
  {
    if k == 0 then [1] else TimesRoot(Generator(k - 1), Gen(k - 1))
  }

  lemma {:induction false} EvalZeros(n: nat, r: Byte)
    ensures Eval(seq(n, _ => 0), r) == 0
  {
    if n > 0 {
      var z: seq<Byte> := seq(n, _ => 0);
      assert z[1..] == seq(n - 1, _ => 0);
      EvalZeros(n - 1, r);
      MulZero(Pow(r, n - 1));
      AddZero(0);
    }
  }

  lemma {:induction false} EvalAppend(p: seq<Byte>, q: seq<Byte>, r: Byte)
    ensures Eval(p + q, r) == Add(Mul(Eval(p, r), Pow(r, |q|)), Eval(q, r))
  {
    hide Add, Mul;
    if p == [] {
      assert p + q == q;
      MulZero(Pow(r, |q|));
      AddZero(Eval(q, r));
    } else {
      var t := p[1..];
      var h := Mul(p[0], Pow(r, |t|));
      assert (p + q)[1..] == t + q;
      EvalAppend(t, q, r);
      PowAdd(r, |t|, |q|);
      MulAssoc(p[0], Pow(r, |t|), Pow(r, |q|));
      MulAddLeft(h, Eval(t, r), Pow(r, |q|));
      AddAssoc(Mul(h, Pow(r, |q|)), Mul(Eval(t, r), Pow(r, |q|)), Eval(q, r));
    }
  }

  lemma EvalOne(c: Byte, r: Byte)
    ensures Eval([c], r) == c
  {
    hide Add, Mul;
    MulOneRight(c);
    AddZero(c);
  }

  lemma {:induction false} EvalSum(p: seq<Byte>, q: seq<Byte>, r: Byte)
    requires |p| == |q|
    ensures Eval(Sum(p, q), r) == Add(Eval(p, r), Eval(q, r))
  {
    hide Add, Mul;
    if p == [] {
      AddZero(0);
    } else {
      assert Sum(p, q)[1..] == Sum(p[1..], q[1..]);
      EvalSum(p[1..], q[1..], r);
      var e := Pow(r, |p| - 1);
      MulAddLeft(p[0], q[0], e);
      AddRegroup(Mul(p[0], e), Mul(q[0], e), Eval(p[1..], r), Eval(q[1..], r));
    }
  }

  lemma {:induction false} EvalScale(c: Byte, p: seq<Byte>, r: Byte)
    ensures Eval(Scale(c, p), r) == Mul(Eval(p, r), c)
  {
    hide Add, Mul;
    if p == [] {
      MulZero(c);
    } else {
      assert Scale(c, p)[1..] == Scale(c, p[1..]);
      EvalScale(c, p[1..], r);
      var e := Pow(r, |p| - 1);
      MulAddLeft(Mul(p[0], e), Eval(p[1..], r), c);
      MulAssoc(p[0], e, c);
      MulComm(e, c);
      MulAssoc(p[0], c, e);
    }
  }

  // ---- The generator polynomial vanishes at 2^0, ..., 2^(k-1)

  lemma EvalTimesRoot(p: seq<Byte>, r: Byte, x: Byte)
    ensures Eval(TimesRoot(p, r), x) == Mul(Eval(p, x), Add(x, r))
  {
    hide Add, Mul, Eval;
    EvalSum(p + [0], Scale(r, [0] + p), x);
    EvalAppend(p, [0], x);
    EvalOne(0, x);
    EvalScale(r, [0] + p, x);
    EvalAppend([0], p, x);
    MulZero(Pow(x, |p|));
    AddZero(Eval(p, x));
    AddZero(Mul(Eval(p, x), x));
    PowOne(x);
    MulAddRight(Eval(p, x), x, r);
  }

  lemma PowOne(x: Byte)
    ensures Pow(x, 1) == x
  {
    hide Mul;
    MulOneRight(x);
    assert Pow(x, 0) == 1;
  }

  /** The generator vanishes at 2^0 to 2^(k-1). */
  lemma {:induction false} GeneratorRoots(k: nat, i: nat)
    requires i < k
    ensures Eval(Generator(k), Gen(i)) == 0
  {
    hide Add, Mul, Eval, Gen, TimesRoot;
    EvalTimesRoot(Generator(k - 1), Gen(k - 1), Gen(i));
    if i == k - 1 {
      AddSelf(Gen(i));
      MulZero(Eval(Generator(k - 1), Gen(i)));
    } else {
      GeneratorRoots(k - 1, i);
      MulZero(Add(Gen(i), Gen(k - 1)));
    }
  }

  lemma CoefTimesRoot(p: seq<Byte>, r: Byte, e: nat)
    ensures Coef(TimesRoot(p, r), e) == Add(if e == 0 then 0 else Coef(p, e - 1), Mul(Coef(p, e), r))
  {
    hide Add, Mul;
    MulZero(r);
    AddZero(0);
  }

  lemma {:induction false} GeneratorMonic(k: nat)
    ensures Generator(k)[0] == 1
  {
    hide Add, Mul;
    if k > 0 {
      GeneratorMonic(k - 1);
      MulZero(Gen(k - 1));
      AddZero(1);
    }
  }

  /** reedSolomonComputeDivisor: the generator without its leading 1. */
  method ComputeDivisor(degree: int, result: array<Byte>)
    requires 1 <= degree <= 30 && degree <= result.Length
    modifies result
    ensures [1] + result[..degree] == Generator(degree)
    ensures result[degree..] == old(result[degree..])
  {
    hide Add, Mul, Generator, TimesRoot;
    for j := 0 to degree
      invariant forall k :: 0 <= k < j ==> result[k] == 0
      invariant result[degree..] == old(result[degree..])
    {
      result[j] := 0;
    }
    result[degree - 1] := 1;
    GeneratorZero();
    var root: Byte := 1;
    for i := 0 to degree
      invariant root == Gen(i)
      invariant forall k :: 0 <= k < degree ==> result[k] == Coef(Generator(i), degree - 1 - k)
      invariant result[degree..] == old(result[degree..])
    {
      ghost var g := Generator(i);
      for j := 0 to degree
        invariant forall k :: j <= k < degree ==> result[k] == Coef(g, degree - 1 - k)
        invariant forall k :: 0 <= k < j ==> result[k] == Coef(Generator(i + 1), degree - 1 - k)
        invariant result[degree..] == old(result[degree..])
      {
        GeneratorStep(i, degree - 1 - j);
        result[j] := Multiply(result[j], root);
        if j + 1 < degree {
          AddComm(result[j], result[j + 1]);
          result[j] := Add(result[j], result[j + 1]);
        } else {
          AddZero(result[j]);
        }
      }
      GenNext(i);
      root := Multiply(root, 0x02);
    }
    GeneratorMonic(degree);
    assert |Generator(degree)| == degree + 1;
  }

  lemma GeneratorZero()
    ensures Generator(0) == [1] && Gen(0) == 1
  {}

  lemma GeneratorStep(i: nat, e: nat)
    ensures Coef(Generator(i + 1), e)
         == Add(if e == 0 then 0 else Coef(Generator(i), e - 1), Mul(Coef(Generator(i), e), Gen(i)))
  {
    hide Add, Mul, TimesRoot;
    CoefTimesRoot(Generator(i), Gen(i), e);
  }

  lemma GenNext(i: nat)
    ensures Gen(i + 1) == Mul(Gen(i), 2)
  {
    hide Mul;
    MulComm(Gen(i), 2);
  }

  // ---- The remainder

  /** One round of the division: shift a new data byte into the remainder and cancel
      the coefficient pushed out. `gen` has an implicit leading 1. */
  function RemainderStep(rem: seq<Byte>, gen: seq<Byte>, d: Byte): (s: seq<Byte>)
    requires |rem| == |gen| > 0
    ensures |s| == |gen|
  {
    Sum(rem[1..] + [0], Scale(Add(d, rem[0]), gen))
  }

  function Remainder(data: seq<Byte>, gen: seq<Byte>): (s: seq<Byte>)
    requires |gen| > 0
    ensures |s| == |gen|
  {
    if data == [] then seq(|gen|, _ => 0)
    else RemainderStep(Remainder(data[..|data| - 1], gen), gen, data[|data| - 1])
  }

  /** Everything outside a[at..at + n] is as in `was`. */
  ghost predicate SameOutside(a: array<Byte>, at: nat, n: nat, was: seq<Byte>)
    requires at + n <= a.Length == |was|
    reads a
  {
    forall k :: 0 <= k < a.Length && !(at <= k < at + n) ==> a[k] == was[k]
  }

  /** memset(&result[0], 0, degree) */
  method Clear(result: array<Byte>, at: nat, degree: nat)
    requires at + degree <= result.Length
    modifies result
    ensures result[at..at + degree] == seq(degree, _ => 0)
    ensures SameOutside(result, at, degree, old(result[..]))
  {
    for j := at to at + degree
      invariant forall k :: at <= k < j ==> result[k] == 0
      invariant SameOutside(result, at, degree, old(result[..]))
    {
      result[j] := 0;
    }
  }

  /** memmove(&result[0], &result[1], degree - 1), then a zero at the end. */
  method ShiftOut(result: array<Byte>, at: nat, degree: nat)
    requires 1 <= degree && at + degree <= result.Length
    modifies result
    ensures result[at..at + degree] == old(result[at + 1..at + degree]) + [0]
    ensures SameOutside(result, at, degree, old(result[..]))
  {
    for j := at to at + degree - 1
      invariant forall k :: at <= k < j ==> result[k] == old(result[k + 1])
      invariant forall k :: j <= k < at + degree ==> result[k] == old(result[k])
      invariant SameOutside(result, at, degree, old(result[..]))
    {
      result[j] := result[j + 1];
    }
    result[at + degree - 1] := 0;
  }

  /** The inner loop of the division: result ^= generator * factor. */
  method AddMultiple(result: array<Byte>, at: nat, generator: array<Byte>, degree: nat, factor: Byte)
    requires degree <= generator.Length && at + degree <= result.Length
    requires generator != result
    modifies result
    ensures result[at..at + degree] == Sum(old(result[at..at + degree]), Scale(factor, generator[..degree]))
    ensures SameOutside(result, at, degree, old(result[..]))
  {
    hide Add, Mul;
    for j := 0 to degree
      invariant forall k :: at <= k < at + j ==> result[k] == Add(old(result[k]), Mul(generator[k - at], factor))
      invariant forall k :: at + j <= k < at + degree ==> result[k] == old(result[k])
      invariant SameOutside(result, at, degree, old(result[..]))
    {
      var m := Multiply(generator[j], factor);
      result[at + j] := Add(result[at + j], m);
    }
  }

  /** reedSolomonComputeRemainder. The data and the result may lie in one buffer, as they
      do when addEccAndInterleave calls it, as long as the two ranges do not overlap. */
  method ComputeRemainder(data: array<Byte>, from: nat, dataLen: nat,
                          generator: array<Byte>, degree: int, result: array<Byte>, at: nat)
    requires 1 <= degree <= 30 && degree <= generator.Length
    requires from + dataLen <= data.Length && at + degree <= result.Length
    requires generator != result
    requires data == result ==> from + dataLen <= at || at + degree <= from
    modifies result
    ensures result[at..at + degree] == Remainder(old(data[from..from + dataLen]), generator[..degree])
    ensures SameOutside(result, at, degree, old(result[..]))
  {
    hide Add, Mul, Scale, Sum;
    ghost var d, g := data[from..from + dataLen], generator[..degree];
    Clear(result, at, degree);
    assert d[..0] == [];
    for i := 0 to dataLen
      invariant SameOutside(result, at, degree, old(result[..]))
      invariant result[at..at + degree] == Remainder(d[..i], g)
    {
      ghost var rem := Remainder(d[..i], g);
      assert data[from + i] == d[i];
      assert result[at] == rem[0];
      var factor := Add(data[from + i], result[at]);
      assert result[at + 1..at + degree] == rem[1..];
      ShiftOut(result, at, degree);
      AddMultiple(result, at, generator, degree, factor);
      assert d[..i + 1][..i] == d[..i];
    }
    assert d[..dataLen] == d;
  }

  /** A block as transmitted: the data bytes, then their error correction bytes. */
  function Codeword(data: seq<Byte>, degree: nat): (c: seq<Byte>)
    requires degree > 0
    ensures |c| == |data| + degree
  {
    data + Remainder(data, Generator(degree)[1..])
  }

  /** One round of the division keeps the block a multiple of the generator. */
  lemma StepKeepsRoot(data: seq<Byte>, rem: seq<Byte>, gen: seq<Byte>, d: Byte, r: Byte)
    requires |rem| == |gen| > 0
    requires Eval([1] + gen, r) == 0
    requires Eval(data + rem, r) == 0
    ensures Eval(data + [d] + RemainderStep(rem, gen, d), r) == 0
  {
    hide Add, Mul, Eval, Pow;
    var n := |gen|;
    var f := Add(d, rem[0]);
    var P, E := Pow(r, n), Eval(data, r);
    var R := Eval(rem[1..], r);
    var g := Eval(gen, r);
    // the generator: r^n = g(r)
    EvalAppend([1], gen, r);
    EvalOne(1, r);
    MulOneLeft(P);
    SumZero(P, g);
    // the block so far: E * r^n = rem[0] * r^(n-1) + R
    EvalAppend(data, rem, r);
    assert rem == [rem[0]] + rem[1..];
    EvalAppend([rem[0]], rem[1..], r);
    EvalOne(rem[0], r);
    SumZero(Mul(E, P), Eval(rem, r));
    // the new remainder: R * r + g(r) * f
    EvalSum(rem[1..] + [0], Scale(f, gen), r);
    EvalAppend(rem[1..], [0], r);
    EvalOne(0, r);
    PowOne(r);
    AddZero(Mul(R, r));
    EvalScale(f, gen, r);
    // the new data: (E * r + d) * r^n
    EvalAppend(data, [d], r);
    EvalOne(d, r);
    EvalAppend(data + [d], RemainderStep(rem, gen, d), r);
    StepAlgebra(E, P, Pow(r, n - 1), R, r, d, rem[0]) by { PowStep(r, n); }
    assert Mul(P, f) == Mul(g, f);
  }

  lemma PowStep(r: Byte, n: nat)
    requires n > 0
    ensures Pow(r, n) == Mul(r, Pow(r, n - 1))
  {}

  lemma SumZero(a: Byte, b: Byte)
    ensures Add(a, b) == 0 <==> a == b
  {
    hide Add;
    AddAssoc(a, b, b);
    AddSelf(b);
    AddZero(a);
    AddZero(b);
  }

  lemma StepAlgebra(E: Byte, P: Byte, Q: Byte, R: Byte, r: Byte, d: Byte, m: Byte)
    requires Mul(E, P) == Add(Mul(m, Q), R)
    requires P == Mul(r, Q)
    ensures Add(Mul(Add(Mul(E, r), d), P), Add(Mul(R, r), Mul(P, Add(d, m)))) == 0
  {
    hide Add, Mul;
    // (E r + d) P = E r P + d P, and E r P = (m Q + R) r = m P + R r
    MulAddLeft(Mul(E, r), d, P);
    MulAssoc(E, r, P);
    MulComm(r, P);
    MulAssoc(E, P, r);
    MulAddLeft(Mul(m, Q), R, r);
    MulAssoc(m, Q, r);
    MulComm(Q, r);
    // P (d + m) = d P + m P
    MulAddRight(P, d, m);
    MulComm(P, d);
    MulComm(P, m);
    var mP, dP, Rr := Mul(m, P), Mul(d, P), Mul(R, r);
    AddAssoc(mP, Rr, dP);
    AddComm(Rr, dP);
    AddAssoc(mP, dP, Rr);
    AddComm(mP, dP);
    var x := Add(dP, mP);
    AddComm(Rr, x);
    SumZero(Add(x, Rr), Add(Rr, x));
  }

  lemma {:induction false} RemainderRoot(data: seq<Byte>, gen: seq<Byte>, r: Byte)
    requires |gen| > 0
    requires Eval([1] + gen, r) == 0
    ensures Eval(data + Remainder(data, gen), r) == 0
  {
    hide Add, Mul, Eval, RemainderStep;
    if data == [] {
      assert data + Remainder(data, gen) == seq(|gen|, _ => 0);
      EvalZeros(|gen|, r);
    } else {
      var n := |data| - 1;
      RemainderRoot(data[..n], gen, r);
      StepKeepsRoot(data[..n], Remainder(data[..n], gen), gen, data[n], r);
      assert data[..n] + [data[n]] == data;
    }
  }

  /** A transmitted block, read as a polynomial, vanishes at 2^0, ..., 2^(degree-1). */
  lemma CodewordRoots(data: seq<Byte>, degree: nat, i: nat)
    requires i < degree
    ensures Eval(Codeword(data, degree), Gen(i)) == 0
  {
    hide Add, Mul, Eval, Gen, Generator;
    GeneratorMonic(degree);
    assert [1] + Generator(degree)[1..] == Generator(degree);
    GeneratorRoots(degree, i);
    RemainderRoot(data, Generator(degree)[1..], Gen(i));
  }

}
