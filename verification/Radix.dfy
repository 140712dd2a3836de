/** Numbers written in a base, the most significant digit first. */
module Radix {
  import opened Arith

  function Power(b: nat, n: nat): nat {
    if n == 0 then 1 else b * Power(b, n - 1)
  }

  function Val(ds: seq<nat>, b: nat): nat {
    if ds == [] then 0 else Val(ds[..|ds| - 1], b) * b + ds[|ds| - 1]
  }

  /** All digits lie below the base. */
  predicate IsDigits(ds: seq<nat>, b: nat) {
    forall i :: 0 <= i < |ds| ==> ds[i] < b
  }

  /** No leading zero. */
  predicate IsCanonical(ds: seq<nat>) {
    ds != [] ==> ds[0] != 0
  }

  /** The digits of v, without leading zeros; zero has none. */
  function DigitsOf(v: nat, b: nat): (ds: seq<nat>)
    requires b >= 2
    decreases v
  {
    if v == 0 then [] else DivShrinks(v, b); DigitsOf(v / b, b) + [v % b]
  }

  function Zeros(n: nat): (z: seq<nat>)
    ensures |z| == n
  {
    seq(n, _ => 0)
  }

  lemma DivShrinks(v: nat, b: nat)
    requires b >= 2 && v > 0
    ensures 0 <= v / b < v && 0 <= v % b < b && v == v / b * b + v % b
  {
    var q := v / b;
    assert v == q * b + v % b;
    if q >= v { MulMono(2, b, q); }
  }

  lemma PowerStep(b: nat, k: nat)
    ensures Power(b, k + 1) == b * Power(b, k)
  {}

  lemma {:induction false} PowerPositive(b: nat, n: nat)
    requires b > 0
    ensures Power(b, n) > 0
  {
    if n > 0 {
      PowerPositive(b, n - 1);
      MulMono(1, b, Power(b, n - 1));
    }
  }

  lemma {:induction false} PowerAdd(b: nat, m: nat, n: nat)
    ensures Power(b, m + n) == Power(b, m) * Power(b, n)
  {
    if m > 0 {
      PowerAdd(b, m - 1, n);
      Assoc(b, Power(b, m - 1), Power(b, n));
    }
  }

  lemma {:induction false} PowerMono(b: nat, m: nat, n: nat)
    requires b > 0 && m <= n
    ensures Power(b, m) <= Power(b, n)
  {
    if m < n {
      PowerMono(b, m, n - 1);
      MulMono(1, b, Power(b, n - 1));
    }
  }

  lemma {:induction false} ValAppend(p: seq<nat>, q: seq<nat>, b: nat)
    ensures Val(p + q, b) == Val(p, b) * Power(b, |q|) + Val(q, b)
  {
    if q == [] {
      assert p + q == p;
    } else {
      var n := |q| - 1;
      assert (p + q)[..|p| + n] == p + q[..n];
      ValAppend(p, q[..n], b);
      var v, w, P := Val(p, b), Val(q[..n], b), Power(b, n);
      assert (v * P + w) * b == v * (b * P) + w * b by {
        Distribute(v * P, w, b);
        Assoc(v, P, b);
      }
    }
  }

  lemma ValCons(d: nat, ds: seq<nat>, b: nat)
    ensures Val([d] + ds, b) == d * Power(b, |ds|) + Val(ds, b)
  {
    ValAppend([d], ds, b);
    assert Val([d], b) == d by { assert [d][..0] == []; }
  }

  lemma {:induction false} ValBound(ds: seq<nat>, b: nat)
    requires b > 0 && IsDigits(ds, b)
    ensures Val(ds, b) < Power(b, |ds|)
  {
    if ds != [] {
      var n := |ds| - 1;
      ValBound(ds[..n], b);
      MulMono(Val(ds[..n], b) + 1, Power(b, n), b);
      Distribute(Val(ds[..n], b), 1, b);
    }
  }

  lemma {:induction false} ValZeros(n: nat, b: nat)
    ensures Val(Zeros(n), b) == 0
  {
    if n > 0 {
      assert Zeros(n)[..n - 1] == Zeros(n - 1);
      ValZeros(n - 1, b);
    }
  }

  lemma LeadingZeros(n: nat, ds: seq<nat>, b: nat)
    ensures Val(Zeros(n) + ds, b) == Val(ds, b)
  {
    ValAppend(Zeros(n), ds, b);
    ValZeros(n, b);
  }

  /** Writing a number and reading it. */
  lemma {:induction false} ValOfDigits(v: nat, b: nat)
    requires b >= 2
    ensures Val(DigitsOf(v, b), b) == v
    ensures IsDigits(DigitsOf(v, b), b) && IsCanonical(DigitsOf(v, b))
    decreases v
  {
    if v != 0 {
      DivShrinks(v, b);
      ValOfDigits(v / b, b);
      var h := DigitsOf(v / b, b);
      assert (h + [v % b])[..|h|] == h;
      if v / b == 0 { assert v == v % b by { assert 0 * b == 0; } }
    }
  }

  /** Reading digits and writing the number again: only leading zeros are lost. */
  lemma {:induction false} DigitsOfVal(ds: seq<nat>, b: nat)
    requires b >= 2 && IsDigits(ds, b) && IsCanonical(ds)
    ensures DigitsOf(Val(ds, b), b) == ds
  {
    if ds != [] {
      var n := |ds| - 1;
      var h := Val(ds[..n], b);
      DigitsOfVal(ds[..n], b);
      DivModUnique(b, h, ds[n]);
      if n == 0 {
        assert h == 0;
      } else {
        CanonicalPositive(ds[..n], b);
        MulMono(1, h, b);
      }
      assert ds == ds[..n] + [ds[n]];
    }
  }

  lemma {:induction false} CanonicalPositive(ds: seq<nat>, b: nat)
    requires b >= 1 && ds != [] && ds[0] != 0
    ensures Val(ds, b) > 0
  {
    if |ds| > 1 {
      CanonicalPositive(ds[..|ds| - 1], b);
      MulMono(1, Val(ds[..|ds| - 1], b), b);
    }
  }

  /** A number has at most n digits exactly when it lies below the n-th power of the base. */
  lemma DigitCount(v: nat, b: nat, n: nat)
    requires b >= 2
    ensures |DigitsOf(v, b)| <= n <==> v < Power(b, n)
  {
    var ds := DigitsOf(v, b);
    ValOfDigits(v, b);
    ValBound(ds, b);
    if |ds| <= n {
      PowerMono(b, |ds|, n);
    } else {
      var t := ds[1..];
      assert ds == [ds[0]] + t;
      ValCons(ds[0], t, b);
      PowerMono(b, n, |t|);
      MulMono(1, ds[0], Power(b, |t|));
    }
  }

  /** Fixed-width digits are the digits behind some zeros. */
  lemma PaddedDigits(ds: seq<nat>, b: nat)
    requires b >= 2 && IsDigits(ds, b)
    ensures |DigitsOf(Val(ds, b), b)| <= |ds|
    ensures ds == Zeros(|ds| - |DigitsOf(Val(ds, b), b)|) + DigitsOf(Val(ds, b), b)
    decreases |ds|
  {
    if ds == [] {
    } else if ds[0] != 0 {
      DigitsOfVal(ds, b);
    } else {
      var t := ds[1..];
      assert ds == Zeros(1) + t;
      LeadingZeros(1, t, b);
      PaddedDigits(t, b);
    }
  }

  /** v with zeros before its digits, n digits in all. */
  function FixedDigits(v: nat, b: nat, n: nat): (ds: seq<nat>)
    requires b >= 2 && v < Power(b, n)
    ensures |ds| == n && IsDigits(ds, b) && Val(ds, b) == v
  {
    hide *;
    DigitCount(v, b, n);
    ValOfDigits(v, b);
    var z := n - |DigitsOf(v, b)|;
    LeadingZeros(z, DigitsOf(v, b), b);
    ZerosAreDigits(z, DigitsOf(v, b), b);
    Zeros(z) + DigitsOf(v, b)
  }

  lemma ZerosAreDigits(n: nat, ds: seq<nat>, b: nat)
    requires b > 0 && IsDigits(ds, b)
    ensures IsDigits(Zeros(n) + ds, b)
  {}

  /** The last n digits are the rest of a division by the n-th power of the base. */
  lemma SplitDigits(v: nat, b: nat, n: nat)
    requires b >= 2 && v >= Power(b, n)
    ensures Power(b, n) > 0 && 0 <= v / Power(b, n) && 0 <= v % Power(b, n) < Power(b, n)
    ensures DigitsOf(v, b) == DigitsOf(v / Power(b, n), b) + FixedDigits(v % Power(b, n), b, n)
  {
    hide *;
    var ds, p := DigitsOf(v, b), Power(b, n);
    PowerPositive(b, n);
    DigitCount(v, b, n);
    ValOfDigits(v, b);
    var k := |ds| - n;
    var hi, lo := ds[..k], ds[k..];
    assert ds == hi + lo;
    HighDigits(ds, k, b);
    ValAppend(hi, lo, b);
    ValBound(lo, b);
    DivModUnique(p, Val(hi, b), Val(lo, b));
    DigitsOfVal(hi, b);
    PaddedDigits(lo, b);
    FixedIs(Val(lo, b), b, n);
  }

  lemma HighDigits(ds: seq<nat>, k: nat, b: nat)
    requires 0 < k <= |ds| && IsDigits(ds, b) && IsCanonical(ds)
    ensures IsDigits(ds[..k], b) && IsCanonical(ds[..k]) && IsDigits(ds[k..], b)
  {}

  lemma FixedIs(v: nat, b: nat, n: nat)
    requires b >= 2 && v < Power(b, n)
    ensures |DigitsOf(v, b)| <= n && FixedDigits(v, b, n) == Zeros(n - |DigitsOf(v, b)|) + DigitsOf(v, b)
  {
    hide DigitsOf, Power;
    DigitCount(v, b, n);
  }

}
