/** Bottom-up merge sort on sequences: what uthash.h's HASH_SRT computes when its
    pointers are read off as a list, and why that is a stable sort. */
module ListSort {
  import opened Arith

  function Merge<T>(cmp: (T, T) -> int, p: seq<T>, q: seq<T>): (m: seq<T>)
    ensures |m| == |p| + |q|
    decreases |p| + |q|
  {
    if p == [] then q
    else if q == [] then p
    else if cmp(p[0], q[0]) <= 0 then [p[0]] + Merge(cmp, p[1..], q)
    else [q[0]] + Merge(cmp, p, q[1..])
  }

  /** The first n elements, then the n after them; fewer where the list ends. */
  function FirstRun<T>(s: seq<T>, n: nat): (p: seq<T>) { s[..Min(n, |s|)] }

  function SecondRun<T>(s: seq<T>, n: nat): (q: seq<T>) { s[Min(n, |s|)..Min(2 * n, |s|)] }

  function BehindTwo<T>(s: seq<T>, n: nat): (r: seq<T>) { s[Min(2 * n, |s|)..] }

  /** One pass merges the runs of n elements in pairs. */
  function Pass<T>(cmp: (T, T) -> int, s: seq<T>, n: nat): (r: seq<T>)
    requires n >= 1
    ensures |r| == |s|
    decreases |s|
  {
    if s == [] then []
    else Merge(cmp, FirstRun(s, n), SecondRun(s, n)) + Pass(cmp, BehindTwo(s, n), n)
  }

  /** Passes with doubled runs until one merge takes in the whole list. */
  function Sort<T>(cmp: (T, T) -> int, s: seq<T>, n: nat): (r: seq<T>)
    requires n >= 1
    ensures |r| == |s|
    decreases |s| - n
  {
    if |s| <= 2 * n then Pass(cmp, s, n) else Sort(cmp, Pass(cmp, s, n), 2 * n)
  }

  /** What a comparison must promise about the listed elements. */
  ghost predicate IsPreorder<T>(cmp: (T, T) -> int, s: seq<T>) {
    && (forall x, y | x in s && y in s :: cmp(x, y) > 0 <==> cmp(y, x) < 0)
    && (forall x, y, z | x in s && y in s && z in s :: cmp(x, y) <= 0 && cmp(y, z) <= 0 ==> cmp(x, z) <= 0)
  }

  predicate Sorted<T>(cmp: (T, T) -> int, s: seq<T>) {
    forall i, j :: 0 <= i < j < |s| ==> cmp(s[i], s[j]) <= 0
  }

  /** The elements that compare equal to x, in their order. */
  function Equals<T>(cmp: (T, T) -> int, s: seq<T>, x: T): seq<T> {
    if s == [] then []
    else (if cmp(x, s[0]) == 0 then [s[0]] else []) + Equals(cmp, s[1..], x)
  }

  /** Consecutive runs of n elements, each sorted. */
  predicate Runs<T>(cmp: (T, T) -> int, s: seq<T>, n: nat)
    requires n >= 1
    decreases |s|
  {
    s != [] ==> Sorted(cmp, FirstRun(s, n)) && Runs(cmp, s[Min(n, |s|)..], n)
  }

  lemma {:induction false} MergeElements<T>(cmp: (T, T) -> int, p: seq<T>, q: seq<T>)
    ensures multiset(Merge(cmp, p, q)) == multiset(p) + multiset(q)
    decreases |p| + |q|
  {
    if p != [] && q != [] {
      assert p == [p[0]] + p[1..] && q == [q[0]] + q[1..];
      if cmp(p[0], q[0]) <= 0 {
        MergeElements(cmp, p[1..], q);
      } else {
        MergeElements(cmp, p, q[1..]);
      }
    }
  }

  lemma FromMerge<T>(cmp: (T, T) -> int, p: seq<T>, q: seq<T>, x: T)
    requires x in Merge(cmp, p, q)
    ensures x in p || x in q
  {
    MergeElements(cmp, p, q);
    assert x in multiset(Merge(cmp, p, q));
  }

  lemma Prepend<T>(cmp: (T, T) -> int, a: T, s: seq<T>)
    requires Sorted(cmp, s) && forall x | x in s :: cmp(a, x) <= 0
    ensures Sorted(cmp, [a] + s)
  {}

  lemma {:induction false} MergeSorted<T>(cmp: (T, T) -> int, p: seq<T>, q: seq<T>, all: seq<T>)
    requires IsPreorder(cmp, all) && Sorted(cmp, p) && Sorted(cmp, q)
    requires (forall x | x in p :: x in all) && (forall x | x in q :: x in all)
    ensures Sorted(cmp, Merge(cmp, p, q))
    decreases |p| + |q|
  {
    if p != [] && q != [] {
      if cmp(p[0], q[0]) <= 0 {
        MergeSorted(cmp, p[1..], q, all);
        forall x | x in Merge(cmp, p[1..], q) ensures cmp(p[0], x) <= 0 { FromMerge(cmp, p[1..], q, x); }
        Prepend(cmp, p[0], Merge(cmp, p[1..], q));
      } else {
        MergeSorted(cmp, p, q[1..], all);
        forall x | x in Merge(cmp, p, q[1..]) ensures cmp(q[0], x) <= 0 { FromMerge(cmp, p, q[1..], x); }
        Prepend(cmp, q[0], Merge(cmp, p, q[1..]));
      }
    }
  }

  function One<T>(cmp: (T, T) -> int, a: T, x: T): seq<T> { if cmp(x, a) == 0 then [a] else [] }

  lemma EqualsCons<T>(cmp: (T, T) -> int, a: T, s: seq<T>, x: T)
    ensures Equals(cmp, [a] + s, x) == One(cmp, a, x) + Equals(cmp, s, x)
  {
    assert ([a] + s)[1..] == s;
  }

  lemma {:induction false} EqualsAppend<T>(cmp: (T, T) -> int, s: seq<T>, t: seq<T>, x: T)
    ensures Equals(cmp, s + t, x) == Equals(cmp, s, x) + Equals(cmp, t, x)
    decreases |s|
  {
    hide Equals, One;
    if s == [] {
      assert s + t == t;
      NoneOf(cmp, x);
    } else {
      var a, r := s[0], s[1..];
      assert s == [a] + r && s + t == [a] + (r + t);
      EqualsAppend(cmp, r, t, x);
      EqualsCons(cmp, a, r, x);
      EqualsCons(cmp, a, r + t, x);
    }
  }

  lemma NoneOf<T>(cmp: (T, T) -> int, x: T)
    ensures Equals<T>(cmp, [], x) == []
  {}

  lemma {:induction false} NoEquals<T>(cmp: (T, T) -> int, s: seq<T>, x: T)
    requires forall y | y in s :: cmp(x, y) != 0
    ensures Equals(cmp, s, x) == []
    decreases |s|
  {
    if s != [] { NoEquals(cmp, s[1..], x); }
  }

  /** Elements that compare equal keep their order: those of p come before those of q. */
  lemma {:induction false} MergeStable<T>(cmp: (T, T) -> int, p: seq<T>, q: seq<T>, all: seq<T>, x: T)
    requires IsPreorder(cmp, all) && Sorted(cmp, p) && x in all
    requires (forall y | y in p :: y in all) && (forall y | y in q :: y in all)
    ensures Equals(cmp, Merge(cmp, p, q), x) == Equals(cmp, p, x) + Equals(cmp, q, x)
    decreases |p| + |q|
  {
    hide Equals, Merge;
    MergeUnfolded(cmp, p, q);
    NoneOf(cmp, x);
    if p == [] || q == [] {
    } else if cmp(p[0], q[0]) <= 0 {
      MergeStable(cmp, p[1..], q, all, x);
      EqualsCons(cmp, p[0], p[1..], x);
      EqualsCons(cmp, p[0], Merge(cmp, p[1..], q), x);
      assert p == [p[0]] + p[1..];
    } else {
      MergeStable(cmp, p, q[1..], all, x);
      EqualsCons(cmp, q[0], q[1..], x);
      EqualsCons(cmp, q[0], Merge(cmp, p, q[1..]), x);
      assert q == [q[0]] + q[1..];
      if cmp(x, q[0]) == 0 {
        forall y | y in p ensures cmp(x, y) != 0 {
          AboveBoth(cmp, p, q[0], all, y, x);
        }
        NoEquals(cmp, p, x);
      }
    }
  }

  lemma MergeUnfolded<T>(cmp: (T, T) -> int, p: seq<T>, q: seq<T>)
    ensures p == [] ==> Merge(cmp, p, q) == q
    ensures q == [] ==> Merge(cmp, p, q) == p
    ensures p != [] && q != [] ==>
              Merge(cmp, p, q) == if cmp(p[0], q[0]) <= 0 then [p[0]] + Merge(cmp, p[1..], q)
                                  else [q[0]] + Merge(cmp, p, q[1..])
  {}

  /** What compares equal to an element below the head of a sorted p is not in p. */
  lemma AboveBoth<T>(cmp: (T, T) -> int, p: seq<T>, b: T, all: seq<T>, y: T, x: T)
    requires IsPreorder(cmp, all) && Sorted(cmp, p) && p != [] && y in p && cmp(p[0], b) > 0
    requires b in all && x in all && (forall z | z in p :: z in all)
    requires cmp(x, b) == 0
    ensures cmp(x, y) != 0
  {
    assert cmp(y, y) <= 0 && p[0] in p;
    assert cmp(p[0], y) <= 0;
    assert cmp(y, b) > 0;
  }

  lemma ThreeParts<T>(s: seq<T>, n: nat)
    ensures s == FirstRun(s, n) + SecondRun(s, n) + BehindTwo(s, n)
    ensures n >= 1 && s != [] ==> |BehindTwo(s, n)| < |s|
    ensures |FirstRun(s, n)| + |SecondRun(s, n)| == Min(2 * n, |s|)
  {}

  lemma {:induction false} PassElements<T>(cmp: (T, T) -> int, s: seq<T>, n: nat)
    requires n >= 1
    ensures multiset(Pass(cmp, s, n)) == multiset(s)
    decreases |s|
  {
    if s != [] {
      var p, q, t := FirstRun(s, n), SecondRun(s, n), BehindTwo(s, n);
      ThreeParts(s, n);
      hide FirstRun, SecondRun, BehindTwo, Merge;
      MergeElements(cmp, p, q);
      PassElements(cmp, t, n);
      assert multiset(s) == multiset(p + q) + multiset(t);
    }
  }

  lemma RunsBehind<T>(cmp: (T, T) -> int, s: seq<T>, n: nat)
    requires n >= 1 && s != [] && Runs(cmp, s, n)
    ensures Sorted(cmp, FirstRun(s, n)) && Sorted(cmp, SecondRun(s, n)) && Runs(cmp, BehindTwo(s, n), n)
  {
    var t := s[Min(n, |s|)..];
    assert FirstRun(t, n) == SecondRun(s, n);
    assert t[Min(n, |t|)..] == BehindTwo(s, n);
  }

  lemma {:induction false} PassRuns<T>(cmp: (T, T) -> int, s: seq<T>, n: nat, all: seq<T>)
    requires n >= 1 && Runs(cmp, s, n) && IsPreorder(cmp, all) && forall x | x in s :: x in all
    ensures Runs(cmp, Pass(cmp, s, n), 2 * n)
    decreases |s|
  {
    if s != [] {
      RunsBehind(cmp, s, n);
      MergeSorted(cmp, FirstRun(s, n), SecondRun(s, n), all);
      PassRuns(cmp, BehindTwo(s, n), n, all);
      var m := Merge(cmp, FirstRun(s, n), SecondRun(s, n));
      var r := Pass(cmp, s, n);
      assert |m| == Min(2 * n, |s|);
      assert FirstRun(r, 2 * n) == m;
      assert r[Min(2 * n, |r|)..] == Pass(cmp, BehindTwo(s, n), n);
    }
  }

  lemma {:induction false} PassStable<T>(cmp: (T, T) -> int, s: seq<T>, n: nat, all: seq<T>, x: T)
    requires n >= 1 && Runs(cmp, s, n) && IsPreorder(cmp, all) && x in all && forall y | y in s :: y in all
    ensures Equals(cmp, Pass(cmp, s, n), x) == Equals(cmp, s, x)
    decreases |s|
  {
    if s != [] {
      var p, q, t := FirstRun(s, n), SecondRun(s, n), BehindTwo(s, n);
      ThreeParts(s, n);
      RunsBehind(cmp, s, n);
      forall y | y in p || y in q || y in t ensures y in all { assert y in p + q + t; }
      hide FirstRun, SecondRun, BehindTwo, Merge, Equals, Runs, IsPreorder, Sorted;
      MergeStable(cmp, p, q, all, x);
      PassStable(cmp, t, n, all, x);
      EqualsAppend(cmp, Merge(cmp, p, q), Pass(cmp, t, n), x);
      EqualsAppend(cmp, p, q, x);
      EqualsAppend(cmp, p + q, t, x);
    }
  }

  /** Sorting from runs of n: the same elements, in order, equal ones as they were. */
  lemma {:induction false} SortCorrect<T>(cmp: (T, T) -> int, s: seq<T>, n: nat, all: seq<T>)
    requires n >= 1 && Runs(cmp, s, n) && IsPreorder(cmp, all) && forall x | x in s :: x in all
    ensures Sorted(cmp, Sort(cmp, s, n))
    ensures forall x | x in all :: Equals(cmp, Sort(cmp, s, n), x) == Equals(cmp, s, x)
    decreases |s| - n
  {
    var r := Pass(cmp, s, n);
    PassElements(cmp, s, n);
    PassRuns(cmp, s, n, all);
    forall x | x in all ensures Equals(cmp, r, x) == Equals(cmp, s, x) { PassStable(cmp, s, n, all, x); }
    if |s| <= 2 * n {
      assert FirstRun(r, 2 * n) == r;
      if r == [] { assert Sorted(cmp, r); }
    } else {
      forall x | x in r ensures x in all { assert x in multiset(r); }
      SortCorrect(cmp, r, 2 * n, all);
    }
  }

  /** Without any promise about the comparison: no element is lost or doubled. */
  lemma {:induction false} SortElements<T>(cmp: (T, T) -> int, s: seq<T>, n: nat)
    requires n >= 1
    ensures multiset(Sort(cmp, s, n)) == multiset(s)
    decreases |s| - n
  {
    PassElements(cmp, s, n);
    if |s| > 2 * n { SortElements(cmp, Pass(cmp, s, n), 2 * n); }
  }

  lemma {:induction false} SingleRuns<T>(cmp: (T, T) -> int, s: seq<T>)
    ensures Runs(cmp, s, 1)
    decreases |s|
  {
    if s != [] { SingleRuns(cmp, s[1..]); }
  }

  /** The sort that HASH_SRT performs is sorted, a permutation, and stable. */
  lemma StableSort<T>(cmp: (T, T) -> int, s: seq<T>)
    requires IsPreorder(cmp, s)
    ensures Sorted(cmp, Sort(cmp, s, 1)) && multiset(Sort(cmp, s, 1)) == multiset(s)
    ensures forall x | x in s :: Equals(cmp, Sort(cmp, s, 1), x) == Equals(cmp, s, x)
  {
    SingleRuns(cmp, s);
    SortElements(cmp, s, 1);
    SortCorrect(cmp, s, 1, s);
  }

}
