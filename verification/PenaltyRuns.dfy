/** What getPenaltyScore (qr.c) charges for a row or a column: its maximal runs of one
    colour, and the finder-like patterns among the lengths of these runs. */
module PenaltyRuns {
  import Arith
  import opened Penalty
  import opened Sequences

  datatype Run = Run(dark: bool, len: nat)

  function Same(dark: bool, n: nat): (s: seq<bool>)
    ensures |s| == n
  {
    seq(n, _ => dark)
  }

  function Line(rs: seq<Run>): seq<bool> {
    if rs == [] then [] else Line(rs[..|rs| - 1]) + Same(rs[|rs| - 1].dark, rs[|rs| - 1].len)
  }

  /** rs are the maximal runs of the line. */
  predicate AreRuns(rs: seq<Run>, line: seq<bool>) {
    && Line(rs) == line
    && (forall i :: 0 <= i < |rs| ==> rs[i].len > 0)
    && (forall i :: 0 < i < |rs| ==> rs[i].dark != rs[i - 1].dark)
  }

  function RunPenalty(n: nat): nat { if n >= 5 then n - 2 else 0 }

  function RunsPenalty(rs: seq<Run>): nat {
    if rs == [] then 0 else RunsPenalty(rs[..|rs| - 1]) + RunPenalty(rs[|rs| - 1].len)
  }

  // ---- Run lengths, light and dark in turn

  /** The lengths of the runs behind a light border as wide as the symbol: those at even
      places are light. */
  function Bordered(rs: seq<Run>, size: int): seq<int> {
    if rs == [] then []
    else if |rs| == 1 then if rs[0].dark then [size, rs[0].len] else [rs[0].len + size]
    else Bordered(rs[..|rs| - 1], size) + [rs[|rs| - 1].len]
  }

  /** The same with the border behind the line. */
  function Closed(rs: seq<Run>, size: int): seq<int>
    requires rs != []
  {
    BorderedFacts(rs, size);
    var b := Bordered(rs, size);
    if rs[|rs| - 1].dark then b + [size] else b[..|b| - 1] + [b[|b| - 1] + size]
  }

  lemma {:induction false} BorderedFacts(rs: seq<Run>, size: int)
    requires rs != []
    ensures var b := Bordered(rs, size);
      && b != [] && (|b| == 1 <==> |rs| == 1 && !rs[0].dark)
      && b[|b| - 1] == rs[|rs| - 1].len + (if |b| == 1 then size else 0)
  {
    if |rs| > 1 { BorderedFacts(rs[..|rs| - 1], size); }
  }

  lemma {:induction false} BorderedColours(rs: seq<Run>, size: int)
    requires rs != [] && size > 0
    ensures (forall i :: 0 < i < |rs| ==> rs[i].dark != rs[i - 1].dark) ==>
              (|Bordered(rs, size)| % 2 == 0 <==> rs[|rs| - 1].dark)
    ensures (forall i :: 0 <= i < |rs| ==> rs[i].len > 0) ==> Positive(Bordered(rs, size))
  {
    BorderedFacts(rs, size);
    if |rs| > 1 { BorderedColours(rs[..|rs| - 1], size); }
  }

  /** How many finder-like patterns end with the light run at place k: dark, light, dark,
      light and dark runs of 1:1:3:1:1, four units of light on one side, one on the other. */
  function PatternsAt(p: seq<int>, k: nat): nat
    requires k < |p|
  {
    if k < 6 then 0 else
      var n := p[k - 1];
      if p[k - 2] == n && p[k - 3] == 3 * n && p[k - 4] == n && p[k - 5] == n then
        (if p[k] >= 4 * n && p[k - 6] >= n then 1 else 0) + (if p[k - 6] >= 4 * n && p[k] >= n then 1 else 0)
      else 0
  }

  /** Those that end with one of the first m runs. */
  function Patterns(p: seq<int>, m: nat): nat
    requires m <= |p|
  {
    if m == 0 then 0 else Patterns(p, m - 1) + if m % 2 == 1 then PatternsAt(p, m - 1) else 0
  }

  lemma {:induction false} PatternsKept(p: seq<int>, q: seq<int>, m: nat)
    requires p <= q && m <= |p|
    ensures Patterns(q, m) == Patterns(p, m)
  {
    if m > 0 { PatternsKept(p, q, m - 1); }
  }

  // ---- The history of the scan

  function Nth(p: seq<int>, k: int): int { if 0 <= k < |p| then p[k] else 0 }

  function LastSeven(p: seq<int>): History {
    var n := |p|;
    [Nth(p, n - 1), Nth(p, n - 2), Nth(p, n - 3), Nth(p, n - 4), Nth(p, n - 5), Nth(p, n - 6), Nth(p, n - 7)]
  }

  predicate Positive(p: seq<int>) { forall i :: 0 <= i < |p| ==> p[i] > 0 }

  lemma Pushed(p: seq<int>, run: int, size: int)
    requires Positive(p)
    ensures AddHistory(run, LastSeven(p), size) == LastSeven(p + [run + if p == [] then size else 0])
  {
    var q := p + [run + if p == [] then size else 0];
    var n := |p|;
    assert forall k :: k < n ==> Nth(q, k) == Nth(p, k);
    assert LastSeven(p)[0] == 0 <==> p == [];
  }

  lemma Counted(p: seq<int>)
    requires Positive(p) && |p| % 2 == 1
    ensures CountPatterns(LastSeven(p)) == PatternsAt(p, |p| - 1)
  {}

  /** The state of the scan behind these runs. */
  function Expected(rs: seq<Run>, size: int): Scan {
    if rs == [] then START else
      BorderedFacts(rs, size);
      var b := Bordered(rs, size);
      var p := b[..|b| - 1];
      Scan(rs[|rs| - 1].dark, rs[|rs| - 1].len, LastSeven(p), RunsPenalty(rs) + Patterns(p, |p|) * PENALTY_N3)
  }

  lemma {:induction false} ScanIs(rs: seq<Run>, line: seq<bool>, size: int)
    requires AreRuns(rs, line) && size > 0
    ensures ScanLine(line, size) == Expected(rs, size)
    decreases |line|
  {
    hide *;
    RunsOfNothing(rs, line);
    ScanSnoc(line, size);
    if line != [] {
      var front, r := line[..|line| - 1], rs[|rs| - 1];
      LastModule(rs, line);
      if r.len > 1 {
        var rs' := rs[..|rs| - 1] + [Run(r.dark, r.len - 1)];
        Shorter(rs, line);
        ScanIs(rs', front, size);
        Longer(rs, size);
      } else {
        FewerRuns(rs, line);
        ScanIs(rs[..|rs| - 1], front, size);
        if |rs| == 1 { FirstRun(rs, size); } else { NextRun(rs, line, size); }
      }
    }
  }

  lemma ScanSnoc(line: seq<bool>, size: int)
    ensures ScanLine(line, size)
         == if line == [] then START else ScanStep(ScanLine(line[..|line| - 1], size), line[|line| - 1], size)
  {}

  lemma RunsOfNothing(rs: seq<Run>, line: seq<bool>)
    requires AreRuns(rs, line)
    ensures line == [] <==> rs == []
    ensures line == [] ==> Expected(rs, 0) == START && forall size :: Expected(rs, size) == START
  {
    if rs != [] { assert rs[|rs| - 1].len > 0; }
  }

  lemma LastModule(rs: seq<Run>, line: seq<bool>)
    requires AreRuns(rs, line) && rs != []
    ensures line != [] && line[|line| - 1] == rs[|rs| - 1].dark && rs[|rs| - 1].len > 0
  {
    var r := rs[|rs| - 1];
    assert line[|line| - 1] == Same(r.dark, r.len)[r.len - 1];
  }

  lemma Shorter(rs: seq<Run>, line: seq<bool>)
    requires AreRuns(rs, line) && rs != [] && rs[|rs| - 1].len > 1
    ensures var r := rs[|rs| - 1];
      line != [] && AreRuns(rs[..|rs| - 1] + [Run(r.dark, r.len - 1)], line[..|line| - 1])
  {
    var r := rs[|rs| - 1];
    var rs' := rs[..|rs| - 1] + [Run(r.dark, r.len - 1)];
    assert rs'[..|rs'| - 1] == rs[..|rs| - 1];
    assert Same(r.dark, r.len)[..r.len - 1] == Same(r.dark, r.len - 1);
    assert line[..|line| - 1] == Line(rs[..|rs| - 1]) + Same(r.dark, r.len - 1);
  }

  lemma FewerRuns(rs: seq<Run>, line: seq<bool>)
    requires AreRuns(rs, line) && rs != [] && rs[|rs| - 1].len == 1
    ensures line != [] && AreRuns(rs[..|rs| - 1], line[..|line| - 1])
  {
    assert line[..|line| - 1] == Line(rs[..|rs| - 1]);
  }

  /** One more module of the same colour. */
  lemma Longer(rs: seq<Run>, size: int)
    requires rs != [] && rs[|rs| - 1].len > 1
    ensures var r := rs[|rs| - 1];
      ScanStep(Expected(rs[..|rs| - 1] + [Run(r.dark, r.len - 1)], size), r.dark, size) == Expected(rs, size)
  {
    hide LastSeven, Patterns, AddHistory, CountPatterns;
    var r := rs[|rs| - 1];
    var rs' := rs[..|rs| - 1] + [Run(r.dark, r.len - 1)];
    assert rs'[..|rs'| - 1] == rs[..|rs| - 1];
    BorderedFacts(rs, size);
    BorderedFacts(rs', size);
    var b, b' := Bordered(rs, size), Bordered(rs', size);
    assert b[..|b| - 1] == b'[..|b'| - 1];
  }

  /** The first module. */
  lemma FirstRun(rs: seq<Run>, size: int)
    requires |rs| == 1 && rs[0].len == 1
    ensures ScanStep(Expected(rs[..0], size), rs[0].dark, size) == Expected(rs, size)
  {
    var b := Bordered(rs, size);
    assert rs[..0] == [] && RunsPenalty([]) == 0;
    assert b[..|b| - 1] == if rs[0].dark then [size] else [];
    assert Patterns([], 0) == 0 && Patterns([size], 1) == Patterns([size], 0) + 0;
  }

  /** A module of the other colour. */
  lemma NextRun(rs: seq<Run>, line: seq<bool>, size: int)
    requires AreRuns(rs, line) && |rs| > 1 && rs[|rs| - 1].len == 1 && size > 0
    ensures ScanStep(Expected(rs[..|rs| - 1], size), rs[|rs| - 1].dark, size) == Expected(rs, size)
  {
    hide AddHistory, CountPatterns, LastSeven, PatternsAt, Patterns, AreRuns, Bordered, Positive;
    NextShape(rs, line, size);
    var rs' := rs[..|rs| - 1];
    var b := Bordered(rs', size);
    Pushed(b[..|b| - 1], rs'[|rs'| - 1].len, size);
    PatternsMore(b);
    if |b| % 2 == 1 { Counted(b); }
  }

  lemma NextShape(rs: seq<Run>, line: seq<bool>, size: int)
    requires AreRuns(rs, line) && |rs| > 1 && size > 0
    ensures var rs', r := rs[..|rs| - 1], rs[|rs| - 2];
      var b, c := Bordered(rs', size), Bordered(rs, size);
      && b != [] && c != [] && c[..|c| - 1] == b && rs[|rs| - 1].dark != r.dark && (|b| % 2 == 0 <==> r.dark)
      && Positive(b) && Positive(b[..|b| - 1])
      && b == b[..|b| - 1] + [r.len + if b[..|b| - 1] == [] then size else 0]
  {
    hide Line;
    BorderedFacts(rs[..|rs| - 1], size);
    BorderedColours(rs[..|rs| - 1], size);
  }

  lemma PatternsMore(b: seq<int>)
    requires b != []
    ensures Patterns(b, |b|) == Patterns(b[..|b| - 1], |b| - 1) + if |b| % 2 == 1 then PatternsAt(b, |b| - 1) else 0
  {
    PatternsKept(b[..|b| - 1], b, |b| - 1);
  }

  /** The score of a row or a column: three points for the first five modules of a run and
      one for each further one, and forty for each finder-like pattern, the line taken with
      a light border on both sides. */
  lemma LineScoreIs(rs: seq<Run>, line: seq<bool>)
    requires AreRuns(rs, line) && line != []
    ensures rs != []
    ensures var p := Closed(rs, |line|);
      LineScore(line) == RunsPenalty(rs) + 40 * Patterns(p, |p|)
  {
    hide AddHistory, CountPatterns, LastSeven, PatternsAt, Patterns, ScanLine, RunsPenalty, Line;
    var size := |line|;
    RunsOfNothing(rs, line);
    ScanIs(rs, line, size);
    BorderedFacts(rs, size);
    BorderedColours(rs, size);
    var b, r := Bordered(rs, size), rs[|rs| - 1];
    var p, q := b[..|b| - 1], Closed(rs, size);
    assert Positive(b) && Positive(p);
    PatternsMore(q);
    Counted(q);
    Pushed(p, r.len, size);
    if r.dark {
      assert b == p + [r.len];
      Pushed(b, size, size);
      assert q[..|q| - 1] == b;
      PatternsMore(b);
    } else {
      Pushed(p, r.len + size, size);
      assert q == p + [r.len + size + if p == [] then size else 0];
      assert q[..|q| - 1] == p;
    }
  }

  /** The runs of a line with one more module. */
  function Extended(rs: seq<Run>, dark: bool): seq<Run> {
    if rs != [] && rs[|rs| - 1].dark == dark then rs[..|rs| - 1] + [Run(dark, rs[|rs| - 1].len + 1)]
    else rs + [Run(dark, 1)]
  }

  /** Every line has maximal runs. */
  function RunsOf(line: seq<bool>): (rs: seq<Run>)
    ensures AreRuns(rs, line)
  {
    hide AreRuns, Extended;
    NoRuns();
    if line == [] then [] else
      var front, dark := line[..|line| - 1], line[|line| - 1];
      MoreRuns(RunsOf(front), front, dark);
      assert line == front + [dark];
      Extended(RunsOf(front), dark)
  }

  lemma NoRuns()
    ensures AreRuns([], [])
  {}

  lemma MoreRuns(rs: seq<Run>, front: seq<bool>, dark: bool)
    requires AreRuns(rs, front)
    ensures AreRuns(Extended(rs, dark), front + [dark])
  {
    hide Line, Same;
    if rs != [] && rs[|rs| - 1].dark == dark {
      LineLonger(rs[..|rs| - 1], rs[|rs| - 1]);
      assert rs == rs[..|rs| - 1] + [rs[|rs| - 1]];
    } else {
      LineMore(rs, dark);
    }
  }

  lemma LineLonger(rs: seq<Run>, r: Run)
    ensures Line(rs + [Run(r.dark, r.len + 1)]) == Line(rs + [r]) + [r.dark]
  {
    hide Line;
    LineSnoc(rs, r);
    LineSnoc(rs, Run(r.dark, r.len + 1));
    assert Same(r.dark, r.len + 1) == Same(r.dark, r.len) + [r.dark];
    Associate(Line(rs), Same(r.dark, r.len), [r.dark]);
  }

  lemma LineSnoc(rs: seq<Run>, r: Run)
    ensures Line(rs + [r]) == Line(rs) + Same(r.dark, r.len)
  {
    hide Same;
    assert (rs + [r])[..|rs|] == rs;
  }

  lemma LineMore(rs: seq<Run>, dark: bool)
    ensures Line(rs + [Run(dark, 1)]) == Line(rs) + [dark]
  {
    LineSnoc(rs, Run(dark, 1));
    assert Same(dark, 1) == [dark];
  }

  /** The balance term is the smallest k with (45 - 5k)% <= dark / total <= (55 + 5k)%. */
  lemma BalanceMeaning(dark: int, total: int, k: nat)
    requires 0 <= dark <= total && total > 0
    ensures Balance(dark, total) <= k <==> (45 - 5 * k) * total <= 100 * dark <= (55 + 5 * k) * total
  {
    var a := Arith.Abs(dark * 20 - total * 10);
    var b := (a + total - 1) / total;
    Arith.Euclid(a + total - 1, total);
    BalanceBound(a, total, b, k);
    assert (45 - 5 * k) * total == 50 * total - 5 * ((k + 1) * total);
    assert (55 + 5 * k) * total == 50 * total + 5 * ((k + 1) * total);
  }

  lemma BalanceBound(a: int, total: int, b: int, k: int)
    requires total > 0 && b * total <= a + total - 1 < b * total + total
    ensures b - 1 <= k <==> a <= (k + 1) * total
  {
    if b <= k + 1 { Arith.MulMono(b, k + 1, total); } else { Arith.MulMono(k + 2, b, total); }
  }

}
