/** The penalty score of a QR symbol (getPenaltyScore in qr.c). */
module Penalty {
  import opened Arith
  import opened Gf256
  import opened QrMatrix

  const PENALTY_N1 := 3
  const PENALTY_N2 := 3
  const PENALTY_N3 := 40
  const PENALTY_N4 := 10

  // ---- The modules as a table of rows

  type Matrix = seq<seq<bool>>

  predicate Square(m: Matrix) { |m| > 0 && forall y :: 0 <= y < |m| ==> |m[y]| == |m| }

  function Row(q: seq<Byte>, y: int): (r: seq<bool>)
    requires IsSymbol(q) && 0 <= y < Size(q)
    ensures |r| == Size(q)
  {
    seq(Size(q), x requires 0 <= x < Size(q) => Dark(q, x, y))
  }

  function Modules(q: seq<Byte>): (m: Matrix)
    requires IsSymbol(q)
    ensures |m| == Size(q) && Square(m)
    ensures forall x, y | InSymbol(q, x, y) :: m[y][x] == Dark(q, x, y)
  {
    seq(Size(q), y requires 0 <= y < Size(q) => Row(q, y))
  }

  function Column(m: Matrix, x: int): (c: seq<bool>)
    requires Square(m) && 0 <= x < |m|
    ensures |c| == |m|
  {
    seq(|m|, y requires 0 <= y < |m| => m[y][x])
  }

  // ---- One line: runs of one colour and finder-like patterns

  /** The last seven run lengths of a line, the latest first. */
  type History = h: seq<int> | |h| == 7 witness [0, 0, 0, 0, 0, 0, 0]

  /** finderPenaltyAddHistory: a light border is added to the first run of the line. */
  function AddHistory(run: int, h: History, size: int): History {
    [run + if h[0] == 0 then size else 0] + h[..6]
  }

  /** finderPenaltyCountPatterns */
  function CountPatterns(h: History): (c: int)
    ensures 0 <= c <= 2
  {
    var n := h[1];
    var core := n > 0 && h[2] == n && h[3] == n * 3 && h[4] == n && h[5] == n;
    (if core && h[0] >= n * 4 && h[6] >= n then 1 else 0) + (if core && h[6] >= n * 4 && h[0] >= n then 1 else 0)
  }

  /** Where the scan of a line stands: the current run, the runs before it, the score. */
  datatype Scan = Scan(color: bool, run: int, history: History, score: int)

  const START := Scan(false, 0, [0, 0, 0, 0, 0, 0, 0], 0)

  function ScanStep(s: Scan, dark: bool, size: int): Scan {
    if dark == s.color then
      s.(run := s.run + 1, score := s.score + if s.run + 1 == 5 then PENALTY_N1 else if s.run + 1 > 5 then 1 else 0)
    else
      var h := AddHistory(s.run, s.history, size);
      Scan(dark, 1, h, s.score + if !s.color then CountPatterns(h) * PENALTY_N3 else 0)
  }

  function ScanLine(line: seq<bool>, size: int): Scan {
    if line == [] then START else ScanStep(ScanLine(line[..|line| - 1], size), line[|line| - 1], size)
  }

  /** finderPenaltyTerminateAndCount */
  function Terminate(s: Scan, size: int): int {
    var h := if s.color then AddHistory(s.run, s.history, size) else s.history;
    CountPatterns(AddHistory((if s.color then 0 else s.run) + size, h, size))
  }

  function LineScore(line: seq<bool>): int {
    var s := ScanLine(line, |line|);
    s.score + Terminate(s, |line|) * PENALTY_N3
  }

  function RowsScore(m: Matrix, n: nat): int
    requires Square(m) && n <= |m|
  {
    if n == 0 then 0 else RowsScore(m, n - 1) + LineScore(m[n - 1])
  }

  function ColumnsScore(m: Matrix, n: nat): int
    requires Square(m) && n <= |m|
  {
    if n == 0 then 0 else ColumnsScore(m, n - 1) + LineScore(Column(m, n - 1))
  }

  // ---- Two by two blocks, and the balance of dark and light

  /** Penalty of the first n blocks between two adjacent rows. */
  function BlocksInRow(a: seq<bool>, b: seq<bool>, n: nat): int
    requires n < |a| == |b|
  {
    if n == 0 then 0
    else BlocksInRow(a, b, n - 1) + if a[n - 1] == a[n] == b[n - 1] == b[n] then PENALTY_N2 else 0
  }

  function BlocksScore(m: Matrix, n: nat): int
    requires Square(m) && n < |m|
  {
    if n == 0 then 0 else BlocksScore(m, n - 1) + BlocksInRow(m[n - 1], m[n], |m| - 1)
  }

  function DarkInRow(a: seq<bool>, n: nat): (c: int)
    requires n <= |a|
    ensures 0 <= c <= n
  {
    if n == 0 then 0 else DarkInRow(a, n - 1) + if a[n - 1] then 1 else 0
  }

  function DarkCount(m: Matrix, n: nat): (c: int)
    requires Square(m) && n <= |m|
    ensures 0 <= c <= n * |m|
  {
    if n == 0 then 0 else DarkCount(m, n - 1) + DarkInRow(m[n - 1], |m|)
  }

  function Balance(dark: int, total: int): int
    requires total > 0
  {
    (Abs(dark * 20 - total * 10) + total - 1) / total - 1
  }

  function Score(m: Matrix): int
    requires Square(m)
  {
    RowsScore(m, |m|) + ColumnsScore(m, |m|) + BlocksScore(m, |m| - 1)
    + Balance(DarkCount(m, |m|), |m| * |m|) * PENALTY_N4
  }

  // ---- getPenaltyScore, loop by loop

  /** finderPenaltyAddHistory in place. */
  method PushHistory(run: int, history: array<int>, size: int)
    requires history.Length == 7
    modifies history
    ensures history[..] == AddHistory(run, old(history[..]), size)
  {
    var first := if history[0] == 0 then run + size else run;
    for j := 0 to 6
      invariant history[..6 - j] == old(history[..6 - j])
      invariant history[7 - j..] == old(history[6 - j..6])
    {
      history[6 - j] := history[5 - j];
    }
    history[0] := first;
  }

  /** The loop over one row (or one column), with the final finderPenaltyTerminateAndCount. */
  method ScoreLine(q: array<Byte>, k: int, isRow: bool) returns (result: int)
    requires IsSymbol(q[..]) && 0 <= k < Size(q[..])
    ensures result == LineScore(if isRow then Modules(q[..])[k] else Column(Modules(q[..]), k))
  {
    hide Dark, Terminate, ScanLine, ScanStep;
    ghost var line := if isRow then Modules(q[..])[k] else Column(Modules(q[..]), k);
    var qrsize: int := q[0];
    var color, run := false, 0;
    var history := new int[7](_ => 0);
    result := 0;
    ScanNothing(qrsize);
    assert line[..0] == [];
    for i := 0 to qrsize
      invariant fresh(history) && history.Length == 7
      invariant ScanLine(line[..i], qrsize) == Scan(color, run, history[..], result)
    {
      ScanOne(line, i, qrsize);
      var dark := GetModule(q, if isRow then i else k, if isRow then k else i);
      assert dark == line[i];
      color, run, result := ScanModule(color, run, history, result, dark, qrsize);
    }
    assert line[..qrsize] == line;
    var patterns := TerminateAndCount(color, run, history, qrsize, result);
    result := result + patterns * PENALTY_N3;
  }

  lemma ScanNothing(size: int)
    ensures ScanLine([], size) == START
  {}

  lemma ScanOne(line: seq<bool>, i: int, size: int)
    requires 0 <= i < |line|
    ensures ScanLine(line[..i + 1], size) == ScanStep(ScanLine(line[..i], size), line[i], size)
  {
    assert line[..i + 1][..i] == line[..i];
  }

  /** The loop body of both scans. */
  method ScanModule(color0: bool, run0: int, history: array<int>, result0: int, dark: bool, qrsize: int)
    returns (color: bool, run: int, result: int)
    requires history.Length == 7
    modifies history
    ensures Scan(color, run, history[..], result)
            == ScanStep(Scan(color0, run0, old(history[..]), result0), dark, qrsize)
  {
    color, run, result := color0, run0, result0;
    if dark == color {
      run := run + 1;
      if run == 5 {
        result := result + PENALTY_N1;
      } else if run > 5 {
        result := result + 1;
      }
    } else {
      PushHistory(run, history, qrsize);
      if !color {
        result := result + CountPatterns(history[..]) * PENALTY_N3;
      }
      color, run := dark, 1;
    }
  }

  /** finderPenaltyTerminateAndCount, with the light border behind the line. */
  method TerminateAndCount(color: bool, run0: int, history: array<int>, size: int, ghost score: int) returns (c: int)
    requires history.Length == 7
    modifies history
    ensures c == Terminate(Scan(color, run0, old(history[..]), score), size)
  {
    var run := run0;
    if color {
      PushHistory(run, history, size);
      run := 0;
    }
    run := run + size;
    PushHistory(run, history, size);
    c := CountPatterns(history[..]);
  }

  /** Two-by-two blocks of one colour. */
  method BlocksPenalty(q: array<Byte>) returns (result: int)
    requires IsSymbol(q[..])
    ensures result == BlocksScore(Modules(q[..]), Size(q[..]) - 1)
  {
    hide Dark, BlocksInRow;
    ghost var m := Modules(q[..]);
    var qrsize: int := q[0];
    result := 0;
    for y := 0 to qrsize - 1
      invariant result == BlocksScore(m, y)
    {
      result := BlocksPenaltyRow(q, y, result);
    }
  }

  method BlocksPenaltyRow(q: array<Byte>, y: int, before: int) returns (result: int)
    requires IsSymbol(q[..]) && 0 <= y < Size(q[..]) - 1
    ensures var m := Modules(q[..]);
            result == before + BlocksInRow(m[y], m[y + 1], Size(q[..]) - 1)
  {
    hide Dark;
    ghost var m := Modules(q[..]);
    var qrsize: int := q[0];
    result := before;
    for x := 0 to qrsize - 1
      invariant result == before + BlocksInRow(m[y], m[y + 1], x)
    {
      var color := GetModule(q, x, y);
      var right := GetModule(q, x + 1, y);
      var below := GetModule(q, x, y + 1);
      var diagonal := GetModule(q, x + 1, y + 1);
      if color == right && color == below && color == diagonal {
        result := result + PENALTY_N2;
      }
    }
  }

  /** The dark modules of the symbol. */
  method CountDark(q: array<Byte>) returns (dark: int)
    requires IsSymbol(q[..])
    ensures dark == DarkCount(Modules(q[..]), Size(q[..]))
  {
    hide Dark;
    ghost var m := Modules(q[..]);
    var qrsize: int := q[0];
    dark := 0;
    for y := 0 to qrsize
      invariant dark == DarkCount(m, y)
    {
      ghost var before := dark;
      for x := 0 to qrsize
        invariant dark == before + DarkInRow(m[y], x)
      {
        var isDark := GetModule(q, x, y);
        if isDark {
          dark := dark + 1;
        }
      }
    }
  }

  lemma SquarePositive(n: int)
    requires n > 0
    ensures n * n > 0
  {}

  /** getPenaltyScore: the score of the symbol's modules. */
  method GetPenaltyScore(q: array<Byte>) returns (result: int)
    requires IsSymbol(q[..])
    ensures result == Score(Modules(q[..]))
  {
    hide LineScore, BlocksScore, DarkCount, Balance;
    ghost var m := Modules(q[..]);
    var qrsize: int := q[0];
    result := 0;
    for y := 0 to qrsize
      invariant result == RowsScore(m, y)
    {
      var line := ScoreLine(q, y, true);
      result := result + line;
    }
    ghost var rows := result;
    for x := 0 to qrsize
      invariant result == rows + ColumnsScore(m, x)
    {
      var line := ScoreLine(q, x, false);
      result := result + line;
    }
    var blocks := BlocksPenalty(q);
    result := result + blocks;
    var dark := CountDark(q);
    var total := qrsize * qrsize;
    assert total > 0 by { SquarePositive(qrsize); }
    var k := Balance(dark, total);
    result := result + k * PENALTY_N4;
  }

  // ---- Bounds

  lemma {:induction false} ScanBound(line: seq<bool>, size: int)
    ensures 0 <= ScanLine(line, size).score <= 80 * |line|
    ensures 0 <= ScanLine(line, size).run
  {
    hide AddHistory, CountPatterns;
    if line != [] {
      ScanBound(line[..|line| - 1], size);
    }
  }

  lemma LineBound(line: seq<bool>)
    ensures 0 <= LineScore(line) <= 80 * |line| + 80
  {
    hide AddHistory, CountPatterns, ScanLine;
    ScanBound(line, |line|);
  }

  lemma {:induction false} RowsBound(m: Matrix, n: nat)
    requires Square(m) && n <= |m| <= 177
    ensures 0 <= RowsScore(m, n) <= n * 14240
    ensures 0 <= ColumnsScore(m, n) <= n * 14240
  {
    hide LineScore;
    if n > 0 {
      RowsBound(m, n - 1);
      LineBound(m[n - 1]);
      LineBound(Column(m, n - 1));
    }
  }

  lemma {:induction false} BlocksInRowBound(a: seq<bool>, b: seq<bool>, n: nat)
    requires n < |a| == |b|
    ensures 0 <= BlocksInRow(a, b, n) <= 3 * n
  {
    if n > 0 { BlocksInRowBound(a, b, n - 1); }
  }

  lemma {:induction false} BlocksBound(m: Matrix, n: nat)
    requires Square(m) && n < |m| <= 177
    ensures 0 <= BlocksScore(m, n) <= n * 531
  {
    if n > 0 {
      BlocksBound(m, n - 1);
      BlocksInRowBound(m[n - 1], m[n], |m| - 1);
    }
  }

  /** The balance term is 0 to 9, as the source asserts. */
  lemma BalanceRange(dark: int, total: int)
    requires 0 <= dark <= total && total % 2 == 1
    ensures 0 <= Balance(dark, total) <= 9
  {
    var a := Abs(dark * 20 - total * 10);
    assert a != 0;
    DivModUnique(total, 10, total - 1);
    DivModUnique(total, 1, 0);
    DivMono(a + total - 1, 11 * total - 1, total);
    DivMono(total, a + total - 1, total);
  }

  lemma DivMono(a: int, b: int, n: int)
    requires a <= b && n > 0
    ensures a / n <= b / n
  {
    if a / n > b / n { MulMono(b / n + 1, a / n, n); }
  }

  /** Every score lies below the source's starting value for the minimum, LONG_MAX. */
  lemma ScoreBound(m: Matrix)
    requires Square(m) && |m| <= 177 && |m| % 4 == 1
    ensures 0 <= Score(m) < 0x7FFF_FFFF
  {
    RowsBound(m, |m|);
    BlocksBound(m, |m| - 1);
    var total := |m| * |m|;
    OddSquare(|m|);
    BalanceRange(DarkCount(m, |m|), total);
  }

  lemma OddSquare(n: int)
    requires n % 4 == 1
    ensures n * n % 2 == 1
  {
    var h := n / 4;
    assert n * n == 2 * (8 * h * h + 4 * h) + 1;
  }

}
