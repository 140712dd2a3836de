/** getNumRawDataModules (qr.c) is the number of modules that hold codeword bits, in all
    forty versions: the count behind the assertion at the end of drawCodewords. */
module QrCapacity {
  import opened Arith
  import opened FunctionModules
  import opened Interleave
  import opened QrSymbol
  import opened Zigzag

  type Cell = (int, int)

  // ---- Rectangles

  function Cells(left: int, top: int, width: nat, height: nat): set<Cell> {
    set x: int, y: int | left <= x < left + width && top <= y < top + height :: (x, y)
  }

  lemma {:induction false} RowSize(left: int, y: int, width: nat)
    ensures |Cells(left, y, width, 1)| == width
  {
    if width == 0 {
      assert Cells(left, y, 0, 1) == {};
    } else {
      RowSize(left, y, width - 1);
      var last := (left + width - 1, y);
      assert Cells(left, y, width, 1) == Cells(left, y, width - 1, 1) + {last};
      assert last !in Cells(left, y, width - 1, 1);
    }
  }

  lemma {:induction false} RectSize(left: int, top: int, width: nat, height: nat)
    ensures |Cells(left, top, width, height)| == width * height
  {
    hide *;
    if height == 0 {
      NoRows(left, top, width);
    } else {
      RectSize(left, top, width, height - 1);
      RowSize(left, top + height - 1, width);
      LastRow(left, top, width, height);
      Distribute(height, -1, width);
    }
  }

  lemma NoRows(left: int, top: int, width: nat)
    ensures Cells(left, top, width, 0) == {}
  {}

  lemma LastRow(left: int, top: int, width: nat, height: nat)
    requires height > 0
    ensures var above, row := Cells(left, top, width, height - 1), Cells(left, top + height - 1, width, 1);
      Cells(left, top, width, height) == above + row && |above + row| == |above| + |row|
  {
    assert Cells(left, top, width, height - 1) !! Cells(left, top + height - 1, width, 1);
  }

  lemma UnionSize(a: set<Cell>, b: set<Cell>)
    requires a !! b
    ensures |a + b| == |a| + |b|
  {}

  lemma InCells(c: Cell, left: int, top: int, width: nat, height: nat)
    ensures c in Cells(left, top, width, height) <==> InRect(left, top, width, height, c.0, c.1)
  {
    assert c == (c.0, c.1);
  }

  /** Rectangles in different columns or rows. */
  lemma RectsApart(l: int, t: int, w: nat, h: nat, l': int, t': int, w': nat, h': nat)
    requires l + w <= l' || l' + w' <= l || t + h <= t' || t' + h' <= t
    ensures Cells(l, t, w, h) !! Cells(l', t', w', h')
  {
    forall c | c in Cells(l, t, w, h) && c in Cells(l', t', w', h') ensures false {
      InCells(c, l, t, w, h);
      InCells(c, l', t', w', h');
    }
  }

  // ---- Data modules along the walk

  ghost function Visited(version: int, t: nat): set<Cell>
    requires 1 <= version <= 40
  {
    var size := SizeOf(version);
    set x: int, y: int | 0 <= x < size && 0 <= y < size && !IsFunction(version, x, y) && StepOf(size, x, y) < t ::
      (x, y)
  }

  lemma VisitedIs(version: int, t: nat, x: int, y: int)
    requires 1 <= version <= 40
    ensures (x, y) in Visited(version, t) <==>
            && 0 <= x < SizeOf(version) && 0 <= y < SizeOf(version)
            && !IsFunction(version, x, y) && StepOf(SizeOf(version), x, y) < t
  {}

  lemma {:induction false} VisitedCount(version: int, t: nat)
    requires 1 <= version <= 40 && t <= WalkLength(version)
    ensures |Visited(version, t)| == DataModules(version, t)
  {
    hide IsFunction, StepOf, CellOf, Visited, OnWalk;
    if t == 0 {
      NoneVisited(version);
    } else {
      VisitedCount(version, t - 1);
      StepBounds(SizeOf(version), t - 1);
      var (x, y) := CellOf(SizeOf(version), t - 1);
      VisitNext(version, t - 1, x, y);
    }
  }

  lemma NoneVisited(version: int)
    requires 1 <= version <= 40
    ensures Visited(version, 0) == {}
  {
    hide IsFunction, StepOf;
    forall c: Cell ensures c !in Visited(version, 0) {
      var (x, y) := c;
      if 0 <= x < SizeOf(version) && 0 <= y < SizeOf(version) && !IsFunction(version, x, y) {
        DataOnWalk(version, x, y);
        CellOfStep(SizeOf(version), x, y);
      }
    }
  }

  lemma DataOnWalk(version: int, x: int, y: int)
    requires 1 <= version <= 40 && 0 <= x < SizeOf(version) && 0 <= y < SizeOf(version) && !IsFunction(version, x, y)
    ensures OnWalk(SizeOf(version), x, y)
  {
    hide InAlignment;
  }

  lemma VisitNext(version: int, t: nat, x: int, y: int)
    requires 1 <= version <= 40 && t < WalkLength(version) && CellOf(SizeOf(version), t) == (x, y)
    ensures |Visited(version, t + 1)| == |Visited(version, t)| + if IsFunction(version, x, y) then 0 else 1
  {
    hide IsFunction, StepOf, CellOf, Visited;
    var size := SizeOf(version);
    StepBounds(size, t);
    var a, b := Visited(version, t), Visited(version, t + 1);
    forall x', y'
      ensures (x', y') in b <==> (x', y') in a || ((x', y') == (x, y) && !IsFunction(version, x, y))
    {
      VisitedIs(version, t, x', y');
      VisitedIs(version, t + 1, x', y');
      if 0 <= x' < size && 0 <= y' < size && !IsFunction(version, x', y') {
        DataOnWalk(version, x', y');
        CellOfStep(size, x', y');
      }
    }
    VisitedIs(version, t, x, y);
    forall c: Cell ensures c in b <==> c in a || (c == (x, y) && !IsFunction(version, x, y)) {
      assert c == (c.0, c.1);
    }
    if IsFunction(version, x, y) {
      assert b == a;
    } else {
      assert b == a + {(x, y)};
    }
  }

  // ---- Function modules, counted piece by piece

  /** The modules of alignment pattern (i, j) that no timing pattern holds. */
  function PatternCells(version: int, i: nat, j: nat): set<Cell>
    requires 1 <= version <= 40
  {
    var n := NumAlign(version);
    if !KeepsAlignment(n, i, j) then {}
    else if i == 0 then Cells(4, AlignPos(version, j) - 2, 2, 5) + Cells(7, AlignPos(version, j) - 2, 2, 5)
    else if j == 0 then Cells(AlignPos(version, i) - 2, 4, 5, 2) + Cells(AlignPos(version, i) - 2, 7, 5, 2)
    else Cells(AlignPos(version, i) - 2, AlignPos(version, j) - 2, 5, 5)
  }

  function PatternSize(n: nat, i: nat, j: nat): nat {
    if !KeepsAlignment(n, i, j) then 0 else if i == 0 || j == 0 then 20 else 25
  }

  /** What a module of a pattern is: near the pattern's centre, and on no timing line. */
  lemma PatternPlace(version: int, i: nat, j: nat, c: Cell)
    requires 1 <= version <= 40
    ensures c in PatternCells(version, i, j) <==>
            && KeepsAlignment(NumAlign(version), i, j) && NearAlignment(version, i, j, 2, c.0, c.1)
            && c.0 != 6 && c.1 != 6
  {
    hide NumAlign, AlignPos;
    var n := NumAlign(version);
    if KeepsAlignment(n, i, j) {
      FirstIs(version);
      if i > 0 { AlignApart(version, 0, i); }
      if j > 0 { AlignApart(version, 0, j); }
    }
  }

  lemma FirstIs(version: int)
    requires 1 <= version <= 40 && NumAlign(version) > 0
    ensures AlignPos(version, 0) == 6
  {}

  lemma PatternCount(version: int, i: nat, j: nat)
    requires 1 <= version <= 40
    ensures |PatternCells(version, i, j)| == PatternSize(NumAlign(version), i, j)
  {
    hide AlignPos, NumAlign, Cells;
    if KeepsAlignment(NumAlign(version), i, j) {
      var x, y := AlignPos(version, i) - 2, AlignPos(version, j) - 2;
      RectSize(4, y, 2, 5);
      RectSize(7, y, 2, 5);
      RectsApart(4, y, 2, 5, 7, y, 2, 5);
      RectSize(x, 4, 5, 2);
      RectSize(x, 7, 5, 2);
      RectsApart(x, 4, 5, 2, x, 7, 5, 2);
      RectSize(x, y, 5, 5);
    }
  }

  /** No module belongs to two patterns. */
  lemma PatternsApart(version: int, i: nat, j: nat, i': nat, j': nat, c: Cell)
    requires 1 <= version <= 40 && c in PatternCells(version, i, j) && c in PatternCells(version, i', j')
    ensures i == i' && j == j'
  {
    hide AlignPos, PatternCells, NumAlign;
    PatternPlace(version, i, j, c);
    PatternPlace(version, i', j', c);
    if i < i' { AlignApart(version, i, i'); } else if i' < i { AlignApart(version, i', i); }
    if j < j' { AlignApart(version, j, j'); } else if j' < j { AlignApart(version, j', j); }
  }

  /** Patterns (i, 0) to (i, k - 1), and all patterns of the first i columns of the grid. */
  function ColumnCells(version: int, i: nat, k: nat): set<Cell>
    requires 1 <= version <= 40
  {
    if k == 0 then {} else ColumnCells(version, i, k - 1) + PatternCells(version, i, k - 1)
  }

  function GridCells(version: int, i: nat): set<Cell>
    requires 1 <= version <= 40
  {
    if i == 0 then {} else GridCells(version, i - 1) + ColumnCells(version, i - 1, NumAlign(version))
  }

  function ColumnSum(n: nat, i: nat, k: nat): nat {
    if k == 0 then 0 else ColumnSum(n, i, k - 1) + PatternSize(n, i, k - 1)
  }

  function GridSum(n: nat, i: nat): nat {
    if i == 0 then 0 else GridSum(n, i - 1) + ColumnSum(n, i - 1, n)
  }

  /** A module of the column is one of these patterns', and the other way round. */
  lemma {:induction false} ColumnPlace(version: int, i: nat, k: nat, c: Cell)
    requires 1 <= version <= 40
    ensures c in ColumnCells(version, i, k) <==> exists j: nat :: j < k && c in PatternCells(version, i, j)
  {
    hide PatternCells;
    if k > 0 { ColumnPlace(version, i, k - 1, c); }
  }

  lemma {:induction false} GridPlace(version: int, k: nat, c: Cell)
    requires 1 <= version <= 40
    ensures c in GridCells(version, k)
       <==> exists i: nat, j: nat :: i < k && j < NumAlign(version) && c in PatternCells(version, i, j)
  {
    hide PatternCells, NumAlign, ColumnCells;
    if k > 0 {
      GridPlace(version, k - 1, c);
      ColumnPlace(version, k - 1, NumAlign(version), c);
    }
  }

  lemma {:induction false} ColumnCount(version: int, i: nat, k: nat)
    requires 1 <= version <= 40
    ensures |ColumnCells(version, i, k)| == ColumnSum(NumAlign(version), i, k)
  {
    hide PatternCells, PatternSize, NumAlign;
    if k > 0 {
      ColumnCount(version, i, k - 1);
      PatternCount(version, i, k - 1);
      var before, next := ColumnCells(version, i, k - 1), PatternCells(version, i, k - 1);
      forall c | c in before && c in next ensures false {
        ColumnPlace(version, i, k - 1, c);
        var j: nat :| j < k - 1 && c in PatternCells(version, i, j);
        PatternsApart(version, i, j, i, k - 1, c);
      }
      UnionSize(before, next);
    }
  }

  lemma {:induction false} GridCount(version: int, k: nat)
    requires 1 <= version <= 40
    ensures |GridCells(version, k)| == GridSum(NumAlign(version), k)
  {
    hide PatternCells, ColumnCells, ColumnSum, NumAlign;
    if k > 0 {
      var n := NumAlign(version);
      GridCount(version, k - 1);
      ColumnCount(version, k - 1, n);
      var before, next := GridCells(version, k - 1), ColumnCells(version, k - 1, n);
      forall c | c in before && c in next ensures false {
        GridPlace(version, k - 1, c);
        var i: nat, j: nat :| i < k - 1 && j < n && c in PatternCells(version, i, j);
        ColumnPlace(version, k - 1, n, c);
        var j': nat :| j' < n && c in PatternCells(version, k - 1, j');
        PatternsApart(version, i, j, k - 1, j', c);
      }
      UnionSize(before, next);
    }
  }

  /** The first column of the grid lacks two patterns, the last one lacks one, and the
      patterns on the timing lines share five modules with them. */
  lemma {:induction false} ColumnTotal(n: nat, i: nat, k: nat)
    requires n >= 2 && i < n && k <= n
    ensures ColumnSum(n, i, k) == if k == 0 then 0
                                  else if i == 0 then 20 * (k - 1) - (if k == n then 20 else 0)
                                  else (if i == n - 1 then 0 else 20) + 25 * (k - 1)
  {
    if k > 0 { ColumnTotal(n, i, k - 1); }
  }

  lemma {:induction false} GridTotal(n: nat, i: nat)
    requires n >= 2 && i <= n
    ensures GridSum(n, i) == if i == 0 then 0
                             else 20 * (n - 2) + (i - 1) * (20 + 25 * (n - 1)) - (if i == n then 20 else 0)
  {
    hide ColumnSum;
    if i > 0 {
      GridTotal(n, i - 1);
      ColumnTotal(n, i - 1, n);
      assert i >= 2 ==> (i - 1) * (20 + 25 * (n - 1)) == (i - 2) * (20 + 25 * (n - 1)) + (20 + 25 * (n - 1));
    }
  }

  // ---- All function modules

  /** Finder corners with their format bits, the timing lines between them, version blocks. */
  function FixedCells(version: int): set<Cell>
    requires 1 <= version <= 40
  {
    var size := SizeOf(version);
    Cells(0, 0, 9, 9) + Cells(size - 8, 0, 8, 9) + Cells(0, size - 8, 9, 8)
    + Cells(9, 6, 4 * version, 1) + Cells(6, 9, 1, 4 * version) + VersionCells(version)
  }

  function VersionCells(version: int): set<Cell> {
    var size := SizeOf(version);
    if version >= 7 then Cells(size - 11, 0, 3, 6) + Cells(0, size - 11, 6, 3) else {}
  }

  lemma FixedPlace(version: int, c: Cell)
    requires 1 <= version <= 40
    ensures c in FixedCells(version) <==>
            0 <= c.0 < SizeOf(version) && 0 <= c.1 < SizeOf(version) && FixedFunction(version, c.0, c.1)
  {
    hide Cells;
    var size := SizeOf(version);
    InCells(c, 0, 0, 9, 9);
    InCells(c, size - 8, 0, 8, 9);
    InCells(c, 0, size - 8, 9, 8);
    InCells(c, 9, 6, 4 * version, 1);
    InCells(c, 6, 9, 1, 4 * version);
    InCells(c, size - 11, 0, 3, 6);
    InCells(c, 0, size - 11, 6, 3);
  }

  lemma FixedCount(version: int)
    requires 1 <= version <= 40
    ensures |FixedCells(version)| == 225 + 8 * version + (if version >= 7 then 36 else 0)
  {
    hide Cells, VersionCells;
    var size := SizeOf(version);
    var a, b, c := Cells(0, 0, 9, 9), Cells(size - 8, 0, 8, 9), Cells(0, size - 8, 9, 8);
    var d, e, f := Cells(9, 6, 4 * version, 1), Cells(6, 9, 1, 4 * version), VersionCells(version);
    RectSize(0, 0, 9, 9);
    RectSize(size - 8, 0, 8, 9);
    RectSize(0, size - 8, 9, 8);
    RectSize(9, 6, 4 * version, 1);
    RectSize(6, 9, 1, 4 * version);
    VersionCount(version);
    RectsApart(0, 0, 9, 9, size - 8, 0, 8, 9);
    RectsApart(0, 0, 9, 9, 0, size - 8, 9, 8);
    RectsApart(size - 8, 0, 8, 9, 0, size - 8, 9, 8);
    UnionSize(a, b);
    UnionSize(a + b, c);
    RectsApart(0, 0, 9, 9, 9, 6, 4 * version, 1);
    RectsApart(size - 8, 0, 8, 9, 9, 6, 4 * version, 1);
    RectsApart(0, size - 8, 9, 8, 9, 6, 4 * version, 1);
    UnionSize(a + b + c, d);
    RectsApart(0, 0, 9, 9, 6, 9, 1, 4 * version);
    RectsApart(size - 8, 0, 8, 9, 6, 9, 1, 4 * version);
    RectsApart(0, size - 8, 9, 8, 6, 9, 1, 4 * version);
    RectsApart(9, 6, 4 * version, 1, 6, 9, 1, 4 * version);
    UnionSize(a + b + c + d, e);
    VersionApart(version);
    UnionSize(a + b + c + d + e, f);
  }

  lemma VersionCount(version: int)
    ensures |VersionCells(version)| == if version >= 7 then 36 else 0
  {
    hide Cells;
    var size := SizeOf(version);
    RectSize(size - 11, 0, 3, 6);
    RectSize(0, size - 11, 6, 3);
    if version >= 7 { RectsApart(size - 11, 0, 3, 6, 0, size - 11, 6, 3); }
  }

  lemma VersionApart(version: int)
    requires 1 <= version <= 40
    ensures var size := SizeOf(version);
      VersionCells(version) !! Cells(0, 0, 9, 9) + Cells(size - 8, 0, 8, 9) + Cells(0, size - 8, 9, 8)
                               + Cells(9, 6, 4 * version, 1) + Cells(6, 9, 1, 4 * version)
  {
    hide Cells;
    var size := SizeOf(version);
    if version >= 7 {
      RectsApart(size - 11, 0, 3, 6, 0, 0, 9, 9);
      RectsApart(size - 11, 0, 3, 6, size - 8, 0, 8, 9);
      RectsApart(size - 11, 0, 3, 6, 0, size - 8, 9, 8);
      RectsApart(size - 11, 0, 3, 6, 9, 6, 4 * version, 1);
      RectsApart(size - 11, 0, 3, 6, 6, 9, 1, 4 * version);
      RectsApart(0, size - 11, 6, 3, 0, 0, 9, 9);
      RectsApart(0, size - 11, 6, 3, size - 8, 0, 8, 9);
      RectsApart(0, size - 11, 6, 3, 0, size - 8, 9, 8);
      RectsApart(0, size - 11, 6, 3, 9, 6, 4 * version, 1);
      RectsApart(0, size - 11, 6, 3, 6, 9, 1, 4 * version);
    }
  }

  // ---- Alignment patterns meet no other function pattern but the timing lines

  /** The last position, and how far behind it the others stay. */
  lemma LastPositions(version: int, i: int)
    requires 2 <= version <= 40 && 0 <= i < NumAlign(version)
    ensures i == NumAlign(version) - 1 ==> AlignPos(version, i) == SizeOf(version) - 7
    ensures i < NumAlign(version) - 1 ==> AlignPos(version, i) <= SizeOf(version) - 13
    ensures i < NumAlign(version) - 1 && version >= 7 ==> AlignPos(version, i) <= SizeOf(version) - 15
  {
    hide AlignPos, AlignStep, NumAlign;
    var n := NumAlign(version);
    AtLeastTwo(version);
    AlignPosIs(version, n - 1);
    if i < n - 1 {
      AlignApart(version, i, n - 1);
      if version >= 7 {
        WideSteps(version);
        AlignPosIs(version, i);
        MulMono(1, n - 1 - i, AlignStep(version));
      }
    }
  }

  lemma AtLeastTwo(version: int)
    requires 2 <= version <= 40
    ensures NumAlign(version) >= 2
  {}

  lemma WideSteps(version: int)
    requires 7 <= version <= 40
    ensures AlignStep(version) >= 8
  {
    var n := NumAlign(version);
    if n == 3 {
    } else if n == 4 {
    } else if n == 5 {
    } else if n == 6 {
    } else {
      assert n == 7;
    }
  }

  lemma PatternClear(version: int, i: nat, j: nat, c: Cell)
    requires 1 <= version <= 40 && c in PatternCells(version, i, j)
    ensures 0 <= c.0 < SizeOf(version) && 0 <= c.1 < SizeOf(version) && !FixedFunction(version, c.0, c.1)
  {
    hide AlignPos, PatternCells, NumAlign;
    PatternPlace(version, i, j, c);
    Grown(version);
    FirstIs(version);
    if i > 0 { AlignApart(version, 0, i); }
    if j > 0 { AlignApart(version, 0, j); }
    LastPositions(version, i);
    LastPositions(version, j);
    PlaceClear(version, NumAlign(version), i, j, AlignPos(version, i), AlignPos(version, j), c.0, c.1);
  }

  lemma Grown(version: int)
    requires 1 <= version <= 40
    ensures NumAlign(version) > 0 ==> version >= 2
  {}

  lemma PlaceClear(version: int, n: int, i: int, j: int, cx: int, cy: int, x: int, y: int)
    requires 2 <= version <= 40 && KeepsAlignment(n, i, j)
    requires cx - 2 <= x <= cx + 2 && cy - 2 <= y <= cy + 2 && x != 6 && y != 6
    requires if i == 0 then cx == 6 else cx >= 12
    requires if j == 0 then cy == 6 else cy >= 12
    requires if i == n - 1 then cx == SizeOf(version) - 7 else cx <= SizeOf(version) - (if version >= 7 then 15 else 13)
    requires if j == n - 1 then cy == SizeOf(version) - 7 else cy <= SizeOf(version) - (if version >= 7 then 15 else 13)
    ensures 0 <= x < SizeOf(version) && 0 <= y < SizeOf(version) && !FixedFunction(version, x, y)
  {}

  /** The two descriptions of the function modules agree. */
  lemma FunctionPlace(version: int, c: Cell)
    requires 1 <= version <= 40
    ensures c in FixedCells(version) + GridCells(version, NumAlign(version)) <==>
            0 <= c.0 < SizeOf(version) && 0 <= c.1 < SizeOf(version) && IsFunction(version, c.0, c.1)
  {
    hide FixedCells, GridCells, NumAlign, NearAlignment, PatternCells, AlignPos;
    var n := NumAlign(version);
    FixedPlace(version, c);
    GridPlace(version, n, c);
    if c in GridCells(version, n) {
      var i: nat, j: nat :| i < n && j < n && c in PatternCells(version, i, j);
      PatternPlace(version, i, j, c);
      PatternClear(version, i, j, c);
    } else if 0 <= c.0 < SizeOf(version) && 0 <= c.1 < SizeOf(version) && IsFunction(version, c.0, c.1) {
      if !FixedFunction(version, c.0, c.1) {
        var i, j :| KeepsAlignment(n, i, j) && NearAlignment(version, i, j, 2, c.0, c.1);
        PatternPlace(version, i, j, c);
      }
    }
  }

  lemma FunctionCount(version: int)
    requires 1 <= version <= 40
    ensures |FixedCells(version) + GridCells(version, NumAlign(version))|
         == 225 + 8 * version + (if version >= 7 then 36 else 0) + GridSum(NumAlign(version), NumAlign(version))
  {
    hide FixedCells, GridCells, NumAlign, GridSum, PatternCells, FixedFunction;
    var n := NumAlign(version);
    FixedCount(version);
    GridCount(version, n);
    forall c | c in FixedCells(version) && c in GridCells(version, n) ensures false {
      FixedPlace(version, c);
      GridPlace(version, n, c);
      var i: nat, j: nat :| i < n && j < n && c in PatternCells(version, i, j);
      PatternClear(version, i, j, c);
    }
    UnionSize(FixedCells(version), GridCells(version, n));
  }

  // ---- The capacity

  /** Every version has exactly the data modules that getNumRawDataModules says. */
  lemma Capacity(version: int)
    requires 1 <= version <= 40
    ensures DataModules(version, WalkLength(version)) == NumRawDataModules(version)
  {
    hide *;
    AllCounted(version);
    FunctionCount(version);
    RawModules(version);
  }

  lemma AllCounted(version: int)
    requires 1 <= version <= 40
    ensures DataModules(version, WalkLength(version)) + |FixedCells(version) + GridCells(version, NumAlign(version))|
         == SizeOf(version) * SizeOf(version) && 0 <= SizeOf(version)
  {
    hide FixedCells, GridCells, NumAlign, IsFunction, StepOf, DataModules, Visited, OnWalk, Cells, WalkLength;
    var size := SizeOf(version);
    var data := Visited(version, WalkLength(version));
    var fun := FixedCells(version) + GridCells(version, NumAlign(version));
    VisitedCount(version, WalkLength(version));
    forall c: Cell
      ensures c in Cells(0, 0, size, size) <==> c in data || c in fun
      ensures !(c in data && c in fun)
    {
      var (x, y) := c;
      InCells(c, 0, 0, size, size);
      FunctionPlace(version, c);
      VisitedIs(version, WalkLength(version), x, y);
      if 0 <= x < size && 0 <= y < size && !IsFunction(version, x, y) {
        DataOnWalk(version, x, y);
        WalkLengthIs(version);
        CellOfStep(size, x, y);
      }
    }
    assert Cells(0, 0, size, size) == data + fun;
    RectSize(0, 0, size, size);
    UnionSize(data, fun);
  }

  lemma WalkLengthIs(version: int)
    requires 1 <= version <= 40
    ensures WalkLength(version) == Steps(SizeOf(version)) && ValidSize(SizeOf(version))
  {}

  lemma RawModules(version: int)
    requires 1 <= version <= 40
    ensures NumRawDataModules(version) == SizeOf(version) * SizeOf(version) - 225 - 8 * version
            - (if version >= 7 then 36 else 0) - GridSum(NumAlign(version), NumAlign(version))
    ensures NumRawDataModules(version) >= 0
  {
    hide GridSum;
    var n := NumAlign(version);
    assert SizeOf(version) * SizeOf(version) == 16 * (version * version) + 136 * version + 289;
    assert (16 * version + 128) * version == 16 * (version * version) + 128 * version;
    if version >= 2 {
      GridTotal(n, n);
      assert (25 * n - 10) * n - 55 == 20 * (n - 2) + (n - 1) * (20 + 25 * (n - 1)) - 20;
    } else {
      NoGrid();
    }
  }

  lemma NoGrid()
    ensures GridSum(0, 0) == 0
  {}

}
