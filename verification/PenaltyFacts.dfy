/** What the penalty of a symbol (getPenaltyScore in qr.c; ISO/IEC 18004, section 7.8.3.1)
    counts: blocks of one colour and dark modules as sets of places, and two lines by their
    modules. */
module PenaltyFacts {
  import opened Penalty
  import opened PenaltyRuns

  type Place = (int, int)

  // ---- Blocks of two by two

  /** The modules at (x, y), right of it, below it and between these two show one colour. */
  predicate OneColour(m: Matrix, x: int, y: int)
    requires Square(m) && 0 <= x < |m| - 1 && 0 <= y < |m| - 1
  {
    m[y][x] == m[y][x + 1] == m[y + 1][x] == m[y + 1][x + 1]
  }

  /** The upper left modules of the blocks of one colour, left of column n and above row k. */
  function BlockPlaces(m: Matrix, k: nat, n: nat): set<Place>
    requires Square(m) && k < |m| && n < |m|
  {
    set x: int, y: int | 0 <= x < n && 0 <= y < k && OneColour(m, x, y) :: (x, y)
  }

  function BlocksBetween(m: Matrix, y: nat, n: nat): set<Place>
    requires Square(m) && y + 1 < |m| && n < |m|
  {
    set x: int | 0 <= x < n && OneColour(m, x, y) :: (x, y as int)
  }

  lemma NextBlock(m: Matrix, y: nat, n: nat)
    requires Square(m) && y + 1 < |m| && n + 1 < |m|
    ensures |BlocksBetween(m, y, n + 1)| == |BlocksBetween(m, y, n)| + if OneColour(m, n, y) then 1 else 0
  {
    hide OneColour;
    var a, b, c := BlocksBetween(m, y, n), BlocksBetween(m, y, n + 1), (n as int, y as int);
    if OneColour(m, n, y) {
      assert b == a + {c} && c !in a;
    } else {
      assert b == a;
    }
  }

  lemma {:induction false} RowBlocks(m: Matrix, y: nat, n: nat)
    requires Square(m) && y + 1 < |m| && n < |m|
    ensures BlocksInRow(m[y], m[y + 1], n) == 3 * |BlocksBetween(m, y, n)|
  {
    if n == 0 {
      assert BlocksBetween(m, y, 0) == {};
    } else {
      hide BlocksBetween;
      RowBlocks(m, y, n - 1);
      NextBlock(m, y, n - 1);
    }
  }

  lemma NextRow(m: Matrix, k: nat)
    requires Square(m) && k + 1 < |m|
    ensures |BlockPlaces(m, k + 1, |m| - 1)| == |BlockPlaces(m, k, |m| - 1)| + |BlocksBetween(m, k, |m| - 1)|
  {
    hide OneColour;
    var a, b := BlockPlaces(m, k, |m| - 1), BlocksBetween(m, k, |m| - 1);
    assert BlockPlaces(m, k + 1, |m| - 1) == a + b && a !! b;
  }

  lemma {:induction false} BlocksCounted(m: Matrix, k: nat)
    requires Square(m) && k < |m|
    ensures BlocksScore(m, k) == 3 * |BlockPlaces(m, k, |m| - 1)|
  {
    if k == 0 {
      assert BlockPlaces(m, 0, |m| - 1) == {};
    } else {
      hide BlockPlaces, BlocksBetween, BlocksInRow;
      BlocksCounted(m, k - 1);
      RowBlocks(m, k - 1, |m| - 1);
      NextRow(m, k - 1);
    }
  }

  // ---- Dark modules

  function DarkPlaces(m: Matrix, k: nat): set<Place>
    requires Square(m) && k <= |m|
  {
    set x: int, y: int | 0 <= x < |m| && 0 <= y < k && m[y][x] :: (x, y)
  }

  function DarkIn(m: Matrix, y: nat, n: nat): set<Place>
    requires Square(m) && y < |m| && n <= |m|
  {
    set x: int | 0 <= x < n && m[y][x] :: (x, y as int)
  }

  lemma NextDark(m: Matrix, y: nat, n: nat)
    requires Square(m) && y < |m| && n < |m|
    ensures |DarkIn(m, y, n + 1)| == |DarkIn(m, y, n)| + if m[y][n] then 1 else 0
  {
    var a, b, c := DarkIn(m, y, n), DarkIn(m, y, n + 1), (n as int, y as int);
    if m[y][n] {
      assert b == a + {c} && c !in a;
    } else {
      assert b == a;
    }
  }

  lemma {:induction false} RowDark(m: Matrix, y: nat, n: nat)
    requires Square(m) && y < |m| && n <= |m|
    ensures DarkInRow(m[y], n) == |DarkIn(m, y, n)|
  {
    if n == 0 {
      assert DarkIn(m, y, 0) == {};
    } else {
      hide DarkIn;
      RowDark(m, y, n - 1);
      NextDark(m, y, n - 1);
    }
  }

  lemma NextDarkRow(m: Matrix, k: nat)
    requires Square(m) && k < |m|
    ensures |DarkPlaces(m, k + 1)| == |DarkPlaces(m, k)| + |DarkIn(m, k, |m|)|
  {
    var a, b := DarkPlaces(m, k), DarkIn(m, k, |m|);
    assert DarkPlaces(m, k + 1) == a + b && a !! b;
  }

  lemma {:induction false} DarkCounted(m: Matrix, k: nat)
    requires Square(m) && k <= |m|
    ensures DarkCount(m, k) == |DarkPlaces(m, k)|
  {
    if k == 0 {
      assert DarkPlaces(m, 0) == {};
    } else {
      hide DarkPlaces, DarkIn, DarkInRow;
      DarkCounted(m, k - 1);
      RowDark(m, k - 1, |m|);
      NextDarkRow(m, k - 1);
    }
  }

  // ---- Lines

  function Total(s: seq<int>): int { if s == [] then 0 else Total(s[..|s| - 1]) + s[|s| - 1] }

  /** What the first n rows are charged, one after the other. */
  function RowCharges(m: Matrix, n: nat): seq<int>
    requires Square(m) && n <= |m|
  {
    seq(n, y requires 0 <= y < n => LineScore(m[y]))
  }

  /** The matrix with rows and columns exchanged. */
  function Exchanged(m: Matrix): (t: Matrix)
    requires Square(m)
    ensures Square(t) && |t| == |m| && forall x, y :: 0 <= x < |m| && 0 <= y < |m| ==> t[x][y] == m[y][x]
  {
    seq(|m|, x requires 0 <= x < |m| => seq(|m|, y requires 0 <= y < |m| => m[y][x]))
  }

  lemma {:induction false} RowsTotal(m: Matrix, n: nat)
    requires Square(m) && n <= |m|
    ensures RowsScore(m, n) == Total(RowCharges(m, n))
  {
    hide LineScore;
    if n > 0 {
      RowsTotal(m, n - 1);
      assert RowCharges(m, n)[..n - 1] == RowCharges(m, n - 1);
    }
  }

  lemma {:induction false} ColumnsTotal(m: Matrix, n: nat)
    requires Square(m) && n <= |m|
    ensures ColumnsScore(m, n) == Total(RowCharges(Exchanged(m), n))
  {
    hide LineScore;
    if n > 0 {
      ColumnsTotal(m, n - 1);
      assert RowCharges(Exchanged(m), n)[..n - 1] == RowCharges(Exchanged(m), n - 1);
      assert Exchanged(m)[n - 1] == Column(m, n - 1);
    }
  }

  /** The score: what the rows and the columns are charged, three for each block of one
      colour, and ten for each step of the share of dark modules away from one half. */
  lemma ScoreParts(m: Matrix)
    requires Square(m)
    ensures Score(m)
         == Total(RowCharges(m, |m|)) + Total(RowCharges(Exchanged(m), |m|))
          + 3 * |BlockPlaces(m, |m| - 1, |m| - 1)| + 10 * Balance(|DarkPlaces(m, |m|)|, |m| * |m|)
  {
    hide RowCharges, Exchanged, Total, Balance, BlockPlaces, DarkPlaces;
    RowsTotal(m, |m|);
    ColumnsTotal(m, |m|);
    BlocksCounted(m, |m| - 1);
    DarkCounted(m, |m|);
  }
}
