/** Placing the codewords of a QR symbol (drawCodewords in qr.c) along the zigzag walk. */
module Zigzag {
  import opened Arith
  import opened BitBuffer
  import opened BitStrings
  import opened Bits
  import opened Gf256
  import opened QrMatrix

  // ---- The walk: step t visits one module, by column pair, row, and side of the pair

  /** Right column of the c-th column pair from the right; the pairs skip column 6. */
  function Right(size: int, c: int): int {
    var r := size - 1 - 2 * c;
    if r > 6 then r else r - 1
  }

  predicate Upward(right: int) { (right + 1) / 2 % 2 == 0 }

  function Steps(size: int): int { size * (size - 1) }

  /** The module visited at row counter `vert` and side j of pair c. */
  function CellAt(size: int, c: int, vert: int, j: int): (int, int) {
    var right := Right(size, c);
    (right - j, if Upward(right) then size - 1 - vert else vert)
  }

  function StepAt(size: int, c: int, vert: int, j: int): int {
    2 * (c * size + vert) + j
  }

  function PairOf(size: int, x: int): int {
    if x > 6 then (size - 1 - x) / 2 else (size - 2 - x) / 2
  }

  function VertOf(size: int, x: int, y: int): int {
    if Upward(Right(size, PairOf(size, x))) then size - 1 - y else y
  }

  /** The step at which a module outside column 6 is visited. */
  function StepOf(size: int, x: int, y: int): int {
    StepAt(size, PairOf(size, x), VertOf(size, x, y), Right(size, PairOf(size, x)) - x)
  }

  function CellOf(size: int, t: int): (int, int)
    requires size > 0
  {
    CellAt(size, t / 2 / size, t / 2 % size, t % 2)
  }

  predicate OnWalk(size: int, x: int, y: int) {
    0 <= x < size && 0 <= y < size && x != 6
  }

  predicate ValidSize(size: int) { 21 <= size <= 177 && size % 4 == 1 }

  lemma StepParts(size: int, c: int, vert: int, j: int)
    requires size > 0 && 0 <= c && 0 <= vert < size && 0 <= j < 2
    ensures var t := StepAt(size, c, vert, j);
            t / 2 / size == c && t / 2 % size == vert && t % 2 == j && 0 <= t
  {
    var h := c * size + vert;
    assert (2 * h + j) / 2 == h;
    DivModUnique(size, c, vert);
    MulMono(0, c, size);
  }

  lemma StepRange(size: int, c: int, vert: int, j: int)
    requires ValidSize(size) && 0 <= c < (size - 1) / 2 && 0 <= vert < size && 0 <= j < 2
    ensures 0 <= StepAt(size, c, vert, j) < Steps(size)
  {
    hide *;
    OddSize(size);
    var last := (size - 1) / 2;
    RowMajor(size, last, vert, c);
    HalfSteps(size, last);
    StepValue(size, c, vert, j);
    DoubleBelow(c * size + vert, last * size, j);
  }

  lemma OddSize(size: int)
    requires ValidSize(size)
    ensures size - 1 == 2 * ((size - 1) / 2) && 21 <= size
  {}

  lemma DoubleBelow(a: int, b: int, j: int)
    requires 0 <= a < b && 0 <= j < 2
    ensures 0 <= 2 * a + j < 2 * b
  {}

  lemma StepValue(size: int, c: int, vert: int, j: int)
    ensures StepAt(size, c, vert, j) == 2 * (c * size + vert) + j
  {}

  lemma HalfSteps(size: int, last: int)
    requires size - 1 == 2 * last
    ensures 2 * (last * size) == Steps(size)
  {}

  lemma PairCoordinates(size: int, x: int, y: int)
    requires ValidSize(size) && OnWalk(size, x, y)
    ensures 0 <= PairOf(size, x) < (size - 1) / 2 && 0 <= VertOf(size, x, y) < size
    ensures 0 <= Right(size, PairOf(size, x)) - x < 2
    ensures CellAt(size, PairOf(size, x), VertOf(size, x, y), Right(size, PairOf(size, x)) - x) == (x, y)
  {}

  /** Every module outside column 6 is visited, at the step StepOf gives. */
  lemma CellOfStep(size: int, x: int, y: int)
    requires ValidSize(size) && OnWalk(size, x, y)
    ensures 0 <= StepOf(size, x, y) < Steps(size)
    ensures CellOf(size, StepOf(size, x, y)) == (x, y)
  {
    hide StepAt, PairOf, VertOf, Right, CellAt, Steps;
    var c, v := PairOf(size, x), VertOf(size, x, y);
    var j := Right(size, c) - x;
    PairCoordinates(size, x, y);
    StepParts(size, c, v, j);
    StepRange(size, c, v, j);
  }

  /** No module is visited twice: the step is determined by the module. */
  lemma StepOfCell(size: int, c: int, vert: int, j: int)
    requires ValidSize(size) && 0 <= c < (size - 1) / 2 && 0 <= vert < size && 0 <= j < 2
    ensures var (x, y) := CellAt(size, c, vert, j);
            OnWalk(size, x, y) && StepOf(size, x, y) == StepAt(size, c, vert, j)
  {}

  lemma PairAndRow(size: int, t: int)
    requires ValidSize(size) && 0 <= t < Steps(size)
    ensures 0 <= t / 2 / size < (size - 1) / 2 && 0 <= t / 2 % size < size
  {
    hide *;
    OddSize(size);
    var last := (size - 1) / 2;
    HalfSteps(size, last);
    HalfBelow(t, size * last);
    Columns(size, t / 2, last);
  }

  lemma HalfBelow(t: int, n: int)
    requires 0 <= t < 2 * n
    ensures 0 <= t / 2 < n
  {}

  lemma StepBounds(size: int, t: int)
    requires ValidSize(size) && 0 <= t < Steps(size)
    ensures 0 <= t / 2 / size < (size - 1) / 2 && 0 <= t / 2 % size < size
    ensures t == StepAt(size, t / 2 / size, t / 2 % size, t % 2)
    ensures var (x, y) := CellOf(size, t); OnWalk(size, x, y) && StepOf(size, x, y) == t
  {
    hide StepAt, Right, CellAt, StepOf, Steps, OnWalk;
    PairAndRow(size, t);
    StepOfCell(size, t / 2 / size, t / 2 % size, t % 2);
    StepSplit(size, t);
  }

  lemma StepSplit(size: int, t: int)
    requires size > 0
    ensures t == StepAt(size, t / 2 / size, t / 2 % size, t % 2)
  {}

  // ---- The codeword bits along the walk

  predicate Free(q: seq<Byte>, x: int, y: int)
    requires IsSymbol(q) && InSymbol(q, x, y)
  {
    !Dark(q, x, y)
  }

  /** Number of light modules of q among the first t steps. */
  function FreeBefore(q: seq<Byte>, t: nat): nat
    requires IsSymbol(q) && t <= Steps(Size(q))
  {
    if t == 0 then 0 else
    StepBounds(Size(q), t - 1);
    var (x, y) := CellOf(Size(q), t - 1);
    FreeBefore(q, t - 1) + if Free(q, x, y) then 1 else 0
  }

  /** What drawCodewords makes of the module (x, y) of q. */
  predicate DrawnDark(q: seq<Byte>, data: seq<Byte>, x: int, y: int)
    requires IsSymbol(q) && InSymbol(q, x, y)
  {
    if x == 6 || Dark(q, x, y) then Dark(q, x, y)
    else
      CellOfStep(Size(q), x, y);
      var r := FreeBefore(q, StepOf(Size(q), x, y));
      r < 8 * |data| && DataBit(data, r)
  }

  /** q' is q with the data drawn into its light modules along the walk. */
  ghost predicate Drawn(q: seq<Byte>, q': seq<Byte>, data: seq<Byte>)
    requires IsSymbol(q)
  {
    && |q'| == |q| && q'[0] == q[0]
    && forall x, y | InSymbol(q, x, y) :: Dark(q', x, y) == DrawnDark(q, data, x, y)
  }

  /** The walk has passed t steps. */
  ghost predicate DrawnUpTo(q: seq<Byte>, q': seq<Byte>, data: seq<Byte>, t: int)
    requires IsSymbol(q)
  {
    && |q'| == |q| && q'[0] == q[0]
    && forall x, y | InSymbol(q, x, y) ::
         Dark(q', x, y) == if x != 6 && StepOf(Size(q), x, y) < t then DrawnDark(q, data, x, y) else Dark(q, x, y)
  }

  /** drawCodewords stands at step t of the walk over q0: the modules passed are drawn,
      and i bits of the data are used up. */
  ghost predicate At(q0: seq<Byte>, q: seq<Byte>, data: seq<Byte>, t: int, i: int)
    requires IsSymbol(q0)
  {
    && 0 <= t <= Steps(Size(q0))
    && DrawnUpTo(q0, q, data, t)
    && i == Min(FreeBefore(q0, t), 8 * |data|)
  }

  lemma IsAt(q0: seq<Byte>, q: seq<Byte>, data: seq<Byte>, t: int, i: int)
    requires IsSymbol(q0)
    ensures At(q0, q, data, t, i) <==>
            && 0 <= t <= Steps(Size(q0))
            && DrawnUpTo(q0, q, data, t)
            && i == Min(FreeBefore(q0, t), 8 * |data|)
  {}

  /** One visit of the walk, as the loop body of drawCodewords does it. */
  method Visit(q: array<Byte>, data: array<Byte>, dataLen: int, i: int, x: int, y: int,
               ghost q0: seq<Byte>, ghost t: nat) returns (i': int)
    requires q != data && 0 <= dataLen <= data.Length
    requires IsSymbol(q[..]) && IsSymbol(q0) && t < Steps(Size(q0))
    requires CellOf(Size(q0), t) == (x, y)
    requires At(q0, q[..], data[..dataLen], t, i)
    modifies q
    ensures IsSymbol(q[..])
    ensures At(q0, q[..], data[..dataLen], t + 1, i')
  {
    hide Dark, Bit, CellOf, StepOf, At;
    ghost var size := Size(q0);
    ghost var d := data[..dataLen];
    IsAt(q0, q[..], d, t, i);
    StepBounds(size, t);
    i' := i;
    var wasDark := GetModule(q, x, y);
    if !wasDark && i < dataLen * 8 {
      var dark := Bit(data[i / 8], 7 - i % 8);
      assert dark == DataBit(d, i);
      SetModule(q, x, y, dark);
      i' := i + 1;
    }
    ghost var was := old(q[..]);
    forall x', y' | InSymbol(q0, x', y')
      ensures Dark(q[..], x', y') == if x' != 6 && StepOf(size, x', y') < t + 1 then DrawnDark(q0, d, x', y')
              else Dark(q0, x', y')
    {
      if x' != 6 {
        CellOfStep(size, x', y');
      }
    }
    IsAt(q0, q[..], d, t + 1, i');
  }

  /** drawCodewords. The number of free modules is what the source asserts of it. */
  method DrawCodewords(data: array<Byte>, dataLen: int, q: array<Byte>)
    requires q != data && 0 <= dataLen <= data.Length
    requires IsSymbol(q[..])
    requires FreeBefore(q[..], Steps(Size(q[..]))) >= 8 * dataLen
    modifies q
    ensures IsSymbol(q[..])
    ensures Drawn(old(q[..]), q[..], old(data[..dataLen]))
  {
    hide FreeBefore, Dark, StepAt, At, Steps, Drawn, Right, IsSymbol;
    SymbolSize(q[..]);
    ghost var q0 := q[..];
    ghost var d := data[..dataLen];
    var qrsize: int := q[0];
    ghost var pairs := (qrsize - 1) / 2;
    var i := 0;
    var right := qrsize - 1;
    ghost var c := 0;
    WalkStart(q0, d);
    RightStart(qrsize);
    while right >= 1
      invariant 0 <= c <= pairs
      invariant right == if Right(qrsize, c) == 5 then 6 else Right(qrsize, c)
      invariant IsSymbol(q[..])
      invariant At(q0, q[..], d, StepAt(qrsize, c, 0, 0), i)
      decreases pairs - c
    {
      RightNext(qrsize, c);
      if right == 6 {
        right := 5;
      }
      i := DrawPair(q, data, dataLen, i, right, q0, c);
      right := right - 2;
      c := c + 1;
    }
    RightNext(qrsize, c);
    WalkEnd(q0, q[..], d, c, i);
  }

  lemma SymbolSize(q: seq<Byte>)
    requires IsSymbol(q)
    ensures |q| > 0 && ValidSize(Size(q))
  {}

  lemma RightStart(size: int)
    requires ValidSize(size)
    ensures Right(size, 0) == size - 1 != 5
  {}

  /** Leaving column 6 out, each pair begins two columns left of the one before. */
  lemma RightNext(size: int, c: int)
    requires ValidSize(size) && 0 <= c <= (size - 1) / 2
    ensures c < (size - 1) / 2 <==> Right(size, c) >= 1
    ensures Right(size, c) != 6
    ensures Right(size, c) - 2 == if Right(size, c + 1) == 5 then 6 else Right(size, c + 1)
  {}

  /** The two inner loops of drawCodewords: one column pair. */
  method DrawPair(q: array<Byte>, data: array<Byte>, dataLen: int, i0: int, right: int,
                  ghost q0: seq<Byte>, ghost c: int) returns (i: int)
    requires q != data && 0 <= dataLen <= data.Length
    requires IsSymbol(q[..]) && IsSymbol(q0)
    requires 0 <= c < (Size(q0) - 1) / 2 && right == Right(Size(q0), c)
    requires At(q0, q[..], data[..dataLen], StepAt(Size(q0), c, 0, 0), i0)
    modifies q
    ensures IsSymbol(q[..])
    ensures At(q0, q[..], data[..dataLen], StepAt(Size(q0), c + 1, 0, 0), i)
  {
    hide FreeBefore, StepAt, CellOf, At, Steps, Right;
    i := i0;
    var qrsize: int := q[0];
    assert Size(q0) == qrsize by { SameSize(q0, q[..], data[..dataLen], StepAt(Size(q0), c, 0, 0), i); }
    for vert := 0 to qrsize
      invariant IsSymbol(q[..])
      invariant At(q0, q[..], data[..dataLen], StepAt(qrsize, c, vert, 0), i)
    {
      NextStep(qrsize, c, vert);
      for j := 0 to 2
        invariant IsSymbol(q[..])
        invariant At(q0, q[..], data[..dataLen], StepAt(qrsize, c, vert, j), i)
      {
        var x := right - j;
        var upward := (right + 1) / 2 % 2 == 0;
        var y := if upward then qrsize - 1 - vert else vert;
        CellOfStepAt(qrsize, c, vert, j);
        i := Visit(q, data, dataLen, i, x, y, q0, StepAt(qrsize, c, vert, j));
      }
    }
    NextPair(qrsize, c);
  }

  lemma SameSize(q0: seq<Byte>, q: seq<Byte>, data: seq<Byte>, t: int, i: int)
    requires IsSymbol(q0) && At(q0, q, data, t, i)
    ensures |q| == |q0| && q[0] == q0[0]
  {}

  lemma CellOfStepAt(size: int, c: int, vert: int, j: int)
    requires ValidSize(size) && 0 <= c < (size - 1) / 2 && 0 <= vert < size && 0 <= j < 2
    ensures 0 <= StepAt(size, c, vert, j) < Steps(size)
    ensures CellOf(size, StepAt(size, c, vert, j)) == CellAt(size, c, vert, j)
  {
    hide StepAt, Steps, CellAt;
    StepRange(size, c, vert, j);
    StepParts(size, c, vert, j);
  }

  /** Both sides of a row, then the next row; the last row, then the next pair. */
  lemma NextStep(size: int, c: int, vert: int)
    requires ValidSize(size) && 0 <= c < (size - 1) / 2 && 0 <= vert < size
    ensures StepAt(size, c, vert, 1) == StepAt(size, c, vert, 0) + 1
    ensures StepAt(size, c, vert, 2) == StepAt(size, c, vert, 1) + 1 == StepAt(size, c, vert + 1, 0)
    ensures 0 <= StepAt(size, c, vert, 0) && StepAt(size, c, vert, 2) <= Steps(size)
  {
    StepRange(size, c, vert, 1);
    MulMono(0, c, size);
  }

  lemma NextPair(size: int, c: int)
    ensures StepAt(size, c, size, 0) == StepAt(size, c + 1, 0, 0)
  {
    assert (c + 1) * size == c * size + size;
  }

  lemma WalkStart(q: seq<Byte>, data: seq<Byte>)
    requires IsSymbol(q)
    ensures At(q, q, data, StepAt(Size(q), 0, 0, 0), 0)
  {
    hide StepOf, Dark;
    MulMono(0, Size(q), Size(q) - 1);
    forall x, y | InSymbol(q, x, y) && x != 6
      ensures StepOf(Size(q), x, y) >= 0
    {
      CellOfStep(Size(q), x, y);
    }
  }

  lemma WalkEnd(q0: seq<Byte>, q: seq<Byte>, data: seq<Byte>, c: int, i: int)
    requires IsSymbol(q0) && c == (Size(q0) - 1) / 2
    requires At(q0, q, data, StepAt(Size(q0), c, 0, 0), i)
    ensures Drawn(q0, q, data)
  {
    hide StepOf, Dark, FreeBefore, StepAt, Steps;
    OddSize(Size(q0));
    HalfSteps(Size(q0), c);
    StepValue(Size(q0), c, 0, 0);
    forall x, y | InSymbol(q0, x, y)
      ensures Dark(q, x, y) == DrawnDark(q0, data, x, y)
    {
      if x != 6 { CellOfStep(Size(q0), x, y); }
    }
  }

  // ---- Reading the codewords back

  /** The modules that are free in `fun`, read from q along the first t steps of the walk. */
  function ReadBits(fun: seq<Byte>, q: seq<Byte>, t: nat): (bits: seq<bool>)
    requires IsSymbol(fun) && IsSymbol(q) && q[0] == fun[0] && t <= Steps(Size(fun))
    ensures |bits| == FreeBefore(fun, t)
  {
    if t == 0 then [] else
    StepBounds(Size(fun), t - 1);
    var (x, y) := CellOf(Size(fun), t - 1);
    ReadBits(fun, q, t - 1) + if Free(fun, x, y) then [Dark(q, x, y)] else []
  }

  /** Walking the zigzag again over the drawn symbol returns the codewords bit for bit,
      then light remainder modules. */
  lemma {:induction false} ReadDrawn(fun: seq<Byte>, q: seq<Byte>, data: seq<Byte>, t: nat)
    requires IsSymbol(fun) && IsSymbol(q) && t <= Steps(Size(fun))
    requires Drawn(fun, q, data)
    ensures forall r :: 0 <= r < FreeBefore(fun, t) ==>
              ReadBits(fun, q, t)[r] == (r < 8 * |data| && DataBit(data, r))
  {
    hide Dark, CellOf, StepOf;
    if t > 0 {
      ReadDrawn(fun, q, data, t - 1);
      StepBounds(Size(fun), t - 1);
      var (x, y) := CellOf(Size(fun), t - 1);
      assert Dark(q, x, y) == DrawnDark(fun, data, x, y);
    }
  }

}
