/** The function modules of a QR symbol: initializeFunctionModules and
    drawLightFunctionModules in qr.c. */
module FunctionModules {
  import opened Arith
  import opened BchCodes
  import opened Bits
  import opened Gf256
  import opened QrMatrix

  function SizeOf(version: int): int { version * 4 + 17 }

  // ---- Alignment patterns

  /** Number of alignment positions on each axis. */
  function NumAlign(version: int): (n: int)
    requires 1 <= version <= 40
    ensures 0 <= n <= 7 && (version > 1 ==> n >= 2)
  {
    if version == 1 then 0 else version / 7 + 2
  }

  function AlignStep(version: int): int
    requires 2 <= version <= 40
  {
    var n := NumAlign(version);
    if version == 32 then 26 else (version * 4 + n * 2 + 1) / (n * 2 - 2) * 2
  }

  /** The i-th alignment position, ascending. */
  function AlignPos(version: int, i: int): int
    requires 1 <= version <= 40 && 0 <= i < NumAlign(version)
  {
    if i == 0 then 6 else version * 4 + 10 - (NumAlign(version) - 1 - i) * AlignStep(version)
  }

  /** Positions stay clear of the border and of one another. */
  lemma AlignPositions(version: int, i: int)
    requires 1 <= version <= 40 && 0 <= i < NumAlign(version)
    ensures 6 <= AlignPos(version, i) <= SizeOf(version) - 7
    ensures AlignPos(version, i) % 2 == 0
    ensures i > 0 ==> AlignPos(version, i) - AlignPos(version, i - 1) >= 6
    ensures 2 <= version ==> AlignStep(version) >= 6
  {
    hide AlignStep, NumAlign, AlignPos;
    NumAlignIs(version);
    if version > 1 {
      StepFits(version);
      var n, step := NumAlign(version), AlignStep(version);
      AlignPosIs(version, i);
      if i > 0 {
        var k := n - 1 - i;
        AlignPosIs(version, i - 1);
        ArithmeticSteps(version * 4 + 10, k, n - 2, step);
      }
    }
  }

  lemma ArithmeticSteps(top: int, k: int, n: int, step: int)
    requires 0 <= k <= n && step >= 6 && step % 2 == 0 && top % 2 == 0
    ensures top - n * step <= top - k * step <= top && (top - k * step) % 2 == 0
    ensures (top - k * step) - (top - (k + 1) * step) >= 6
  {
    MulMono(k, n, step);
    MulMono(0, k, step);
    StepProduct(k, step);
    EvenProduct(k, step);
  }

  /** All positions but the first fit behind it. */
  lemma StepFits(version: int)
    requires 2 <= version <= 40
    ensures AlignStep(version) >= 6 && AlignStep(version) % 2 == 0
    ensures (NumAlign(version) - 2) * AlignStep(version) <= version * 4 - 2
  {
    var n, step := NumAlign(version), AlignStep(version);
    if n == 2 {
    } else if n == 3 {
    } else if n == 4 {
    } else if n == 5 {
    } else if n == 6 {
    } else {
      assert n == 7;
    }
  }

  lemma EvenProduct(k: int, step: int)
    requires step % 2 == 0
    ensures k * step % 2 == 0
  {
    assert step == 2 * (step / 2);
    assert k * step == 2 * (k * (step / 2));
  }

  lemma {:induction false} AlignApart(version: int, i: int, j: int)
    requires 1 <= version <= 40 && 0 <= i < j < NumAlign(version)
    ensures AlignPos(version, j) - AlignPos(version, i) >= 6
    decreases j
  {
    hide AlignPos;
    AlignPositions(version, j);
    if i < j - 1 { AlignApart(version, i, j - 1); }
  }

  /** getAlignmentPatternPositions */
  method GetAlignmentPatternPositions(version: int, result: array<int>) returns (numAlign: int)
    requires 1 <= version <= 40 && result.Length == 7
    modifies result
    ensures numAlign == NumAlign(version)
    ensures forall i :: 0 <= i < numAlign ==> result[i] == AlignPos(version, i)
  {
    hide AlignStep, AlignPos, NumAlign;
    NumAlignIs(version);
    if version == 1 {
      return 0;
    }
    numAlign := version / 7 + 2;
    var step := AlignStep(version);
    AlignPosIs(version, 0);
    var i, pos := numAlign - 1, version * 4 + 10;
    while i >= 1
      invariant 0 <= i <= numAlign - 1
      invariant pos == version * 4 + 10 - (numAlign - 1 - i) * step
      invariant forall k :: i < k < numAlign ==> result[k] == AlignPos(version, k)
    {
      AlignPosIs(version, i);
      result[i] := pos;
      StepProduct(numAlign - 1 - i, step);
      i, pos := i - 1, pos - step;
    }
    result[0] := 6;
  }

  lemma NumAlignIs(version: int)
    requires 1 <= version <= 40
    ensures if version == 1 then NumAlign(version) == 0 else NumAlign(version) == version / 7 + 2
  {}

  lemma AlignPosIs(version: int, i: int)
    requires 2 <= version <= 40 && 0 <= i < NumAlign(version)
    ensures AlignPos(version, i)
         == if i == 0 then 6 else version * 4 + 10 - (NumAlign(version) - 1 - i) * AlignStep(version)
  {}

  lemma StepProduct(k: int, step: int)
    ensures (k + 1) * step == k * step + step
  {}

  /** The three corners of the position grid carry finder patterns instead. */
  predicate KeepsAlignment(n: int, i: int, j: int) {
    0 <= i < n && 0 <= j < n && !((i == 0 && j == 0) || (i == 0 && j == n - 1) || (i == n - 1 && j == 0))
  }

  /** (x, y) is within r of the centre of alignment pattern (i, j). */
  predicate NearAlignment(version: int, i: int, j: int, r: int, x: int, y: int)
    requires 1 <= version <= 40 && KeepsAlignment(NumAlign(version), i, j)
  {
    -r <= x - AlignPos(version, i) <= r && -r <= y - AlignPos(version, j) <= r
  }

  ghost predicate InAlignment(version: int, r: int, x: int, y: int)
    requires 1 <= version <= 40
  {
    exists i, j :: KeepsAlignment(NumAlign(version), i, j) && NearAlignment(version, i, j, r, x, y)
  }

  // ---- All the function modules

  predicate InRect(left: int, top: int, width: int, height: int, x: int, y: int) {
    left <= x < left + width && top <= y < top + height
  }

  /** The function modules other than the alignment patterns. */
  predicate FixedFunction(version: int, x: int, y: int) {
    var size := SizeOf(version);
    || x == 6 || y == 6
    || InRect(0, 0, 9, 9, x, y) || InRect(size - 8, 0, 8, 9, x, y) || InRect(0, size - 8, 9, 8, x, y)
    || (version >= 7 && InVersion(size, x, y))
  }

  predicate InVersion(size: int, x: int, y: int) {
    InRect(size - 11, 0, 3, 6, x, y) || InRect(0, size - 11, 6, 3, x, y)
  }

  /** The modules that hold no codeword bits. */
  ghost predicate IsFunction(version: int, x: int, y: int)
    requires 1 <= version <= 40
  {
    FixedFunction(version, x, y) || InAlignment(version, 2, x, y)
  }

  /** fillRectangle */
  method FillRectangle(left: int, top: int, width: int, height: int, q: array<Byte>)
    requires IsSymbol(q[..])
    requires 0 <= left && 0 <= width && left + width <= Size(q[..]) && 0 <= top && 0 <= height
             && top + height <= Size(q[..])
    modifies q
    ensures IsSymbol(q[..]) && q[0] == old(q[0])
    ensures forall x, y | InSymbol(old(q[..]), x, y) ::
              Dark(q[..], x, y) == (old(Dark(q[..], x, y)) || InRect(left, top, width, height, x, y))
  {
    hide Dark;
    ghost var q0 := q[..];
    for dy := 0 to height
      invariant IsSymbol(q[..]) && q[0] == q0[0]
      invariant forall x, y | InSymbol(q0, x, y) ::
        Dark(q[..], x, y) == (Dark(q0, x, y) || InRect(left, top, width, dy, x, y))
    {
      for dx := 0 to width
        invariant IsSymbol(q[..]) && q[0] == q0[0]
        invariant forall x, y | InSymbol(q0, x, y) ::
          Dark(q[..], x, y) ==
            (Dark(q0, x, y) || InRect(left, top, width, dy, x, y) || InRect(left, top + dy, dx, 1, x, y))
      {
        SetModule(q, left + dx, top + dy, true);
      }
    }
  }

  /** initializeFunctionModules: exactly the function modules are dark. */
  method InitializeFunctionModules(version: int, q: array<Byte>)
    requires 1 <= version <= 40 && q.Length > (SizeOf(version) * SizeOf(version) + 7) / 8
    modifies q
    ensures IsSymbol(q[..]) && Size(q[..]) == SizeOf(version)
    ensures forall x, y | InSymbol(q[..], x, y) :: Dark(q[..], x, y) == IsFunction(version, x, y)
  {
    hide Dark;
    var qrsize := version * 4 + 17;
    ClearSymbol(qrsize, q);
    FillRectangle(6, 0, 1, qrsize, q);
    FillRectangle(0, 6, qrsize, 1, q);
    FillRectangle(0, 0, 9, 9, q);
    FillRectangle(qrsize - 8, 0, 8, 9, q);
    FillRectangle(0, qrsize - 8, 9, 8, q);
    FillAlignment(version, q);
    if version >= 7 {
      FillRectangle(qrsize - 11, 0, 3, 6, q);
      FillRectangle(0, qrsize - 11, 6, 3, q);
    }
  }

  /** The memset and the size byte. */
  method ClearSymbol(qrsize: int, q: array<Byte>)
    requires 21 <= qrsize <= 177 && qrsize % 4 == 1 && q.Length > (qrsize * qrsize + 7) / 8
    modifies q
    ensures IsSymbol(q[..]) && Size(q[..]) == qrsize
    ensures forall x, y | InSymbol(q[..], x, y) :: !Dark(q[..], x, y)
  {
    var n := (qrsize * qrsize + 7) / 8 + 1;
    for i := 0 to n
      invariant forall k :: 0 <= k < i ==> q[k] == 0
    {
      q[i] := 0;
    }
    q[0] := qrsize;
    forall x, y | InSymbol(q[..], x, y)
      ensures !Dark(q[..], x, y)
    {
      IndexBound(qrsize, x, y);
      ZeroBit((y * qrsize + x) % 8);
    }
  }

  /** The alignment pattern (i, j) comes before (a, b) in the loops. */
  predicate Before(i: int, j: int, a: int, b: int) { i < a || (i == a && j < b) }

  ghost predicate FilledBefore(version: int, r: int, a: int, b: int, x: int, y: int)
    requires 1 <= version <= 40
  {
    exists i, j :: KeepsAlignment(NumAlign(version), i, j) && Before(i, j, a, b)
      && NearAlignment(version, i, j, r, x, y)
  }

  method FillAlignment(version: int, q: array<Byte>)
    requires 1 <= version <= 40 && IsSymbol(q[..]) && Size(q[..]) == SizeOf(version)
    modifies q
    ensures IsSymbol(q[..]) && q[0] == old(q[0])
    ensures forall x, y | InSymbol(old(q[..]), x, y) ::
              Dark(q[..], x, y) == (old(Dark(q[..], x, y)) || InAlignment(version, 2, x, y))
  {
    hide Dark, AlignPos, KeepsAlignment;
    ghost var q0 := q[..];
    var alignPatPos := new int[7];
    var numAlign := GetAlignmentPatternPositions(version, alignPatPos);
    NothingFilled(version, 2);
    for i := 0 to numAlign
      invariant IsSymbol(q[..]) && q[0] == q0[0]
      invariant forall k :: 0 <= k < numAlign ==> alignPatPos[k] == AlignPos(version, k)
      invariant forall x, y | InSymbol(q0, x, y) ::
        Dark(q[..], x, y) == (Dark(q0, x, y) || FilledBefore(version, 2, i, 0, x, y))
    {
      for j := 0 to numAlign
        invariant IsSymbol(q[..]) && q[0] == q0[0]
        invariant forall k :: 0 <= k < numAlign ==> alignPatPos[k] == AlignPos(version, k)
        invariant forall x, y | InSymbol(q0, x, y) ::
          Dark(q[..], x, y) == (Dark(q0, x, y) || FilledBefore(version, 2, i, j, x, y))
      {
        var skip := (i == 0 && j == 0) || (i == 0 && j == numAlign - 1) || (i == numAlign - 1 && j == 0);
        AlignPositions(version, i);
        AlignPositions(version, j);
        Kept(numAlign, i, j);
        if !skip {
          FillRectangle(alignPatPos[i] - 2, alignPatPos[j] - 2, 5, 5, q);
        }
        forall x, y | InSymbol(q0, x, y)
          ensures FilledBefore(version, 2, i, j + 1, x, y) ==
                  (FilledBefore(version, 2, i, j, x, y) || (!skip && NearAlignment(version, i, j, 2, x, y)))
        {
          FilledNext(version, 2, i, j, x, y);
        }
      }
      forall x, y | InSymbol(q0, x, y)
        ensures FilledBefore(version, 2, i + 1, 0, x, y) == FilledBefore(version, 2, i, numAlign, x, y)
      {
        FilledRow(version, 2, i, x, y);
      }
    }
    forall x, y | InSymbol(q0, x, y)
      ensures FilledBefore(version, 2, numAlign, 0, x, y) == InAlignment(version, 2, x, y)
    {
      FilledAll(version, 2, x, y);
    }
  }

  lemma Kept(n: int, i: int, j: int)
    requires 0 <= i < n && 0 <= j < n
    ensures KeepsAlignment(n, i, j) == !((i == 0 && j == 0) || (i == 0 && j == n - 1) || (i == n - 1 && j == 0))
  {}

  lemma NothingFilled(version: int, r: int)
    requires 1 <= version <= 40
    ensures forall x, y :: !FilledBefore(version, r, 0, 0, x, y)
  {}

  lemma FilledNext(version: int, r: int, a: int, b: int, x: int, y: int)
    requires 1 <= version <= 40 && 0 <= a < NumAlign(version) && 0 <= b < NumAlign(version)
    ensures FilledBefore(version, r, a, b + 1, x, y) ==
            (FilledBefore(version, r, a, b, x, y)
             || (KeepsAlignment(NumAlign(version), a, b) && NearAlignment(version, a, b, r, x, y)))
  {
    hide KeepsAlignment, NearAlignment;
    if FilledBefore(version, r, a, b + 1, x, y) {
      var i, j :| KeepsAlignment(NumAlign(version), i, j) && Before(i, j, a, b + 1)
        && NearAlignment(version, i, j, r, x, y);
      assert Before(i, j, a, b) || (i == a && j == b);
    }
    if FilledBefore(version, r, a, b, x, y) {
      var i, j :| KeepsAlignment(NumAlign(version), i, j) && Before(i, j, a, b)
        && NearAlignment(version, i, j, r, x, y);
      assert Before(i, j, a, b + 1);
    }
    assert Before(a, b, a, b + 1);
  }

  lemma FilledRow(version: int, r: int, a: int, x: int, y: int)
    requires 1 <= version <= 40
    ensures FilledBefore(version, r, a + 1, 0, x, y) == FilledBefore(version, r, a, NumAlign(version), x, y)
  {
    hide NearAlignment;
    var n := NumAlign(version);
    if FilledBefore(version, r, a + 1, 0, x, y) {
      var i, j :| KeepsAlignment(n, i, j) && Before(i, j, a + 1, 0) && NearAlignment(version, i, j, r, x, y);
      assert Before(i, j, a, n);
    }
    if FilledBefore(version, r, a, n, x, y) {
      var i, j :| KeepsAlignment(n, i, j) && Before(i, j, a, n) && NearAlignment(version, i, j, r, x, y);
      assert Before(i, j, a + 1, 0);
    }
  }

  lemma FilledAll(version: int, r: int, x: int, y: int)
    requires 1 <= version <= 40
    ensures FilledBefore(version, r, NumAlign(version), 0, x, y) == InAlignment(version, r, x, y)
  {
    hide NearAlignment;
    var n := NumAlign(version);
    if InAlignment(version, r, x, y) {
      var i, j :| KeepsAlignment(n, i, j) && NearAlignment(version, i, j, r, x, y);
      assert Before(i, j, n, 0);
    }
  }

  // ---- drawLightFunctionModules

  predicate TimingLight(size: int, x: int, y: int) {
    (x == 6 && 7 <= y < size - 7 && y % 2 == 1) || (y == 6 && 7 <= x < size - 7 && x % 2 == 1)
  }

  function Dist(dx: int, dy: int): int { if Abs(dy) > Abs(dx) then Abs(dy) else Abs(dx) }

  predicate LightRing(dx: int, dy: int) { Dist(dx, dy) == 2 || Dist(dx, dy) == 4 }

  predicate FinderLight(size: int, x: int, y: int) {
    LightRing(x - 3, y - 3) || LightRing(x - (size - 4), y - 3) || LightRing(x - 3, y - (size - 4))
  }

  method DrawTiming(q: array<Byte>)
    requires IsSymbol(q[..])
    modifies q
    ensures IsSymbol(q[..]) && q[0] == old(q[0])
    ensures forall x, y | InSymbol(old(q[..]), x, y) ::
              Dark(q[..], x, y) == (old(Dark(q[..], x, y)) && !TimingLight(Size(old(q[..])), x, y))
  {
    hide Dark, TimingDone;
    ghost var q0 := q[..];
    var qrsize: int := q[0];
    var i := 7;
    TimingBegins(q0);
    while i < qrsize - 7
      invariant IsSymbol(q[..]) && q[0] == q0[0]
      invariant 7 <= i <= qrsize - 6 && TimingDone(q0, q[..], i)
    {
      DrawTimingPair(q, i, q0);
      i := i + 2;
    }
    TimingEnds(q0, q[..], i);
  }

  method DrawTimingPair(q: array<Byte>, i: int, ghost q0: seq<Byte>)
    requires IsSymbol(q[..]) && 7 <= i < q[0] as int - 7 && TimingDone(q0, q[..], i)
    modifies q
    ensures IsSymbol(q[..]) && q[0] == old(q[0]) && TimingDone(q0, q[..], i + 2)
  {
    hide Dark, TimingDone, IsUpdate;
    ghost var a := q[..];
    SetModule(q, 6, i, false);
    ghost var b := q[..];
    Resized(a, b, 6, i, false);
    SetModule(q, i, 6, false);
    Resized(b, q[..], i, 6, false);
    TimingStep(q0, a, b, q[..], i);
  }

  /** The light timing modules before place i are drawn. */
  ghost predicate TimingDone(q0: seq<Byte>, q: seq<Byte>, i: int) {
    && i % 2 == 1 && IsSymbol(q0) && IsSymbol(q) && q[0] == q0[0]
    && forall x, y | InSymbol(q0, x, y) ::
         Dark(q, x, y) == (Dark(q0, x, y) && !(TimingLight(Size(q0), x, y) && (if x == 6 then y < i else x < i)))
  }

  lemma Resized(q: seq<Byte>, q': seq<Byte>, x: int, y: int, isDark: bool)
    requires IsSymbol(q) && InSymbol(q, x, y) && IsSymbol(q') && IsUpdate(q, q', x, y, isDark)
    ensures q'[0] == q[0]
  {}

  lemma TimingBegins(q0: seq<Byte>)
    requires IsSymbol(q0)
    ensures TimingDone(q0, q0, 7)
  {
    hide Dark;
  }

  lemma TimingStep(q0: seq<Byte>, a: seq<Byte>, b: seq<Byte>, q: seq<Byte>, i: int)
    requires TimingDone(q0, a, i) && 7 <= i < Size(a) - 7 && IsSymbol(b) && IsSymbol(q)
    requires IsUpdate(a, b, 6, i, false) && IsUpdate(b, q, i, 6, false)
    ensures TimingDone(q0, q, i + 2)
  {
    hide Dark;
  }

  lemma TimingEnds(q0: seq<Byte>, q: seq<Byte>, i: int)
    requires TimingDone(q0, q, i) && i >= Size(q0) - 7
    ensures forall x, y | InSymbol(q0, x, y) ::
              Dark(q, x, y) == (Dark(q0, x, y) && !TimingLight(Size(q0), x, y))
  {
    hide Dark;
  }

  /** The offset (dx, dy) comes before (a, b) in the finder loops, dy outside. */
  predicate OffsetBefore(dx: int, dy: int, a: int, b: int) {
    -4 <= dx <= 4 && -4 <= dy <= 4 && (dy < b || (dy == b && dx < a))
  }

  predicate RingBefore(size: int, x: int, y: int, a: int, b: int) {
    || (LightRing(x - 3, y - 3) && OffsetBefore(x - 3, y - 3, a, b))
    || (LightRing(x - (size - 4), y - 3) && OffsetBefore(x - (size - 4), y - 3, a, b))
    || (LightRing(x - 3, y - (size - 4)) && OffsetBefore(x - 3, y - (size - 4), a, b))
  }

  method DrawFinders(q: array<Byte>)
    requires IsSymbol(q[..])
    modifies q
    ensures IsSymbol(q[..]) && q[0] == old(q[0])
    ensures forall x, y | InSymbol(old(q[..]), x, y) ::
              Dark(q[..], x, y) == (old(Dark(q[..], x, y)) && !FinderLight(Size(old(q[..])), x, y))
  {
    hide Dark;
    ghost var q0 := q[..];
    var qrsize: int := q[0];
    for dy := -4 to 5
      invariant IsSymbol(q[..]) && q[0] == q0[0]
      invariant forall x, y | InSymbol(q0, x, y) ::
                Dark(q[..], x, y) == (Dark(q0, x, y) && !RingBefore(qrsize, x, y, -4, dy))
    {
      for dx := -4 to 5
        invariant IsSymbol(q[..]) && q[0] == q0[0]
        invariant forall x, y | InSymbol(q0, x, y) ::
                  Dark(q[..], x, y) == (Dark(q0, x, y) && !RingBefore(qrsize, x, y, dx, dy))
      {
        DrawRing(q, qrsize, dx, dy);
      }
    }
  }

  method DrawRing(q: array<Byte>, qrsize: int, dx: int, dy: int)
    requires IsSymbol(q[..]) && qrsize == Size(q[..])
    modifies q
    ensures IsSymbol(q[..]) && q[0] == old(q[0])
    ensures forall x, y | InSymbol(old(q[..]), x, y) ::
              Dark(q[..], x, y) == (old(Dark(q[..], x, y)) && !(LightRing(dx, dy) &&
                ((x == 3 + dx && y == 3 + dy) || (x == qrsize - 4 + dx && y == 3 + dy)
                  || (x == 3 + dx && y == qrsize - 4 + dy))))
  {
    hide Dark;
    var dist := Abs(dx);
    if Abs(dy) > dist {
      dist := Abs(dy);
    }
    if dist == 2 || dist == 4 {
      SetModuleUnbounded(q, 3 + dx, 3 + dy, false);
      SetModuleUnbounded(q, qrsize - 4 + dx, 3 + dy, false);
      SetModuleUnbounded(q, 3 + dx, qrsize - 4 + dy, false);
    }
  }

  /** One alignment pattern: a light ring around a dark centre. */
  method DrawOneAlignment(q: array<Byte>, cx: int, cy: int)
    requires IsSymbol(q[..]) && 1 <= cx < Size(q[..]) - 1 && 1 <= cy < Size(q[..]) - 1
    modifies q
    ensures IsSymbol(q[..]) && q[0] == old(q[0])
    ensures forall x, y | InSymbol(old(q[..]), x, y) ::
              Dark(q[..], x, y) == if cx - 1 <= x <= cx + 1 && cy - 1 <= y <= cy + 1 then x == cx && y == cy
                                   else old(Dark(q[..], x, y))
  {
    hide Dark;
    ghost var q0 := q[..];
    for dy := -1 to 2
      invariant IsSymbol(q[..]) && q[0] == q0[0]
      invariant forall x, y | InSymbol(q0, x, y) ::
        Dark(q[..], x, y) == if cx - 1 <= x <= cx + 1 && cy - 1 <= y < cy + dy then x == cx && y == cy
                             else Dark(q0, x, y)
    {
      for dx := -1 to 2
        invariant IsSymbol(q[..]) && q[0] == q0[0]
        invariant forall x, y | InSymbol(q0, x, y) ::
          Dark(q[..], x, y) == if (cx - 1 <= x <= cx + 1 && cy - 1 <= y < cy + dy)
                                  || (cx - 1 <= x < cx + dx && y == cy + dy)
                               then x == cx && y == cy else Dark(q0, x, y)
      {
        SetModule(q, cx + dx, cy + dy, dx == 0 && dy == 0);
      }
    }
  }

  method DrawAlignment(version: int, q: array<Byte>)
    requires 1 <= version <= 40 && IsSymbol(q[..]) && Size(q[..]) == SizeOf(version)
    modifies q
    ensures IsSymbol(q[..]) && q[0] == old(q[0])
    ensures forall x, y | InSymbol(old(q[..]), x, y) ::
              Dark(q[..], x, y) == if InAlignment(version, 1, x, y) then InAlignment(version, 0, x, y)
                else old(Dark(q[..], x, y))
  {
    hide Dark, AlignPos, KeepsAlignment, InAlignment;
    ghost var q0 := q[..];
    var alignPatPos := new int[7];
    var numAlign := GetAlignmentPatternPositions(version, alignPatPos);
    NothingFilled(version, 1);
    for i := 0 to numAlign
      invariant IsSymbol(q[..]) && q[0] == q0[0]
      invariant forall k :: 0 <= k < numAlign ==> alignPatPos[k] == AlignPos(version, k)
      invariant forall x, y | InSymbol(q0, x, y) ::
        Dark(q[..], x, y) == if FilledBefore(version, 1, i, 0, x, y) then InAlignment(version, 0, x, y)
          else Dark(q0, x, y)
    {
      for j := 0 to numAlign
        invariant IsSymbol(q[..]) && q[0] == q0[0]
        invariant forall k :: 0 <= k < numAlign ==> alignPatPos[k] == AlignPos(version, k)
        invariant forall x, y | InSymbol(q0, x, y) ::
          Dark(q[..], x, y) == if FilledBefore(version, 1, i, j, x, y) then InAlignment(version, 0, x, y)
            else Dark(q0, x, y)
      {
        var skip := (i == 0 && j == 0) || (i == 0 && j == numAlign - 1) || (i == numAlign - 1 && j == 0);
        AlignPositions(version, i);
        AlignPositions(version, j);
        Kept(numAlign, i, j);
        if !skip {
          DrawOneAlignment(q, alignPatPos[i], alignPatPos[j]);
        }
        forall x, y | InSymbol(q0, x, y)
          ensures FilledBefore(version, 1, i, j + 1, x, y) ==
                  (FilledBefore(version, 1, i, j, x, y) || (!skip && NearAlignment(version, i, j, 1, x, y)))
          ensures !skip && NearAlignment(version, i, j, 1, x, y) ==>
                  InAlignment(version, 0, x, y) == (x == AlignPos(version, i) && y == AlignPos(version, j))
        {
          FilledNext(version, 1, i, j, x, y);
          if !skip && NearAlignment(version, i, j, 1, x, y) { OneCentre(version, i, j, x, y); }
        }
      }
      forall x, y | InSymbol(q0, x, y)
        ensures FilledBefore(version, 1, i + 1, 0, x, y) == FilledBefore(version, 1, i, numAlign, x, y)
      {
        FilledRow(version, 1, i, x, y);
      }
    }
    forall x, y | InSymbol(q0, x, y)
      ensures FilledBefore(version, 1, numAlign, 0, x, y) == InAlignment(version, 1, x, y)
    {
      FilledAll(version, 1, x, y);
    }
  }

  /** Next to the centre of one pattern there is no centre of another. */
  lemma OneCentre(version: int, i: int, j: int, x: int, y: int)
    requires 1 <= version <= 40 && KeepsAlignment(NumAlign(version), i, j) && NearAlignment(version, i, j, 1, x, y)
    ensures InAlignment(version, 0, x, y) == (x == AlignPos(version, i) && y == AlignPos(version, j))
  {
    hide AlignPos;
    if InAlignment(version, 0, x, y) {
      var a, b :| KeepsAlignment(NumAlign(version), a, b) && NearAlignment(version, a, b, 0, x, y);
      if a < i { AlignApart(version, a, i); } else if i < a { AlignApart(version, i, a); }
      if b < j { AlignApart(version, b, j); } else if j < b { AlignApart(version, j, b); }
    }
  }

  function VersionBits(version: nat): nat {
    Or(version * 4096, Remainder(version, 0x1F25, 2048, 12))
  }

  /** The version bits: the version, and the remainder that makes it a multiple of
      0x1F25. */
  lemma VersionWord(version: nat)
    requires version <= 40
    ensures var w := VersionBits(version);
      w < 0x40000 && w / 4096 == version && IsMultiple(w, 0x1F25)
  {
    hide Or, Pow2, Product, Remainder;
    Powers();
    Systematic(version, 0x1F25, 11);
  }

  /** No other eighteen bits have both properties. */
  lemma VersionOnly(version: nat, bits: nat)
    requires version <= 40 && bits < 0x40000
    ensures bits == VersionBits(version) <==> bits / 4096 == version && IsMultiple(bits, 0x1F25)
  {
    hide Pow2, VersionBits, IsMultiple;
    VersionWord(version);
    var w := VersionBits(version);
    if bits / 4096 == version && IsMultiple(bits, 0x1F25) {
      Powers();
      MultipleUnique(bits, w, 0x1F25, 12, version, bits % 4096, w % 4096);
    }
  }

  /** Different versions differ in at least eight version bits. */
  lemma VersionsApart(v: nat, w: nat)
    requires v <= 40 && w <= 40 && v != w
    ensures Distance(VersionBits(v), VersionBits(w), 18) >= 8
  {
    hide VersionBits, Distance, IsMultiple;
    VersionWord(v);
    VersionWord(w);
    VersionDistance(VersionBits(v), VersionBits(w));
  }

  /** Which version bit the module (x, y) of a version block shows. */
  function VersionIndex(size: int, x: int, y: int): int {
    if x >= size - 11 then 3 * y + x - (size - 11) else 3 * x + y - (size - 11)
  }

  method DrawVersion(version: int, q: array<Byte>)
    requires 7 <= version <= 40 && IsSymbol(q[..]) && Size(q[..]) == SizeOf(version)
    modifies q
    ensures IsSymbol(q[..]) && q[0] == old(q[0])
    ensures forall x, y | InSymbol(old(q[..]), x, y) ::
              Dark(q[..], x, y) == if InVersion(SizeOf(version), x, y) then Bit(VersionBits(version),
                VersionIndex(SizeOf(version), x, y))
                                   else old(Dark(q[..], x, y))
  {
    hide Dark, Bit, Or, Xor, VersionDone, BitsLeft, IsUpdate;
    ghost var q0 := q[..];
    var qrsize: int := q[0];
    var rem: nat := version;
    for i := 0 to 12
      invariant rem == Remainder(version, 0x1F25, 2048, i)
    {
      rem := Xor(rem * 2, (rem / 2048) * 0x1F25);
    }
    var bits: nat := Or(version * 4096, rem);
    ghost var all := bits;
    VersionBegins(q0, all);
    for i := 0 to 6
      invariant IsSymbol(q[..]) && q[0] == q0[0]
      invariant BitsLeft(bits, all, 3 * i) && VersionDone(q0, q[..], all, 3 * i)
    {
      for j := 0 to 3
        invariant IsSymbol(q[..]) && q[0] == q0[0]
        invariant BitsLeft(bits, all, 3 * i + j) && VersionDone(q0, q[..], all, 3 * i + j)
      {
        var k := qrsize - 11 + j;
        ghost var a := q[..];
        BitTaken(bits, all, 3 * i + j);
        SetModule(q, k, i, bits % 2 != 0);
        ghost var b := q[..];
        Resized(a, b, k, i, bits % 2 != 0);
        SetModule(q, i, k, bits % 2 != 0);
        Resized(b, q[..], i, k, bits % 2 != 0);
        VersionStep(q0, a, b, q[..], all, i, j);
        bits := bits / 2;
      }
    }
    VersionEnds(q0, q[..], all);
  }

  /** The version bits before bit n are drawn. */
  ghost predicate VersionDone(q0: seq<Byte>, q: seq<Byte>, all: nat, n: nat) {
    && IsSymbol(q0) && IsSymbol(q) && q[0] == q0[0] && Size(q0) >= 45
    && forall x, y | InSymbol(q0, x, y) ::
         Dark(q, x, y) == if InVersion(Size(q0), x, y) && VersionIndex(Size(q0), x, y) < n
                          then Bit(all, VersionIndex(Size(q0), x, y)) else Dark(q0, x, y)
  }

  /** The number is what n halvings of all leave. */
  ghost predicate BitsLeft(bits: nat, all: nat, n: nat) { forall k: nat :: Bit(bits, k) == Bit(all, k + n) }

  lemma BitTaken(bits: nat, all: nat, n: nat)
    requires BitsLeft(bits, all, n)
    ensures (bits % 2 != 0) == Bit(all, n) && BitsLeft(bits / 2, all, n + 1)
  {
    BitStep(bits, 0);
    hide Bit;
    assert Bit(bits, 0) == Bit(all, 0 + n);
    forall k: nat ensures Bit(bits / 2, k) == Bit(all, k + (n + 1)) {
      BitStep(bits, k + 1);
      assert Bit(bits, k + 1) == Bit(all, k + 1 + n);
    }
  }

  lemma VersionBegins(q0: seq<Byte>, all: nat)
    requires IsSymbol(q0) && Size(q0) >= 45
    ensures VersionDone(q0, q0, all, 0) && BitsLeft(all, all, 0)
  {
    hide Dark, Bit;
  }

  lemma VersionStep(q0: seq<Byte>, a: seq<Byte>, b: seq<Byte>, q: seq<Byte>, all: nat, i: nat, j: nat)
    requires VersionDone(q0, a, all, 3 * i + j) && i < 6 && j < 3 && IsSymbol(b) && IsSymbol(q)
    requires IsUpdate(a, b, Size(q0) - 11 + j, i, Bit(all, 3 * i + j))
    requires q[0] == b[0] == q0[0] && IsUpdate(b, q, i, Size(q0) - 11 + j, Bit(all, 3 * i + j))
    ensures VersionDone(q0, q, all, 3 * i + j + 1)
  {
    hide Dark, Bit;
  }

  lemma VersionEnds(q0: seq<Byte>, q: seq<Byte>, all: nat)
    requires VersionDone(q0, q, all, 18)
    ensures forall x, y | InSymbol(q0, x, y) ::
              Dark(q, x, y) == if InVersion(Size(q0), x, y) then Bit(all, VersionIndex(Size(q0), x, y))
                else Dark(q0, x, y)
  {
    hide Dark, Bit;
  }

  /** The colour drawLightFunctionModules leaves at (x, y), which showed `was` before. */
  ghost predicate FunctionColor(version: int, was: bool, x: int, y: int)
    requires 1 <= version <= 40
  {
    var size := SizeOf(version);
    if version >= 7 && InVersion(size, x, y) then Bit(VersionBits(version), VersionIndex(size, x, y))
    else if InAlignment(version, 1, x, y) then InAlignment(version, 0, x, y)
    else was && !FinderLight(size, x, y) && !TimingLight(size, x, y)
  }

  /** drawLightFunctionModules */
  method DrawLightFunctionModules(q: array<Byte>, version: int)
    requires 1 <= version <= 40 && IsSymbol(q[..]) && Size(q[..]) == SizeOf(version)
    modifies q
    ensures IsSymbol(q[..]) && q[0] == old(q[0])
    ensures forall x, y | InSymbol(old(q[..]), x, y) ::
              Dark(q[..], x, y) == FunctionColor(version, old(Dark(q[..], x, y)), x, y)
  {
    hide Dark, InAlignment, VersionBits, VersionIndex, FinderLight, TimingLight, Bit;
    DrawTiming(q);
    DrawFinders(q);
    DrawAlignment(version, q);
    if version >= 7 {
      DrawVersion(version, q);
    }
  }

  /** Data modules keep their colour. */
  lemma DataModulesKept(version: int, was: bool, x: int, y: int)
    requires 1 <= version <= 40 && 0 <= x < SizeOf(version) && 0 <= y < SizeOf(version)
    requires !IsFunction(version, x, y)
    ensures FunctionColor(version, was, x, y) == was
  {
    hide AlignPos;
    if version >= 7 { assert !InVersion(SizeOf(version), x, y); }
  }

}
