/** What a QR symbol looks like where it holds no data (ISO/IEC 18004, sections 6.3 and 7.9,
    figures 25 and 27): finder, timing and alignment patterns as pictures, and the places of
    the format and version bits one by one. */
module QrPictures {
  import opened Bits
  import opened Bytes
  import opened FunctionModules
  import opened Interleave
  import opened Mask
  import opened Penalty
  import opened QrCapacity
  import opened QrSymbol

  /** The picture with this upper left corner; # is a dark module. */
  predicate ShowsAt(m: Matrix, left: int, top: int, picture: seq<string>)
    requires Square(m) && 0 <= left && 0 <= top
    requires top + |picture| <= |m| && forall j :: 0 <= j < |picture| ==> left + |picture[j]| <= |m|
  {
    forall i, j | 0 <= j < |picture| && 0 <= i < |picture[j]| :: m[top + j][left + i] == (picture[j][i] == '#')
  }

  lemma FunctionShown(version: int, ecl: int, codewords: seq<Byte>, mask: int, x: int, y: int)
    requires ValidVersion(version, ecl) && 0 <= mask <= 7 && 0 <= x < SizeOf(version) && 0 <= y < SizeOf(version)
    requires IsFunction(version, x, y) && FormatIndex(SizeOf(version), x, y) == NONE
    ensures Symbol(version, ecl, codewords, mask)[y][x] == FunctionColor(version, true, x, y)
  {
    hide IsFunction, FunctionColor, FormatIndex, FormatBits, Invert;
  }

  // ---- Finder patterns

  /** No alignment pattern comes near a finder pattern. */
  lemma FarFromFinders(version: int, x: int, y: int)
    requires 1 <= version <= 40
    requires (x < 8 && y < 8) || (x >= SizeOf(version) - 8 && y < 8) || (x < 8 && y >= SizeOf(version) - 8)
    ensures !InAlignment(version, 1, x, y)
  {
    hide AlignPos, NumAlign;
    if InAlignment(version, 1, x, y) {
      var i, j :| KeepsAlignment(NumAlign(version), i, j) && NearAlignment(version, i, j, 1, x, y);
      AlignmentRange(version, i);
      AlignmentRange(version, j);
    }
  }

  /** The first alignment position is 6, the last seven from the edge, the others between. */
  lemma AlignmentRange(version: int, i: int)
    requires 1 <= version <= 40 && 0 <= i < NumAlign(version)
    ensures var p, size := AlignPos(version, i), SizeOf(version);
      && p % 2 == 0 && version >= 2
      && (if i == 0 then p == 6 else p >= 12)
      && (if i == NumAlign(version) - 1 then p == size - 7 else p <= size - (if version >= 7 then 15 else 13))
  {
    hide AlignPos, NumAlign;
    Grown(version);
    FirstIs(version);
    AlignPositions(version, i);
    LastPositions(version, i);
    if i > 0 { AlignApart(version, 0, i); }
  }

  lemma FinderColor(version: int, x: int, y: int)
    requires 1 <= version <= 40 && 0 <= x < SizeOf(version) && 0 <= y < SizeOf(version)
    requires (x < 8 && y < 8) || (x >= SizeOf(version) - 8 && y < 8) || (x < 8 && y >= SizeOf(version) - 8)
    ensures FormatIndex(SizeOf(version), x, y) == NONE && IsFunction(version, x, y)
    ensures FunctionColor(version, true, x, y) == !FinderLight(SizeOf(version), x, y)
  {
    hide InAlignment;
    FarFromFinders(version, x, y);
  }

  lemma FinderShown(version: int, ecl: int, codewords: seq<Byte>, mask: int, x: int, y: int)
    requires ValidVersion(version, ecl) && 0 <= mask <= 7 && 0 <= x < SizeOf(version) && 0 <= y < SizeOf(version)
    requires (x < 8 && y < 8) || (x >= SizeOf(version) - 8 && y < 8) || (x < 8 && y >= SizeOf(version) - 8)
    ensures Symbol(version, ecl, codewords, mask)[y][x] == !FinderLight(SizeOf(version), x, y)
  {
    hide Symbol, FinderLight, FunctionColor, IsFunction, FormatIndex;
    FinderColor(version, x, y);
    FunctionShown(version, ecl, codewords, mask, x, y);
  }

  /** The finder pattern and its light border in the upper left corner. */
  lemma UpperLeft(version: int, ecl: int, codewords: seq<Byte>, mask: int)
    requires ValidVersion(version, ecl) && 0 <= mask <= 7
    ensures var m, size := Symbol(version, ecl, codewords, mask), SizeOf(version);
      ShowsAt(m, 0, 0,
        ["#######.", "#.....#.", "#.###.#.", "#.###.#.",
         "#.###.#.", "#.....#.", "#######.", "........"])
  {
    hide Symbol, FinderLight;
    var m, size := Symbol(version, ecl, codewords, mask), SizeOf(version);
    var picture :=
        ["#######.", "#.....#.", "#.###.#.", "#.###.#.",
         "#.###.#.", "#.....#.", "#######.", "........"];
    forall i, j | 0 <= j < 8 && 0 <= i < 8
      ensures m[j][i] == (picture[j][i] == '#')
    {
      UpperLeftCell(version, i, j);
      FinderShown(version, ecl, codewords, mask, i, j);
    }
  }

  lemma UpperLeftCell(version: int, i: int, j: int)
    requires 1 <= version <= 40 && 0 <= i < 8 && 0 <= j < 8
    ensures var size := SizeOf(version);
      var picture :=
        ["#######.", "#.....#.", "#.###.#.", "#.###.#.",
         "#.###.#.", "#.....#.", "#######.", "........"];
      FinderLight(size, i, j) == (picture[j][i] != '#')
  {
    assert i == 0 || i == 1 || i == 2 || i == 3 || i == 4 || i == 5 || i == 6 || i == 7;
    assert j == 0 || j == 1 || j == 2 || j == 3 || j == 4 || j == 5 || j == 6 || j == 7;
  }

  lemma UpperRight(version: int, ecl: int, codewords: seq<Byte>, mask: int)
    requires ValidVersion(version, ecl) && 0 <= mask <= 7
    ensures var m, size := Symbol(version, ecl, codewords, mask), SizeOf(version);
      ShowsAt(m, size - 8, 0,
        [".#######", ".#.....#", ".#.###.#", ".#.###.#",
         ".#.###.#", ".#.....#", ".#######", "........"])
  {
    hide Symbol, FinderLight;
    var m, size := Symbol(version, ecl, codewords, mask), SizeOf(version);
    var picture :=
        [".#######", ".#.....#", ".#.###.#", ".#.###.#",
         ".#.###.#", ".#.....#", ".#######", "........"];
    forall i, j | 0 <= j < 8 && 0 <= i < 8
      ensures m[j][size - 8 + i] == (picture[j][i] == '#')
    {
      UpperRightCell(version, i, j);
      FinderShown(version, ecl, codewords, mask, size - 8 + i, j);
    }
  }

  lemma UpperRightCell(version: int, i: int, j: int)
    requires 1 <= version <= 40 && 0 <= i < 8 && 0 <= j < 8
    ensures var size := SizeOf(version);
      var picture :=
        [".#######", ".#.....#", ".#.###.#", ".#.###.#",
         ".#.###.#", ".#.....#", ".#######", "........"];
      FinderLight(size, size - 8 + i, j) == (picture[j][i] != '#')
  {
    assert i == 0 || i == 1 || i == 2 || i == 3 || i == 4 || i == 5 || i == 6 || i == 7;
    assert j == 0 || j == 1 || j == 2 || j == 3 || j == 4 || j == 5 || j == 6 || j == 7;
  }

  lemma LowerLeft(version: int, ecl: int, codewords: seq<Byte>, mask: int)
    requires ValidVersion(version, ecl) && 0 <= mask <= 7
    ensures var m, size := Symbol(version, ecl, codewords, mask), SizeOf(version);
      ShowsAt(m, 0, size - 8,
        ["........", "#######.", "#.....#.", "#.###.#.",
         "#.###.#.", "#.###.#.", "#.....#.", "#######."])
  {
    hide Symbol, FinderLight;
    var m, size := Symbol(version, ecl, codewords, mask), SizeOf(version);
    var picture :=
        ["........", "#######.", "#.....#.", "#.###.#.",
         "#.###.#.", "#.###.#.", "#.....#.", "#######."];
    forall i, j | 0 <= j < 8 && 0 <= i < 8
      ensures m[size - 8 + j][i] == (picture[j][i] == '#')
    {
      LowerLeftCell(version, i, j);
      FinderShown(version, ecl, codewords, mask, i, size - 8 + j);
    }
  }

  lemma LowerLeftCell(version: int, i: int, j: int)
    requires 1 <= version <= 40 && 0 <= i < 8 && 0 <= j < 8
    ensures var size := SizeOf(version);
      var picture :=
        ["........", "#######.", "#.....#.", "#.###.#.",
         "#.###.#.", "#.###.#.", "#.....#.", "#######."];
      FinderLight(size, i, size - 8 + j) == (picture[j][i] != '#')
  {
    assert i == 0 || i == 1 || i == 2 || i == 3 || i == 4 || i == 5 || i == 6 || i == 7;
    assert j == 0 || j == 1 || j == 2 || j == 3 || j == 4 || j == 5 || j == 6 || j == 7;
  }

  // ---- Timing patterns

  /** Between the finder patterns, row 6 and column 6 alternate, dark at even places, also
      where alignment patterns cross them. */
  lemma Timing(version: int, ecl: int, codewords: seq<Byte>, mask: int, k: int)
    requires ValidVersion(version, ecl) && 0 <= mask <= 7 && 8 <= k < SizeOf(version) - 8
    ensures var m := Symbol(version, ecl, codewords, mask);
      m[6][k] == (k % 2 == 0) && m[k][6] == (k % 2 == 0)
  {
    hide Symbol, FunctionColor, InAlignment, IsFunction;
    TimingColor(version, k, 6);
    TimingColor(version, 6, k);
    OnTiming(version, k);
    FunctionShown(version, ecl, codewords, mask, k, 6);
    FunctionShown(version, ecl, codewords, mask, 6, k);
  }

  lemma OnTiming(version: int, k: int)
    requires 1 <= version <= 40 && 8 <= k < SizeOf(version) - 8
    ensures IsFunction(version, k, 6) && IsFunction(version, 6, k)
    ensures FormatIndex(SizeOf(version), k, 6) == FormatIndex(SizeOf(version), 6, k) == NONE
  {
    hide InAlignment;
  }

  lemma TimingColor(version: int, x: int, y: int)
    requires 1 <= version <= 40
    requires (x == 6 && 8 <= y < SizeOf(version) - 8) || (y == 6 && 8 <= x < SizeOf(version) - 8)
    ensures FunctionColor(version, true, x, y) == ((x + y) % 2 == 0)
  {
    hide AlignPos, NumAlign, InAlignment;
    if InAlignment(version, 1, x, y) {
      CrossingColor(version, x, y);
    } else {
      assert !InVersion(SizeOf(version), x, y);
    }
  }

  lemma CrossingColor(version: int, x: int, y: int)
    requires 1 <= version <= 40 && InAlignment(version, 1, x, y)
    requires (x == 6 && 8 <= y < SizeOf(version) - 8) || (y == 6 && 8 <= x < SizeOf(version) - 8)
    ensures InAlignment(version, 0, x, y) == ((x + y) % 2 == 0) && !InVersion(SizeOf(version), x, y)
  {
    hide AlignPos, NumAlign;
    var i, j :| KeepsAlignment(NumAlign(version), i, j) && NearAlignment(version, i, j, 1, x, y);
    AlignmentRange(version, i);
    AlignmentRange(version, j);
    OneCentre(version, i, j, x, y);
  }

  // ---- Alignment patterns

  /** Around each of its centres: a light ring and a dark one. */
  lemma Alignment(version: int, ecl: int, codewords: seq<Byte>, mask: int, i: int, j: int)
    requires ValidVersion(version, ecl) && 0 <= mask <= 7 && KeepsAlignment(NumAlign(version), i, j)
    ensures var m, cx, cy := Symbol(version, ecl, codewords, mask), AlignPos(version, i), AlignPos(version, j);
      && 6 <= cx <= |m| - 7 && 6 <= cy <= |m| - 7
      && ShowsAt(m, cx - 2, cy - 2, ["#####", "#...#", "#.#.#", "#...#", "#####"])
  {
    hide Symbol, AlignPos, NumAlign, FunctionColor;
    AlignmentRange(version, i);
    AlignmentRange(version, j);
    var m, cx, cy := Symbol(version, ecl, codewords, mask), AlignPos(version, i), AlignPos(version, j);
    forall dx, dy | 0 <= dx < 5 && 0 <= dy < 5
      ensures m[cy - 2 + dy][cx - 2 + dx] == (["#####", "#...#", "#.#.#", "#...#", "#####"][dy][dx] == '#')
    {
      AlignmentShown(version, ecl, codewords, mask, i, j, dx - 2, dy - 2);
      Ring(dx, dy);
    }
  }

  lemma Ring(dx: int, dy: int)
    requires 0 <= dx < 5 && 0 <= dy < 5
    ensures (["#####", "#...#", "#.#.#", "#...#", "#####"][dy][dx] == '#') == (Dist(dx - 2, dy - 2) != 1)
  {
    assert dx == 0 || dx == 1 || dx == 2 || dx == 3 || dx == 4;
    assert dy == 0 || dy == 1 || dy == 2 || dy == 3 || dy == 4;
  }

  lemma AlignmentShown(version: int, ecl: int, codewords: seq<Byte>, mask: int, i: int, j: int, dx: int, dy: int)
    requires ValidVersion(version, ecl) && 0 <= mask <= 7 && KeepsAlignment(NumAlign(version), i, j)
    requires -2 <= dx <= 2 && -2 <= dy <= 2
    ensures var m, cx, cy := Symbol(version, ecl, codewords, mask), AlignPos(version, i), AlignPos(version, j);
      6 <= cx <= |m| - 7 && 6 <= cy <= |m| - 7 && m[cy + dy][cx + dx] == (Dist(dx, dy) != 1)
  {
    hide Symbol, AlignPos, NumAlign, FunctionColor, IsFunction;
    var x, y := AlignPos(version, i) + dx, AlignPos(version, j) + dy;
    AlignmentRange(version, i);
    AlignmentRange(version, j);
    AlignmentPlace(version, NumAlign(version), i, j, AlignPos(version, i), AlignPos(version, j), x, y);
    WithinAlignment(version, i, j, x, y);
    AlignmentColor(version, i, j, dx, dy);
    FunctionShown(version, ecl, codewords, mask, x, y);
  }

  lemma WithinAlignment(version: int, i: int, j: int, x: int, y: int)
    requires 1 <= version <= 40 && KeepsAlignment(NumAlign(version), i, j) && NearAlignment(version, i, j, 2, x, y)
    ensures IsFunction(version, x, y)
  {
    hide AlignPos, NumAlign, FixedFunction;
  }

  /** What lies within two modules of a centre is clear of the corners. */
  lemma AlignmentPlace(version: int, n: int, i: int, j: int, cx: int, cy: int, x: int, y: int)
    requires 2 <= version <= 40 && KeepsAlignment(n, i, j) && cx % 2 == 0 && cy % 2 == 0
    requires cx - 2 <= x <= cx + 2 && cy - 2 <= y <= cy + 2
    requires if i == 0 then cx == 6 else cx >= 12
    requires if j == 0 then cy == 6 else cy >= 12
    requires if i == n - 1 then cx == SizeOf(version) - 7 else cx <= SizeOf(version) - (if version >= 7 then 15 else 13)
    requires if j == n - 1 then cy == SizeOf(version) - 7 else cy <= SizeOf(version) - (if version >= 7 then 15 else 13)
    ensures 0 <= x < SizeOf(version) && 0 <= y < SizeOf(version) && FormatIndex(SizeOf(version), x, y) == NONE
    ensures !FinderLight(SizeOf(version), x, y) && !(version >= 7 && InVersion(SizeOf(version), x, y))
    ensures Dist(x - cx, y - cy) == 2 ==> !TimingLight(SizeOf(version), x, y)
  {}

  lemma AlignmentColor(version: int, i: int, j: int, dx: int, dy: int)
    requires 1 <= version <= 40 && KeepsAlignment(NumAlign(version), i, j) && -2 <= dx <= 2 && -2 <= dy <= 2
    ensures FunctionColor(version, true, AlignPos(version, i) + dx, AlignPos(version, j) + dy) == (Dist(dx, dy) != 1)
  {
    hide AlignPos, NumAlign, TimingLight, FinderLight, InVersion;
    var cx, cy := AlignPos(version, i), AlignPos(version, j);
    AlignmentRange(version, i);
    AlignmentRange(version, j);
    AlignmentPlace(version, NumAlign(version), i, j, cx, cy, cx + dx, cy + dy);
    if Dist(dx, dy) <= 1 {
      InnerColor(version, i, j, dx, dy);
    } else {
      OuterRing(version, i, j, dx, dy);
    }
  }

  lemma InnerColor(version: int, i: int, j: int, dx: int, dy: int)
    requires 1 <= version <= 40 && KeepsAlignment(NumAlign(version), i, j) && Dist(dx, dy) <= 1
    ensures var x, y := AlignPos(version, i) + dx, AlignPos(version, j) + dy;
      InAlignment(version, 1, x, y) && InAlignment(version, 0, x, y) == (Dist(dx, dy) == 0)
  {
    hide AlignPos, NumAlign;
    var x, y := AlignPos(version, i) + dx, AlignPos(version, j) + dy;
    assert NearAlignment(version, i, j, 1, x, y);
    OneCentre(version, i, j, x, y);
  }

  lemma OuterRing(version: int, i: int, j: int, dx: int, dy: int)
    requires 1 <= version <= 40 && KeepsAlignment(NumAlign(version), i, j) && Dist(dx, dy) == 2
    ensures !InAlignment(version, 1, AlignPos(version, i) + dx, AlignPos(version, j) + dy)
  {
    hide AlignPos, NumAlign;
    var x, y := AlignPos(version, i) + dx, AlignPos(version, j) + dy;
    if InAlignment(version, 1, x, y) {
      var a, b :| KeepsAlignment(NumAlign(version), a, b) && NearAlignment(version, a, b, 1, x, y);
      if a < i { AlignApart(version, a, i); } else if i < a { AlignApart(version, i, a); }
      if b < j { AlignApart(version, b, j); } else if j < b { AlignApart(version, j, b); }
    }
  }

  // ---- Format and version bits

  /** Format bit i of the copy around the upper left finder pattern. */
  lemma FirstFormatCopy(version: int, ecl: int, codewords: seq<Byte>, mask: int, i: int)
    requires ValidVersion(version, ecl) && 0 <= mask <= 7 && 0 <= i < 15
    ensures var m := Symbol(version, ecl, codewords, mask);
      var x := [8, 8, 8, 8, 8, 8, 8, 8, 7, 5, 4, 3, 2, 1, 0][i];
      var y := [0, 1, 2, 3, 4, 5, 7, 8, 8, 8, 8, 8, 8, 8, 8][i];
      m[y][x] == Bit(FormatBits(ecl, mask), i)
  {
    hide FormatBits, Bit, BaseDark, IsFunction, Invert;
    assert i == 0 || i == 1 || i == 2 || i == 3 || i == 4 || i == 5 || i == 6 || i == 7 || i == 8 || i == 9
        || i == 10 || i == 11 || i == 12 || i == 13 || i == 14;
  }

  /** Of the other one: eight bits to the left below the upper right finder pattern, seven
      downwards beside the lower left one, and a dark module above them. */
  lemma SecondFormatCopy(version: int, ecl: int, codewords: seq<Byte>, mask: int, i: int)
    requires ValidVersion(version, ecl) && 0 <= mask <= 7 && 0 <= i < 15
    ensures var m, size := Symbol(version, ecl, codewords, mask), SizeOf(version);
      && (i < 8 ==> m[8][size - 1 - i] == Bit(FormatBits(ecl, mask), i))
      && (i >= 8 ==> m[size - 15 + i][8] == Bit(FormatBits(ecl, mask), i))
      && m[size - 8][8]
  {
    hide FormatBits, Bit, BaseDark, IsFunction, Invert;
  }

  /** The highest two format bits tell the level, the next three the mask pattern, under the
      mask 10101; levels are numbered from the lowest, patterns in binary. */
  lemma LevelAndPattern(ecl: int, mask: int)
    requires 0 <= ecl <= 3 && 0 <= mask <= 7
    ensures var v := FormatBits(ecl, mask);
      && Bit(v, 14) == (ecl < 2) && Bit(v, 13) == (ecl % 2 == 0)
      && Bit(v, 12) == (mask < 4) && Bit(v, 11) == (mask / 2 % 2 == 1) && Bit(v, 10) == (mask % 2 == 0)
  {
    hide FormatBits, Xor;
    FormatWord(ecl, mask);
    var v, w := FormatBits(ecl, mask), Xor(FormatBits(ecl, mask), 0x5412);
    forall k | 10 <= k < 15 ensures Bit(w, k) == Bit(w / 1024, k - 10) {
      assert Pow2(10) == 1024;
      HighBitKept(w, 10, k - 10);
    }
    forall k | 10 <= k < 15 ensures Bit(v, k) == (Bit(w, k) != Bit(0x5412, k)) {
      XorBit(v, 0x5412, k);
    }
    TopBits();
    LevelBits(ecl, mask);
  }

  lemma TopBits()
    ensures Bit(0x5412, 14) && !Bit(0x5412, 13) && Bit(0x5412, 12) && !Bit(0x5412, 11) && Bit(0x5412, 10)
  {
    FiveBits(0x5412 / 1024);
    assert Pow2(10) == 1024;
    HighBitKept(0x5412, 10, 0);
    HighBitKept(0x5412, 10, 1);
    HighBitKept(0x5412, 10, 2);
    HighBitKept(0x5412, 10, 3);
    HighBitKept(0x5412, 10, 4);
  }

  lemma LevelBits(ecl: int, mask: int)
    requires 0 <= ecl <= 3 && 0 <= mask <= 7
    ensures var u := FormatTable(ecl) * 8 + mask;
      && Bit(u, 4) == (ecl >= 2) && Bit(u, 3) == (ecl % 2 == 0)
      && Bit(u, 2) == (mask >= 4) && Bit(u, 1) == (mask / 2 % 2 == 1) && Bit(u, 0) == (mask % 2 == 1)
  {
    hide Bit;
    var t, u := FormatTable(ecl), FormatTable(ecl) * 8 + mask;
    FiveBits(u);
    assert u / 2 == 4 * t + mask / 2 && u / 4 == 2 * t + mask / 4 && u / 8 == t && u / 16 == t / 2;
  }

  lemma FiveBits(u: nat)
    ensures Bit(u, 0) == (u % 2 == 1) && Bit(u, 1) == (u / 2 % 2 == 1) && Bit(u, 2) == (u / 4 % 2 == 1)
    ensures Bit(u, 3) == (u / 8 % 2 == 1) && Bit(u, 4) == (u / 16 % 2 == 1)
  {
    HighBitKept(u, 1, 0);
    HighBitKept(u, 2, 0);
    HighBitKept(u, 3, 0);
    HighBitKept(u, 4, 0);
    assert Pow2(1) == 2 && Pow2(2) == 4 && Pow2(3) == 8 && Pow2(4) == 16;
  }

  /** Version bit i, three to a row or column, in both blocks. */
  lemma VersionCopies(version: int, ecl: int, codewords: seq<Byte>, mask: int, i: int)
    requires 7 <= version <= 40 && 0 <= ecl < 4 && 0 <= mask <= 7 && 0 <= i < 18
    ensures var m, size := Symbol(version, ecl, codewords, mask), SizeOf(version);
      && m[i / 3][size - 11 + i % 3] == Bit(VersionBits(version), i)
      && m[size - 11 + i % 3][i / 3] == Bit(VersionBits(version), i)
  {
    hide Symbol, VersionBits, Bit, InAlignment;
    var size := SizeOf(version);
    FunctionShown(version, ecl, codewords, mask, size - 11 + i % 3, i / 3);
    FunctionShown(version, ecl, codewords, mask, i / 3, size - 11 + i % 3);
  }
}
