/** What the mask patterns of applyMask (qr.c) look like, as pictures that repeat over the
    symbol (ISO/IEC 18004, section 7.8.2, table 10). */
module MaskPatterns {
  import opened Arith
  import opened Bytes
  import opened QrMatrix
  import opened Mask

  predicate IsPicture(picture: seq<string>) {
    0 < |picture| && 12 % |picture| == 0 && forall j :: 0 <= j < |picture| ==> |picture[j]| == 6
  }

  /** Between q and q', exactly the light modules of fun that the picture shows are inverted;
      the picture is six columns wide and repeats to the right and downwards. */
  ghost predicate Inverts(picture: seq<string>, fun: seq<Byte>, q: seq<Byte>, q': seq<Byte>)
    requires IsPicture(picture)
    requires IsSymbol(fun) && IsSymbol(q) && fun[0] == q[0] && |q'| == |q| && q'[0] == q[0]
  {
    forall x, y | InSymbol(q, x, y) ::
      Dark(q', x, y) != Dark(q, x, y) <==> !Dark(fun, x, y) && picture[y % |picture|][x % 6] == '#'
  }

  // ---- The patterns repeat

  /** Multiples of six do not change the remainders of a product. */
  lemma Products(x: nat, y: nat)
    ensures x * y % 2 == (x % 6) * (y % 12) % 2 && x * y % 3 == (x % 6) * (y % 12) % 3
  {
    var p, i, q, j := x / 6, x % 6, y / 12, y % 12;
    var k := p * y + i * q * 2;
    assert x * y == i * j + k * 6 by {
      assert x * y == p * 6 * y + i * y;
      assert i * y == i * (q * 12) + i * j;
      assert i * (q * 12) == i * q * 2 * 6 && p * 6 * y == p * y * 6;
    }
    MoreOf(i * j, k * 3, 2);
    MoreOf(i * j, k * 2, 3);
  }

  lemma MoreOf(v: int, k: int, n: int)
    requires n > 0
    ensures (v + k * n) % n == v % n
  {
    var q, r := v / n, v % n;
    assert v + k * n == (q + k) * n + r;
    DivModUnique(n, q + k, r);
  }

  lemma Sums(x: nat, y: nat)
    ensures (x + y) % 2 == (x % 6 + y % 12) % 2 && (x + y) % 3 == (x % 6 + y % 12) % 3
    ensures x % 3 == x % 6 % 3 && y % 2 == y % 12 % 2
  {
    var p, i, q, j := x / 6, x % 6, y / 12, y % 12;
    assert x == i + p * 6 && y == j + q * 12;
    MoreOf(i + j, 3 * p + 6 * q, 2);
    MoreOf(i + j, 2 * p + 4 * q, 3);
    MoreOf(i, 2 * p, 3);
    MoreOf(j, 6 * q, 2);
  }

  lemma Blocks(x: nat, y: nat)
    ensures (x / 3 + y / 2) % 2 == (x % 6 / 3 + y % 12 / 2) % 2
  {
    var p, i, q, j := x / 6, x % 6, y / 12, y % 12;
    assert x == i + p * 6 && y == j + q * 12;
    DivModUnique(3, 2 * p + i / 3, i % 3);
    DivModUnique(2, 6 * q + j / 2, j % 2);
    MoreOf(i / 3 + j / 2, p + 3 * q, 2);
  }

  lemma Repeats(mask: int, x: nat, y: nat)
    requires 0 <= mask <= 7
    ensures Invert(mask, x, y) == Invert(mask, x % 6, y % 12)
  {
    var i, j := x % 6, y % 12;
    Sums(x, y);
    if mask == 4 {
      Blocks(x, y);
    } else if mask >= 5 {
      Products(x, y);
      Remainders(mask, x * y, i * j, (x + y) % 2, (i + j) % 2);
    }
  }

  lemma Remainders(mask: int, v: nat, w: nat, s: nat, t: nat)
    requires v % 2 == w % 2 && v % 3 == w % 3 && s == t
    ensures v % 2 + v % 3 == w % 2 + w % 3 && s + v % 3 == t + w % 3
  {}

  /** A picture that is right on its first twelve rows is right everywhere. */
  lemma Pictured(mask: int, picture: seq<string>, fun: seq<Byte>, q: seq<Byte>, q': seq<Byte>)
    requires 0 <= mask <= 7 && IsPicture(picture)
    requires IsSymbol(fun) && IsSymbol(q) && fun[0] == q[0] && Masked(fun, q, q', mask)
    requires forall i, j :: 0 <= i < 6 && 0 <= j < 12 ==>
               Invert(mask, i, j) == (picture[j % |picture|][i] == '#')
    ensures Inverts(picture, fun, q, q')
  {
    hide Dark, Invert;
    forall x, y | InSymbol(q, x, y)
      ensures Invert(mask, x, y) == (picture[y % |picture|][x % 6] == '#')
    {
      Repeats(mask, x, y);
      Rows(y, |picture|);
    }
  }

  lemma Rows(y: nat, n: nat)
    requires n > 0 && 12 % n == 0
    ensures y % 12 % n == y % n
  {
    var q, k := y / 12, 12 / n;
    assert 12 == k * n;
    assert y == y % 12 + q * k * n by { assert q * 12 == q * k * n; }
    MoreOf(y % 12, q * k, n);
  }

  // ---- The eight pictures

  lemma Cell0(i: nat, j: nat)
    requires i < 6 && j < 12
    ensures Invert(0, i, j) == (["#.#.#.", ".#.#.#"][j % 2][i] == '#')
  {
    assert i == 0 || i == 1 || i == 2 || i == 3 || i == 4 || i == 5;
    assert j == 0 || j == 1 || j == 2 || j == 3 || j == 4 || j == 5 || j == 6 || j == 7 || j == 8 || j == 9
        || j == 10 || j == 11;
  }

  /** Checkerboard, inverted at the corner. */
  lemma Pattern0(fun: seq<Byte>, q: seq<Byte>, q': seq<Byte>)
    requires IsSymbol(fun) && IsSymbol(q) && fun[0] == q[0] && Masked(fun, q, q', 0)
    ensures Inverts(["#.#.#.", ".#.#.#"], fun, q, q')
  {
    hide Invert, Dark;
    forall i: nat, j: nat | i < 6 && j < 12
      ensures Invert(0, i, j) == (["#.#.#.", ".#.#.#"][j % 2][i] == '#')
    {
      Cell0(i, j);
    }
    Pictured(0, ["#.#.#.", ".#.#.#"], fun, q, q');
  }

  lemma Cell1(i: nat, j: nat)
    requires i < 6 && j < 12
    ensures Invert(1, i, j) == (["######", "......"][j % 2][i] == '#')
  {
    assert i == 0 || i == 1 || i == 2 || i == 3 || i == 4 || i == 5;
    assert j == 0 || j == 1 || j == 2 || j == 3 || j == 4 || j == 5 || j == 6 || j == 7 || j == 8 || j == 9
        || j == 10 || j == 11;
  }

  /** Every other row. */
  lemma Pattern1(fun: seq<Byte>, q: seq<Byte>, q': seq<Byte>)
    requires IsSymbol(fun) && IsSymbol(q) && fun[0] == q[0] && Masked(fun, q, q', 1)
    ensures Inverts(["######", "......"], fun, q, q')
  {
    hide Invert, Dark;
    forall i: nat, j: nat | i < 6 && j < 12
      ensures Invert(1, i, j) == (["######", "......"][j % 2][i] == '#')
    {
      Cell1(i, j);
    }
    Pictured(1, ["######", "......"], fun, q, q');
  }

  lemma Cell2(i: nat, j: nat)
    requires i < 6 && j < 12
    ensures Invert(2, i, j) == (["#..#.."][j % 1][i] == '#')
  {
    assert i == 0 || i == 1 || i == 2 || i == 3 || i == 4 || i == 5;
    assert j == 0 || j == 1 || j == 2 || j == 3 || j == 4 || j == 5 || j == 6 || j == 7 || j == 8 || j == 9
        || j == 10 || j == 11;
  }

  /** Every third column. */
  lemma Pattern2(fun: seq<Byte>, q: seq<Byte>, q': seq<Byte>)
    requires IsSymbol(fun) && IsSymbol(q) && fun[0] == q[0] && Masked(fun, q, q', 2)
    ensures Inverts(["#..#.."], fun, q, q')
  {
    hide Invert, Dark;
    forall i: nat, j: nat | i < 6 && j < 12
      ensures Invert(2, i, j) == (["#..#.."][j % 1][i] == '#')
    {
      Cell2(i, j);
    }
    Pictured(2, ["#..#.."], fun, q, q');
  }

  lemma Cell3(i: nat, j: nat)
    requires i < 6 && j < 12
    ensures Invert(3, i, j) == (["#..#..", "..#..#", ".#..#."][j % 3][i] == '#')
  {
    assert i == 0 || i == 1 || i == 2 || i == 3 || i == 4 || i == 5;
    assert j == 0 || j == 1 || j == 2 || j == 3 || j == 4 || j == 5 || j == 6 || j == 7 || j == 8 || j == 9
        || j == 10 || j == 11;
  }

  /** Every third diagonal. */
  lemma Pattern3(fun: seq<Byte>, q: seq<Byte>, q': seq<Byte>)
    requires IsSymbol(fun) && IsSymbol(q) && fun[0] == q[0] && Masked(fun, q, q', 3)
    ensures Inverts(["#..#..", "..#..#", ".#..#."], fun, q, q')
  {
    hide Invert, Dark;
    forall i: nat, j: nat | i < 6 && j < 12
      ensures Invert(3, i, j) == (["#..#..", "..#..#", ".#..#."][j % 3][i] == '#')
    {
      Cell3(i, j);
    }
    Pictured(3, ["#..#..", "..#..#", ".#..#."], fun, q, q');
  }

  lemma Cell4(i: nat, j: nat)
    requires i < 6 && j < 12
    ensures Invert(4, i, j) == (["###...", "###...", "...###", "...###"][j % 4][i] == '#')
  {
    assert i == 0 || i == 1 || i == 2 || i == 3 || i == 4 || i == 5;
    assert j == 0 || j == 1 || j == 2 || j == 3 || j == 4 || j == 5 || j == 6 || j == 7 || j == 8 || j == 9
        || j == 10 || j == 11;
  }

  /** Checkerboard of blocks three wide and two high. */
  lemma Pattern4(fun: seq<Byte>, q: seq<Byte>, q': seq<Byte>)
    requires IsSymbol(fun) && IsSymbol(q) && fun[0] == q[0] && Masked(fun, q, q', 4)
    ensures Inverts(["###...", "###...", "...###", "...###"], fun, q, q')
  {
    hide Invert, Dark;
    forall i: nat, j: nat | i < 6 && j < 12
      ensures Invert(4, i, j) == (["###...", "###...", "...###", "...###"][j % 4][i] == '#')
    {
      Cell4(i, j);
    }
    Pictured(4, ["###...", "###...", "...###", "...###"], fun, q, q');
  }

  predicate Row5(i: nat, k: nat) {
    match k
    case 0 => true
    case 1 => i == 0
    case 2 => i % 3 == 0
    case 3 => i % 2 == 0
    case 4 => i % 3 == 0
    case _ => i == 0
  }

  lemma Formula5(i: nat, j: nat)
    requires i < 6 && j < 12
    ensures Invert(5, i, j) == Row5(i, j % 6)
  {
    assert i == 0 || i == 1 || i == 2 || i == 3 || i == 4 || i == 5;
    assert j == 0 || j == 1 || j == 2 || j == 3 || j == 4 || j == 5 || j == 6 || j == 7 || j == 8 || j == 9
        || j == 10 || j == 11;
  }

  lemma Cell5(i: nat, j: nat)
    requires i < 6 && j < 12
    ensures Invert(5, i, j) == (["######", "#.....", "#..#..", "#.#.#.", "#..#..", "#....."][j % 6][i] == '#')
  {
    hide Invert;
    Formula5(i, j);
    var k := j % 6;
    assert i == 0 || i == 1 || i == 2 || i == 3 || i == 4 || i == 5;
    assert k == 0 || k == 1 || k == 2 || k == 3 || k == 4 || k == 5;
  }

  /** Lines of a grid, and a dot and a cross in each of its fields. */
  lemma Pattern5(fun: seq<Byte>, q: seq<Byte>, q': seq<Byte>)
    requires IsSymbol(fun) && IsSymbol(q) && fun[0] == q[0] && Masked(fun, q, q', 5)
    ensures Inverts(["######", "#.....", "#..#..", "#.#.#.", "#..#..", "#....."], fun, q, q')
  {
    hide Invert, Dark;
    forall i: nat, j: nat | i < 6 && j < 12
      ensures Invert(5, i, j) == (["######", "#.....", "#..#..", "#.#.#.", "#..#..", "#....."][j % 6][i] == '#')
    {
      Cell5(i, j);
    }
    Pictured(5, ["######", "#.....", "#..#..", "#.#.#.", "#..#..", "#....."], fun, q, q');
  }

  predicate Row6(i: nat, k: nat) {
    match k
    case 0 => true
    case 1 => i < 3
    case 2 => i % 3 != 2
    case 3 => i % 2 == 0
    case 4 => i % 3 != 1
    case _ => i == 0 || i >= 4
  }

  lemma Formula6(i: nat, j: nat)
    requires i < 6 && j < 12
    ensures Invert(6, i, j) == Row6(i, j % 6)
  {
    assert i == 0 || i == 1 || i == 2 || i == 3 || i == 4 || i == 5;
    assert j == 0 || j == 1 || j == 2 || j == 3 || j == 4 || j == 5 || j == 6 || j == 7 || j == 8 || j == 9
        || j == 10 || j == 11;
  }

  lemma Cell6(i: nat, j: nat)
    requires i < 6 && j < 12
    ensures Invert(6, i, j) == (["######", "###...", "##.##.", "#.#.#.", "#.##.#", "#...##"][j % 6][i] == '#')
  {
    hide Invert;
    Formula6(i, j);
    var k := j % 6;
    assert i == 0 || i == 1 || i == 2 || i == 3 || i == 4 || i == 5;
    assert k == 0 || k == 1 || k == 2 || k == 3 || k == 4 || k == 5;
  }

  lemma Pattern6(fun: seq<Byte>, q: seq<Byte>, q': seq<Byte>)
    requires IsSymbol(fun) && IsSymbol(q) && fun[0] == q[0] && Masked(fun, q, q', 6)
    ensures Inverts(["######", "###...", "##.##.", "#.#.#.", "#.##.#", "#...##"], fun, q, q')
  {
    hide Invert, Dark;
    forall i: nat, j: nat | i < 6 && j < 12
      ensures Invert(6, i, j) == (["######", "###...", "##.##.", "#.#.#.", "#.##.#", "#...##"][j % 6][i] == '#')
    {
      Cell6(i, j);
    }
    Pictured(6, ["######", "###...", "##.##.", "#.#.#.", "#.##.#", "#...##"], fun, q, q');
  }

  predicate Row7(i: nat, k: nat) {
    match k
    case 0 => i % 2 == 0
    case 1 => i >= 3
    case 2 => i == 0 || i >= 4
    case 3 => i % 2 == 1
    case 4 => i < 3
    case _ => 1 <= i <= 3
  }

  lemma Formula7(i: nat, j: nat)
    requires i < 6 && j < 12
    ensures Invert(7, i, j) == Row7(i, j % 6)
  {
    hide Row7;
    Thirds(i, j);
    Sevens(i, j, i * j % 3);
  }

  lemma Thirds(i: nat, j: nat)
    requires i < 6 && j < 12
    ensures i * j % 3 == if i % 3 == 0 then 0 else if i % 3 == 1 then j % 3 else 2 * j % 3
  {
    assert i == 0 || i == 1 || i == 2 || i == 3 || i == 4 || i == 5;
    if i == 4 { assert 4 * j == j + j * 3; MoreOf(j, j, 3); }
    if i == 5 { assert 5 * j == 2 * j + j * 3; MoreOf(2 * j, j, 3); }
  }

  lemma Sevens(i: nat, j: nat, v: nat)
    requires i < 6 && j < 12 && v == if i % 3 == 0 then 0 else if i % 3 == 1 then j % 3 else 2 * j % 3
    ensures ((i + j) % 2 + v) % 2 == 0 <==> Row7(i, j % 6)
  {
    assert i == 0 || i == 1 || i == 2 || i == 3 || i == 4 || i == 5;
    assert j == 0 || j == 1 || j == 2 || j == 3 || j == 4 || j == 5 || j == 6 || j == 7 || j == 8 || j == 9
        || j == 10 || j == 11;
  }

  lemma Cell7(i: nat, j: nat)
    requires i < 6 && j < 12
    ensures Invert(7, i, j) == (["#.#.#.", "...###", "#...##", ".#.#.#", "###...", ".###.."][j % 6][i] == '#')
  {
    hide Invert;
    Formula7(i, j);
    var k := j % 6;
    assert i == 0 || i == 1 || i == 2 || i == 3 || i == 4 || i == 5;
    assert k == 0 || k == 1 || k == 2 || k == 3 || k == 4 || k == 5;
  }

  lemma Pattern7(fun: seq<Byte>, q: seq<Byte>, q': seq<Byte>)
    requires IsSymbol(fun) && IsSymbol(q) && fun[0] == q[0] && Masked(fun, q, q', 7)
    ensures Inverts(["#.#.#.", "...###", "#...##", ".#.#.#", "###...", ".###.."], fun, q, q')
  {
    hide Invert, Dark;
    forall i: nat, j: nat | i < 6 && j < 12
      ensures Invert(7, i, j) == (["#.#.#.", "...###", "#...##", ".#.#.#", "###...", ".###.."][j % 6][i] == '#')
    {
      Cell7(i, j);
    }
    Pictured(7, ["#.#.#.", "...###", "#...##", ".#.#.#", "###...", ".###.."], fun, q, q');
  }
}
