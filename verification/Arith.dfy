/** Facts about products, quotients and remainders of integers. */
module Arith {

  function Abs(x: int): nat { if x < 0 then -x else x }

  function Min(a: int, b: int): int { if a < b then a else b }

  function Max(a: int, b: int): int { if a < b then b else a }

  lemma MulMono(a: int, b: int, n: int)
    requires a <= b && 0 <= n
    ensures a * n <= b * n && n * a <= n * b
  {}

  lemma Multiple(d: int, n: int, x: int)
    requires d * n == x && -n < x < n
    ensures d == 0
  {}

  lemma DivModUnique(n: int, q: int, r: int)
    requires 0 <= r < n
    ensures (q * n + r) / n == q && (q * n + r) % n == r
  {
    var x := q * n + r;
    var q', r' := x / n, x % n;
    assert x == q' * n + r';
    assert (q - q') * n == r' - r;
    Multiple(q - q', n, r' - r);
  }

  /** Row-major indexing of an m by n table. */
  lemma RowMajor(n: int, m: int, i: int, j: int)
    requires 0 <= i < n && 0 <= j < m
    ensures 0 <= j * n + i < m * n
    ensures (j * n + i) / n == j && (j * n + i) % n == i
  {
    DivModUnique(n, j, i);
    MulMono(0, j, n);
    MulMono(j, m - 1, n);
    assert (m - 1) * n == m * n - n;
  }

  lemma Columns(n: int, k: int, m: int)
    requires 0 < n && 0 <= k < n * m
    ensures 0 <= k / n < m && 0 <= k % n < n && k == (k / n) * n + k % n
  {
    assert k == n * (k / n) + k % n;
    if k / n >= m { MulMono(m, k / n, n); }
    if k / n < 0 { MulMono(k / n, -1, n); }
  }

  /** Halving first and dividing by p is dividing by 2p; the low bit is the rest. */
  lemma Halves(a: nat, p: nat)
    requires p > 0
    ensures a / (2 * p) == a / 2 / p && a % (2 * p) == 2 * (a / 2 % p) + a % 2
  {
    var q, r := a / 2 / p, a / 2 % p;
    assert a / 2 == q * p + r;
    assert a == q * (2 * p) + (2 * r + a % 2);
    DivModUnique(2 * p, q, 2 * r + a % 2);
  }

  lemma Quotient(a: nat, n: nat)
    requires n > 0
    ensures 0 <= a / n <= a
  {
    assert a == a / n * n + a % n;
    if a / n > a { MulMono(1, n, a / n); }
    if a / n < 0 { MulMono(a / n, -1, n); }
  }

  lemma Assoc(a: int, b: int, c: int)
    ensures a * (b * c) == (a * b) * c
  {}

  lemma Distribute(a: int, b: int, c: int)
    ensures (a + b) * c == a * c + b * c
  {}

  lemma Euclid(t: nat, b: nat)
    requires b > 0
    ensures t == t / b * b + t % b
  {}

  lemma DivDiv(x: nat, p: nat, b: nat)
    requires p > 0 && b > 0
    ensures b * p > 0 && x / (b * p) == x / p / b
  {
    var q, r := x / p, x % p;
    var k, e := q / b, q % b;
    Euclid(x, p);
    Euclid(q, b);
    MulMono(1, b, p);
    MulMono(e, b - 1, p);
    Distribute(k * b, e, p);
    Assoc(k, b, p);
    Distribute(b, -1, p);
    MulMono(0, e, p);
    DivModUnique(b * p, k, e * p + r);
  }

}
