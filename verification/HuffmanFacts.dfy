/** The code words of jpeg.c by their lengths and their order (tables K.3 and K.5 of ITU-T
    T.81). A symbol 16r + s stands for r zeros in front of a coefficient of s bits. */
module HuffmanFacts {
  import opened Huffman

  const AC_COUNTS := [0, 2, 1, 3, 3, 2, 4, 3, 5, 5, 4, 4, 0, 0, 1, 125]
  const DC_COUNTS := [0, 1, 5, 1, 1, 1, 1, 1, 1, 0, 0, 0, 0, 0, 0, 0]

  /** How many code words have n bits. */
  lemma Counts(n: nat)
    requires 1 <= n <= 16
    ensures AcNodes(n) == AC_COUNTS[n - 1] && DcNodes(n) == DC_COUNTS[n - 1]
  {}

  /** The code words of fewer than sixteen bits in row r: those of its first sizes. */
  const SHORT_LENGTHS: seq<seq<nat>> := [
    [2, 2, 3, 4, 5, 7, 8, 10], [4, 5, 7, 9, 11], [5, 8, 10, 12], [6, 9, 12], [6, 10], [7, 11], [7, 12], [8, 12],
    [9, 15], [9], [9], [10], [10], [11], [], []]

  /** The lengths of the code words: the shorter the run and the size, the shorter. */
  lemma Lengths(r: nat, s: nat)
    requires r < 16 && 1 <= s <= 10
    ensures AcLen(16 * r + s) == if s <= |SHORT_LENGTHS[r]| then SHORT_LENGTHS[r][s - 1] else 16
    ensures AcLen(0) == 4 && AcLen(0xF0) == 11
  {
    assert (16 * r + s) / 16 == r && (16 * r + s) % 16 == s;
    assert s == 1 || s == 2 || s == 3 || s == 4 || s == 5 || s == 6 || s == 7 || s == 8 || s == 9 || s == 10;
    assert r == 0 || r == 1 || r == 2 || r == 3 || r == 4 || r == 5 || r == 6 || r == 7
        || r == 8 || r == 9 || r == 10 || r == 11 || r == 12 || r == 13 || r == 14 || r == 15;
  }

  // ---- Values of one length stand in ascending order

  /** Value k is the last of its length. */
  predicate LastOfLength(k: nat) {
    k == 1 || k == 2 || k == 5 || k == 8 || k == 10 || k == 14 || k == 17 || k == 22 || k == 27 || k == 31
    || k == 35 || k == 36
  }

  lemma Rising0(i: nat)
    requires i < 15
    ensures AcVal0(i) < AcVal0(i + 1) || LastOfLength(i)
    ensures AcVal1(i) < AcVal1(i + 1) || LastOfLength(16 + i)
    ensures AcVal2(i) < AcVal2(i + 1) || LastOfLength(32 + i)
  {}

  lemma Rising3(i: nat)
    requires i < 15
    ensures AcVal3(i) < AcVal3(i + 1) && AcVal4(i) < AcVal4(i + 1) && AcVal5(i) < AcVal5(i + 1)
  {}

  lemma Rising6(i: nat)
    requires i < 15
    ensures AcVal6(i) < AcVal6(i + 1) && AcVal7(i) < AcVal7(i + 1) && AcVal8(i) < AcVal8(i + 1)
    ensures AcVal9(i) < AcVal9(i + 1)
  {}

  lemma Edges()
    ensures AcVal1(15) == 0xF0 && AcVal2(15) < AcVal3(0) && AcVal3(15) < AcVal4(0) && AcVal4(15) < AcVal5(0)
    ensures AcVal5(15) < AcVal6(0) && AcVal6(15) < AcVal7(0) && AcVal7(15) < AcVal8(0) && AcVal8(15) < AcVal9(0)
    ensures AcVal9(15) < AcValA(0) < AcValA(1) && AcVal0(15) < AcVal1(0)
  {}

  lemma Rising(k: nat)
    requires k < 161 && !LastOfLength(k)
    ensures AcVal(k) < AcVal(k + 1)
  {
    hide AcVal0, AcVal1, AcVal2, AcVal3, AcVal4, AcVal5, AcVal6, AcVal7, AcVal8, AcVal9, AcValA;
    Edges();
    if k % 16 < 15 {
      Rising0(k % 16);
      Rising3(k % 16);
      Rising6(k % 16);
      assert (k + 1) / 16 == k / 16 && (k + 1) % 16 == k % 16 + 1;
    } else {
      assert (k + 1) / 16 == k / 16 + 1 && (k + 1) % 16 == 0;
    }
  }

  lemma {:induction false} RisingTo(k: nat, m: nat)
    requires k < m < 162 && forall j :: k <= j < m ==> !LastOfLength(j)
    ensures AcVal(k) < AcVal(m)
  {
    hide AcVal;
    Rising(m - 1);
    if k < m - 1 { RisingTo(k, m - 1); }
  }

  lemma Within(n: nat, k: nat)
    requires 1 <= n <= 16 && Shorter(true, n) <= k && k + 1 < Shorter(true, n) + AcNodes(n)
    ensures !LastOfLength(k) && k + 1 < 162
  {
    hide Shorter;
    FirstAc();
    Counts(n);
  }

  /** Of two symbols with code words of one length the greater has the greater word; with the
      counts and the lengths this leaves one table. */
  lemma Ascending(a: nat, b: nat)
    requires IsAcSymbol(a) && IsAcSymbol(b) && a < b && AcLen(a) == AcLen(b)
    ensures AcCode(a) < AcCode(b)
  {
    hide AcVal, AcCode, AcLen, First, Shorter, LastOfLength;
    AcIsCode(a);
    AcIsCode(b);
    var n := AcLen(a);
    var k, m := Shorter(true, n) + AcCode(a) - First(true, n), Shorter(true, n) + AcCode(b) - First(true, n);
    if m < k {
      forall j | m <= j < k ensures !LastOfLength(j) && j + 1 < 162 { Within(n, j); }
      assert !LastOfLength(k - 1);
      RisingTo(m, k);
    }
  }

  const DC_LENGTHS := [2, 3, 3, 3, 3, 3, 4, 5, 6, 7, 8, 9]

  lemma DcLengths(t: nat)
    requires t <= 11
    ensures DcLen(t) == DC_LENGTHS[t]
    ensures forall u :: t < u <= 11 ==> DcCode(t) < DcCode(u)
  {}
}
