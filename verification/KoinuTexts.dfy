/** What coins_to_koinu_str (koinu.c) makes of every text that it accepts, whether or not it
    is an amount: signs, white space, and whole coins that are no number. */
module KoinuTexts {
  import opened Arith
  import opened Radix
  import opened Koinu

  const TWO_64 := UINT64_MAX + 1

  // ---- Numerals, by their characters

  /** White space up to i, at most one sign, and digits from j to the end. */
  predicate IsNumeral(s: string, i: nat, j: nat) {
    && i <= j <= i + 1 && j < |s|
    && (forall k :: 0 <= k < i ==> IsSpace(s[k]))
    && (j == i + 1 ==> s[i] in "+-")
    && (forall k :: j <= k < |s| ==> IsDigit(s[k]))
  }

  ghost predicate Numeral(s: string) { exists i, j :: IsNumeral(s, i, j) }

  /** The number it stands for. */
  function NumberOf(s: string, i: nat, j: nat): int
    requires IsNumeral(s, i, j)
  {
    var v: int := Value(s[j..]);
    if s[i] == '-' then -v else v
  }

  /** The number as strtoull returns it. */
  function Read64(s: string, i: nat, j: nat): Word64
    requires IsNumeral(s, i, j)
  {
    if Value(s[j..]) > UINT64_MAX then UINT64_MAX else NumberOf(s, i, j) % TWO_64
  }

  lemma NumeralUnique(s: string, i: nat, j: nat, k: nat, l: nat)
    requires IsNumeral(s, i, j) && IsNumeral(s, k, l)
    ensures i == k && j == l
  {
    assert !IsSpace(s[i]) && !IsSpace(s[k]);
  }

  /** The first n characters of s are a numeral that further digits do not continue. */
  ghost predicate Leads(s: string, n: nat) {
    0 < n <= |s| && Numeral(s[..n]) && (n < |s| ==> !IsDigit(s[n]))
  }

  // ---- strtoull reads the numeral at the front

  lemma {:induction false} SpacesAre(s: string, i: nat)
    requires i < |s| && (forall k :: 0 <= k < i ==> IsSpace(s[k])) && !IsSpace(s[i])
    ensures Spaces(s) == i
  {
    if i > 0 { SpacesAre(s[1..], i - 1); }
  }

  lemma {:induction false} DigitsAre(s: string, n: nat)
    requires n <= |s| && (forall k :: 0 <= k < n ==> IsDigit(s[k])) && (n < |s| ==> !IsDigit(s[n]))
    ensures DigitRun(s) == n
  {
    if n > 0 { DigitsAre(s[1..], n - 1); }
  }

  lemma StrtoullReads(s: string, n: nat, i: nat, j: nat)
    requires n <= |s| && IsNumeral(s[..n], i, j) && (n < |s| ==> !IsDigit(s[n]))
    ensures Strtoull(s) == Parsed(Read64(s[..n], i, j), n)
  {
    hide Value, DigitRun, Spaces, Strtoull, Numeral;
    var t := s[..n];
    assert forall k :: 0 <= k < n ==> t[k] == s[k];
    SpacesAre(s, i);
    DigitsAre(s[j..], n - j);
    SlicesAgree(s, j, n);
    StrtoullUnfold(s, i, j, t[j..]);
    SignModulo(Value(t[j..]));
  }

  lemma SlicesAgree(s: string, j: nat, n: nat)
    requires j <= n <= |s|
    ensures s[..n][j..] == s[j..][..n - j]
  {}

  lemma StrtoullUnfold(s: string, i: nat, j: nat, ds: string)
    requires i <= j <= i + 1 && j < |s| && Spaces(s) == i && (j == i + 1 <==> s[i] in "+-")
    requires 0 < |ds| == DigitRun(s[j..]) && s[j..][..|ds|] == ds && IsDecimal(ds)
    ensures var v := Value(ds);
      Strtoull(s) == Parsed(if v > UINT64_MAX then UINT64_MAX else if s[i] == '-' then (TWO_64 - v) % TWO_64 else v,
                            j + |ds|)
  {
    hide Value, DigitRun, Spaces, IsDecimal;
  }

  lemma SignModulo(v: int)
    requires 0 <= v
    ensures v <= UINT64_MAX ==> (TWO_64 - v) % TWO_64 == -v % TWO_64 && v % TWO_64 == v
  {
    if v == 0 { DivModUnique(TWO_64, 1, 0); }
    else if v <= UINT64_MAX { DivModUnique(TWO_64, -1, TWO_64 - v); }
  }

  /** Where it stops, such a numeral ends; where it reads nothing, there is none. */
  lemma StrtoullMeans(s: string)
    ensures var n := Strtoull(s).used;
      if n > 0 then Leads(s, n) else Strtoull(s).value == 0 && forall k :: 0 < k <= |s| ==> !Numeral(s[..k])
  {
    hide Value;
    var n := Strtoull(s).used;
    if n > 0 {
      FrontIsNumeral(s);
    } else {
      forall k | 0 < k <= |s| ensures !Numeral(s[..k]) {
        if Numeral(s[..k]) { NumeralIsRead(s, k); }
      }
    }
  }

  lemma NumeralIsRead(s: string, k: nat)
    requires k <= |s| && Numeral(s[..k])
    ensures Strtoull(s).used > 0
  {
    hide Value, DigitRun, Spaces, Strtoull;
    var i, j :| IsNumeral(s[..k], i, j);
    var more := DigitRun(s[k..]);
    assert forall l :: 0 <= l < k ==> s[..k][l] == s[l];
    DigitsFollow(s, k);
    assert IsNumeral(s[..k + more], i, j);
    StrtoullReads(s, k + more, i, j);
  }

  lemma DigitsFollow(s: string, k: nat)
    requires k <= |s|
    ensures var n := k + DigitRun(s[k..]);
      n <= |s| && (forall l :: k <= l < n ==> IsDigit(s[l])) && (n < |s| ==> !IsDigit(s[n]))
  {
    var t := s[k..];
    var n := DigitRun(t);
    assert forall l :: 0 <= l < n ==> t[..n][l] == t[l];
    forall l | k <= l < k + n ensures IsDigit(s[l]) {
      assert t[l - k] == s[l];
    }
    assert k + n < |s| ==> t[n] == s[k + n];
  }

  lemma FrontIsNumeral(s: string)
    requires Strtoull(s).used > 0
    ensures Leads(s, Strtoull(s).used)
  {
    hide Value, Spaces, DigitRun;
    var i := Spaces(s);
    var j := if i < |s| && s[i] in "+-" then i + 1 else i;
    var n := j + DigitRun(s[j..]);
    DigitsFollow(s, j);
    SpacesAreSpaces(s);
    assert IsNumeral(s[..n], i, j);
  }

  lemma {:induction false} SpacesAreSpaces(s: string)
    ensures forall k :: 0 <= k < Spaces(s) ==> IsSpace(s[k])
  {
    if s != "" && IsSpace(s[0]) {
      SpacesAreSpaces(s[1..]);
      forall k | 0 <= k < Spaces(s) ensures IsSpace(s[k]) {
        if k > 0 { assert s[k] == s[1..][k - 1]; }
      }
    }
  }

  /** strtoull reads a text to its end if and only if the text is a numeral. */
  lemma ReadsToTheEnd(s: string)
    requires s != ""
    ensures Strtoull(s).used == |s| <==> Numeral(s)
  {
    hide Strtoull, IsNumeral;
    assert s[..|s|] == s;
    StrtoullMeans(s);
    if Numeral(s) {
      var i, j :| IsNumeral(s, i, j);
      StrtoullReads(s, |s|, i, j);
    }
  }

  // ---- What whole coins contribute

  /** Of a numeral: 10^8 for each coin if it has at most twelve characters and is not -1;
      otherwise what strtoull returns for it, not multiplied. */
  function SignedCoins(w: string, i: nat, j: nat): int
    requires IsNumeral(w, i, j)
  {
    var s := NumberOf(w, i, j);
    if |w| <= 12 && s != -1 then s * COIN else if Value(w[j..]) > UINT64_MAX then UINT64_MAX else s
  }

  /** Of any text: a numeral at its front counts, not multiplied, if something follows it. */
  ghost function CoinsOf(w: string): int {
    if exists i, j :: IsNumeral(w, i, j) then
      var i, j :| IsNumeral(w, i, j);
      SignedCoins(w, i, j)
    else if exists n: nat :: Leads(w, n) then
      var n: nat :| Leads(w, n);
      LeadCoins(w, n)
    else 0
  }

  /** A numeral that is not all of the text, as strtoull returns it. */
  ghost function LeadCoins(w: string, n: nat): (c: Word64)
    requires Leads(w, n)
    ensures exists i, j :: IsNumeral(w[..n], i, j) && c == Read64(w[..n], i, j)
  {
    var i, j :| IsNumeral(w[..n], i, j);
    Read64(w[..n], i, j)
  }

  /** What the source adds to the decimals. */
  function Added(w: string): Word64 {
    var p := Strtoull(w);
    if ValidateText(p.value, w, p.used) == SUCCESS && |w| <= 12 then p.value * COIN % TWO_64 else p.value
  }

  lemma AddedIsCoins(w: string)
    ensures Added(w) == CoinsOf(w) % TWO_64
  {
    hide Strtoull, IsNumeral, Leads, NumberOf, Value, SignedCoins, Read64;
    if exists i, j :: IsNumeral(w, i, j) {
      var i, j :| IsNumeral(w, i, j) && CoinsOf(w) == SignedCoins(w, i, j);
      NumeralAdded(w, i, j);
    } else {
      PartAdded(w);
    }
  }

  lemma NumeralAdded(w: string, i: nat, j: nat)
    requires IsNumeral(w, i, j)
    ensures Added(w) == SignedCoins(w, i, j) % TWO_64
  {
    hide Strtoull, Value;
    assert w[..|w|] == w;
    StrtoullReads(w, |w|, i, j);
    var s, x := NumberOf(w, i, j), Read64(w, i, j);
    if |w| <= 12 {
      FewDigits(w, i, j);
      SmallNumber(s);
      TimesModulo(TWO_64, s, COIN);
    }
  }

  lemma FewDigits(w: string, i: nat, j: nat)
    requires IsNumeral(w, i, j) && |w| <= 12
    ensures Value(w[j..]) < 1_000_000_000_000
  {
    TwelveDigits(w[j..]);
  }

  lemma SmallNumber(s: int)
    requires -1_000_000_000_000 < s < 1_000_000_000_000
    ensures IsAmount(s % TWO_64) <==> s != -1
  {
    if s < 0 { DivModUnique(TWO_64, -1, s + TWO_64); } else { DivModUnique(TWO_64, 0, s); }
  }

  lemma TimesModulo(n: int, s: int, c: int)
    requires n > 0
    ensures s % n * c % n == s * c % n
  {
    var q, r := s / n, s % n;
    var p, e := r * c / n, r * c % n;
    assert s == q * n + r && r * c == p * n + e;
    assert s * c == (q * c + p) * n + e by {
      Distribute(q * n, r, c);
      Distribute(q * c, p, n);
      assert q * n * c == q * c * n;
    }
    DivModUnique(n, q * c + p, e);
  }

  lemma PartAdded(w: string)
    requires !exists i, j :: IsNumeral(w, i, j)
    ensures Added(w) == CoinsOf(w) % TWO_64
  {
    hide Strtoull, IsNumeral, NumberOf, Value, Read64;
    StrtoullMeans(w);
    if Strtoull(w).used > 0 {
      assert Leads(w, Strtoull(w).used);
      var n: nat :| Leads(w, n) && CoinsOf(w) == LeadCoins(w, n);
      if n == |w| { assert w[..n] == w; }
      LeadAdded(w, n);
    }
  }

  lemma LeadAdded(w: string, n: nat)
    requires Leads(w, n) && n < |w|
    ensures Added(w) == LeadCoins(w, n)
  {
    hide Strtoull, IsNumeral, Read64;
    var i, j :| IsNumeral(w[..n], i, j) && LeadCoins(w, n) == Read64(w[..n], i, j);
    StrtoullReads(w, n, i, j);
  }

  // ---- What every text parses to

  /** The decimals, with the sign that they may have. */
  ghost function DecimalsOf(m: string): int
    requires Numeral(m)
  {
    var i, j :| IsNumeral(m, i, j);
    NumberOf(m, i, j)
  }

  lemma DecimalsAre(m: string, i: nat, j: nat)
    requires IsNumeral(m, i, j)
    ensures DecimalsOf(m) == NumberOf(m, i, j)
  {
    hide Value;
    var k, l :| IsNumeral(m, k, l) && DecimalsOf(m) == NumberOf(m, k, l);
    NumeralUnique(m, i, j, k, l);
  }

  /** Coins and decimals together, modulo 2^64. */
  ghost function SumOf(coins: string): Word64
    requires Numeral(Mantissa(coins))
  {
    (CoinsOf(Whole(coins)) + DecimalsOf(Mantissa(coins))) % TWO_64
  }

  /** Every accepted text: decimals that are no numeral make it 0, and otherwise it parses
      to the sum, or to 0 for the two numbers that validate_conversion turns down. */
  lemma ParsesText(coins: string)
    requires !Rejected(coins)
    ensures ParsedAmount(coins) == if Numeral(Mantissa(coins)) then Accepted(SumOf(coins)) else 0
  {
    hide Numeral, Rejected, Whole, Mantissa, Combined, CoinsOf, Strtoull, DecimalsOf;
    var w, m := Whole(coins), Mantissa(coins);
    ReadsToTheEnd(m);
    AddedIsCoins(w);
    if Numeral(m) {
      DecimalsRead(m);
      CombinedAdds(w, m);
      SumsModulo(TWO_64, DecimalsOf(m), CoinsOf(w));
    } else {
      CombinedRefuses(w, m);
    }
  }

  lemma DecimalsRead(m: string)
    requires |m| == 8 && Numeral(m)
    ensures Strtoull(m) == Parsed(DecimalsOf(m) % TWO_64, 8)
  {
    hide Strtoull, Value;
    var i, j :| IsNumeral(m, i, j) && DecimalsOf(m) == NumberOf(m, i, j);
    assert m[..8] == m;
    StrtoullReads(m, 8, i, j);
    FewDigits(m, i, j);
  }

  lemma CombinedAdds(w: string, m: string)
    requires Strtoull(m).used == |m| == 8
    ensures Combined(w, m) == Accepted((Strtoull(m).value + Added(w)) % TWO_64)
  {
    hide Strtoull;
  }

  lemma CombinedRefuses(w: string, m: string)
    requires Strtoull(m).used < |m| == 8
    ensures Combined(w, m) == 0
  {
    hide Strtoull;
  }

  lemma SumsModulo(n: int, x: int, v: int)
    requires n > 0
    ensures (x % n + v % n) % n == (v + x) % n
  {
    var p, a, q, b := x / n, x % n, v / n, v % n;
    var t, e := (a + b) / n, (a + b) % n;
    assert x == p * n + a && v == q * n + b && a + b == t * n + e;
    Distribute(p, q, n);
    Distribute(p + q, t, n);
    DivModUnique(n, p + q + t, e);
  }

  /** So an accepted text comes out as 0 if and only if its decimals are no numeral, or the
      sum is 0 or one of the two numbers turned down. */
  lemma TurnedDown(coins: string)
    requires !Rejected(coins)
    ensures ParsedAmount(coins) == 0
       <==> !Numeral(Mantissa(coins)) || SumOf(coins) == 0 || !IsAmount(SumOf(coins))
  {
    hide Numeral, Rejected, Mantissa, ParsedAmount, SumOf;
    ParsesText(coins);
  }

  // ---- The shapes that are no amounts

  /** A sign or white space among the decimals of whole coins in digits. */
  lemma SignedDecimals(coins: string, i: nat, j: nat)
    requires !Rejected(coins) && IsDecimal(Whole(coins)) && IsNumeral(Mantissa(coins), i, j)
    ensures ParsedAmount(coins) == Accepted((Scaled(Whole(coins)) + NumberOf(Mantissa(coins), i, j)) % TWO_64)
  {
    hide Rejected, Mantissa, Whole, ParsedAmount, CoinsOf, Value, NumberOf, Scaled, IsNumeral;
    ParsesText(coins);
    DecimalsAre(Mantissa(coins), i, j);
    DigitCoins(Whole(coins));
  }

  /** Whole coins in digits with decimals that are not all digits: such a text is not turned
      down if and only if the decimals are white space, at most one sign and then digits to
      the end, and the sum modulo 2^64 is neither 0 nor one of the two numbers turned down. */
  lemma MisreadExactly(coins: string)
    requires !Rejected(coins) && IsDecimal(Whole(coins)) && !IsDecimal(Mantissa(coins))
    ensures ParsedAmount(coins) != 0 <==>
      exists i, j :: IsNumeral(Mantissa(coins), i, j)
        && Accepted((Scaled(Whole(coins)) + NumberOf(Mantissa(coins), i, j)) % TWO_64) != 0
  {
    hide Rejected, Mantissa, Whole, ParsedAmount, NumberOf, Scaled, IsNumeral, Accepted, IsDecimal;
    forall i: nat, j: nat | IsNumeral(Mantissa(coins), i, j)
      ensures ParsedAmount(coins) == Accepted((Scaled(Whole(coins)) + NumberOf(Mantissa(coins), i, j)) % TWO_64)
    {
      SignedDecimals(coins, i, j);
    }
    if !Numeral(Mantissa(coins)) {
      ParsesText(coins);
    }
  }

  lemma DigitCoins(w: string)
    requires IsDecimal(w)
    ensures CoinsOf(w) == Scaled(w)
  {
    hide Value;
    if w == "" {
      EmptyValue();
    } else {
      assert IsNumeral(w, 0, 0) && w[0..] == w;
      NumeralCoins(w, 0, 0);
    }
  }

  lemma NumeralCoins(w: string, i: nat, j: nat)
    requires IsNumeral(w, i, j)
    ensures CoinsOf(w) == SignedCoins(w, i, j)
  {
    hide SignedCoins, Leads;
    var k, l :| IsNumeral(w, k, l) && CoinsOf(w) == SignedCoins(w, k, l);
    NumeralUnique(w, i, j, k, l);
  }

  /** A sign or white space in the whole coins. */
  lemma SignedWhole(coins: string, i: nat, j: nat)
    requires !Rejected(coins) && IsNumeral(Whole(coins), i, j)
    ensures ParsedAmount(coins)
         == if Numeral(Mantissa(coins))
            then Accepted((SignedCoins(Whole(coins), i, j) + DecimalsOf(Mantissa(coins))) % TWO_64) else 0
  {
    hide Rejected, Mantissa, Whole, ParsedAmount, CoinsOf, SignedCoins, IsNumeral, DecimalsOf, Numeral;
    ParsesText(coins);
    NumeralCoins(Whole(coins), i, j);
  }

  /** Whole coins that only begin with a numeral: it counts, but not for 10^8. */
  lemma BrokenWhole(coins: string, n: nat, i: nat, j: nat)
    requires !Rejected(coins) && n < |Whole(coins)| && !IsDigit(Whole(coins)[n])
    requires IsNumeral(Whole(coins)[..n], i, j)
    ensures ParsedAmount(coins)
         == if Numeral(Mantissa(coins))
            then Accepted((Read64(Whole(coins)[..n], i, j) + DecimalsOf(Mantissa(coins))) % TWO_64) else 0
  {
    hide Rejected, Mantissa, Whole, ParsedAmount, CoinsOf, Read64, IsNumeral, DecimalsOf, Numeral;
    BrokenCoins(Whole(coins), n, i, j);
    ParsesWith(coins, Read64(Whole(coins)[..n], i, j));
  }

  lemma ParsesWith(coins: string, c: Word64)
    requires !Rejected(coins) && CoinsOf(Whole(coins)) % TWO_64 == c
    ensures ParsedAmount(coins)
         == if Numeral(Mantissa(coins)) then Accepted((c + DecimalsOf(Mantissa(coins))) % TWO_64) else 0
  {
    hide Rejected, Mantissa, Whole, ParsedAmount, CoinsOf, DecimalsOf, Numeral, Accepted;
    ParsesText(coins);
    if Numeral(Mantissa(coins)) { SumOfResidue(TWO_64, CoinsOf(Whole(coins)), DecimalsOf(Mantissa(coins))); }
  }

  lemma SumOfResidue(n: int, x: int, v: int)
    requires n > 0
    ensures (x % n + v) % n == (x + v) % n
  {
    SumsModulo(n, x % n, v);
    SumsModulo(n, x, v);
    DivModUnique(n, 0, x % n);
  }

  lemma BrokenCoins(w: string, n: nat, i: nat, j: nat)
    requires n < |w| && !IsDigit(w[n]) && IsNumeral(w[..n], i, j)
    ensures CoinsOf(w) % TWO_64 == Read64(w[..n], i, j)
  {
    hide Strtoull, CoinsOf, Read64, IsNumeral;
    StrtoullReads(w, n, i, j);
    AddedIsCoins(w);
  }

  /** Whole coins without a numeral at the front count for nothing. */
  lemma NoWhole(coins: string)
    requires !Rejected(coins) && forall n :: 0 < n <= |Whole(coins)| ==> !Numeral(Whole(coins)[..n])
    ensures ParsedAmount(coins)
         == if Numeral(Mantissa(coins)) then Accepted(DecimalsOf(Mantissa(coins)) % TWO_64) else 0
  {
    hide Rejected, Mantissa, Whole, ParsedAmount, DecimalsOf, Numeral;
    ParsesText(coins);
    NoCoins(Whole(coins));
  }

  lemma NoCoins(w: string)
    requires forall n :: 0 < n <= |w| ==> !Numeral(w[..n])
    ensures CoinsOf(w) == 0
  {
    assert w[..|w|] == w;
  }

  // ---- Inputs of these shapes

  lemma FiveAndZeros(n: nat)
    ensures Value("5" + ZeroText(n)) == 5 * Power(10, n)
  {
    hide Val, Power;
    assert DigitsIn("5" + ZeroText(n)) == [5] + Zeros(n);
    ValCons(5, Zeros(n), 10);
    ValZeros(n, 10);
  }

  lemma MillionPower()
    ensures Power(10, 6) == 1_000_000 && Power(10, 7) == 10_000_000
  {
    assert Power(10, 3) == 1_000;
    PowerAdd(10, 3, 3);
    PowerAdd(10, 3, 4);
    FourZeros();
  }

  lemma DigitValue(d: nat)
    requires d < 10
    ensures Value([DigitChar(d)]) == d
  {
    var s := [DigitChar(d)];
    assert DigitsIn(s) == [d];
    assert [d] + [] == [d];
    ValCons(d, [], 10);
  }

  /** A sign or a space in front of the 5: plus or minus five millions, not five decimals. */
  lemma SignAndFive(c: char)
    requires c in "+- "
    ensures var coins := "1." + [c] + "5";
      && !Rejected(coins) && InScratch(coins)
      && ParsedAmount(coins) == if c == '-' then 95_000_000 else 105_000_000
  {
    hide Value, Val, Power, ParsedAmount, Point;
    var coins, ds := "1." + [c] + "5", "5" + ZeroText(6);
    PointAt("1", "." + [c] + "5");
    assert coins == "1" + ("." + [c] + "5");
    var m := Mantissa(coins);
    assert coins[..1] == "1" && coins[2..] == [c] + "5" && m == [c] + ds;
    FiveAndZeros(6);
    MillionPower();
    DigitValue(1);
    assert m[1..] == ds;
    SignedDecimals(coins, if c == ' ' then 1 else 0, 1);
  }

  lemma PlusFive()
    ensures ParsedAmount("1.+5") == 105_000_000
  {
    hide ParsedAmount;
    assert "1." + ['+'] + "5" == "1.+5";
    SignAndFive('+');
  }

  lemma SpaceFive()
    ensures ParsedAmount("1. 5") == 105_000_000
  {
    hide ParsedAmount;
    assert "1." + [' '] + "5" == "1. 5";
    SignAndFive(' ');
  }

  lemma MinusFive()
    ensures ParsedAmount("1.-5") == 95_000_000
  {
    hide ParsedAmount;
    assert "1." + ['-'] + "5" == "1.-5";
    SignAndFive('-');
  }

  lemma NoDecimals()
    ensures Numeral(ZeroText(8)) && DecimalsOf(ZeroText(8)) == 0
  {
    hide Value;
    var m := ZeroText(8);
    ValueOfZeros(8);
    assert IsNumeral(m, 0, 0) && m[0..] == m;
    DecimalsAre(m, 0, 0);
  }

  lemma WithoutPoint(coins: string)
    requires '.' !in coins
    ensures Whole(coins) == coins && Mantissa(coins) == ZeroText(8)
  {
    hide Point;
    NoPoint(coins);
    assert coins[..|coins|] == coins && "" + ZeroText(8) == ZeroText(8);
  }

  /** A space hides the minus sign from the test of the first character: 2^64 less two coins. */
  lemma SpaceMinusTwo()
    ensures var coins := " -2"; !Rejected(coins) && InScratch(coins) && ParsedAmount(coins) == TWO_64 - 2 * COIN
  {
    hide Value, ParsedAmount, Whole, Mantissa, DecimalsOf, Numeral, Point;
    var coins := " -2";
    WithoutPoint(coins);
    NoDecimals();
    NoPoint(coins);
    assert coins[2..] == "2";
    DigitValue(2);
    assert IsNumeral(coins, 1, 2) && SignedCoins(coins, 1, 2) == -2 * COIN;
    SignedWhole(coins, 1, 2);
    DivModUnique(TWO_64, -1, TWO_64 - 2 * COIN);
  }

  /** Two koinu. */
  lemma TwoX()
    ensures var coins := "2x"; !Rejected(coins) && InScratch(coins) && ParsedAmount(coins) == 2
  {
    hide Value, ParsedAmount, Whole, Mantissa, DecimalsOf, Numeral, Point;
    var coins := "2x";
    WithoutPoint(coins);
    NoDecimals();
    NoPoint(coins);
    var t := coins[..1];
    assert t == "2" && t[0..] == "2";
    DigitValue(2);
    BrokenWhole(coins, 1, 0, 0);
  }

  /** Half a coin. */
  lemma AbcHalf()
    ensures var coins := "abc.5"; !Rejected(coins) && InScratch(coins) && ParsedAmount(coins) == 50_000_000
  {
    hide Value, Val, Power, ParsedAmount, Point;
    var coins, m := "abc.5", "5" + ZeroText(7);
    PointAt("abc", ".5");
    assert coins == "abc" + ".5";
    assert coins[..3] == "abc" && coins[4..] == "5" && Mantissa(coins) == m;
    FiveAndZeros(7);
    MillionPower();
    assert IsNumeral(m, 0, 0) && m[0..] == m;
    DecimalsAre(m, 0, 0);
    forall n | 0 < n <= 3 ensures !Numeral("abc"[..n]) {
      assert "abc"[..n][0] == 'a';
    }
    NoWhole(coins);
  }
}
