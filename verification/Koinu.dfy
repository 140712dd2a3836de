/** Amounts of koinu as decimal text (koinu.c): printing, parsing, and what one undoes of
    the other. */
module Koinu {
  import opened Arith
  import opened Radix
  import opened Sequences

  const UINT64_MAX := 0xFFFF_FFFF_FFFF_FFFF
  const NOT_AN_AMOUNT := 0xFFFF_F511_543F_B600
  const COIN := 100000000
  const NUL := '\0'

  type Word64 = x: int | 0 <= x <= UINT64_MAX

  // ---- Decimal text

  function DigitChar(d: nat): char
    requires d < 10
  {
    '0' + d as char
  }

  predicate IsDecimal(s: string) { forall i :: 0 <= i < |s| ==> '0' <= s[i] <= '9' }

  function DigitsIn(s: string): (ds: seq<nat>)
    requires IsDecimal(s)
    ensures |ds| == |s| && IsDigits(ds, 10)
  {
    seq(|s|, i requires 0 <= i < |s| => s[i] as int - '0' as int)
  }

  function TextOf(ds: seq<nat>): (s: string)
    requires IsDigits(ds, 10)
    ensures |s| == |ds| && IsDecimal(s)
  {
    seq(|ds|, i requires 0 <= i < |ds| => DigitChar(ds[i]))
  }

  function Value(s: string): nat
    requires IsDecimal(s)
  {
    Val(DigitsIn(s), 10)
  }

  /** The digits of v, without leading zeros. */
  function Decimal(v: nat): (s: string)
    ensures IsDecimal(s) && Value(s) == v
  {
    ValOfDigits(v, 10);
    DigitsOfText(DigitsOf(v, 10));
    TextOf(DigitsOf(v, 10))
  }

  lemma DigitsOfText(ds: seq<nat>)
    requires IsDigits(ds, 10)
    ensures DigitsIn(TextOf(ds)) == ds
  {}

  lemma TextOfDigits(s: string)
    requires IsDecimal(s)
    ensures TextOf(DigitsIn(s)) == s
  {}

  /** v as n digits, leading zeros included. */
  function Fixed(v: nat, n: nat): (s: string)
    requires v < Power(10, n)
    ensures |s| == n && IsDecimal(s) && Value(s) == v
  {
    DigitsOfText(FixedDigits(v, 10, n));
    TextOf(FixedDigits(v, 10, n))
  }

  /** Cutting off the last n digits divides by a power of ten. */
  lemma SplitDecimal(v: nat, n: nat)
    requires v >= Power(10, n)
    ensures Power(10, n) > 0 && 0 <= v / Power(10, n) && 0 <= v % Power(10, n) < Power(10, n)
    ensures Decimal(v) == Decimal(v / Power(10, n)) + Fixed(v % Power(10, n), n)
  {
    hide Power, DigitsOf, FixedDigits, Value;
    SplitDigits(v, 10, n);
  }

  // ---- Printing

  lemma DigitsUnfold(v: nat)
    ensures v > 0 ==> DigitsOf(v, 10) == DigitsOf(v / 10, 10) + [v % 10]
    ensures v == 0 ==> DigitsOf(v, 10) == []
  {}

  lemma DecimalUnfold(v: nat)
    ensures |Decimal(v)| == |DigitsOf(v, 10)|
    ensures v > 0 ==> Decimal(v) == Decimal(v / 10) + [DigitChar(v % 10)]
    ensures v == 0 ==> Decimal(v) == ""
  {
    hide DigitsOf, Value, DigitChar;
    DigitsUnfold(v);
    ValOfDigits(v, 10);
    if v > 0 {
      ValOfDigits(v / 10, 10);
      TextSnoc(DigitsOf(v / 10, 10), v % 10);
    }
  }

  lemma TextSnoc(ds: seq<nat>, d: nat)
    requires IsDigits(ds, 10) && d < 10
    ensures TextOf(ds + [d]) == TextOf(ds) + [DigitChar(d)]
  {
    hide DigitChar;
  }

  /** calc_length */
  method CalcLength(x0: nat) returns (count: nat)
    ensures count == |Decimal(x0)|
  {
    hide Decimal;
    var x := x0;
    count := 0;
    DecimalUnfold(0);
    while x > 0
      invariant count + |Decimal(x)| == |Decimal(x0)|
    {
      DecimalUnfold(x);
      x := x / 10;
      count := count + 1;
    }
  }

  /** The digits, from the last one to the first. */
  method PutDigits(input0: nat, length: nat, output: array<char>)
    requires length == |Decimal(input0)| < output.Length
    modifies output
    ensures output[..length] == Decimal(input0) && output[length..] == old(output[length..])
  {
    hide Decimal, DigitChar;
    ghost var d := Decimal(input0);
    var input := input0;
    for i := 0 to length
      invariant Decimal(input) == d[..length - i]
      invariant output[length - i..length] == d[length - i..]
      invariant output[length..] == old(output[length..])
    {
      DecimalUnfold(input);
      var remainder := input % 10;
      input := input / 10;
      output[length - (i + 1)] := DigitChar(remainder);
      assert d[length - (i + 1)] == d[..length - i][length - (i + 1)];
      assert output[length - (i + 1)..length] == [DigitChar(remainder)] + output[length - i..length];
    }
  }

  /** The function `string`: the digits from the last one to the first, then the NUL. */
  method PutDecimal(input0: nat, output: array<char>)
    requires |Decimal(input0)| < output.Length
    modifies output
    ensures output[..] == Decimal(input0) + [NUL] + old(output[|Decimal(input0)| + 1..])
  {
    hide Decimal, DigitChar;
    ghost var d := Decimal(input0);
    var n, length := input0, 0;
    DecimalUnfold(0);
    while n != 0
      invariant length + |Decimal(n)| == |d| && output[..] == old(output[..])
    {
      DecimalUnfold(n);
      length := length + 1;
      n := n / 10;
    }
    PutDigits(input0, length, output);
    ghost var behind := output[length..];
    output[length] := NUL;
    assert output[length + 1..] == behind[1..];
  }

  datatype Conversion = SUCCESS | NON_DECIMAL | INVALID_STR_TERMINATION | OUT_OF_RANGE | OVERFLOW | UNDERFLOW

  /** validate_conversion of a number that does not come from text. */
  function ValidateNumber(converted: Word64, state: Conversion): Conversion {
    if converted == NOT_AN_AMOUNT then UNDERFLOW
    else if converted >= UINT64_MAX then OVERFLOW
    else state
  }

  /** The amounts that can be converted. */
  predicate IsAmount(koinu: int) {
    0 <= koinu < UINT64_MAX && koinu != NOT_AN_AMOUNT
  }

  lemma CoinPower()
    ensures Power(10, 8) == COIN
  {
    assert Power(10, 4) == 10000;
    PowerAdd(10, 4, 4);
  }

  /** Whole coins, a point, and eight decimals. */
  function AmountText(koinu: nat): string {
    CoinPower();
    (if koinu < COIN then "0" else Decimal(koinu / COIN)) + "." + Fixed(koinu % COIN, 8)
  }

  lemma TwentyDigits(v: Word64)
    ensures |Decimal(v)| <= 20
  {
    hide DigitsOf, Power;
    CoinPower();
    PowerAdd(10, 8, 8);
    PowerAdd(10, 16, 4);
    assert Power(10, 4) == 10000 by { FourZeros(); }
    DigitCount(v, 10, 20);
  }

  lemma FourZeros()
    ensures Power(10, 4) == 10000
  {}

  function ZeroText(n: nat): (s: string)
    ensures |s| == n
  {
    seq(n, _ => '0')
  }

  lemma FixedText(v: nat, n: nat)
    requires v < Power(10, n)
    ensures |Decimal(v)| <= n && Fixed(v, n) == ZeroText(n - |Decimal(v)|) + Decimal(v)
  {
    hide Power, DigitsOf, FixedDigits;
    FixedIs(v, 10, n);
  }

  /** A zero, the point and zeros up to target. */
  method PutFront(str: array<char>, target: nat)
    requires str.Length >= 22 && 2 <= target <= 10
    modifies str
    ensures str[..target] == "0." + ZeroText(target - 2) && str[10..] == old(str[10..])
  {
    var i := 0;
    while i < target
      invariant 0 <= i <= target
      invariant i > 0 ==> str[0] == '0' && str[1] == '.'
      invariant forall k :: 2 <= k < i ==> str[k] == '0'
      invariant str[10..] == old(str[10..])
    {
      if i == 0 || i == 1 {
        str[0] := '0';
        str[1] := '.';
      } else {
        str[i] := '0';
      }
      i := i + 1;
    }
  }

  /** The digits from target on. */
  method PutBehind(str: array<char>, target: nat, swap: array<char>)
    requires str.Length >= 22 && str != swap && target <= 10 && swap.Length == 10 - target + 1
    modifies str
    ensures str[..10] == old(str[..target]) + swap[..10 - target] && str[10..] == old(str[10..])
  {
    var i, j := target, 0;
    while i < 10
      invariant target <= i <= 10 && j == i - target
      invariant str[..target] == old(str[..target])
      invariant forall k :: target <= k < i ==> str[k] == swap[k - target]
      invariant str[10..] == old(str[10..])
    {
      str[i] := swap[j];
      i, j := i + 1, j + 1;
    }
  }

  /** The branch for amounts below one coin: the digits are moved behind a zero, the point
      and more zeros. */
  method PutSmall(koinu: Word64, length: nat, target: nat, str: array<char>)
    requires str.Length >= 22 && length == |Decimal(koinu)| < 9 && target == 10 - length
    modifies str
    ensures str[..] == "0." + ZeroText(8 - length) + Decimal(koinu) + old(str[10..])
  {
    hide Decimal;
    ghost var d := Decimal(koinu);
    PutDecimal(koinu, str);
    assert str[10..] == old(str[10..]);
    var swap := new char[length + 1];
    forall k | 0 <= k < length + 1 { swap[k] := str[k]; }
    assert swap[..length] == d;
    PutFront(str, target);
    PutBehind(str, target, swap);
    assert str[..10] == "0." + ZeroText(8 - length) + d;
    assert str[..] == str[..10] + str[10..];
  }

  /** The digits with a point behind the first target + 1. */
  method InsertPoint(ghost d: string, tmp: array<char>, target: nat, str: array<char>)
    requires str != tmp && |d| == target + 9 < tmp.Length && |d| + 2 <= str.Length
    requires forall k :: 0 <= k < |d| ==> tmp[k] == d[k]
    modifies str
    ensures forall k :: 0 <= k <= target ==> str[k] == d[k]
    ensures str[target + 1] == '.'
    ensures forall k :: target < k < |d| ==> str[k + 1] == d[k]
    ensures str[|d| + 1..] == old(str[|d| + 1..])
  {
    var length := target + 9;
    for i := 0 to length
      invariant forall k :: 0 <= k < i && k <= target ==> str[k] == d[k]
      invariant i > target ==> str[target + 1] == '.'
      invariant forall k :: target < k < i ==> str[k + 1] == d[k]
      invariant str[length + 1..] == old(str[length + 1..])
    {
      if i < target {
        str[i] := tmp[i];
      } else if i == target {
        str[i] := tmp[i];
        str[i + 1] := '.';
      } else if i > target {
        str[i + 1] := tmp[i];
      }
    }
  }

  /** The branch for one coin and more: the point goes in before the last eight digits. */
  method PutLarge(koinu: Word64, length: nat, target: nat, str: array<char>)
    requires str.Length >= 22 && 9 <= length == |Decimal(koinu)| <= 20 && target == length - 9
    modifies str
    ensures var d := Decimal(koinu);
      str[..] == d[..length - 8] + "." + d[length - 8..] + [NUL] + old(str[length + 2..])
  {
    hide Decimal;
    ghost var d := Decimal(koinu);
    var tmp := new char[21](_ => NUL);
    PutDecimal(koinu, tmp);
    assert forall k :: 0 <= k < length ==> tmp[k] == tmp[..][k] == d[k];
    InsertPoint(d, tmp, target, str);
    str[length + 1] := NUL;
    PointInserted(str[..], d, target);
    assert str[length + 2..] == str[length + 1..][1..];
  }

  lemma PointInserted(s: seq<char>, d: string, target: nat)
    requires |d| == target + 9 && |s| >= |d| + 2
    requires forall k :: 0 <= k <= target ==> s[k] == d[k]
    requires s[target + 1] == '.' && s[|d| + 1] == NUL
    requires forall k :: target < k < |d| ==> s[k + 1] == d[k]
    ensures s == d[..|d| - 8] + "." + d[|d| - 8..] + [NUL] + s[|d| + 2..]
  {
    assert s[..target + 1] == d[..target + 1];
    var a, b := s[target + 2..target + 10], d[target + 1..];
    forall k | 0 <= k < 8 ensures a[k] == b[k] {
      assert s[target + 1 + k + 1] == d[target + 1 + k];
    }
    assert a == b;
    assert s == s[..target + 1] + [s[target + 1]] + s[target + 2..target + 10] + [s[target + 10]] + s[target + 11..];
  }

  lemma AmountParts(koinu: nat)
    ensures var d := Decimal(koinu);
      && (|d| < 9 <==> koinu < COIN)
      && (koinu < COIN ==> AmountText(koinu) == "0." + ZeroText(8 - |d|) + d)
      && (koinu >= COIN ==> AmountText(koinu) == d[..|d| - 8] + "." + d[|d| - 8..])
  {
    hide Decimal, AmountText, ZeroText;
    SmallLength(koinu);
    CoinPower();
    if koinu < COIN { SmallAmount(koinu); } else { LargeAmount(koinu); }
  }

  lemma SmallAmount(koinu: nat)
    requires koinu < COIN
    ensures |Decimal(koinu)| <= 8 && AmountText(koinu) == "0." + ZeroText(8 - |Decimal(koinu)|) + Decimal(koinu)
  {
    hide Decimal, Fixed, Power, ZeroText;
    CoinPower();
    FixedText(koinu, 8);
    assert koinu % COIN == koinu;
    Associate("0.", ZeroText(8 - |Decimal(koinu)|), Decimal(koinu));
  }

  lemma LargeAmount(koinu: nat)
    requires koinu >= COIN && |Decimal(koinu)| >= 8
    ensures var d := Decimal(koinu); AmountText(koinu) == d[..|d| - 8] + "." + d[|d| - 8..]
  {
    hide Decimal, Fixed, Power;
    CoinPower();
    SplitDecimal(koinu, 8);
    var d, w, f := Decimal(koinu), Decimal(koinu / COIN), Fixed(koinu % COIN, 8);
    assert d[..|d| - 8] == w && d[|d| - 8..] == f;
  }

  lemma SmallLength(v: nat)
    ensures |Decimal(v)| <= 8 <==> v < Power(10, 8)
  {
    hide Power, DigitsOf;
    DigitCount(v, 10, 8);
  }

  /** koinu_to_coins_str. Amounts below one coin end where the buffer was zero before. */
  method KoinuToCoinsStr(koinu: Word64, str: array<char>) returns (ok: bool)
    requires str.Length >= 22
    modifies str
    ensures ok <==> IsAmount(koinu)
    ensures !ok ==> str[..] == old(str[..])
    ensures ok ==> |AmountText(koinu)| <= 21
    ensures ok && koinu < COIN ==> |AmountText(koinu)| == 10 && str[..] == AmountText(koinu) + old(str[10..])
    ensures ok && koinu >= COIN ==>
              str[..] == AmountText(koinu) + [NUL] + old(str[|AmountText(koinu)| + 1..])
  {
    hide Decimal, Fixed, Power, DigitChar;
    var state := ValidateNumber(koinu, SUCCESS);
    if state != SUCCESS { return false; }
    var length := CalcLength(koinu);
    var target := if length < 9 then 10 - length else length - 9;
    TwentyDigits(koinu);
    AmountParts(koinu);
    if length < 9 {
      PutSmall(koinu, length, target, str);
    } else {
      PutLarge(koinu, length, target, str);
    }
    return true;
  }

  // ---- What the printed buffer holds, as C text

  /** The characters before the first NUL. */
  function CText(s: seq<char>): string {
    if s == [] || s[0] == NUL then "" else [s[0]] + CText(s[1..])
  }

  lemma {:induction false} CTextOf(s: string, rest: seq<char>)
    requires forall i :: 0 <= i < |s| ==> s[i] != NUL
    ensures CText(s + rest) == s + CText(rest)
  {
    if s == "" {
      assert s + rest == rest;
    } else {
      assert (s + rest)[1..] == s[1..] + rest;
      CTextOf(s[1..], rest);
    }
  }

  lemma AmountNoNul(koinu: nat, i: nat)
    requires i < |AmountText(koinu)|
    ensures AmountText(koinu)[i] != NUL
  {
    hide Decimal, Fixed, Power;
  }

  /** Below one coin nothing is written behind the text: it ends there exactly if the
      buffer had a NUL in that place. */
  lemma PrintedText(koinu: nat, was: seq<char>, now: seq<char>)
    requires |was| > 10 && |AmountText(koinu)| < |was|
    requires koinu < COIN ==> |AmountText(koinu)| == 10 && now == AmountText(koinu) + was[10..]
    requires koinu >= COIN ==> now == AmountText(koinu) + [NUL] + was[|AmountText(koinu)| + 1..]
    ensures CText(now) == AmountText(koinu) <==> koinu >= COIN || was[10] == NUL
  {
    hide AmountText;
    var s := AmountText(koinu);
    forall i | 0 <= i < |s| ensures s[i] != NUL { AmountNoNul(koinu, i); }
    if koinu < COIN {
      CTextOf(s, was[10..]);
      assert |CText(was[10..])| == 0 <==> was[10] == NUL;
    } else {
      var rest := [NUL] + was[|s| + 1..];
      CTextOf(s, rest);
      assert now == s + rest;
      assert s + "" == s;
    }
  }

  // ---- Parsing

  datatype Parsed = Parsed(value: Word64, used: nat)

  predicate IsSpace(c: char) { c in " \t\n\r" || c as int == 11 || c as int == 12 }

  predicate IsDigit(c: char) { '0' <= c <= '9' }

  /** How many white-space characters s begins with. */
  function Spaces(s: string): (n: nat)
    ensures n <= |s|
  {
    if s != "" && IsSpace(s[0]) then 1 + Spaces(s[1..]) else 0
  }

  /** How many digits s begins with. */
  function DigitRun(s: string): (n: nat)
    ensures n <= |s| && IsDecimal(s[..n]) && (n < |s| ==> !IsDigit(s[n]))
  {
    if s != "" && IsDigit(s[0]) then 1 + DigitRun(s[1..]) else 0
  }

  /** strtoull in base ten (section 7.22.1.4 of ISO C11): white space, a sign, digits; a
      number that does not fit reads as the largest one, and a minus sign negates modulo
      2^64. `used` counts the characters in front of the end pointer. */
  function Strtoull(s: string): (p: Parsed)
    ensures p.used <= |s|
  {
    var sign := Spaces(s);
    var from := if sign < |s| && s[sign] in "+-" then sign + 1 else sign;
    var n := DigitRun(s[from..]);
    if n == 0 then Parsed(0, 0) else
      var v := Value(s[from..][..n]);
      if v > UINT64_MAX then Parsed(UINT64_MAX, from + n)
      else if s[sign] == '-' then Parsed((UINT64_MAX + 1 - v) % (UINT64_MAX + 1), from + n)
      else Parsed(v, from + n)
  }

  /** validate_conversion of the number read from s. */
  function ValidateText(converted: Word64, s: string, used: nat): Conversion {
    var state := if used == 0 then NON_DECIMAL else SUCCESS;
    ValidateNumber(converted, if used < |s| then INVALID_STR_TERMINATION else state)
  }

  /** Where the point is, or the length. */
  function Point(s: string): (n: nat)
    ensures n <= |s| && (n < |s| ==> s[n] == '.')
    ensures forall i :: 0 <= i < n ==> s[i] != '.'
  {
    if s == "" || s[0] == '.' then 0 else 1 + Point(s[1..])
  }

  function Whole(s: string): string { s[..Point(s)] }

  function AfterPoint(s: string): string {
    if Point(s) < |s| then s[Point(s) + 1..] else ""
  }

  /** The first eight decimals, zeros for those that are missing. */
  function Mantissa(s: string): (m: string)
    ensures |m| == 8
  {
    var f := AfterPoint(s);
    if |f| >= 8 then f[..8] else f + ZeroText(8 - |f|)
  }

  predicate Rejected(coins: string) {
    coins == "" || coins[0] == '-' || |coins| > 22
  }

  /** Copying stays within the 21 characters of the scratch string and leaves it a NUL:
      the zeros that are written from the point on must fit, or else the whole text. */
  predicate InScratch(coins: string) {
    Rejected(coins) || if Point(coins) < |coins| then Point(coins) + 8 <= 21 else |coins| <= 20
  }

  /** How far the source writes. */
  function Reach(coins: string): nat {
    if Point(coins) < |coins| then Point(coins) + 8 else |coins|
  }

  /** What the source makes of the memory that begins with the scratch string. */
  function ScratchAfter(coins: string, was: seq<char>): (now: seq<char>)
    requires Reach(coins) <= |was|
    ensures |now| == |was|
  {
    if Point(coins) < |coins| then Whole(coins) + [NUL] + ZeroText(7) + was[Reach(coins)..]
    else coins + was[|coins|..]
  }

  /** The scratch string holds a text, and nothing behind it has changed. */
  predicate Unharmed(coins: string, was: seq<char>)
    requires Reach(coins) <= |was| && 21 <= |was|
  {
    var now := ScratchAfter(coins, was);
    NUL in now[..21] && now[21..] == was[21..]
  }

  /** The memory: a scratch string of 21 NULs, and what lies behind it. */
  predicate IsScratch(was: seq<char>) {
    |was| == 30 && was[..21] == seq(21, _ => NUL)
  }

  lemma ReachBound(coins: string)
    requires !Rejected(coins)
    ensures Reach(coins) <= 30
  {}

  /** InScratch is exact: it holds if and only if no memory is harmed. */
  lemma ScratchExact(coins: string)
    requires !Rejected(coins) && forall i :: 0 <= i < |coins| ==> coins[i] != NUL
    ensures Reach(coins) <= 30
    ensures InScratch(coins) <==> forall was :: IsScratch(was) ==> Unharmed(coins, was)
  {
    hide Point;
    ReachBound(coins);
    if InScratch(coins) {
      forall was | IsScratch(was) ensures Unharmed(coins, was) {
        var now := ScratchAfter(coins, was);
        if Point(coins) < |coins| {
          assert now[Point(coins)] == NUL;
        } else {
          assert now[|coins|] == was[..21][|coins|];
        }
      }
    } else {
      var behind := if coins[|coins| - 1] == 'x' then 'y' else 'x';
      var was := seq(30, i => if i < 21 then NUL else behind);
      assert was[..21] == seq(21, _ => NUL);
      var now := ScratchAfter(coins, was);
      if Reach(coins) > 21 {
        var last := Reach(coins) - 1;
        assert now[last] != behind == was[last];
        assert now[21..][last - 21] == now[last] && was[21..][last - 21] == was[last];
        assert now[21..] != was[21..];
      } else {
        assert now[..21] == coins;
      }
      assert IsScratch(was) && !Unharmed(coins, was);
    }
  }

  /** Whole coins count for 10^8, if they have at most twelve digits and could be read. */
  function Combined(whole: string, mantissa: string): Word64 {
    var p, q := Strtoull(whole), Strtoull(mantissa);
    var dogecoin := if ValidateText(p.value, whole, p.used) == SUCCESS && |whole| <= 12
                    then p.value * COIN % (UINT64_MAX + 1) else p.value;
    var koinu := (q.value + dogecoin) % (UINT64_MAX + 1);
    if ValidateText(koinu, mantissa, q.used) == SUCCESS then koinu else 0
  }

  function ParsedAmount(coins: string): Word64 {
    if Rejected(coins) then 0 else Combined(Whole(coins), Mantissa(coins))
  }

  /** coins_to_koinu_str */
  method CoinsToKoinuStr(coins: string) returns (result: Word64)
    requires (forall i :: 0 <= i < |coins| ==> coins[i] != NUL) && InScratch(coins)
    ensures result == ParsedAmount(coins)
  {
    hide Point, Whole, AfterPoint, Mantissa, CText, Value, IsDecimal, InScratch, ValidateText, Strtoull;
    if coins != "" && coins[0] == '-' { return 0; }
    var length := if |coins| > 22 then 0 else |coins|;
    if length == 0 { return 0; }
    var dogecoinString := new char[21](_ => NUL);
    ghost var was := dogecoinString[..];
    assert was == seq(21, _ => NUL);
    ScratchText(coins, was);
    var i := CopyWhole(coins, dogecoinString);
    var koinuString := CopyMantissa(coins, i);
    var whole := CString(dogecoinString);
    var p := Strtoull(whole);
    var dogecoin := p.value;
    if ValidateText(dogecoin, whole, p.used) == SUCCESS {
      if |whole| <= 12 {
        dogecoin := dogecoin * COIN % (UINT64_MAX + 1);
      }
    }
    var q := Strtoull(koinuString);
    var koinu := (q.value + dogecoin) % (UINT64_MAX + 1);
    return if ValidateText(koinu, koinuString, q.used) == SUCCESS then koinu else 0;
  }

  /** The C text in an array: its characters up to the first NUL. */
  method CString(a: array<char>) returns (s: string)
    ensures s == CText(a[..])
  {
    var n := 0;
    while n < a.Length && a[n] != NUL
      invariant n <= a.Length && forall i :: 0 <= i < n ==> a[i] != NUL
    {
      n := n + 1;
    }
    assert a[..] == a[..n] + a[n..];
    CTextOf(a[..n], a[n..]);
    s := a[..n];
    assert s + "" == s;
  }

  /** The loop up to the point; zeros and a NUL go over what follows it. */
  method CopyWhole(coins: string, dogecoinString: array<char>) returns (i: nat)
    requires Reach(coins) <= dogecoinString.Length
    modifies dogecoinString
    ensures dogecoinString[..] == ScratchAfter(coins, old(dogecoinString[..]))
    ensures i <= |coins| && coins[i..] == AfterPoint(coins)
  {
    var ds := dogecoinString;
    ghost var was := ds[..];
    i := 0;
    while i < |coins|
      invariant i <= Point(coins)
      invariant ds[..i] == coins[..i] && ds[i..] == was[i..]
    {
      ghost var rest := ds[i..];
      ds[i] := coins[i];
      assert ds[i + 1..] == rest[1..] == was[i + 1..];
      if coins[i] == '.' {
        EndAtPoint(coins, ds, i, was);
        i := i + 1;
        return;
      }
      i := i + 1;
    }
    assert ds[..] == ScratchAfter(coins, was);
  }

  /** Eight zeros from the point on, the first of them replaced by a NUL. */
  method EndAtPoint(coins: string, ds: array<char>, i: nat, ghost was: seq<char>)
    requires i == Point(coins) < |coins| && |was| == ds.Length && i + 8 <= ds.Length
    requires ds[..i] == coins[..i] && ds[i + 1..] == was[i + 1..]
    modifies ds
    ensures ds[..] == ScratchAfter(coins, was)
  {
    hide Point;
    assert forall k :: i + 8 <= k < ds.Length ==> ds[k] == ds[i + 1..][k - i - 1] == was[k];
    var j := i;
    while j < i + 8
      invariant i <= j <= i + 8
      invariant forall k :: 0 <= k < i ==> ds[k] == coins[k]
      invariant forall k :: i <= k < j ==> ds[k] == '0'
      invariant forall k :: i + 8 <= k < ds.Length ==> ds[k] == was[k]
    {
      ds[j] := '0';
      j := j + 1;
    }
    ds[i] := NUL;
  }

  /** In the scratch string, strtoull finds the text before the point. */
  lemma ScratchText(coins: string, was: seq<char>)
    requires !Rejected(coins) && InScratch(coins) && forall k :: 0 <= k < |coins| ==> coins[k] != NUL
    requires was == seq(21, _ => NUL)
    ensures Reach(coins) <= 21 && CText(ScratchAfter(coins, was)) == Whole(coins)
  {
    var whole, now := Whole(coins), ScratchAfter(coins, was);
    assert now == whole + now[|whole|..];
    CTextOf(whole, now[|whole|..]);
    assert whole + "" == whole;
  }

  /** Up to eight characters behind the point, then zeros. */
  method CopyMantissa(coins: string, from: nat) returns (s: string)
    requires from <= |coins| && coins[from..] == AfterPoint(coins)
    requires forall k :: 0 <= k < |coins| ==> coins[k] != NUL
    ensures s == Mantissa(coins)
  {
    var koinuString := new char[9](_ => NUL);
    var i, j, mantissaLength := from, 0, 0;
    while i < |coins| && j < 8
      invariant from <= i <= |coins| && i - from == j == mantissaLength <= 8
      invariant forall k :: 0 <= k < j ==> koinuString[k] == coins[from + k]
      invariant koinuString[8] == NUL
    {
      koinuString[j] := coins[i];
      i, j, mantissaLength := i + 1, j + 1, mantissaLength + 1;
    }
    if mantissaLength != 8 {
      i := mantissaLength;
      while i < 8
        invariant mantissaLength <= i <= 8
        invariant forall k :: 0 <= k < mantissaLength ==> koinuString[k] == coins[from + k]
        invariant forall k :: mantissaLength <= k < i ==> koinuString[k] == '0'
        invariant koinuString[8] == NUL
      {
        koinuString[i] := '0';
        i := i + 1;
      }
    }
    s := CString(koinuString);
    ghost var m := Mantissa(coins);
    assert forall k :: 0 <= k < 8 ==> koinuString[k] == m[k];
    assert koinuString[..] == m + [NUL];
    CTextOf(m, [NUL]);
    assert m + "" == m;
  }

  // ---- What parsing means

  function Accepted(amount: Word64): Word64 { if IsAmount(amount) then amount else 0 }

  lemma EightDigits(m: string)
    requires IsDecimal(m) && |m| == 8
    ensures Value(m) < COIN
  {
    CoinPower();
    ValBound(DigitsIn(m), 10);
  }

  lemma TwelveDigits(s: string)
    requires IsDecimal(s) && |s| <= 12
    ensures Value(s) < 1_000_000_000_000
  {
    hide Power;
    CoinPower();
    FourZeros();
    PowerAdd(10, 8, 4);
    PowerMono(10, |s|, 12);
    ValBound(DigitsIn(s), 10);
  }

  lemma ReadsDigits(s: string)
    requires IsDecimal(s)
    ensures Strtoull(s) == Parsed(Min(Value(s), UINT64_MAX), |s|)
  {
    hide Value;
    EmptyValue();
    assert s[0..] == s && s[..|s|] == s;
    assert DigitRun(s) == |s|;
  }

  lemma EmptyValue()
    ensures Value("") == 0
  {}

  /** What strtoull and the multiplication make of the whole coins: beyond twelve digits
      they are not multiplied. */
  function Scaled(whole: string): nat
    requires IsDecimal(whole)
  {
    if |whole| <= 12 then Value(whole) * COIN else Min(Value(whole), UINT64_MAX)
  }

  /** What any decimal text parses to: a sum modulo 2^64, or 0 for the two numbers that
      validate_conversion turns down. */
  lemma ParsesDecimal(coins: string)
    requires !Rejected(coins) && IsDecimal(Whole(coins)) && IsDecimal(Mantissa(coins))
    ensures ParsedAmount(coins) == Accepted((Scaled(Whole(coins)) + Value(Mantissa(coins))) % (UINT64_MAX + 1))
  {
    hide Value, IsDecimal, Point, Whole, AfterPoint, Mantissa, Rejected, Combined, Scaled, Accepted;
    CombinedIs(Whole(coins), Mantissa(coins));
    SumModulo(UINT64_MAX + 1, Value(Mantissa(coins)), Scaled(Whole(coins)));
  }

  lemma CombinedIs(whole: string, m: string)
    requires IsDecimal(whole) && IsDecimal(m) && |m| == 8
    ensures Combined(whole, m) == Accepted((Value(m) + Scaled(whole) % (UINT64_MAX + 1)) % (UINT64_MAX + 1))
  {
    hide Value, IsDecimal, Strtoull;
    EightDigits(m);
    ReadsDigits(whole);
    ReadsDigits(m);
    EmptyValue();
    if |whole| <= 12 { TwelveDigits(whole); }
  }

  lemma SumModulo(n: int, x: nat, v: nat)
    requires n > 0
    ensures (x + v % n) % n == (v + x) % n
  {
    var q, r := v / n, v % n;
    var p, e := (x + r) / n, (x + r) % n;
    Euclid(v, n);
    Euclid(x + r, n);
    Distribute(q, p, n);
    DivModUnique(n, q + p, e);
  }

  /** The exact amount comes out if and only if 64 bits hold it, it is neither of the two
      numbers turned down, and whole coins with more than twelve digits are all zeros. */
  lemma ParsesExactly(coins: string)
    requires !Rejected(coins) && IsDecimal(Whole(coins)) && IsDecimal(Mantissa(coins))
    ensures var whole := Whole(coins);
      var amount := Value(whole) * COIN + Value(Mantissa(coins));
      ParsedAmount(coins) == amount <==> IsAmount(amount) && (|whole| <= 12 || Value(whole) == 0)
  {
    hide Value, IsDecimal, Point, Whole, AfterPoint, Mantissa, Rejected, ParsedAmount;
    ParsesDecimal(coins);
    EightDigits(Mantissa(coins));
  }

  /** Characters behind the eighth decimal are not looked at. */
  lemma EightDecimalsCount(coins: string, more: string)
    requires !Rejected(coins) && |coins + more| <= 22 && |AfterPoint(coins)| >= 8
    ensures ParsedAmount(coins + more) == ParsedAmount(coins)
  {
    hide Combined;
    PartsKept(coins, more);
  }

  lemma PartsKept(coins: string, more: string)
    requires |AfterPoint(coins)| >= 8
    ensures Whole(coins + more) == Whole(coins) && Mantissa(coins + more) == Mantissa(coins)
  {
    hide Point;
    PointKept(coins, more);
    assert AfterPoint(coins + more) == AfterPoint(coins) + more;
  }

  lemma {:induction false} PointKept(s: string, more: string)
    requires Point(s) < |s|
    ensures Point(s + more) == Point(s)
  {
    if s[0] != '.' {
      assert (s + more)[1..] == s[1..] + more;
      PointKept(s[1..], more);
    }
  }

  lemma {:induction false} PointAt(s: string, rest: string)
    requires '.' !in s && rest != "" && rest[0] == '.'
    ensures Point(s + rest) == |s|
  {
    if s == "" {
      assert s + rest == rest;
    } else {
      assert (s + rest)[1..] == s[1..] + rest;
      PointAt(s[1..], rest);
    }
  }

  lemma AmountPieces(koinu: nat)
    requires IsAmount(koinu)
    ensures var t := AmountText(koinu);
      && !Rejected(t) && InScratch(t)
      && IsDecimal(Whole(t)) && 1 <= |Whole(t)| <= 12 && IsDecimal(Mantissa(t))
      && Value(Whole(t)) == koinu / COIN && Value(Mantissa(t)) == koinu % COIN
  {
    hide Value, Decimal, Fixed, Power, Point;
    CoinPower();
    var whole := if koinu < COIN then "0" else Decimal(koinu / COIN);
    var m := Fixed(koinu % COIN, 8);
    var t := AmountText(koinu);
    assert t == whole + ("." + m);
    ZeroValue();
    if koinu >= COIN { WholeCoins(koinu); }
    PointAt(whole, "." + m);
    assert Whole(t) == whole;
    assert t[|whole| + 1..] == m && m[..8] == m;
    assert Mantissa(t) == m;
    assert t[0] == whole[0];
  }

  lemma ZeroValue()
    ensures IsDecimal("0") && Value("0") == 0
  {
    assert DigitsIn("0") == [0];
    assert [0][..0] == [];
  }

  lemma WholeCoins(koinu: nat)
    requires COIN <= koinu && koinu / COIN < 1_000_000_000_000
    ensures 1 <= |Decimal(koinu / COIN)| <= 12
  {
    hide Power, DigitsOf;
    CoinPower();
    FourZeros();
    PowerAdd(10, 8, 4);
    DigitCount(koinu / COIN, 10, 12);
    DigitCount(koinu / COIN, 10, 0);
    assert Power(10, 0) == 1 by { NoZeros(); }
  }

  lemma NoZeros()
    ensures Power(10, 0) == 1
  {}

  /** Parsing what was printed gives the amount back, for every amount that prints. */
  lemma RoundTrip(koinu: nat)
    requires IsAmount(koinu)
    ensures InScratch(AmountText(koinu)) && ParsedAmount(AmountText(koinu)) == koinu
  {
    hide Value, Decimal, Fixed, Power, Point, Whole, Mantissa, AfterPoint, AmountText, InScratch, Rejected,
         ParsedAmount;
    AmountPieces(koinu);
    Euclid(koinu, COIN);
    ParsesExactly(AmountText(koinu));
  }

  lemma {:induction false} NoPoint(s: string)
    requires '.' !in s
    ensures Point(s) == |s|
  {
    if s != "" { NoPoint(s[1..]); }
  }

  /** Two hundred thousand million coins wrap around. */
  lemma WrapsAround()
    ensures var coins := Decimal(200_000_000_000);
      InScratch(coins) && ParsedAmount(coins) == 1553255926290448384 != 200_000_000_000 * COIN
  {
    hide Value, Power, Decimal, Point, ParsedAmount;
    var v := 200_000_000_000;
    var coins := Decimal(v);
    NoPoint(coins);
    WholeCoins(v * COIN);
    assert coins[..|coins|] == coins && Mantissa(coins) == ZeroText(8);
    assert Value(ZeroText(8)) == 0 by { ValueOfZeros(8); }
    ParsesDecimal(coins);
  }

  /** Thirteen characters for one coin parse to one koinu. */
  lemma NotMultiplied()
    ensures var coins := ZeroText(12) + "1";
      && IsDecimal(coins) && Value(coins) == 1 && Whole(coins) == coins && Mantissa(coins) == ZeroText(8)
      && !Rejected(coins) && InScratch(coins) && ParsedAmount(coins) == 1
  {
    hide Value, Power, Point, ParsedAmount, Val;
    var coins := ZeroText(12) + "1";
    NoPoint(coins);
    assert coins[..|coins|] == coins;
    ValueOfZeros(8);
    OneAfterZeros();
    ParsesDecimal(coins);
  }

  lemma OneAfterZeros()
    ensures Value(ZeroText(12) + "1") == 1
  {
    hide Val;
    var ds := DigitsIn(ZeroText(12) + "1");
    assert ds == Zeros(12) + [1];
    LeadingZeros(12, [1], 10);
    assert Val([1], 10) == 1 by { OneDigit(); }
  }

  lemma OneDigit()
    ensures Val([1], 10) == 1
  {
    assert [1][..0] == [];
  }

  /** Accepted texts that leave the scratch string: 21 digits, and 14 digits with a point. */
  lemma LeavesScratch()
    ensures var coins := ZeroText(21); !Rejected(coins) && !InScratch(coins)
    ensures var coins := ZeroText(14) + "."; !Rejected(coins) && !InScratch(coins)
  {
    hide Point;
    NoPoint(ZeroText(21));
    PointAt(ZeroText(14), ".");
  }

  lemma ValueOfZeros(n: nat)
    ensures IsDecimal(ZeroText(n)) && Value(ZeroText(n)) == 0
  {
    assert DigitsIn(ZeroText(n)) == Zeros(n);
    ValZeros(n, 10);
  }

  // ---- What the digits are worth

  /** One more digit counts once, and the digits before it ten times as much. */
  lemma ValueSnoc(s: string, c: char)
    requires IsDecimal(s) && '0' <= c <= '9'
    ensures Value("") == 0 && IsDecimal(s + [c]) && Value(s + [c]) == 10 * Value(s) + (c as int - '0' as int)
  {
    assert DigitsIn(s + [c]) == DigitsIn(s) + [c as int - '0' as int];
    assert DigitsIn(s + [c])[..|s|] == DigitsIn(s);
  }

  /** The text of an amount: whole coins without leading zeros, a point, and eight decimals,
      which together are worth the amount in hundred-millionths. */
  lemma AmountWorth(koinu: nat) returns (whole: string, decimals: string)
    ensures AmountText(koinu) == whole + "." + decimals
    ensures IsDecimal(whole) && IsDecimal(decimals) && whole != "" && |decimals| == 8
    ensures |whole| > 1 ==> whole[0] != '0'
    ensures Value(whole) * 100_000_000 + Value(decimals) == koinu
  {
    hide Value, Decimal, Fixed, Power;
    CoinPower();
    ZeroValue();
    Euclid(koinu, COIN);
    whole := if koinu < COIN then "0" else Decimal(koinu / COIN);
    decimals := Fixed(koinu % COIN, 8);
    NoLeadingZero(koinu / COIN);
  }

  lemma NoLeadingZero(v: nat)
    ensures v > 0 ==> Decimal(v) != "" && Decimal(v)[0] != '0'
  {
    ValOfDigits(v, 10);
    DecimalUnfold(v);
  }

  /** White space as isspace has it in the C locale. */
  lemma Whitespace(c: char)
    ensures IsSpace(c) <==> c == ' ' || 9 <= c as int <= 13
  {
    assert '\t' as int == 9 && '\n' as int == 10 && '\r' as int == 13;
  }

  /** The two amounts that do not print. */
  lemma Refused(koinu: Word64)
    ensures !IsAmount(koinu) <==> koinu == 18446744073709551615 || koinu == 0xFFFF_F511_543F_B600
  {}

}
