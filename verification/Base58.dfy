/** The base-58 text form of byte strings (base58.c): what the encoder and the
    decoder compute, and why they undo each other. */
module Base58 {
  import opened Arith
  import opened Radix
  import opened Bytes

  // ---- The alphabet

  /** b58digits_map: the digit a character stands for, or -1. */
  function DigitOf(c: char): (d: int)
    ensures -1 <= d < 58
  {
    if '1' <= c <= '9' then c as int - '1' as int
    else if 'A' <= c <= 'H' then c as int - 'A' as int + 9
    else if 'J' <= c <= 'N' then c as int - 'J' as int + 17
    else if 'P' <= c <= 'Z' then c as int - 'P' as int + 22
    else if 'a' <= c <= 'k' then c as int - 'a' as int + 33
    else if 'm' <= c <= 'z' then c as int - 'm' as int + 44
    else -1
  }

  /** b58digits_ordered: the character of a digit. */
  function CharOf(d: nat): (c: char)
    requires d < 58
    ensures DigitOf(c) == d
  {
    if d < 9 then (d + '1' as int) as char
    else if d < 17 then (d - 9 + 'A' as int) as char
    else if d < 22 then (d - 17 + 'J' as int) as char
    else if d < 33 then (d - 22 + 'P' as int) as char
    else if d < 44 then (d - 33 + 'a' as int) as char
    else (d - 44 + 'm' as int) as char
  }

  lemma CharOfDigit(c: char)
    requires DigitOf(c) != -1
    ensures CharOf(DigitOf(c)) == c
  {}

  predicate IsText(s: string) { forall i :: 0 <= i < |s| ==> DigitOf(s[i]) != -1 }

  function Digits(s: string): (ds: seq<nat>)
    requires IsText(s)
    ensures |ds| == |s| && IsDigits(ds, 58)
  {
    seq(|s|, i requires 0 <= i < |s| => DigitOf(s[i]))
  }

  function Text(ds: seq<nat>): (s: string)
    requires IsDigits(ds, 58)
    ensures |s| == |ds| && IsText(s) && Digits(s) == ds
  {
    seq(|ds|, i requires 0 <= i < |ds| => CharOf(ds[i]))
  }

  lemma TextOfDigits(s: string)
    requires IsText(s)
    ensures Text(Digits(s)) == s
  {
    forall i | 0 <= i < |s| ensures Text(Digits(s))[i] == s[i] { CharOfDigit(s[i]); }
  }

  // ---- The two translations

  function LeadingZeroCount(ds: seq<nat>): (z: nat)
    ensures z <= |ds| && ds[..z] == Zeros(z) && IsCanonical(ds[z..])
  {
    if ds == [] || ds[0] != 0 then 0
    else
      var z := 1 + LeadingZeroCount(ds[1..]);
      assert ds == [0] + ds[1..];
      assert ds[..z] == [0] + ds[1..][..z - 1];
      assert ds[1..][z - 1..] == ds[z..];
      z
  }

  /** Another base for the same number, the leading zeros carried over one for one. */
  function Convert(ds: seq<nat>, from: nat, to: nat): seq<nat>
    requires to >= 2
  {
    Zeros(LeadingZeroCount(ds)) + DigitsOf(Val(ds, from), to)
  }

  lemma ConvertDigits(ds: seq<nat>, from: nat, to: nat)
    requires to >= 2
    ensures IsDigits(Convert(ds, from, to), to)
  {
    ValOfDigits(Val(ds, from), to);
  }

  lemma {:induction false} CountZeros(n: nat, ds: seq<nat>)
    requires IsCanonical(ds)
    ensures LeadingZeroCount(Zeros(n) + ds) == n
  {
    if n > 0 {
      assert (Zeros(n) + ds)[1..] == Zeros(n - 1) + ds;
      CountZeros(n - 1, ds);
    }
  }

  lemma SplitZeros(ds: seq<nat>, b: nat)
    ensures var z := LeadingZeroCount(ds);
      ds == Zeros(z) + ds[z..] && Val(ds, b) == Val(ds[z..], b)
  {
    var z := LeadingZeroCount(ds);
    assert ds == ds[..z] + ds[z..];
    LeadingZeros(z, ds[z..], b);
  }

  /** Converting there and back gives the same digits, leading zeros included. */
  lemma ConvertBack(ds: seq<nat>, from: nat, to: nat)
    requires from >= 2 && to >= 2 && IsDigits(ds, from)
    ensures Convert(Convert(ds, from, to), to, from) == ds
  {
    var z, v := LeadingZeroCount(ds), Val(ds, from);
    var es := DigitsOf(v, to);
    ValOfDigits(v, to);
    CountZeros(z, es);
    LeadingZeros(z, es, to);
    SplitZeros(ds, from);
    DigitsOfVal(ds[z..], from);
  }

  function Encoded(bin: seq<Byte>): (s: string)
    ensures IsText(s)
  {
    ConvertDigits(bin, 256, 58);
    Text(Convert(bin, 256, 58))
  }

  function Decoded(s: string): (bin: seq<Byte>)
    requires IsText(s)
  {
    ConvertDigits(Digits(s), 58, 256);
    AsBytes(Convert(Digits(s), 58, 256))
  }

  function AsBytes(ds: seq<nat>): (bin: seq<Byte>)
    requires IsDigits(ds, 256)
    ensures bin == ds
  {
    seq(|ds|, i requires 0 <= i < |ds| => ds[i])
  }

  lemma DecodedEncoded(bin: seq<Byte>)
    ensures Decoded(Encoded(bin)) == bin
  {
    ConvertBack(bin, 256, 58);
  }

  lemma EncodedDecoded(s: string)
    requires IsText(s)
    ensures Encoded(Decoded(s)) == s
  {
    ConvertBack(Digits(s), 58, 256);
    TextOfDigits(s);
  }

  // ---- Which strings the decoder's limbs can hold

  /** The decoder keeps its number in the limbs behind limb 0, which it never uses. */
  function LimbCount(binsz: nat): nat { (binsz + 3) / 4 }

  predicate Holdable(s: string, binsz: nat)
    requires IsText(s)
  {
    && binsz > 0
    && Val(Digits(s), 58) < Power(0x1_0000_0000, LimbCount(binsz) - 1)
    && |Decoded(s)| <= binsz
  }

  lemma {:induction false} PowerBase(x: nat, y: nat, n: nat)
    requires x <= y
    ensures Power(x, n) <= Power(y, n)
  {
    if n > 0 {
      PowerBase(x, y, n - 1);
      MulMono(x, y, Power(x, n - 1));
      MulMono(Power(x, n - 1), Power(y, n - 1), y);
    }
  }

  lemma {:induction false} PowerPower(b: nat, m: nat, n: nat)
    ensures Power(Power(b, m), n) == Power(b, m * n)
  {
    if n == 0 {
      assert m * n == 0;
    } else {
      PowerPower(b, m, n - 1);
      assert m * n == m + m * (n - 1);
      PowerAdd(b, m, m * (n - 1));
    }
  }

  /** 58^(4q+4) <= 256^(4q) from q = 3 on. */
  lemma {:induction false} LimbRoom(q: nat)
    requires q >= 3
    ensures Power(58, 4 * q + 4) <= Power(0x1_0000_0000, q)
  {
    var B := 0x1_0000_0000;
    if q == 3 {
      assert Power(58, 4) == 11316496;
      PowerPower(58, 4, 4);
      assert Power(11316496, 4) == 11316496 * (11316496 * (11316496 * 11316496));
      assert Power(B, 3) == B * (B * B);
    } else {
      LimbRoom(q - 1);
      assert Power(58, 4) == 11316496;
      PowerAdd(58, 4, 4 * q);
      MulMono(11316496, B, Power(58, 4 * q));
      MulMono(Power(58, 4 * q), Power(B, q - 1), B);
    }
  }

  lemma {:induction false} LargestText(n: nat)
    ensures IsText(seq(n, _ => 'z')) && Val(Digits(seq(n, _ => 'z')), 58) + 1 == Power(58, n)
  {
    var s := seq(n, _ => 'z');
    if n > 0 {
      LargestText(n - 1);
      var p := seq(n - 1, _ => 'z');
      assert Digits(s)[..n - 1] == Digits(p);
      assert Digits(s)[n - 1] == 57;
    }
  }

  /** With binsz equal to the text's length, decoding reaches every text of that length
      exactly for lengths 5, 9, 10 and from 13 on: limb 0 stays unused. */
  predicate RoomyLength(n: nat) { n == 5 || n == 9 || n == 10 || n >= 13 }

  lemma DecodedLength(s: string)
    requires IsText(s)
    ensures |Decoded(s)| <= |s|
  {
    var ds := Digits(s);
    var z := LeadingZeroCount(ds);
    SplitZeros(ds, 58);
    ValBound(ds[z..], 58);
    PowerBase(58, 256, |ds| - z);
    DigitCount(Val(ds, 58), 256, |ds| - z);
  }

  lemma RoomyHoldable(s: string)
    requires IsText(s) && RoomyLength(|s|)
    ensures Holdable(s, |s|)
  {
    var n := |s|;
    DecodedLength(s);
    ValBound(Digits(s), 58);
    var q := LimbCount(n) - 1;
    if n >= 13 {
      PowerMono(58, n, 4 * q + 4);
      LimbRoom(q);
    } else {
      SmallPowers(n);
    }
  }

  lemma SmallPowers(n: nat)
    requires 0 < n < 13
    ensures Power(58, n) <= Power(0x1_0000_0000, LimbCount(n) - 1) <==> RoomyLength(n)
  {
    var B := 0x1_0000_0000;
    assert Power(B, 0) == 1 && Power(B, 1) == B && Power(B, 2) == B * B;
    PowerPositive(58, 0);
    if n <= 4 {
      PowerMono(58, 1, n);
      assert Power(58, 1) == 58;
    } else if n <= 5 {
      assert Power(58, 5) == 656356768;
    } else if n <= 8 {
      PowerMono(58, 6, n);
      assert Power(58, 6) == 38068692544;
    } else if n <= 10 {
      PowerMono(58, n, 10);
      assert Power(58, 10) == 430804206899405824;
    } else {
      PowerMono(58, 11, n);
      assert Power(58, 11) == 24986644000165537792;
    }
  }

  /** Exactly the lengths whose every text can be decoded into as many bytes. */
  lemma RoomyExactly(n: nat)
    ensures RoomyLength(n) <==> forall s: string :: |s| == n && IsText(s) ==> Holdable(s, n)
  {
    if RoomyLength(n) {
      forall s: string | |s| == n && IsText(s) ensures Holdable(s, n) { RoomyHoldable(s); }
    } else {
      var s := seq(n, _ => 'z');
      LargestText(n);
      if n > 0 { SmallPowers(n); }
      assert |s| == n && IsText(s) && !Holdable(s, n);
    }
  }

  /** Four bytes hold what "zzzz" stands for, and yet the decoder turns it down. */
  lemma ZzzzTurnedDown()
    ensures IsText("zzzz") && |Decoded("zzzz")| <= 4 && !Holdable("zzzz", 4)
  {
    hide Decoded, Digits, Val;
    assert "zzzz" == seq(4, _ => 'z');
    LargestText(4);
    DecodedLength("zzzz");
    assert Power(58, 4) == 11316496 && Power(0x1_0000_0000, 0) == 1;
  }

}
