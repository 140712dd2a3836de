/** The alphabet of base58.c: the ten digits and the letters of both cases in the order of
    their codes, without the four that are easily taken for others. */
module Base58Alphabet {
  import opened Bytes
  import opened Radix
  import opened Base58

  predicate IsLetterOrDigit(c: char) { '0' <= c <= '9' || 'A' <= c <= 'Z' || 'a' <= c <= 'z' }

  /** A greater digit has a greater character. */
  lemma Ascending(d: nat, e: nat)
    requires d < e < 58
    ensures CharOf(d) < CharOf(e)
  {}

  /** Exactly these characters are no digits: with the order, that leaves one alphabet. */
  lemma Excluded(c: char)
    ensures DigitOf(c) == -1 <==> !IsLetterOrDigit(c) || c in "0OIl"
  {}

  /** The characters of any text that is written. */
  lemma Written(bin: seq<Byte>, i: nat)
    requires i < |Encoded(bin)|
    ensures IsLetterOrDigit(Encoded(bin)[i]) && Encoded(bin)[i] !in "0OIl"
  {
    hide Encoded, DigitOf, IsLetterOrDigit;
    Excluded(Encoded(bin)[i]);
  }

  lemma OneByte(b: Byte)
    requires b < 58
    ensures Encoded([b]) == [CharOf(b)]
  {
    hide CharOf, DigitOf;
    assert [b][..0] == [] && [b][1..] == [];
    assert Val([b], 256) == b;
    ConvertDigits([b], 256, 58);
    if b == 0 {
      assert Convert([b], 256, 58) == [0];
    } else {
      assert DigitsOf(b, 58) == [b];
      assert Convert([b], 256, 58) == [b];
    }
  }

  /** Of two single bytes below 58, the greater one has the greater character. */
  lemma OneByteOrder(b: Byte, c: Byte)
    requires b < c < 58
    ensures |Encoded([b])| == |Encoded([c])| == 1 && Encoded([b])[0] < Encoded([c])[0]
  {
    hide Encoded, CharOf;
    OneByte(b);
    OneByte(c);
    Ascending(b, c);
  }

  // ---- The number that a text stands for

  /** Read in base 58 the text has the value of the bytes in base 256, and it begins with as
      many '1's as there are zeros in front of the bytes. */
  lemma SameNumber(bin: seq<Byte>, z: nat)
    requires z <= |bin| && (forall i :: 0 <= i < z ==> bin[i] == 0) && (z < |bin| ==> bin[z] != 0)
    ensures Val(Digits(Encoded(bin)), 58) == Val(bin, 256)
    ensures z <= |Encoded(bin)| && (forall i :: 0 <= i < z ==> Encoded(bin)[i] == '1')
    ensures z < |Encoded(bin)| ==> Encoded(bin)[z] != '1'
  {
    hide DigitOf, CharOf;
    ZeroCount(bin, z);
    ValOfDigits(Val(bin, 256), 58);
    LeadingZeros(z, DigitsOf(Val(bin, 256), 58), 58);
    assert Digits(Encoded(bin)) == Convert(bin, 256, 58);
    OnlyZero();
  }

  lemma {:induction false} ZeroCount(bin: seq<Byte>, z: nat)
    requires z <= |bin| && (forall i :: 0 <= i < z ==> bin[i] == 0) && (z < |bin| ==> bin[z] != 0)
    ensures LeadingZeroCount(bin) == z
  {
    if z > 0 { ZeroCount(bin[1..], z - 1); }
  }

  lemma OnlyZero()
    ensures CharOf(0) == '1' && forall d: nat :: 0 < d < 58 ==> CharOf(d) != '1'
  {}

  /** The digits weigh by their places, the first one most. */
  lemma Weights(d: nat, ds: seq<nat>)
    ensures Val([d] + ds, 256) == d * Power(256, |ds|) + Val(ds, 256)
    ensures Val([d] + ds, 58) == d * Power(58, |ds|) + Val(ds, 58)
    ensures Val([d] + ds, 10) == d * Power(10, |ds|) + Val(ds, 10)
  {
    ValCons(d, ds, 256);
    ValCons(d, ds, 58);
    ValCons(d, ds, 10);
  }
}
