/** The two loops of base58.c: base-58 digits with a high-water mark, and 32-bit limbs. */
module Base58Codec {
  import opened Bytes
  import opened Arith
  import opened Radix
  import opened Base58

  // ---- One digit of a carry loop

  /** The suffix from j + 1 on is multiplied by m and increased by a, up to the carry c;
      one more digit moves j down by one. */
  lemma CarryStep(ds: seq<nat>, es: seq<nat>, j: nat, b: nat, m: nat, a: nat, c: nat, t: nat)
    requires |ds| == |es| && j < |ds| && b > 0
    requires Val(es[j + 1..], b) + c * Power(b, |ds| - 1 - j) == m * Val(ds[j + 1..], b) + a
    requires t == c + m * ds[j] && es[j] == t % b
    ensures Val(es[j..], b) + (t / b) * Power(b, |ds| - j) == m * Val(ds[j..], b) + a
  {
    hide *;
    var k := |ds| - 1 - j;
    var P, q := Power(b, k), t / b;
    SuffixCons(ds, j, b);
    SuffixCons(es, j, b);
    PowerStep(b, k);
    Euclid(t, b);
    CarryAlgebra(q, b, t, es[j], c, m, ds[j], P, Power(b, |ds| - j), Val(ds[j + 1..], b), Val(es[j + 1..], b),
                 Val(ds[j..], b), Val(es[j..], b), a);
  }

  lemma SuffixCons(ds: seq<nat>, j: nat, b: nat)
    requires j < |ds|
    ensures Val(ds[j..], b) == ds[j] * Power(b, |ds| - 1 - j) + Val(ds[j + 1..], b)
  {
    assert ds[j..] == [ds[j]] + ds[j + 1..];
    ValCons(ds[j], ds[j + 1..], b);
  }

  lemma CarryAlgebra(q: int, b: int, t: int, e: int, c: int, m: int, d: int, P: int, P': int, v: int, w: int,
                     v': int, w': int, a: int)
    requires t == q * b + e && t == c + m * d && w + c * P == m * v + a
    requires P' == b * P && v' == d * P + v && w' == e * P + w
    ensures w' + q * P' == m * v' + a
  {
    Assoc(q, b, P);
    Distribute(q * b, e, P);
    Distribute(c, m * d, P);
    Assoc(m, d, P);
    Distribute(d * P, v, m);
  }

  lemma SuffixValue(ds: seq<nat>, j: nat, b: nat)
    requires j <= |ds| && ds[..j] == Zeros(j)
    ensures Val(ds[j..], b) == Val(ds, b)
  {
    assert ds == Zeros(j) + ds[j..];
    LeadingZeros(j, ds[j..], b);
  }

  lemma NoCarry(v: nat, c: nat, P: nat)
    requires v + c * P < P
    ensures c == 0
  {
    if c > 0 { MulMono(1, c, P); }
  }

  // ---- Encoding

  /** The inner loop of dogecoin_base58_encode: multiply by 256 and add a byte.
      Digits up to high are known to be zero and are skipped; j is the next high. */
  method PushByte(buf: array<nat>, high: nat, byte: Byte) returns (j: nat)
    requires high < buf.Length && IsDigits(buf[..], 58)
    requires forall k :: 0 <= k <= high ==> buf[k] == 0
    requires 256 * Val(buf[..], 58) + byte < Power(58, buf.Length)
    modifies buf
    ensures IsDigits(buf[..], 58) && j < buf.Length
    ensures Val(buf[..], 58) == 256 * old(Val(buf[..], 58)) + byte
    ensures Val(buf[..], 58) < Power(58, buf.Length - 1) ==> forall k :: 0 <= k <= j ==> buf[k] == 0
  {
    hide Val, Power;
    var n := buf.Length;
    ghost var was := buf[..];
    var carry: nat := byte;
    j := n - 1;
    assert was[n..] == [] == buf[n..];
    PowerZero(58);
    ValNil(58);
    while j > high || carry != 0
      invariant j < n && carry < 256
      invariant IsDigits(buf[..], 58)
      invariant buf[..j + 1] == was[..j + 1]
      invariant Val(buf[j + 1..], 58) + carry * Power(58, n - 1 - j) == 256 * Val(was[j + 1..], 58) + byte
      decreases j
    {
      var t := carry + 256 * buf[j];
      assert buf[j] == was[j];
      ghost var tail := buf[j + 1..];
      buf[j] := t % 58;
      ghost var now := buf[..];
      assert now[j + 1..] == tail;
      CarryStep(was, now, j, 58, 256, byte, carry, t);
      carry := t / 58;
      assert buf[j..] == now[j..];
      if j == 0 {
        assert buf[0..] == buf[..];
        assert was[0..] == was;
        NoCarry(Val(now, 58), carry, Power(58, n));
        HighDigit(now, 58);
        return;
      }
      assert buf[..j] == was[..j];
      j := j - 1;
    }
    assert was[..j + 1] == Zeros(j + 1);
    SuffixValue(was, j + 1, 58);
    SuffixValue(buf[..], j + 1, 58);
    assert buf[..][j + 1..] == buf[j + 1..];
    assert forall k :: 0 <= k <= j ==> buf[k] == buf[..j + 1][k];
  }

  lemma PowerZero(b: nat) ensures Power(b, 0) == 1 {}

  lemma ValNil(b: nat) ensures Val([], b) == 0 {}

  /** A number below b^(n-1) leaves the highest of n digits zero. */
  lemma HighDigit(ds: seq<nat>, b: nat)
    requires b > 0 && ds != []
    ensures Val(ds, b) < Power(b, |ds| - 1) ==> ds[0] == 0
  {
    assert ds == [ds[0]] + ds[1..];
    ValCons(ds[0], ds[1..], b);
    if ds[0] > 0 { MulMono(1, ds[0], Power(b, |ds| - 1)); }
  }

  /** 256^m <= 58^s whenever 11m <= 8s, because 256^8 <= 58^11. */
  lemma DigitRoom(m: nat, s: nat)
    requires 11 * m <= 8 * s
    ensures Power(256, m) <= Power(58, s)
  {
    EightBytes();
    RootRoom(256, 8, 58, 11, m, s);
  }

  lemma PowerSwap(b: nat, m: nat, n: nat)
    ensures Power(Power(b, m), n) == Power(Power(b, n), m)
  {
    PowerPower(b, m, n);
    PowerPower(b, n, m);
    assert m * n == n * m;
  }

  /** If a^e <= c^f then a^m <= c^s whenever f*m <= e*s. */
  lemma RootRoom(a: nat, e: nat, c: nat, f: nat, m: nat, s: nat)
    requires c > 0 && e > 0 && Power(a, e) <= Power(c, f) && f * m <= e * s
    ensures Power(a, m) <= Power(c, s)
  {
    hide Power;
    Powers(a, e, c, f, m, s);
    NoRootAbove(Power(a, m), Power(c, s), e);
  }

  lemma NoRootAbove(x: nat, y: nat, n: nat)
    requires n > 0 && Power(x, n) <= Power(y, n)
    ensures x <= y
  {
    hide Power;
    if x > y > 0 { StrictPower(y, x, n); }
    if x > y == 0 {
      PowerPositive(x, n);
      PowerOfZero(n);
    }
  }

  lemma PowerOfZero(n: nat)
    requires n > 0
    ensures Power(0, n) == 0
  {}

  lemma Powers(a: nat, e: nat, c: nat, f: nat, m: nat, s: nat)
    requires c > 0 && Power(a, e) <= Power(c, f) && f * m <= e * s
    ensures Power(Power(a, m), e) <= Power(Power(c, s), e)
  {
    hide Power;
    PowerSwap(a, m, e);
    PowerBase(Power(a, e), Power(c, f), m);
    ExponentMono(c, f, m, e, s);
    PowerSwap(c, s, e);
  }

  lemma ExponentMono(c: nat, f: nat, m: nat, e: nat, s: nat)
    requires c > 0 && f * m <= e * s
    ensures Power(Power(c, f), m) <= Power(Power(c, e), s)
  {
    hide Power;
    PowerPower(c, f, m);
    PowerPower(c, e, s);
    PowerMono(c, f * m, e * s);
  }

  lemma EightBytes()
    ensures Power(256, 8) <= Power(58, 11)
  {
    assert Power(256, 8) == 0x1_0000_0000_0000_0000;
    assert Power(58, 11) == 24986644000165537792;
  }

  lemma {:induction false} StrictPower(x: nat, y: nat, n: nat)
    requires 0 < x < y && n > 0
    ensures Power(x, n) < Power(y, n)
  {
    if n == 1 {
      assert Power(x, 0) == Power(y, 0) == 1;
    } else {
      StrictPower(x, y, n - 1);
      PowerPositive(y, n - 1);
      MulMono(x, y, Power(x, n - 1));
      MulMono(Power(x, n - 1) + 1, Power(y, n - 1), y);
      Distribute(Power(x, n - 1), 1, y);
    }
  }

  /** The buffer of m * 138 / 100 + 1 digits holds m bytes, and all but its first
      digit hold m - 1 bytes: index 0 is reached on the last byte at the earliest. */
  lemma BufferRoom(m: nat)
    ensures Power(256, m) <= Power(58, m * 138 / 100 + 1)
    ensures m > 0 ==> Power(256, m - 1) <= Power(58, m * 138 / 100)
  {
    DigitRoom(m, m * 138 / 100 + 1);
    if m > 0 { DigitRoom(m - 1, m * 138 / 100); }
  }

  /** The value of a prefix that starts with z zeros. */
  lemma PrefixBound(bin: seq<Byte>, z: nat, i: nat)
    requires z <= i <= |bin| && forall k :: 0 <= k < z ==> bin[k] == 0
    ensures Val(bin[..i], 256) < Power(256, i - z)
  {
    var p := bin[..i];
    assert p[..z] == Zeros(z);
    SuffixValue(p, z, 256);
    ValBound(p[z..], 256);
  }

  lemma NextByte(bin: seq<Byte>, i: nat)
    requires i < |bin|
    ensures Val(bin[..i + 1], 256) == 256 * Val(bin[..i], 256) + bin[i]
  {
    assert bin[..i + 1][..i] == bin[..i];
  }

  /** The outer loop: the digits of the number behind z leading zero bytes. */
  method EncodeDigits(bin: seq<Byte>, z: nat) returns (buf: array<nat>)
    requires z <= |bin| && forall k :: 0 <= k < z ==> bin[k] == 0
    ensures fresh(buf) && IsDigits(buf[..], 58) && Val(buf[..], 58) == Val(bin, 256)
  {
    hide Val, Power;
    var size := (|bin| - z) * 138 / 100 + 1;
    BufferRoom(|bin| - z);
    buf := new nat[size](_ => 0);
    assert buf[..] == Zeros(size);
    ValZeros(size, 58);
    PrefixBound(bin, z, z);
    PowerZero(256);
    var high := size - 1;
    for i := z to |bin|
      invariant IsDigits(buf[..], 58) && 0 <= high < size
      invariant Val(buf[..], 58) == Val(bin[..i], 256)
      invariant i < |bin| ==> forall k :: 0 <= k <= high ==> buf[k] == 0
    {
      NextByte(bin, i);
      PrefixBound(bin, z, i + 1);
      PowerMono(256, i + 1 - z, |bin| - z);
      high := PushByte(buf, high, bin[i]);
      if i + 1 < |bin| {
        PowerMono(256, i + 1 - z, |bin| - z - 1);
      }
    }
    assert bin[..|bin|] == bin;
  }

  /** dogecoin_base58_encode. The caller's buffer has room for b58sz characters; the
      text and its terminator are written only if they fit, and size is always what
      they need. */
  method Encode(b58: array<char>, b58sz: nat, bin: seq<Byte>) returns (ok: bool, size: nat)
    requires b58sz <= b58.Length
    modifies b58
    ensures ok <==> |Encoded(bin)| < b58sz
    ensures size == |Encoded(bin)| + 1
    ensures ok ==> b58[..] == Encoded(bin) + ['\0'] + old(b58[..])[size..]
    ensures !ok ==> b58[..] == old(b58[..])
  {
    hide Val, Power, DigitsOf, DigitOf, CharOf;
    var zcount := 0;
    while zcount < |bin| && bin[zcount] == 0
      invariant zcount <= |bin| && forall k :: 0 <= k < zcount ==> bin[k] == 0
    {
      zcount := zcount + 1;
    }
    var buf := EncodeDigits(bin, zcount);
    var n, j := buf.Length, 0;
    while j < n && buf[j] == 0
      invariant j <= n && forall k :: 0 <= k < j ==> buf[k] == 0
    {
      j := j + 1;
    }
    DigitsFound(bin, zcount, buf[..], j);
    assert buf[j..] == buf[..][j..];
    size := zcount + n - j + 1;
    ok := b58sz > zcount + n - j;
    if !ok { return; }
    WriteText(b58, zcount, buf, j, bin);
  }

  /** A '1' for each leading zero byte, then the digits from j on, then the terminator. */
  method WriteText(b58: array<char>, zcount: nat, buf: array<nat>, start: nat, ghost bin: seq<Byte>)
    requires start <= buf.Length && zcount + buf.Length - start < b58.Length
    requires IsDigits(buf[..], 58) && Convert(bin, 256, 58) == Zeros(zcount) + buf[start..]
    modifies b58
    ensures var n := zcount + buf.Length - start + 1;
      b58[..] == Encoded(bin) + ['\0'] + old(b58[..])[n..]
  {
    hide Val, Power, DigitsOf, DigitOf, CharOf, Convert, Encoded;
    ghost var was := b58[..];
    var i := 0;
    while i < zcount
      invariant i <= zcount
      invariant forall k :: 0 <= k < i ==> b58[k] == '1'
      invariant b58[i..] == was[i..]
    {
      b58[i] := '1';
      i := i + 1;
    }
    var j := start;
    while j < buf.Length
      invariant start <= j <= buf.Length && i == zcount + j - start
      invariant forall k :: 0 <= k < zcount ==> b58[k] == '1'
      invariant forall k :: start <= k < j ==> b58[zcount + k - start] == CharOf(buf[k])
      invariant b58[i..] == was[i..]
    {
      b58[i] := CharOf(buf[j]);
      i, j := i + 1, j + 1;
    }
    EncodedIs(bin, b58[..i], zcount, buf[start..]);
    b58[i] := '\0';
    assert b58[..] == b58[..i] + ['\0'] + b58[i + 1..];
  }

  lemma DigitsFound(bin: seq<Byte>, z: nat, ds: seq<nat>, j: nat)
    requires z <= |bin| && (forall k :: 0 <= k < z ==> bin[k] == 0) && (z < |bin| ==> bin[z] != 0)
    requires j <= |ds| && (forall k :: 0 <= k < j ==> ds[k] == 0) && (j < |ds| ==> ds[j] != 0)
    requires IsDigits(ds, 58) && Val(ds, 58) == Val(bin, 256)
    ensures Convert(bin, 256, 58) == Zeros(z) + ds[j..]
  {
    assert bin == Zeros(z) + bin[z..];
    CountZeros(z, bin[z..]);
    assert ds[..j] == Zeros(j);
    SuffixValue(ds, j, 58);
    DigitsOfVal(ds[j..], 58);
  }

  lemma EncodedIs(bin: seq<Byte>, s: string, z: nat, ds: seq<nat>)
    requires Convert(bin, 256, 58) == Zeros(z) + ds && IsDigits(ds, 58)
    requires |s| == z + |ds|
    requires forall k :: 0 <= k < z ==> s[k] == '1'
    requires forall k :: 0 <= k < |ds| ==> s[z + k] == CharOf(ds[k])
    ensures s == Encoded(bin)
  {
    hide Convert, DigitsOf, Val, DigitOf;
    assert CharOf(0) == '1';
    var e := Convert(bin, 256, 58);
    ConvertDigits(bin, 256, 58);
    forall k | 0 <= k < |s| ensures s[k] == CharOf(e[k]) {
      if k >= z { assert e[k] == ds[k - z] && s[z + (k - z)] == CharOf(ds[k - z]); }
    }
  }

  // ---- Decoding

  const LIMB: nat := 0x1_0000_0000

  /** The inner loop of dogecoin_base58_decode: multiply limbs 1.. by 58 and add a digit. */
  method PushDigit(outi: array<nat>, d: nat) returns (c: nat)
    requires outi.Length > 0 && IsDigits(outi[..], LIMB) && outi[0] == 0 && d < 58
    modifies outi
    ensures IsDigits(outi[..], LIMB) && outi[0] == 0
    ensures Val(outi[..], LIMB) + c * Power(LIMB, outi.Length - 1) == 58 * old(Val(outi[..], LIMB)) + d
  {
    hide Val, Power;
    var n := outi.Length;
    ghost var was := outi[..];
    c := d;
    var j := n - 1;
    assert was[n..] == [] == outi[n..];
    PowerZero(LIMB);
    ValNil(LIMB);
    while j != 0
      invariant 0 <= j < n && c < 59
      invariant IsDigits(outi[..], LIMB)
      invariant outi[..j + 1] == was[..j + 1]
      invariant Val(outi[j + 1..], LIMB) + c * Power(LIMB, n - 1 - j) == 58 * Val(was[j + 1..], LIMB) + d
    {
      assert outi[j] == was[j];
      var t := outi[j] * 58 + c;
      ghost var tail := outi[j + 1..];
      outi[j] := t % LIMB;
      ghost var now := outi[..];
      assert now[j + 1..] == tail;
      CarryStep(was, now, j, LIMB, 58, d, c, t);
      c := t / LIMB;
      assert outi[j..] == now[j..];
      assert outi[..j] == was[..j];
      j := j - 1;
    }
    assert was[..1] == Zeros(1);
    assert outi[0] == outi[..1][0];
    SuffixValue(was, 1, LIMB);
    SuffixValue(outi[..], 1, LIMB);
    assert outi[..][1..] == outi[1..];
  }

  lemma {:induction false} PrefixValue(ds: seq<nat>, i: nat, b: nat)
    requires i <= |ds| && b > 0
    ensures Val(ds[..i], b) <= Val(ds, b)
    decreases |ds|
  {
    if i == |ds| {
      assert ds[..i] == ds;
    } else {
      var p := ds[..|ds| - 1];
      PrefixValue(p, i, b);
      assert p[..i] == ds[..i];
      MulMono(1, b, Val(p, b));
    }
  }

  lemma NextDigit(s: string, i: nat)
    requires i < |s| && IsText(s[..i]) && DigitOf(s[i]) != -1
    ensures IsText(s[..i + 1])
    ensures Val(Digits(s[..i + 1]), 58) == 58 * Val(Digits(s[..i]), 58) + DigitOf(s[i])
  {
    hide DigitOf;
    assert s[..i + 1] == s[..i] + [s[i]];
    assert Digits(s[..i + 1])[..i] == Digits(s[..i]);
  }

  /** A prefix that does not fit behind limb 0 rules out the whole text. */
  lemma TooLarge(s: string, i: nat, binsz: nat)
    requires i <= |s| && IsText(s[..i])
    requires binsz > 0 && Val(Digits(s[..i]), 58) >= Power(LIMB, LimbCount(binsz) - 1)
    ensures !(IsText(s) && Holdable(s, binsz))
  {
    if IsText(s) {
      assert Digits(s)[..i] == Digits(s[..i]);
      PrefixValue(Digits(s), i, 58);
    }
  }

  /** The loops over the text: the number it stands for, in the limbs behind limb 0. */
  method ReadText(b58: string, binsz: nat, zerocount: nat, outi: array<nat>) returns (ok: bool)
    requires binsz > 0 && outi.Length == LimbCount(binsz) && outi[..] == Zeros(outi.Length)
    requires zerocount <= |b58| && forall k :: 0 <= k < zerocount ==> b58[k] == '1'
    modifies outi
    ensures ok ==> IsText(b58) && IsDigits(outi[..], LIMB) && outi[0] == 0
    ensures ok ==> Val(outi[..], LIMB) == Val(Digits(b58), 58) < Power(LIMB, outi.Length - 1)
    ensures !ok ==> !(IsText(b58) && Holdable(b58, binsz))
  {
    hide Val, Power, Holdable, DigitOf;
    ValZeros(outi.Length, LIMB);
    OnesAreZeros(b58, zerocount);
    ValZeros(zerocount, 58);
    var bytesleft := binsz % 4;
    for i := zerocount to |b58|
      invariant IsText(b58[..i]) && IsDigits(outi[..], LIMB) && outi[0] == 0
      invariant Val(outi[..], LIMB) == Val(Digits(b58[..i]), 58)
    {
      if HighBit(b58[i]) || DigitOf(b58[i]) == -1 {
        HighBitInvalid(b58[i]);
        return false;
      }
      NextDigit(b58, i);
      var c := PushDigit(outi, DigitOf(b58[i]));
      PowerPositive(256, bytesleft);
      DivModUnique(Power(256, bytesleft), 0, 0);
      // The second test looks for bits of limb 0 above its bytesleft bytes.
      if c != 0 || (bytesleft != 0 && outi[0] / Power(256, bytesleft) != 0) {
        MulMono(1, c, Power(LIMB, outi.Length - 1));
        TooLarge(b58, i + 1, binsz);
        return false;
      }
      assert 0 * Power(LIMB, outi.Length - 1) == 0;
    }
    assert b58[..|b58|] == b58;
    SuffixBound(outi[..]);
    return true;
  }

  predicate HighBit(c: char) { c as int >= 0x80 }

  lemma HighBitInvalid(c: char)
    ensures HighBit(c) ==> DigitOf(c) == -1
  {}

  lemma OnesAreZeros(s: string, z: nat)
    requires z <= |s| && forall k :: 0 <= k < z ==> s[k] == '1'
    ensures IsText(s[..z]) && Digits(s[..z]) == Zeros(z)
  {}

  lemma SuffixBound(ds: seq<nat>)
    requires ds != [] && ds[0] == 0 && IsDigits(ds, LIMB)
    ensures Val(ds, LIMB) < Power(LIMB, |ds| - 1)
  {
    assert ds[..1] == Zeros(1);
    SuffixValue(ds, 1, LIMB);
    ValBound(ds[1..], LIMB);
  }

  /** The count low bytes of a limb, the highest first. */
  method PutLimb(bin: array<Byte>, u: nat, limb: nat, count: nat)
    requires u + count <= bin.Length && limb < Power(256, count)
    modifies bin
    ensures bin[..u] == old(bin[..u]) && bin[u + count..] == old(bin[u + count..])
    ensures Val(bin[..u + count], 256) == Val(bin[..u], 256) * Power(256, count) + limb
  {
    hide Val, Power;
    ghost var was := bin[..];
    var i := count;
    SmallQuotient(limb, Power(256, count));
    ValNil(256);
    assert bin[u..u + count - i] == [];
    while i > 0
      invariant 0 <= i <= count
      invariant bin[..u] == was[..u] && bin[u + count..] == was[u + count..]
      invariant Power(256, i) > 0
      invariant Val(bin[u..u + count - i], 256) == limb / Power(256, i)
    {
      var k := u + count - i;
      ghost var head := bin[u..k];
      PowerPositive(256, i - 1);
      PowerStep(256, i - 1);
      DivDiv(limb, Power(256, i - 1), 256);
      bin[k] := limb / Power(256, i - 1) % 256;
      assert bin[u..k + 1] == head + [bin[k]];
      ValSnoc(head, bin[k], 256);
      i := i - 1;
    }
    PowerZero(256);
    assert bin[..u + count] == bin[..u] + bin[u..u + count];
    ValAppend(bin[..u], bin[u..u + count], 256);
  }

  lemma SmallQuotient(x: nat, n: nat)
    requires x < n
    ensures x / n == 0
  {
    DivModUnique(n, 0, x);
  }

  lemma ValSnoc(ds: seq<nat>, d: nat, b: nat)
    ensures Val(ds + [d], b) == Val(ds, b) * b + d
  {
    assert (ds + [d])[..|ds|] == ds;
  }

  /** The first u bytes are the first j limbs. */
  ghost predicate Laid(outi: array<nat>, bin: array<Byte>, j: nat, u: nat)
    reads outi, bin
  {
    j <= outi.Length && u <= bin.Length && Val(bin[..u], 256) == Val(outi[..j], LIMB)
  }

  /** One limb of four bytes. */
  method LayLimb(outi: array<nat>, bin: array<Byte>, j: nat, u: nat)
    requires Laid(outi, bin, j, u) && j < outi.Length && u + 4 <= bin.Length && outi[j] < LIMB
    modifies bin
    ensures Laid(outi, bin, j + 1, u + 4) && bin[u + 4..] == old(bin[u + 4..])
  {
    hide Val, Power;
    PowerLimb();
    PutLimb(bin, u, outi[j], 4);
    ValSnoc(outi[..j], outi[j], LIMB);
    assert outi[..j + 1] == outi[..j] + [outi[j]];
  }

  /** The short limb in front: limb 0, which is zero, in fewer than four bytes. */
  method LayFirst(outi: array<nat>, bin: array<Byte>, bytesleft: nat)
    requires 0 < bytesleft < 4 && bytesleft <= bin.Length && outi.Length > 0 && outi[0] == 0
    modifies bin
    ensures Laid(outi, bin, 1, bytesleft) && bin[bytesleft..] == old(bin[bytesleft..])
  {
    hide Val, Power;
    ValNil(256);
    ValNil(LIMB);
    PowerPositive(256, bytesleft);
    assert bin[..0] == [];
    PutLimb(bin, 0, outi[0], bytesleft);
    ValSnoc([], 0, LIMB);
    assert outi[..1] == [] + [0];
  }

  lemma LimbBytes(binsz: nat)
    requires binsz > 0
    ensures LimbCount(binsz) > 0
    ensures 4 * LimbCount(binsz) == binsz + if binsz % 4 == 0 then 0 else 4 - binsz % 4
  {}

  lemma NothingLaid(outi: array<nat>, bin: array<Byte>)
    ensures Laid(outi, bin, 0, 0)
  {
    assert outi[..0] == [] && bin[..0] == [];
  }

  lemma AllLaid(outi: array<nat>, bin: array<Byte>, u: nat)
    requires Laid(outi, bin, outi.Length, u)
    ensures u <= bin.Length && Val(bin[..u], 256) == Val(outi[..], LIMB)
  {
    hide Val;
    assert outi[..outi.Length] == outi[..];
  }

  lemma LimbsBelow(outi: array<nat>)
    requires IsDigits(outi[..], LIMB)
    ensures forall k :: 0 <= k < outi.Length ==> outi[k] < LIMB
  {
    forall k | 0 <= k < outi.Length ensures outi[k] < LIMB { assert outi[..][k] < LIMB; }
  }

  /** The loops that lay the limbs out as binsz bytes; limb 0 fills only binsz % 4 of them. */
  method WriteBytes(outi: array<nat>, bin: array<Byte>, binsz: nat)
    requires 0 < binsz <= bin.Length && outi.Length == LimbCount(binsz)
    requires IsDigits(outi[..], LIMB) && outi[0] == 0
    modifies bin
    ensures Val(bin[..binsz], 256) == Val(outi[..], LIMB)
    ensures bin[binsz..] == old(bin[binsz..])
  {
    hide *;
    var n, bytesleft := outi.Length, binsz % 4;
    var j, u := 0, 0;
    LimbBytes(binsz);
    LimbsBelow(outi);
    NothingLaid(outi, bin);
    if bytesleft != 0 {
      LayFirst(outi, bin, bytesleft);
      j, u := 1, bytesleft;
      Tail(bin[u..], old(bin[u..]), binsz - u);
    }
    while j < n
      invariant j <= n && u + 4 * (n - j) == binsz
      invariant bin[binsz..] == old(bin[binsz..])
      invariant Laid(outi, bin, j, u)
    {
      ghost var rest := bin[u + 4..];
      LayLimb(outi, bin, j, u);
      Tail(bin[u + 4..], rest, binsz - u - 4);
      j, u := j + 1, u + 4;
    }
    AllLaid(outi, bin, u);
  }

  lemma Tail(s: seq<Byte>, t: seq<Byte>, k: nat)
    requires s == t && k <= |s|
    ensures s[k..] == t[k..]
  {}

  lemma PowerLimb() ensures Power(256, 4) == LIMB {}

  /** dogecoin_base58_decode into a buffer of binsz bytes: the bytes end up at its end,
      and size says how many of them there are. */
  method Decode(bin: array<Byte>, binsz: nat, b58: string) returns (ok: bool, size: nat)
    requires binsz <= bin.Length
    modifies bin
    ensures ok <==> IsText(b58) && Holdable(b58, binsz)
    ensures ok ==> size == |Decoded(b58)| <= binsz && bin[binsz - size..binsz] == Decoded(b58)
    ensures bin[binsz..] == old(bin[binsz..])
  {
    hide Val, Power, DigitOf, DigitsOf, Convert, Decoded, LeadingZeroCount;
    if binsz == 0 {
      return false, 0;
    }
    var outi := new nat[LimbCount(binsz)](_ => 0);
    var zerocount := 0;
    while zerocount < |b58| && b58[zerocount] == '1'
      invariant zerocount <= |b58| && forall k :: 0 <= k < zerocount ==> b58[k] == '1'
    {
      zerocount := zerocount + 1;
    }
    ok := ReadText(b58, binsz, zerocount, outi);
    if !ok {
      return false, binsz;
    }
    WriteBytes(outi, bin, binsz);
    size := binsz;
    var i := 0;
    while i < binsz && bin[i] == 0
      invariant i <= binsz && size == binsz - i
      invariant forall k :: 0 <= k < i ==> bin[k] == 0
    {
      i, size := i + 1, size - 1;
    }
    DecodedBytes(b58, bin[..binsz], zerocount, i);
    if zerocount > i {
      return false, size;
    }
    size := size + zerocount;
    assert bin[binsz - size..binsz] == bin[..binsz][i - zerocount..];
  }

  /** What the bytes say, once i of them are known to lead with zero. */
  lemma DecodedBytes(s: string, bytes: seq<Byte>, z: nat, i: nat)
    requires IsText(s) && Val(bytes, 256) == Val(Digits(s), 58)
    requires z <= |s| && (forall k :: 0 <= k < z ==> s[k] == '1') && (z < |s| ==> s[z] != '1')
    requires i <= |bytes| && (forall k :: 0 <= k < i ==> bytes[k] == 0) && (i < |bytes| ==> bytes[i] != 0)
    ensures |Decoded(s)| == z + |bytes| - i
    ensures z <= i ==> Decoded(s) == bytes[i - z..]
  {
    hide *;
    LeadingOnes(s, z);
    StripZeros(bytes, i);
    DecodedUnfolded(s);
    if z <= i {
      ZerosBefore(bytes, z, i);
    }
  }

  lemma DecodedUnfolded(s: string)
    requires IsText(s)
    ensures Decoded(s) == Zeros(LeadingZeroCount(Digits(s))) + DigitsOf(Val(Digits(s), 58), 256)
  {
    ConvertDigits(Digits(s), 58, 256);
  }

  lemma ZerosBefore(ds: seq<Byte>, z: nat, i: nat)
    requires z <= i <= |ds| && forall k :: 0 <= k < i ==> ds[k] == 0
    ensures ds[i - z..] == Zeros(z) + ds[i..]
  {}

  lemma LeadingOnes(s: string, z: nat)
    requires IsText(s) && z <= |s| && (forall k :: 0 <= k < z ==> s[k] == '1') && (z < |s| ==> s[z] != '1')
    ensures LeadingZeroCount(Digits(s)) == z
  {
    hide LeadingZeroCount;
    var ds := Digits(s);
    assert ds == Zeros(z) + ds[z..];
    if z < |s| { NotOne(s[z]); }
    CountZeros(z, ds[z..]);
  }

  lemma StripZeros(ds: seq<Byte>, i: nat)
    requires i <= |ds| && (forall k :: 0 <= k < i ==> ds[k] == 0) && (i < |ds| ==> ds[i] != 0)
    ensures DigitsOf(Val(ds, 256), 256) == ds[i..]
  {
    hide Val, DigitsOf;
    assert ds == Zeros(i) + ds[i..];
    LeadingZeros(i, ds[i..], 256);
    DigitsOfVal(ds[i..], 256);
  }

  lemma NotOne(c: char)
    requires c != '1'
    ensures DigitOf(c) != 0
  {}

}
