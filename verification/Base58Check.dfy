/** Base-58 text with a four-byte checksum (dogecoin_base58_encode_check and
    dogecoin_base58_decode_check in base58.c). The double hash is any function of the
    bytes that returns at least four. */
module Base58Check {
  import opened Arith
  import opened Bytes
  import opened Radix
  import opened Base58
  import opened Base58Codec

  /** The payload with the first four bytes of its hash behind it. */
  function Stamped(data: seq<Byte>, hash: Hash): seq<Byte> {
    data + hash(data)[..4]
  }

  predicate IsStamped(bin: seq<Byte>, hash: Hash) {
    |bin| >= 4 && bin == Stamped(bin[..|bin| - 4], hash)
  }

  /** The text decoder takes exactly these texts, into datalen bytes. */
  predicate Accepted(str: string, datalen: nat, hash: Hash) {
    && |str| <= 128 && |str| <= datalen
    && IsText(str) && Holdable(str, |str|)
    && IsStamped(Decoded(str), hash)
    && Decoded(str) != Zeros(|Decoded(str)|)
  }

  /** How many '1's the text begins with. */
  function Ones(str: string): (n: nat)
    ensures n <= |str| && (forall k :: 0 <= k < n ==> str[k] == '1') && (n < |str| ==> str[n] != '1')
  {
    if str == "" || str[0] != '1' then 0 else 1 + Ones(str[1..])
  }

  /** How many bytes of the memory dogecoin_b58check looks at. */
  function Reach(mem: seq<Byte>, binsz: nat, str: string, hash: Hash): nat
    requires binsz <= |mem|
  {
    if binsz < 4 then 0
    else if !IsStamped(mem[..binsz], hash) then binsz
    else Max(binsz, Min(Ones(str), LeadingZeroCount(mem)) + 1)
  }

  /** dogecoin_b58check of the first binsz bytes of the memory; its value for a good stamp is
      the first byte. The text carries a terminator, which is no '1'. */
  method B58Check(bin: array<Byte>, binsz: nat, str: string, hash: Hash) returns (r: int, ghost reach: nat)
    requires binsz <= bin.Length && Reach(bin[..], binsz, str, hash) <= bin.Length
    ensures reach == Reach(bin[..], binsz, str, hash)
    ensures r == -4 <==> binsz < 4
    ensures r == -1 <==> binsz >= 4 && !IsStamped(bin[..binsz], hash)
    ensures r >= 0 <==> IsStamped(bin[..binsz], hash) && LeadingZeroCount(bin[..]) == Ones(str)
    ensures r < 0 ==> r == -4 || r == -3 || r == -1
    ensures r >= 0 ==> bin.Length > 0 && r == bin[0]
  {
    hide LeadingZeroCount, Ones, IsStamped, Stamped;
    reach := 0;
    ghost var mem := bin[..];
    ghost var all := mem[..binsz];
    assert bin[..binsz] == all;
    StampCompared(all, hash);
    if binsz < 4 {
      return -4, reach;
    }
    reach := binsz;
    assert bin[..binsz - 4] == all[..binsz - 4] && bin[binsz - 4..binsz] == all[binsz - 4..];
    if bin[binsz - 4..binsz] != hash(bin[..binsz - 4])[..4] {
      return -1, reach;
    }
    var i := EndOfZeros(bin, str);
    reach := Max(binsz, i + 1);
    ZerosEnd(mem, i);
    if bin[i] == 0 || (i < |str| && str[i] == '1') {
      return -3, reach;
    }
    return bin[0], reach;
  }

  /** The loop finds the end of the zeros; i + 1 bytes are looked at. */
  method EndOfZeros(bin: array<Byte>, str: string) returns (i: nat)
    requires Min(Ones(str), LeadingZeroCount(bin[..])) < bin.Length
    ensures i == Min(Ones(str), LeadingZeroCount(bin[..]))
  {
    hide LeadingZeroCount, Ones;
    ghost var mem := bin[..];
    i := 0;
    ZerosEnd(mem, 0);
    while bin[i] == 0 && i < |str| && str[i] == '1'
      invariant i <= Min(Ones(str), LeadingZeroCount(mem))
      decreases Ones(str) - i
    {
      ZerosEnd(mem, i);
      i := i + 1;
    }
    ZerosEnd(mem, i);
  }

  lemma StampCompared(d: seq<Byte>, hash: Hash)
    ensures IsStamped(d, hash) <==> |d| >= 4 && d[|d| - 4..] == hash(d[..|d| - 4])[..4]
  {
    if |d| >= 4 {
      assert d == d[..|d| - 4] + d[|d| - 4..];
    }
  }

  lemma ZerosEnd(mem: seq<Byte>, i: nat)
    ensures i < LeadingZeroCount(mem) ==> mem[i] == 0
    ensures i == LeadingZeroCount(mem) < |mem| ==> mem[i] != 0
  {
    var z := LeadingZeroCount(mem);
    if i < z { assert mem[..z][i] == 0; }
    if i == z < |mem| { assert mem[z..][0] == mem[z]; }
  }

  lemma ZeroCountOfZeros(n: nat)
    ensures LeadingZeroCount(Zeros(n)) == n
  {
    assert Zeros(n) + [] == Zeros(n);
    CountZeros(n, []);
  }

  /** dogecoin_base58_encode_check: 0, or the size of the text with its terminator. */
  method EncodeCheck(data: seq<Byte>, str: array<char>, strsize: nat, hash: Hash) returns (ret: nat)
    requires strsize <= str.Length
    modifies str
    ensures var t := Encoded(Stamped(data, hash));
      if |data| <= 128 && |t| < strsize
      then ret == |t| + 1 && str[..] == t + ['\0'] + old(str[..])[ret..]
      else ret == 0 && str[..] == old(str[..])
  {
    hide Encoded;
    if |data| > 128 {
      return 0;
    }
    var buf := data + hash(data);
    assert buf[..|data| + 4] == Stamped(data, hash);
    var ok, res := Encode(str, strsize, buf[..|data| + 4]);
    ret := if ok then res else 0;
  }

  /** The comparison of leading zeros leaves the buffer: text of '1's alone that fills it,
      and zeros that are stamped with zeros. */
  predicate ReadsBehind(str: string, datalen: nat, hash: Hash) {
    4 <= |str| == datalen <= 128 && Ones(str) == |str| && IsStamped(Zeros(datalen), hash)
  }

  /** dogecoin_base58_decode_check of the characters before the terminator. */
  method DecodeCheck(str: string, data: array<Byte>, datalen: nat, hash: Hash) returns (ret: nat)
    requires datalen <= data.Length && '\0' !in str
    requires ReadsBehind(str, datalen, hash) ==> datalen < data.Length
    modifies data
    ensures ret != 0 <==>
      Accepted(str, datalen, hash) || (ReadsBehind(str, datalen, hash) && old(data[datalen]) != 0)
    ensures ret != 0 ==> IsText(str) && ret == |Decoded(str)| <= datalen
    ensures ret != 0 ==> data[..datalen] == Decoded(str) + Zeros(datalen - ret)
    ensures data[datalen..] == old(data[datalen..])
  {
    hide *;
    HoldableFits(str);
    var strl := |str|;
    AcceptedMeans(str, datalen, hash);
    ReadsBehindMeans(str, datalen, hash);
    if strl > 128 || datalen < strl {
      return 0;
    }
    var ok, binsize := DecodeToFront(data, strl, str, datalen);
    if !ok {
      return 0;
    }
    ret := Verdict(data, binsize, str, datalen, hash);
  }

  /** Decoding, the move to the front, and zeros behind. */
  method DecodeToFront(data: array<Byte>, strl: nat, str: string, datalen: nat) returns (ok: bool, binsize: nat)
    requires |str| == strl <= datalen <= data.Length
    modifies data
    ensures ok <==> IsText(str) && Holdable(str, strl)
    ensures ok ==> binsize == |Decoded(str)| <= strl && data[..datalen] == Decoded(str) + Zeros(datalen - binsize)
    ensures data[datalen..] == old(data[datalen..])
  {
    hide *;
    ghost var was := data[..];
    ok, binsize := Decode(data, strl, str);
    assert data[datalen..] == data[strl..][datalen - strl..] == was[datalen..];
    if ok {
      MoveDown(data, strl - binsize, strl, datalen);
    }
  }

  lemma HoldableFits(str: string)
    ensures IsText(str) && Holdable(str, |str|) ==> str != []
  {}

  lemma AcceptedMeans(str: string, datalen: nat, hash: Hash)
    ensures Accepted(str, datalen, hash) <==>
      && |str| <= 128 && |str| <= datalen && IsText(str) && Holdable(str, |str|)
      && IsStamped(Decoded(str), hash) && Decoded(str) != Zeros(|Decoded(str)|)
  {}

  /** The end of the decoder: the size if the check finds no fault, else 0. */
  method Verdict(data: array<Byte>, binsize: nat, str: string, datalen: nat, hash: Hash) returns (ret: nat)
    requires IsText(str) && binsize == |Decoded(str)| && str != [] && binsize <= datalen <= data.Length
    requires data[..datalen] == Decoded(str) + Zeros(datalen - binsize)
    requires IsStamped(Decoded(str), hash) && Decoded(str) == Zeros(datalen) ==> datalen < data.Length
    ensures ret != 0 <==>
      IsStamped(Decoded(str), hash)
      && (Decoded(str) != Zeros(binsize) || (binsize == datalen && data[datalen] != 0))
    ensures ret != 0 ==> ret == binsize
  {
    hide LeadingZeroCount, DigitOf, Decoded, Digits, Ones;
    ghost var mem := data[..];
    assert mem[..binsize] == data[..datalen][..binsize] == Decoded(str);
    assert binsize < datalen ==> mem[binsize] == data[..datalen][binsize];
    SameFront(str, mem);
    ShortNotStamped(Decoded(str), hash);
    var r, _ := B58Check(data, binsize, str, hash);
    ret := if r < 0 then 0 else binsize;
  }

  lemma ShortNotStamped(d: seq<Byte>, hash: Hash)
    ensures IsStamped(d, hash) ==> |d| >= 4
  {}

  /** memmove to the front, and zeros behind. */
  method MoveDown(data: array<Byte>, from: nat, to: nat, datalen: nat)
    requires from <= to <= datalen <= data.Length
    modifies data
    ensures data[..datalen] == old(data[from..to]) + Zeros(datalen - (to - from))
    ensures data[datalen..] == old(data[datalen..])
  {
    MoveBytes(data, from, to - from);
    ClearBytes(data, to - from, datalen);
    assert data[..datalen] == data[..to - from] + data[to - from..datalen];
  }

  method MoveBytes(data: array<Byte>, from: nat, count: nat)
    requires from + count <= data.Length
    modifies data
    ensures data[..count] == old(data[from..from + count])
    ensures forall k :: count <= k < data.Length ==> data[k] == old(data[k])
  {
    for i := 0 to count
      invariant data[..i] == old(data[from..from + i])
      invariant forall k :: i <= k < data.Length ==> data[k] == old(data[k])
    {
      data[i] := data[from + i];
    }
  }

  method ClearBytes(data: array<Byte>, from: nat, to: nat)
    requires from <= to <= data.Length
    modifies data
    ensures data[..from] == old(data[..from]) && data[from..to] == Zeros(to - from)
    ensures data[to..] == old(data[to..])
  {
    for i := from to to
      invariant data[..from] == old(data[..from]) && data[to..] == old(data[to..])
      invariant data[from..i] == Zeros(i - from)
    {
      data[i] := 0;
    }
  }

  /** Decoding keeps the number of leading zeros. */
  lemma SameZeros(str: string)
    requires IsText(str)
    ensures LeadingZeroCount(Decoded(str)) == LeadingZeroCount(Digits(str))
  {
    hide LeadingZeroCount, DigitsOf, Val;
    ConvertDigits(Digits(str), 58, 256);
    var v := Val(Digits(str), 58);
    ValOfDigits(v, 256);
    CountZeros(LeadingZeroCount(Digits(str)), DigitsOf(v, 256));
  }

  /** The '1's of the text are the zeros in front of its bytes. */
  lemma OnesAreZeros(str: string)
    requires IsText(str)
    ensures Ones(str) == LeadingZeroCount(Digits(str))
  {
    hide DigitOf, LeadingZeroCount, Ones;
    var ds := Digits(str);
    forall k | 0 <= k < |str| ensures ds[k] == 0 <==> str[k] == '1' { ZeroIsOne(str[k]); }
    CountIs(ds, Ones(str));
  }

  lemma CountIs(ds: seq<nat>, n: nat)
    requires n <= |ds| && (forall k :: 0 <= k < n ==> ds[k] == 0) && (n < |ds| ==> ds[n] != 0)
    ensures LeadingZeroCount(ds) == n
  {
    assert ds == Zeros(n) + ds[n..];
    CountZeros(n, ds[n..]);
  }

  lemma ZeroIsOne(c: char)
    ensures DigitOf(c) == 0 <==> c == '1'
  {}

  /** Text stands for zeros alone if and only if it is as many '1's. */
  lemma AllOnes(str: string)
    requires IsText(str)
    ensures Decoded(str) == Zeros(|Decoded(str)|) <==> Ones(str) == |str|
    ensures Ones(str) == |str| ==> Decoded(str) == Zeros(|str|)
  {
    hide LeadingZeroCount, Ones, DigitsOf;
    OnesAreZeros(str);
    SameZeros(str);
    ConvertDigits(Digits(str), 58, 256);
    var n := |Decoded(str)|;
    if Ones(str) == |str| {
      assert Digits(str)[..|str|] == Digits(str);
      ZeroDigits(|str|, 58, 256);
    } else if Decoded(str) == Zeros(n) {
      ZeroDigits(n, 256, 58);
      EncodedDecoded(str);
      ZeroText(n);
      assert false;
    }
  }

  lemma ZeroText(n: nat)
    ensures Ones(Encoded(Zeros(n))) == n == |Encoded(Zeros(n))|
  {
    hide LeadingZeroCount, Ones;
    ZeroDigits(n, 256, 58);
    var t := Encoded(Zeros(n));
    forall k | 0 <= k < |t| ensures t[k] == '1' {
      assert Convert(Zeros(n), 256, 58)[k] == 0;
    }
  }

  lemma ZeroDigits(n: nat, from: nat, to: nat)
    requires from >= 2 && to >= 2
    ensures Convert(Zeros(n), from, to) == Zeros(n)
  {
    ZeroCountOfZeros(n);
    ValZeros(n, from);
  }

  /** The '1's of the text against the zeros of memory that begins with its bytes. */
  lemma SameFront(str: string, mem: seq<Byte>)
    requires IsText(str) && |Decoded(str)| <= |mem| && mem[..|Decoded(str)|] == Decoded(str)
    ensures var n := |Decoded(str)|;
      if Decoded(str) != Zeros(n) then LeadingZeroCount(mem) == Ones(str) < n
      else Ones(str) == n <= LeadingZeroCount(mem) && (n < |mem| ==> (LeadingZeroCount(mem) == n <==> mem[n] != 0))
  {
    hide LeadingZeroCount, Ones, Digits;
    var n, d := |Decoded(str)|, Decoded(str);
    SameZeros(str);
    OnesAreZeros(str);
    FrontZeros(d, mem);
  }

  lemma FrontZeros(d: seq<Byte>, mem: seq<Byte>)
    requires |d| <= |mem| && mem[..|d|] == d
    ensures var n, y, z := |d|, LeadingZeroCount(d), LeadingZeroCount(mem);
      if d != Zeros(n) then y == z < n else y == n <= z && (n < |mem| ==> (z == n <==> mem[n] != 0))
  {
    hide LeadingZeroCount;
    var n, y, z := |d|, LeadingZeroCount(d), LeadingZeroCount(mem);
    assert forall k :: 0 <= k < n ==> mem[k] == d[k];
    if y < n {
      ZerosEnd(d, y);
      assert d[y] != 0;
      forall k | 0 <= k < y ensures mem[k] == 0 { ZerosEnd(d, k); }
      CountIs(mem, y);
    } else {
      assert d[..n] == d;
      ZerosEnd(mem, z);
      ZerosEnd(mem, n);
    }
  }

  /** Checking a decoded text looks at the byte behind its bytes if and only if they are
      stamped and all zeros. */
  lemma ReachExactly(str: string, mem: seq<Byte>, hash: Hash)
    requires IsText(str) && |Decoded(str)| <= |mem| && mem[..|Decoded(str)|] == Decoded(str)
    ensures var n := |Decoded(str)|;
      n < Reach(mem, n, str, hash) <==> IsStamped(Decoded(str), hash) && Decoded(str) == Zeros(n)
  {
    hide Ones, Decoded, LeadingZeroCount;
    SameFront(str, mem);
  }

  lemma ReadsBehindMeans(str: string, datalen: nat, hash: Hash)
    ensures ReadsBehind(str, datalen, hash) <==>
      && |str| <= 128 && |str| <= datalen && IsText(str) && Holdable(str, |str|)
      && IsStamped(Decoded(str), hash) && Decoded(str) == Zeros(datalen)
  {
    hide Decoded, Ones, Val, Power, LimbCount;
    if Ones(str) == |str| {
      forall k | 0 <= k < |str| ensures DigitOf(str[k]) == 0 {}
      assert IsText(str);
    }
    if IsText(str) {
      AllOnes(str);
    }
    if ReadsBehind(str, datalen, hash) {
      OnesHoldable(str);
    }
  }

  lemma OnesHoldable(str: string)
    requires IsText(str) && Ones(str) == |str| > 0
    ensures Holdable(str, |str|)
  {
    hide Decoded, Ones, LeadingZeroCount;
    AllOnes(str);
    OnesAreZeros(str);
    assert Digits(str)[..|str|] == Digits(str);
    ValZeros(|str|, 58);
    PowerPositive(0x1_0000_0000, LimbCount(|str|) - 1);
  }

  /** With a hash that stamps zeros with zeros, four '1's in a buffer of four. */
  lemma FourOnes()
    ensures ReadsBehind("1111", 4, (b: seq<Byte>) => [0, 0, 0, 0])
  {
    var hash: Hash := (b: seq<Byte>) => [0, 0, 0, 0];
    assert Zeros(4)[..0] == [];
    assert Stamped([], hash) == Zeros(4);
    assert "1111"[1..] == "111" && "111"[1..] == "11" && "11"[1..] == "1" && "1"[1..] == "";
  }

  // ---- What the two check forms promise together

  /** The text of n bytes has at least n characters, and at most the encoder's buffer. */
  lemma EncodedLength(bin: seq<Byte>)
    ensures |bin| <= |Encoded(bin)| <= |bin| * 138 / 100 + 1
  {
    hide DigitsOf, Val, LeadingZeroCount, DigitOf, CharOf, Power;
    DecodedEncoded(bin);
    DecodedLength(Encoded(bin));
    var z := LeadingZeroCount(bin);
    SplitZeros(bin, 256);
    ValBound(bin[z..], 256);
    var m := |bin| - z;
    BufferRoom(m);
    DigitCount(Val(bin, 256), 58, m * 138 / 100 + 1);
  }

  /** The round trip, for payloads of every length: the text of a stamped payload always
      stands for it, and is accepted if and only if it has at most 128 characters, the
      decoder's limbs can hold it and the stamped payload is not all zeros. */
  lemma CheckRoundTrip(data: seq<Byte>, datalen: nat, hash: Hash)
    ensures var bin := Stamped(data, hash);
      && Decoded(Encoded(bin)) == bin
      && (Accepted(Encoded(bin), datalen, hash) <==>
            |Encoded(bin)| <= 128 && |Encoded(bin)| <= datalen && Holdable(Encoded(bin), |Encoded(bin)|)
            && bin != Zeros(|bin|))
  {
    hide Encoded, Decoded, Holdable;
    var bin := Stamped(data, hash);
    DecodedEncoded(bin);
    assert bin[..|bin| - 4] == data;
  }

  /** 93 bytes fit into 128 characters, because 256^93 <= 58^128. */
  lemma FitsBuffer(bin: seq<Byte>)
    requires |bin| <= 93
    ensures |Encoded(bin)| <= 128
  {
    hide DigitsOf, Val, LeadingZeroCount, DigitOf, CharOf, Power;
    var z := LeadingZeroCount(bin);
    SplitZeros(bin, 256);
    ValBound(bin[z..], 256);
    DigitRoom(|bin| - z, 128 - z);
    DigitCount(Val(bin, 256), 58, 128 - z);
  }

  /** Of 9 to 89 bytes, only a payload whose stamped form is all zeros is lost. */
  lemma PayloadsThatAlwaysFit(data: seq<Byte>, datalen: nat, hash: Hash)
    requires 9 <= |data| <= 89 && datalen >= 128
    ensures var bin := Stamped(data, hash);
      Accepted(Encoded(bin), datalen, hash) <==> bin != Zeros(|bin|)
  {
    hide Encoded, Decoded, Holdable, Accepted;
    var bin := Stamped(data, hash);
    CheckRoundTrip(data, datalen, hash);
    EncodedLength(bin);
    FitsBuffer(bin);
    RoomyHoldable(Encoded(bin));
  }

  /** No two accepted texts stand for the same payload. */
  lemma OneTextPerPayload(s: string, t: string, datalen: nat, hash: Hash)
    requires Accepted(s, datalen, hash) && Accepted(t, datalen, hash)
    requires |Decoded(s)| == |Decoded(t)| && Decoded(s)[..|Decoded(s)| - 4] == Decoded(t)[..|Decoded(t)| - 4]
    ensures s == t == Encoded(Stamped(Decoded(s)[..|Decoded(s)| - 4], hash))
  {
    EncodedDecoded(s);
    EncodedDecoded(t);
  }

}
