/** Cipher block chaining with AES-256 and padding (aes.c; NIST SP 800-38A, section 6.2,
    and RFC 5652, section 6.3). */
module Cbc {
  import opened Bytes
  import opened AesBytes
  import opened AesCipher
  import opened AesKeys
  import opened AesRounds
  import opened AesSlices
  import Bits
  import Gf256

  const AES_BLOCK_SIZE := 16

  function XorBytes(a: Block, b: Block): Block { seq(16, i requires 0 <= i < 16 => Gf256.Add(a[i], b[i])) }

  lemma XorTwice(a: Block, b: Block)
    ensures XorBytes(XorBytes(a, b), b) == a
  {
    forall i | 0 <= i < 16 ensures XorBytes(XorBytes(a, b), b)[i] == a[i] {
      Bits.XorAssoc(a[i], b[i], b[i]);
      Bits.XorSelf(b[i]);
      Bits.XorZero(a[i]);
    }
  }

  // ---- Chaining

  function Chain(keys: seq<State>, prev: Block, m: seq<Byte>): (c: seq<Byte>)
    requires |keys| >= 2 && |m| % 16 == 0
    ensures |c| == |m|
    decreases |m|
  {
    if m == [] then []
    else
      var c := EncryptBlock(keys, XorBytes(prev, m[..16]));
      c + Chain(keys, c, m[16..])
  }

  function Unchain(keys: seq<State>, prev: Block, c: seq<Byte>): (m: seq<Byte>)
    requires |keys| >= 2 && |c| % 16 == 0
    ensures |m| == |c|
    decreases |c|
  {
    if c == [] then []
    else XorBytes(DecryptBlock(keys, c[..16]), prev) + Unchain(keys, c[..16], c[16..])
  }

  lemma XorSwap(a: Block, b: Block)
    ensures XorBytes(a, b) == XorBytes(b, a)
  {
    forall i | 0 <= i < 16 ensures XorBytes(a, b)[i] == XorBytes(b, a)[i] { Bits.XorComm(a[i], b[i]); }
  }

  /** Decryption takes the chained blocks apart again. */
  lemma {:induction false} UnchainChain(keys: seq<State>, prev: Block, m: seq<Byte>)
    requires |keys| >= 2 && |m| % 16 == 0
    ensures Unchain(keys, prev, Chain(keys, prev, m)) == m
    decreases |m|
  {
    hide EncryptBlock, DecryptBlock, XorBytes;
    if m != [] {
      var x := XorBytes(prev, m[..16]);
      var c := EncryptBlock(keys, x);
      DecryptUndoes(keys, x);
      XorSwap(prev, m[..16]);
      XorTwice(m[..16], prev);
      UnchainChain(keys, c, m[16..]);
      var d := Chain(keys, prev, m);
      assert d[..16] == c && d[16..] == Chain(keys, c, m[16..]);
    }
  }

  lemma {:induction false} ChainAppend(keys: seq<State>, prev: Block, m: seq<Byte>, last: Block)
    requires |keys| >= 2 && |m| % 16 == 0
    ensures var c := Chain(keys, prev, m);
      Chain(keys, prev, m + last) == c + EncryptBlock(keys, XorBytes(LastBlock(prev, c), last))
    decreases |m|
  {
    hide EncryptBlock, XorBytes;
    if m == [] {
      assert m + last == last && last[..16] == last && last[16..] == [];
    } else {
      var c := EncryptBlock(keys, XorBytes(prev, m[..16]));
      ChainAppend(keys, c, m[16..], last);
      assert (m + last)[..16] == m[..16] && (m + last)[16..] == m[16..] + last;
      assert LastBlock(prev, c + Chain(keys, c, m[16..])) == LastBlock(c, Chain(keys, c, m[16..]));
    }
  }

  /** The block that the next one is mixed with. */
  function LastBlock(prev: Block, c: seq<Byte>): Block
    requires |c| % 16 == 0
  {
    if c == [] then prev else c[|c| - 16..]
  }

  lemma {:induction false} UnchainAppend(keys: seq<State>, prev: Block, c: seq<Byte>, last: Block)
    requires |keys| >= 2 && |c| % 16 == 0
    ensures Unchain(keys, prev, c + last)
         == Unchain(keys, prev, c) + XorBytes(DecryptBlock(keys, last), LastBlock(prev, c))
    decreases |c|
  {
    hide DecryptBlock, XorBytes;
    if c == [] {
      assert c + last == last && last[..16] == last && last[16..] == [];
    } else {
      UnchainAppend(keys, c[..16], c[16..], last);
      assert (c + last)[..16] == c[..16] && (c + last)[16..] == c[16..] + last;
      assert LastBlock(prev, c) == LastBlock(c[..16], c[16..]);
    }
  }

  /** Block i of a text of blocks. */
  function BlockAt(m: seq<Byte>, n: nat, i: nat): Block
    requires |m| == 16 * n && i < n
  {
    m[16 * i..16 * i + 16]
  }

  /** x is the bitwise sum of a and b. */
  predicate Mixes(x: Block, a: Block, b: Block) {
    forall j :: 0 <= j < 16 ==> x[j] == Bits.Xor(a[j], b[j])
  }

  /** Block i of the chain is the cipher of x: block i of the data, xored with the block of
      the chain before it, and the first one with iv. */
  lemma {:induction false} ChainBlocks(keys: seq<State>, iv: Block, m: seq<Byte>, n: nat, i: nat, x: Block)
    requires |keys| >= 2 && |m| == 16 * n && i < n
    requires Mixes(x, BlockAt(m, n, i), if i == 0 then iv else BlockAt(Chain(keys, iv, m), n, i - 1))
    ensures BlockAt(Chain(keys, iv, m), n, i) == EncryptBlock(keys, x)
    decreases i
  {
    hide EncryptBlock, XorBytes, Mixes;
    var y := XorBytes(iv, m[..16]);
    var c := EncryptBlock(keys, y);
    var e := Chain(keys, c, m[16..]);
    assert Chain(keys, iv, m) == c + e;
    if i == 0 {
      MixesIs(x, iv, m[..16]);
    } else {
      BlockBehind(c, e, n, i);
      assert m == m[..16] + m[16..];
      BlockBehind(m[..16], m[16..], n, i);
      if i > 1 { BlockBehind(c, e, n, i - 1); }
      ChainBlocks(keys, c, m[16..], n - 1, i - 1, x);
    }
  }

  lemma BlockBehind(first: Block, rest: seq<Byte>, n: nat, i: nat)
    requires |first + rest| == 16 * n && 0 < i < n
    ensures BlockAt(first + rest, n, i) == BlockAt(rest, n - 1, i - 1)
  {}

  lemma MixesIs(x: Block, iv: Block, a: Block)
    requires Mixes(x, a, iv)
    ensures x == XorBytes(iv, a)
  {
    hide Bits.Xor;
    forall j | 0 <= j < 16 ensures x[j] == XorBytes(iv, a)[j] { Bits.XorComm(a[j], iv[j]); }
  }

  // ---- Padding

  function PadSize(m: seq<Byte>): (n: nat)
    ensures 1 <= n <= 16 && (|m| + n) % 16 == 0
  {
    16 - |m| % 16
  }

  function Padded(m: seq<Byte>): (p: seq<Byte>)
    ensures |p| % 16 == 0 && |p| == |m| + PadSize(m)
  {
    m + seq(PadSize(m), _ => PadSize(m))
  }

  /** The data comes first; behind it stand as many bytes as are missing to the next multiple
      of sixteen, at least one, and each of them is their number. */
  lemma PaddedBytes(m: seq<Byte>, j: nat)
    requires j < |Padded(m)|
    ensures |m| < |Padded(m)| <= |m| + 16 && |Padded(m)| % 16 == 0
    ensures Padded(m)[j] == if j < |m| then m[j] else |Padded(m)| - |m|
  {}

  /** The last byte says how many bytes at the end have its value. */
  predicate WellPadded(p: seq<Byte>) {
    && |p| >= 16
    && (var n := p[|p| - 1];
        1 <= n <= 16 && forall j | |p| - n <= j < |p| :: p[j] == n)
  }

  /** Well-formed paddings are exactly those that Padded makes. */
  lemma PaddingUnique(p: seq<Byte>)
    requires |p| % 16 == 0
    ensures WellPadded(p) <==> exists m: seq<Byte> :: p == Padded(m)
  {
    if WellPadded(p) {
      var n := p[|p| - 1];
      var m := p[..|p| - n];
      assert |m| % 16 == (16 - n) % 16;
      assert p == Padded(m);
    }
    if m: seq<Byte> :| p == Padded(m) {
      PaddingKept(m);
    }
  }

  lemma PaddingKept(m: seq<Byte>)
    ensures var p := Padded(m);
      WellPadded(p) && p[|p| - 1] == PadSize(m) && p[..|p| - PadSize(m)] == m
  {
    var p := Padded(m);
    assert forall j | |m| <= j < |p| :: p[j] == PadSize(m);
  }

  // ---- aes256_cbc_encrypt and aes256_cbc_decrypt

  /** mixed[i] ^= *data++ for a whole block. */
  method XorInto(mixed: array<Byte>, block: Block)
    requires mixed.Length == 16
    modifies mixed
    ensures mixed[..] == XorBytes(old(mixed[..]), block)
  {
    hide Gf256.Add;
    for i := 0 to AES_BLOCK_SIZE
      invariant forall j | 0 <= j < i :: mixed[j] == Gf256.Add(old(mixed[j]), block[j])
      invariant forall j | i <= j < 16 :: mixed[j] == old(mixed[j])
    {
      mixed[i] := Gf256.Add(mixed[i], block[i]);
    }
  }

  /** memcpy of a block to place o. */
  method CopyBlock(from: Block, to: array<Byte>, o: nat)
    requires o + 16 <= to.Length
    modifies to
    ensures to[..o] == old(to[..o]) && to[o..o + 16] == from && to[o + 16..] == old(to[o + 16..])
  {
    forall i | 0 <= i < 16 { to[o + i] := from[i]; }
  }

  function Aes256Keys(key: seq<Byte>): (keys: seq<State>)
    requires |key| == 32
    ensures |keys| == 15
  {
    KeySchedule(key, 8, 14)
  }

  /** AES256_init */
  method Aes256Init(key: seq<Byte>) returns (rk: array2<Slice>)
    requires |key| == 32
    ensures fresh(rk) && rk.Length0 == 15 && rk.Length1 == 8 && Keys(rk) == Aes256Keys(key)
  {
    hide Keys, KeySchedule;
    rk := new Slice[15, 8];
    AesSetup(rk, key, 8, 14);
  }

  /** The text encrypted so far is the chain of the data read so far; mixed carries its end. */
  ghost predicate Encrypting(keys: seq<State>, iv: Block, data: seq<Byte>, out: array<Byte>, mixed: array<Byte>)
    requires |keys| >= 2 && |data| % 16 == 0
    reads out, mixed
  {
    && mixed.Length == 16 && |data| <= out.Length
    && out[..|data|] == Chain(keys, iv, data)
    && mixed[..] == LastBlock(iv, Chain(keys, iv, data))
  }

  /** One block: mix it in, encrypt, write, and keep the result for the next. */
  method EncryptNext(rk: array2<Slice>, iv: Block, ghost done: seq<Byte>, block: Block,
                     out: array<Byte>, mixed: array<Byte>, written: nat)
    requires rk.Length0 == 15 && rk.Length1 == 8 && mixed != out && written == |done| && |done| % 16 == 0
    requires Encrypting(Keys(rk), iv, done, out, mixed) && written + 16 <= out.Length
    modifies out, mixed
    ensures Encrypting(Keys(rk), iv, done + block, out, mixed)
    ensures out[written + 16..] == old(out[written + 16..])
  {
    hide XorBytes, EncryptBlock, Chain, Keys;
    ghost var keys := Keys(rk);
    ghost var chain := Chain(keys, iv, done);
    XorInto(mixed, block);
    var c := AesEncrypt(rk, 14, mixed[..]);
    CopyBlock(c[..], out, written);
    CopyBlock(out[written..written + 16], mixed, 0);
    ChainAppend(keys, iv, done, block);
    assert mixed[..] == mixed[0..16] == c[..];
    assert out[..written + 16] == out[..written] + out[written..written + 16];
    LastAppended(iv, chain, c[..]);
  }

  lemma LastAppended(prev: Block, c: seq<Byte>, last: Block)
    requires |c| % 16 == 0
    ensures LastBlock(prev, c + last) == last
  {}

  /** The loop over the whole blocks of the data. */
  method EncryptWhole(rk: array2<Slice>, iv: Block, data: seq<Byte>, out: array<Byte>, mixed: array<Byte>)
    returns (written: nat)
    requires rk.Length0 == 15 && rk.Length1 == 8 && mixed != out && |data| <= out.Length
    requires Encrypting(Keys(rk), iv, [], out, mixed)
    modifies out, mixed
    ensures written == |data| - |data| % 16 && Keys(rk) == old(Keys(rk))
    ensures Encrypting(Keys(rk), iv, data[..written], out, mixed)
    ensures out[written..] == old(out[written..])
  {
    hide Chain, Keys, Encrypting;
    written := 0;
    assert data[..0] == [];
    while written + AES_BLOCK_SIZE <= |data|
      invariant written <= |data| && written % 16 == 0
      invariant Encrypting(Keys(rk), iv, data[..written], out, mixed)
      invariant out[written..] == old(out[written..])
    {
      var block := data[written..written + 16];
      EncryptNext(rk, iv, data[..written], block, out, mixed, written);
      assert data[..written] + block == data[..written + 16];
      assert out[written + 16..] == old(out[written..])[16..];
      written := written + AES_BLOCK_SIZE;
    }
  }

  /** aes256_cbc_encrypt. Without padding, data that is no whole number of blocks is
      refused, like empty data. */
  method CbcEncrypt(key: seq<Byte>, iv: Block, data: seq<Byte>, pad: bool, out: array<Byte>) returns (written: nat)
    requires |key| == 32
    requires out.Length >= if pad then |Padded(data)| else |data|
    modifies out
    ensures var m := if pad then Padded(data) else data;
      if data == [] || |m| % 16 != 0 then written == 0 && out[..] == old(out[..])
      else written == |m| && out[..] == Chain(Aes256Keys(key), iv, m) + old(out[written..])
  {
    hide Chain, Keys, Encrypting, Aes256Keys;
    written := 0;
    var padsize := |data| % AES_BLOCK_SIZE;
    if data == [] {
      return;
    }
    if !pad && padsize != 0 {
      return;
    }
    var rk := Aes256Init(key);
    var mixed := new Byte[AES_BLOCK_SIZE](_ => 0);
    CopyBlock(iv, mixed, 0);
    EncryptingBegins(Keys(rk), iv, out, mixed);
    ghost var keys := Keys(rk);
    written := EncryptWhole(rk, iv, data, out, mixed);
    assert data == data[..written] + data[written..];
    if pad {
      var last := data[written..] + seq(AES_BLOCK_SIZE - padsize, _ => AES_BLOCK_SIZE - padsize);
      EncryptNext(rk, iv, data[..written], last, out, mixed, written);
      assert data[..written] + last == Padded(data);
      assert out[written + 16..] == old(out[written..])[16..];
      written := written + AES_BLOCK_SIZE;
      EncryptingEnds(keys, iv, Padded(data), out, mixed);
    } else {
      assert data[..written] == data;
      EncryptingEnds(keys, iv, data, out, mixed);
    }
    assert out[..] == out[..written] + out[written..];
  }

  lemma EncryptingBegins(keys: seq<State>, iv: Block, out: array<Byte>, mixed: array<Byte>)
    requires |keys| >= 2 && mixed.Length == 16 && mixed[0..16] == iv
    ensures Encrypting(keys, iv, [], out, mixed)
  {
    assert mixed[..] == mixed[0..16];
  }

  lemma EncryptingEnds(keys: seq<State>, iv: Block, data: seq<Byte>, out: array<Byte>, mixed: array<Byte>)
    requires |keys| >= 2 && |data| % 16 == 0 && Encrypting(keys, iv, data, out, mixed)
    ensures |data| <= out.Length && out[..|data|] == Chain(keys, iv, data)
  {}

  /** The bytes written so far are the text of the data read so far, which ends in prev. */
  ghost predicate Decrypting(keys: seq<State>, iv: Block, data: seq<Byte>, out: array<Byte>, prev: Block)
    requires |keys| >= 2 && |data| % 16 == 0
    reads out
  {
    |data| <= out.Length && prev == LastBlock(iv, data) && out[..|data|] == Unchain(keys, iv, data)
  }

  /** Decrypt one block into out and take off the block before it. */
  method DecryptNext(rk: array2<Slice>, iv: Block, ghost done: seq<Byte>, prev: Block, block: Block,
                     out: array<Byte>, written: nat)
    requires rk.Length0 == 15 && rk.Length1 == 8 && written == |done| && |done| % 16 == 0
    requires Decrypting(Keys(rk), iv, done, out, prev) && written + 16 <= out.Length
    modifies out
    ensures Decrypting(Keys(rk), iv, done + block, out, block)
  {
    hide DecryptBlock, Keys, XorBytes, Unchain;
    var d := AesDecrypt(rk, 14, block);
    XorInto(d, prev);
    CopyBlock(d[..], out, written);
    UnchainAppend(Keys(rk), iv, done, block);
    LastAppended(iv, done, block);
    assert out[..written + 16] == out[..written] + out[written..written + 16];
  }

  /** The end of aes256_cbc_decrypt: fail adds up over the last block without leaving the
      loop; the result is the length without padding, or 0. */
  method CheckPadding(out: array<Byte>, size: nat) returns (length: nat)
    requires 16 <= size <= out.Length
    ensures length == if WellPadded(out[..size]) then size - out[size - 1] else 0
  {
    ghost var p := out[..size];
    var last: nat := out[size - 1];
    var fail := last == 0 || last > AES_BLOCK_SIZE;
    var padsize := if fail then 0 else last;
    ghost var malformed := fail;
    var o := size - 1;
    var i := AES_BLOCK_SIZE;
    while i != 0
      invariant 0 <= i <= 16 && o == size - 1 - (16 - i)
      invariant fail <==> malformed || exists j | o < j < size && size - padsize <= j :: p[j] != padsize
    {
      assert p[o] == out[o];
      fail := fail || (i > AES_BLOCK_SIZE - padsize && out[o] != padsize);
      o, i := o - 1, i - 1;
    }
    length := if fail then 0 else size - padsize;
  }

  /** aes256_cbc_decrypt. */
  method CbcDecrypt(key: seq<Byte>, iv: Block, data: seq<Byte>, pad: bool, out: array<Byte>) returns (length: nat)
    requires |key| == 32 && out.Length >= |data|
    modifies out
    ensures data == [] || |data| % 16 != 0 ==> length == 0 && out[..] == old(out[..])
    ensures data != [] && |data| % 16 == 0 ==>
              var p := Unchain(Aes256Keys(key), iv, data);
              && out[..|data|] == p
              && length == if !pad then |p| else if WellPadded(p) then |p| - p[|p| - 1] else 0
  {
    hide Unchain, Keys, WellPadded, Decrypting, Aes256Keys;
    if data == [] || |data| % AES_BLOCK_SIZE != 0 {
      return 0;
    }
    var rk := Aes256Init(key);
    var written, prev: Block := 0, iv;
    ghost var keys := Keys(rk);
    DecryptingBegins(keys, iv, out);
    assert data[..0] == [];
    while written != |data|
      invariant written <= |data| && written % 16 == 0 && Keys(rk) == keys
      invariant Decrypting(keys, iv, data[..written], out, prev)
      decreases |data| - written
    {
      var block := data[written..written + 16];
      DecryptNext(rk, iv, data[..written], prev, block, out, written);
      assert data[..written] + block == data[..written + 16];
      prev := block;
      written := written + AES_BLOCK_SIZE;
    }
    assert data[..written] == data;
    DecryptingEnds(keys, iv, data, out, prev);
    length := written;
    if pad {
      length := CheckPadding(out, written);
    }
  }

  lemma DecryptingBegins(keys: seq<State>, iv: Block, out: array<Byte>)
    requires |keys| >= 2
    ensures Decrypting(keys, iv, [], out, iv)
  {}

  lemma DecryptingEnds(keys: seq<State>, iv: Block, data: seq<Byte>, out: array<Byte>, prev: Block)
    requires |keys| >= 2 && |data| % 16 == 0 && Decrypting(keys, iv, data, out, prev)
    ensures |data| <= out.Length && out[..|data|] == Unchain(keys, iv, data)
  {}

  /** Any non-empty message comes back with its length, and its padding is accepted. */
  lemma CbcRoundTrip(keys: seq<State>, iv: Block, m: seq<Byte>)
    requires |keys| >= 2 && m != []
    ensures var p := Unchain(keys, iv, Chain(keys, iv, Padded(m)));
      WellPadded(p) && |p| - p[|p| - 1] == |m| > 0 && p[..|m|] == m
  {
    UnchainChain(keys, iv, Padded(m));
    PaddingKept(m);
  }

}
