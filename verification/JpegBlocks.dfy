/** Entropy coding of blocks (jpec_enc_block_zz and jpec_huff_encode_block_impl in jpeg.c),
    and the decoding procedures of ITU-T T.81, which return the coefficients. */
module JpegBlocks {
  import opened Arith
  import opened Bits
  import opened BitStrings
  import opened Bytes
  import opened Words
  import opened Huffman
  import opened JpegBits
  import Radix

  // ---- Numbers and their sizes

  /** JPEC_HUFF_NBITS: the number of bits from the highest one down. */
  function NBits(v: nat): nat {
    if v == 0 then 0 else 1 + NBits(v / 2)
  }

  lemma {:induction false} NBitsRange(v: nat)
    requires v > 0
    ensures NBits(v) >= 1 && Pow2(NBits(v) - 1) <= v < Pow2(NBits(v))
  {
    if v > 1 { NBitsRange(v / 2); } else { assert NBits(1) == 1 + NBits(0); }
  }

  lemma {:induction false} NBitsBound(v: nat, n: nat)
    requires v < Pow2(n)
    ensures NBits(v) <= n
  {
    if v > 0 { NBitsBound(v / 2, n - 1); }
  }

  /** The word whose low bits follow the size: the value, or one less if it is negative. */
  function Extra(v: int): Word {
    (if v < 0 then v - 1 else v) % 0x1_0000_0000
  }

  function ValueBits(v: int): (bits: seq<bool>)
    ensures |bits| == NBits(Abs(v))
  {
    BigEndian(Extra(v), NBits(Abs(v)))
  }

  /** EXTEND of section F.2.2.1. */
  function Extend(v: nat, t: nat): int
    requires t >= 1
  {
    if v < Pow2(t - 1) then v - Pow2(t) + 1 else v
  }

  lemma WordLow(v: int, n: nat)
    requires n <= 32
    ensures 0 <= v % 0x1_0000_0000 % Pow2(n) && v % 0x1_0000_0000 % Pow2(n) == v % Pow2(n)
  {
    hide Pow2;
    WordPower();
    Pow2Sum(32 - n, n);
    var p, m := Pow2(n), Pow2(32 - n);
    var q, r := v / 0x1_0000_0000, v % 0x1_0000_0000;
    Assoc(q, m, p);
    var k := r / p;
    Euclid(r, p);
    Distribute(q * m, k, p);
    DivModUnique(p, q * m + k, r % p);
  }

  /** The size and the extra bits give the value back. */
  lemma ExtendValue(v: int)
    requires v != 0 && NBits(Abs(v)) <= 16
    ensures NBits(Abs(v)) >= 1 && Extend(Number(ValueBits(v)), NBits(Abs(v))) == v
  {
    hide Pow2, NBits, Number, BigEndian;
    var t := NBits(Abs(v));
    NBitsRange(Abs(v));
    var u := if v < 0 then v - 1 else v;
    WordLow(u, t);
    BigEndianLow(Extra(v), t);
    NumberOfBigEndian(u % Pow2(t), t);
    assert Pow2(t) == 2 * Pow2(t - 1) by { Pow2Sum(1, t - 1); assert Pow2(1) == 2 by { TwoIs(); } }
    if v < 0 {
      DivModUnique(Pow2(t), -1, u + Pow2(t));
    } else {
      DivModUnique(Pow2(t), 0, u);
    }
  }

  lemma TwoIs()
    ensures Pow2(1) == 2
  {}

  // ---- What is written for a block

  /** The coefficients that the first len entries stand for. */
  function Coefs(zz: seq<int>, len: nat): (c: seq<int>)
    requires len <= |zz| == 64
    ensures |c| == 64
  {
    zz[..len] + seq(64 - len, _ => 0)
  }

  /** The tables hold a code for every number of this block. */
  predicate Encodable(prev: int, zz: seq<int>, len: nat)
    requires len <= |zz| == 64
  {
    && NBits(Abs(Coefs(zz, len)[0] - prev)) <= 11
    && forall i :: 1 <= i < len ==> NBits(Abs(zz[i])) <= 10
  }

  function SymbolBits(j: nat): seq<bool> { BigEndian(AcCode(j), AcLen(j)) }

  function DcBits(diff: int): seq<bool> {
    BigEndian(DcCode(NBits(Abs(diff))), DcLen(NBits(Abs(diff)))) + ValueBits(diff)
  }

  /** nz zeros and then v. */
  function RunBits(nz: nat, v: int): seq<bool> {
    if nz >= 16 then SymbolBits(0xF0) + RunBits(nz - 16, v)
    else SymbolBits(nz * 16 + NBits(Abs(v))) + ValueBits(v)
  }

  /** The entries from i on, nz zeros before them not yet written. */
  function AcBits(zz: seq<int>, len: nat, i: nat, nz: nat): seq<bool>
    requires len <= |zz|
    decreases len - i
  {
    if i >= len then []
    else if zz[i] == 0 then AcBits(zz, len, i + 1, nz + 1)
    else RunBits(nz, zz[i]) + AcBits(zz, len, i + 1, 0)
  }

  function EndBits(len: nat): seq<bool> {
    if len < 64 then SymbolBits(0) else []
  }

  function BlockBits(prev: int, zz: seq<int>, len: nat): seq<bool>
    requires len <= |zz| == 64
  {
    DcBits(Coefs(zz, len)[0] - prev) + AcBits(zz, len, 1, 0) + EndBits(len)
  }

  // ---- The decoder

  datatype Decoded = Decoded(coefs: seq<int>, rest: seq<bool>) | Corrupt

  function Prepend(cs: seq<int>, d: Decoded): Decoded {
    if d.Decoded? then Decoded(cs + d.coefs, d.rest) else Corrupt
  }

  /** Coefficients k to 63 (section F.2.2.2). */
  function DecodeAc(bits: seq<bool>, k: nat): Decoded
    requires k <= 64
    decreases 64 - k
  {
    if k == 64 then Decoded([], bits) else
    match Lookup(true, bits, 0, 0)
    case NotFound => Corrupt
    case Found(rs, used) =>
      var r, s, left := rs / 16, rs % 16, bits[used..];
      if s == 0 then
        if r < 15 then Decoded(Radix.Zeros(64 - k), left)
        else if k + 16 > 64 then Corrupt
        else Prepend(Radix.Zeros(16), DecodeAc(left, k + 16))
      else if k + r >= 64 || |left| < s then Corrupt
      else Prepend(Radix.Zeros(r) + [Extend(Number(left[..s]), s)], DecodeAc(left[s..], k + r + 1))
  }

  /** A block (section F.2.2.1 for its first coefficient). */
  function DecodeBlock(prev: int, bits: seq<bool>): Decoded {
    match Lookup(false, bits, 0, 0)
    case NotFound => Corrupt
    case Found(t, used) =>
      var left := bits[used..];
      if |left| < t then Corrupt
      else
        var diff := if t == 0 then 0 else Extend(Number(left[..t]), t);
        Prepend([prev + diff], DecodeAc(left[t..], 1))
  }

  // ---- Round trip

  /** A symbol is found, and what follows it is left. */
  lemma SymbolDecodes(j: nat, more: seq<bool>)
    requires IsAcSymbol(j)
    ensures var bits := SymbolBits(j) + more;
      Lookup(true, bits, 0, 0) == Found(j, |SymbolBits(j)|) && bits[|SymbolBits(j)|..] == more
  {
    hide Lookup, IsCode, AcCode, AcLen;
    AcIsCode(j);
    LookupCode(true, j, AcCode(j), AcLen(j), more);
  }

  lemma SixteenZeros(more: seq<bool>, k: nat)
    requires k + 16 <= 64
    ensures DecodeAc(SymbolBits(0xF0) + more, k) == Prepend(Radix.Zeros(16), DecodeAc(more, k + 16))
  {
    hide SymbolBits, Lookup, Number, Extend;
    SymbolDecodes(0xF0, more);
  }

  lemma EndOfBlock(more: seq<bool>, k: nat)
    requires k < 64
    ensures DecodeAc(SymbolBits(0) + more, k) == Decoded(Radix.Zeros(64 - k), more)
  {
    hide SymbolBits, Lookup, Number, Extend;
    SymbolDecodes(0, more);
  }

  lemma ShortRun(r: nat, v: int, more: seq<bool>, k: nat)
    requires r < 16 && k + r < 64 && v != 0 && NBits(Abs(v)) <= 10
    ensures DecodeAc(SymbolBits(r * 16 + NBits(Abs(v))) + (ValueBits(v) + more), k)
         == Prepend(Radix.Zeros(r) + [v], DecodeAc(more, k + r + 1))
  {
    hide SymbolBits, Lookup, Number, Extend, NBits, Abs, DecodeAc, ValueBits;
    ExtendValue(v);
    var s := NBits(Abs(v));
    var left := ValueBits(v) + more;
    SymbolDecodes(r * 16 + s, left);
    DivModUnique(16, r, s);
    assert left[..s] == ValueBits(v) && left[s..] == more;
    DecodeValue(SymbolBits(r * 16 + s) + left, k, r, s, |SymbolBits(r * 16 + s)|);
  }

  /** What the decoder does with a symbol that announces a value. */
  lemma DecodeValue(bits: seq<bool>, k: nat, r: nat, s: nat, used: nat)
    requires k + r < 64 && s > 0 && used <= |bits| && s <= |bits[used..]| && Lookup(true, bits, 0, 0).Found?
    requires var rs := Lookup(true, bits, 0, 0).sym; rs / 16 == r && rs % 16 == s
    requires Lookup(true, bits, 0, 0).used == used
    ensures var left := bits[used..];
      DecodeAc(bits, k) == Prepend(Radix.Zeros(r) + [Extend(Number(left[..s]), s)], DecodeAc(left[s..], k + r + 1))
  {
    hide Lookup, Number, Extend, Prepend, Radix.Zeros;
  }

  /** A run of zeros of any length, and the value behind it. */
  lemma {:induction false} RunDecodes(nz: nat, v: int, more: seq<bool>, k: nat)
    requires k + nz < 64 && v != 0 && NBits(Abs(v)) <= 10
    ensures DecodeAc(RunBits(nz, v) + more, k) == Prepend(Radix.Zeros(nz) + [v], DecodeAc(more, k + nz + 1))
  {
    hide SymbolBits, DecodeAc, NBits, Abs, ValueBits;
    if nz >= 16 {
      RunDecodes(nz - 16, v, more, k + 16);
      assert RunBits(nz, v) + more == SymbolBits(0xF0) + (RunBits(nz - 16, v) + more);
      SixteenZeros(RunBits(nz - 16, v) + more, k);
      var d := DecodeAc(more, k + nz + 1);
      if d.Decoded? {
        assert Radix.Zeros(16) + ((Radix.Zeros(nz - 16) + [v]) + d.coefs) == (Radix.Zeros(nz) + [v]) + d.coefs;
      }
    } else {
      ShortRun(nz, v, more, k);
      assert RunBits(nz, v) + more == SymbolBits(nz * 16 + NBits(Abs(v))) + (ValueBits(v) + more);
    }
  }

  /** The nz entries before i are zeros that are not written yet. */
  predicate ZerosWait(zz: seq<int>, len: nat, i: nat, nz: nat)
    requires len <= |zz| == 64
  {
    && nz < i <= 64 && (i <= len || (i == 1 && nz == 0))
    && forall m :: i - nz <= m < i ==> Coefs(zz, len)[m] == 0
  }

  /** The decoder reads back what AcBits writes, and stops at its end. */
  lemma {:induction false} AcDecodes(zz: seq<int>, len: nat, i: nat, nz: nat, rest: seq<bool>)
    requires len <= |zz| == 64 && (len == 64 ==> zz[63] != 0)
    requires forall m :: 1 <= m < len ==> NBits(Abs(zz[m])) <= 10
    requires ZerosWait(zz, len, i, nz)
    ensures DecodeAc(AcBits(zz, len, i, nz) + (EndBits(len) + rest), i - nz) == Decoded(Coefs(zz, len)[i - nz..], rest)
    decreases 64 - i
  {
    hide SymbolBits, DecodeAc, NBits, Abs, RunBits;
    var c, tail := Coefs(zz, len), EndBits(len) + rest;
    if i >= len {
      assert AcBits(zz, len, i, nz) + tail == tail;
      if len < 64 {
        EndOfBlock(rest, i - nz);
        assert c[i - nz..] == Radix.Zeros(64 - (i - nz));
      } else {
        NoneLeft(rest);
        assert c[63] == zz[63];
        assert tail == rest && c[64..] == [];
      }
    } else if zz[i] == 0 {
      AcDecodes(zz, len, i + 1, nz + 1, rest);
    } else {
      AcDecodes(zz, len, i + 1, 0, rest);
      RunDecodes(nz, zz[i], AcBits(zz, len, i + 1, 0) + tail, i - nz);
      assert AcBits(zz, len, i, nz) + tail == RunBits(nz, zz[i]) + (AcBits(zz, len, i + 1, 0) + tail);
      assert c[i - nz..] == Radix.Zeros(nz) + [zz[i]] + c[i + 1..];
    }
  }

  lemma NoneLeft(rest: seq<bool>)
    ensures DecodeAc(rest, 64) == Decoded([], rest)
  {}

  lemma DcDecodes(diff: int, more: seq<bool>, prev: int)
    requires NBits(Abs(diff)) <= 11
    ensures DecodeBlock(prev, DcBits(diff) + more) == Prepend([prev + diff], DecodeAc(more, 1))
  {
    hide Lookup, IsCode, DcCode, DcLen, DecodeAc, NBits, Extend, Number, Abs;
    var t := NBits(Abs(diff));
    var code, len := DcCode(t), DcLen(t);
    DcIsCode(t);
    var left := ValueBits(diff) + more;
    LookupCode(false, t, code, len, left);
    var bits := BigEndian(code, len) + left;
    assert DcBits(diff) + more == bits;
    assert bits[len..] == left;
    assert left[..t] == ValueBits(diff) && left[t..] == more;
    SizeZero(diff);
    if t > 0 { ExtendValue(diff); }
  }

  lemma SizeZero(v: int)
    ensures NBits(Abs(v)) == 0 <==> v == 0
  {}

  /** Decoding a block gives its 64 coefficients and leaves what follows it. A full block
      must not end in a zero; ScanBlock makes no such block. */
  lemma BlockDecodes(prev: int, zz: seq<int>, len: nat, rest: seq<bool>)
    requires len <= |zz| == 64 && Encodable(prev, zz, len) && (len == 64 ==> zz[63] != 0)
    ensures DecodeBlock(prev, BlockBits(prev, zz, len) + rest) == Decoded(Coefs(zz, len), rest)
  {
    hide NBits, Abs, DcBits, AcBits, EndBits, DecodeBlock, DecodeAc;
    var c := Coefs(zz, len);
    var more := AcBits(zz, len, 1, 0) + (EndBits(len) + rest);
    DcDecodes(c[0] - prev, more, prev);
    AcDecodes(zz, len, 1, 0, rest);
    assert BlockBits(prev, zz, len) + rest == DcBits(c[0] - prev) + more;
    assert c == [c[0]] + c[1..];
  }

  // ---- jpec_huff_encode_block_impl

  lemma CodeIsWord(ac: bool, sym: nat, code: nat, n: nat)
    requires IsCode(ac, sym, code, n)
    ensures code < 0x1_0000_0000 && 0 < n <= 16
  {
    hide IsCode, Pow2;
    CodeRange(ac, sym, code, n);
    WordPower();
    Pow2Mono(n, 32);
  }

  /** The sign is taken off, and the size code and the value's own bits follow. */
  method WriteDc(h: HuffState, diff: int)
    requires h.buf != null && h.Valid() && NBits(Abs(diff)) <= 11
    modifies h`buffer, h`nbits, h`raw, h`pending, h.buf, h.buf.stream
    ensures h.Valid() && (h.buf.stream == old(h.buf.stream) || fresh(h.buf.stream))
    ensures h.Written() == old(h.Written()) + DcBits(diff)
    ensures h.Header() == old(h.Header())
  {
    hide NBits, DcCode, DcLen, IsCode, BitsWritten, Writing, BigEndian;
    var val, bits := diff, diff;
    if val < 0 {
      val := -val;
      bits := -val - 1;
    }
    var nbits := NBits(val);
    DcIsCode(nbits);
    CodeIsWord(false, nbits, DcCode(nbits), DcLen(nbits));
    h.WriteBits(DcCode(nbits), DcLen(nbits));
    if nbits != 0 {
      h.WriteBits(bits % 0x1_0000_0000, nbits);
    }
  }

  /** The symbol for sixteen zeros, as often as it fits into nz0. */
  method WriteSixteens(h: HuffState, nz0: nat, ghost v: int) returns (nz: nat)
    requires h.buf != null && h.Valid()
    modifies h`buffer, h`nbits, h`raw, h`pending, h.buf, h.buf.stream
    ensures nz < 16 && h.Valid() && (h.buf.stream == old(h.buf.stream) || fresh(h.buf.stream))
    ensures h.Written() + RunBits(nz, v) == old(h.Written()) + RunBits(nz0, v)
    ensures h.Header() == old(h.Header())
  {
    hide AcCode, AcLen, IsCode, BitsWritten, Writing, BigEndian, RunBits;
    nz := nz0;
    while nz >= 16
      invariant h.buf == old(h.buf) && h.Valid() && (h.buf.stream == old(h.buf.stream) || fresh(h.buf.stream))
      invariant h.Written() + RunBits(nz, v) == old(h.Written()) + RunBits(nz0, v)
      invariant h.Header() == old(h.Header())
    {
      AcIsCode(0xF0);
      CodeIsWord(true, 0xF0, AcCode(0xF0), AcLen(0xF0));
      SixteenMore(h.Written(), nz, v);
      h.WriteBits(AcCode(0xF0), AcLen(0xF0));
      nz := nz - 16;
    }
  }

  lemma SixteenMore(w: seq<bool>, nz: nat, v: int)
    requires nz >= 16
    ensures w + RunBits(nz, v) == w + BigEndian(AcCode(0xF0), AcLen(0xF0)) + RunBits(nz - 16, v)
  {
    hide BigEndian, AcCode, AcLen, ValueBits;
  }

  lemma LastOfRun(w: seq<bool>, nz: nat, v: int)
    requires nz < 16
    ensures var j := nz * 16 + NBits(Abs(v));
      w + RunBits(nz, v) == w + BigEndian(AcCode(j), AcLen(j)) + ValueBits(v)
  {
    hide BigEndian, AcCode, AcLen, ValueBits;
  }

  /** The zeros that wait, and a value that is not zero. */
  method WriteRun(h: HuffState, nz0: nat, v: int)
    requires h.buf != null && h.Valid() && v != 0 && NBits(Abs(v)) <= 10
    modifies h`buffer, h`nbits, h`raw, h`pending, h.buf, h.buf.stream
    ensures h.Valid() && (h.buf.stream == old(h.buf.stream) || fresh(h.buf.stream))
    ensures h.Written() == old(h.Written()) + RunBits(nz0, v)
    ensures h.Header() == old(h.Header())
  {
    hide NBits, AcCode, AcLen, IsCode, BitsWritten, Writing, BigEndian, RunBits, Radix.Zeros;
    var nz := WriteSixteens(h, nz0, v);
    LastOfRun(h.Written(), nz, v);
    var val, bits := v, v;
    if val < 0 {
      val := -val;
      bits := -val - 1;
    }
    var nbits := NBits(val);
    SizeZero(v);
    var j := nz * 16 + nbits;
    AcIsCode(j);
    CodeIsWord(true, j, AcCode(j), AcLen(j));
    h.WriteBits(AcCode(j), AcLen(j));
    if nbits != 0 {
      h.WriteBits(bits % 0x1_0000_0000, nbits);
    }
  }

  /** jpec_huff_encode_block_impl. */
  method EncodeBlockImpl(zz: seq<int>, len: nat, h: HuffState)
    requires h.buf != null && h.Valid() && len <= |zz| == 64 && Encodable(h.dc, zz, len)
    modifies h`buffer, h`nbits, h`raw, h`pending, h`dc, h.buf, h.buf.stream
    ensures h.Valid() && (h.buf.stream == old(h.buf.stream) || fresh(h.buf.stream))
    ensures h.Written() == old(h.Written()) + BlockBits(old(h.dc), zz, len)
    ensures h.dc == Coefs(zz, len)[0]
    ensures h.Header() == old(h.Header())
  {
    hide NBits, AcCode, AcLen, IsCode, BitsWritten, Writing, BigEndian, RunBits, DcBits, Abs;
    var val;
    if len > 0 {
      val := zz[0] - h.dc;
      h.dc := zz[0];
    } else {
      val := -h.dc;
      h.dc := 0;
    }
    WriteDc(h, val);
    ghost var before := h.Written();
    var nz := 0;
    var i := 1;
    while i < len
      invariant h.buf == old(h.buf) && h.Valid() && (h.buf.stream == old(h.buf.stream) || fresh(h.buf.stream))
      invariant 1 <= i && h.dc == Coefs(zz, len)[0]
      invariant h.Written() + AcBits(zz, len, i, nz) == before + AcBits(zz, len, 1, 0)
      invariant h.Header() == old(h.Header())
    {
      val := zz[i];
      if val == 0 {
        nz := nz + 1;
      } else {
        WriteRun(h, nz, val);
        nz := 0;
      }
      i := i + 1;
    }
    assert h.Written() == before + AcBits(zz, len, 1, 0);
    if len < 64 {
      AcIsCode(0);
      CodeIsWord(true, 0, AcCode(0), AcLen(0));
      h.WriteBits(AcCode(0), AcLen(0));
    }
    BlockParts(old(h.Written()), old(h.dc), zz, len);
  }

  lemma BlockParts(before: seq<bool>, prev: int, zz: seq<int>, len: nat)
    requires len <= |zz| == 64
    ensures before + DcBits(Coefs(zz, len)[0] - prev) + AcBits(zz, len, 1, 0) + EndBits(len)
         == before + BlockBits(prev, zz, len)
    ensures EndBits(len) == if len < 64 then BigEndian(AcCode(0), AcLen(0)) else []
  {
    hide DcBits, AcBits, BigEndian, AcCode, AcLen;
  }

}
