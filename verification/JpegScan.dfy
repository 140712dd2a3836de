/** The loop over the blocks of an image (jpec_enc_run in jpeg.c), the quantised blocks
    being given: the bytes written decode to the same blocks. */
module JpegScan {
  import opened Bits
  import opened BitStrings
  import opened Bytes
  import opened Huffman
  import opened JpegBits
  import opened JpegBlocks
  import Words

  // jpec_zz: where the i-th coefficient of the zigzag order stands in the block.

  function Zz0(i: nat): nat {
    match i
    case 0 => 0 case 1 => 1 case 2 => 8 case 3 => 16 case 4 => 9 case 5 => 2 case 6 => 3 case _ => 10
  }

  function Zz1(i: nat): nat {
    match i
    case 0 => 17 case 1 => 24 case 2 => 32 case 3 => 25 case 4 => 18 case 5 => 11 case 6 => 4 case _ => 5
  }

  function Zz2(i: nat): nat {
    match i
    case 0 => 12 case 1 => 19 case 2 => 26 case 3 => 33 case 4 => 40 case 5 => 48 case 6 => 41 case _ => 34
  }

  function Zz3(i: nat): nat {
    match i
    case 0 => 27 case 1 => 20 case 2 => 13 case 3 => 6 case 4 => 7 case 5 => 14 case 6 => 21 case _ => 28
  }

  function Zz4(i: nat): nat {
    match i
    case 0 => 35 case 1 => 42 case 2 => 49 case 3 => 56 case 4 => 57 case 5 => 50 case 6 => 43 case _ => 36
  }

  function Zz5(i: nat): nat {
    match i
    case 0 => 29 case 1 => 22 case 2 => 15 case 3 => 23 case 4 => 30 case 5 => 37 case 6 => 44 case _ => 51
  }

  function Zz6(i: nat): nat {
    match i
    case 0 => 58 case 1 => 59 case 2 => 52 case 3 => 45 case 4 => 38 case 5 => 31 case 6 => 39 case _ => 46
  }

  function Zz7(i: nat): nat {
    match i
    case 0 => 53 case 1 => 60 case 2 => 61 case 3 => 54 case 4 => 47 case 5 => 55 case 6 => 62 case _ => 63
  }

  function Zz(i: nat): (j: nat)
    ensures j < 64
  {
    match i / 8
    case 0 => Zz0(i % 8) case 1 => Zz1(i % 8) case 2 => Zz2(i % 8) case 3 => Zz3(i % 8)
    case 4 => Zz4(i % 8) case 5 => Zz5(i % 8) case 6 => Zz6(i % 8) case _ => Zz7(i % 8)
  }

  /** The place behind (row, column): along its anti-diagonal, upwards if that is an even one
      and else downwards, and at the edge on to the next. */
  function NextPlace(r: nat, c: nat): (int, int) {
    if (r + c) % 2 == 0 then
      if c == 7 then (r + 1, c) else if r == 0 then (r, c + 1) else (r - 1, c + 1)
    else
      if r == 7 then (r, c + 1) else if c == 0 then (r + 1, c) else (r + 1, c - 1)
  }

  predicate Follows(i: nat) {
    var (r, c) := NextPlace(Zz(i) / 8, Zz(i) % 8);
    Zz(i + 1) == 8 * r + c
  }

  lemma Places0(i: nat)
    requires 0 <= i < 16
    ensures Follows(i)
  {}

  lemma Places1(i: nat)
    requires 16 <= i < 32
    ensures Follows(i)
  {}

  lemma Places2(i: nat)
    requires 32 <= i < 48
    ensures Follows(i)
  {}

  lemma Places3(i: nat)
    requires 48 <= i < 63
    ensures Follows(i)
  {}

  /** The order runs through the anti-diagonals of the block, from the upper left corner on. */
  lemma ZigzagOrder(i: nat)
    requires i < 63
    ensures Zz(0) == 0
    ensures var r, c, s, d := Zz(i) / 8, Zz(i) % 8, Zz(i + 1) / 8, Zz(i + 1) % 8;
      if (r + c) % 2 == 0
      then (if r > 0 && c < 7 then s == r - 1 && d == c + 1 else if c < 7 then s == r && d == c + 1
            else s == r + 1 && d == c)
      else (if r < 7 && c > 0 then s == r + 1 && d == c - 1 else if r < 7 then s == r + 1 && d == c
            else s == r && d == c + 1)
  {
    hide Zz;
    Origin();
    if i < 16 {
      Places0(i);
    } else if i < 32 {
      Places1(i);
    } else if i < 48 {
      Places2(i);
    } else {
      Places3(i);
    }
  }

  lemma Origin()
    ensures Zz(0) == 0
  {}

  // The place of coefficient j in the zigzag order.

  function Unzz0(i: nat): nat {
    match i
    case 0 => 0 case 1 => 1 case 2 => 5 case 3 => 6 case 4 => 14 case 5 => 15 case 6 => 27 case _ => 28
  }

  function Unzz1(i: nat): nat {
    match i
    case 0 => 2 case 1 => 4 case 2 => 7 case 3 => 13 case 4 => 16 case 5 => 26 case 6 => 29 case _ => 42
  }

  function Unzz2(i: nat): nat {
    match i
    case 0 => 3 case 1 => 8 case 2 => 12 case 3 => 17 case 4 => 25 case 5 => 30 case 6 => 41 case _ => 43
  }

  function Unzz3(i: nat): nat {
    match i
    case 0 => 9 case 1 => 11 case 2 => 18 case 3 => 24 case 4 => 31 case 5 => 40 case 6 => 44 case _ => 53
  }

  function Unzz4(i: nat): nat {
    match i
    case 0 => 10 case 1 => 19 case 2 => 23 case 3 => 32 case 4 => 39 case 5 => 45 case 6 => 52 case _ => 54
  }

  function Unzz5(i: nat): nat {
    match i
    case 0 => 20 case 1 => 22 case 2 => 33 case 3 => 38 case 4 => 46 case 5 => 51 case 6 => 55 case _ => 60
  }

  function Unzz6(i: nat): nat {
    match i
    case 0 => 21 case 1 => 34 case 2 => 37 case 3 => 47 case 4 => 50 case 5 => 56 case 6 => 59 case _ => 61
  }

  function Unzz7(i: nat): nat {
    match i
    case 0 => 35 case 1 => 36 case 2 => 48 case 3 => 49 case 4 => 57 case 5 => 58 case 6 => 62 case _ => 63
  }

  function Unzz(i: nat): (j: nat)
    ensures j < 64
  {
    match i / 8
    case 0 => Unzz0(i % 8) case 1 => Unzz1(i % 8) case 2 => Unzz2(i % 8) case 3 => Unzz3(i % 8)
    case 4 => Unzz4(i % 8) case 5 => Unzz5(i % 8) case 6 => Unzz6(i % 8) case _ => Unzz7(i % 8)
  }

  lemma ZzUnzzLow(j: nat)
    requires j < 32
    ensures Zz(Unzz(j)) == j
  {}

  lemma ZzUnzzHigh(j: nat)
    requires 32 <= j < 64
    ensures Zz(Unzz(j)) == j
  {}

  lemma ZzUnzz(j: nat)
    requires j < 64
    ensures Zz(Unzz(j)) == j
  {
    hide Zz, Unzz;
    if j < 32 { ZzUnzzLow(j); } else { ZzUnzzHigh(j); }
  }

  /** The coefficients in zigzag order, and back in their places. */
  function Zigzag(q: seq<int>): (z: seq<int>)
    requires |q| == 64
    ensures |z| == 64
  {
    seq(64, i requires 0 <= i < 64 => q[Zz(i)])
  }

  function Unzigzag(z: seq<int>): (q: seq<int>)
    requires |z| == 64
    ensures |q| == 64
  {
    seq(64, j requires 0 <= j < 64 => z[Unzz(j)])
  }

  lemma ZigzagBack(q: seq<int>)
    requires |q| == 64
    ensures Unzigzag(Zigzag(q)) == q
  {
    hide Zz, Unzz;
    forall j | 0 <= j < 64 ensures Unzigzag(Zigzag(q))[j] == q[j] { ZzUnzz(j); }
  }

  /** One more than the last place before n that is not zero. */
  function LengthOf(z: seq<int>, n: nat): (len: nat)
    requires n <= |z|
    ensures len <= n && (len > 0 ==> z[len - 1] != 0)
    ensures forall i :: len <= i < n ==> z[i] == 0
  {
    if n == 0 then 0 else if z[n - 1] != 0 then n else LengthOf(z, n - 1)
  }

  /** jpec_enc_block_zz */
  method ScanBlock(quant: seq<int>, zz: array<int>) returns (len: nat)
    requires |quant| == 64 && zz.Length == 64
    modifies zz
    ensures zz[..] == Zigzag(quant) && len == LengthOf(zz[..], 64)
  {
    hide Zz;
    len := 0;
    for i := 0 to 64
      invariant zz[..i] == Zigzag(quant)[..i] && len == LengthOf(Zigzag(quant), i)
    {
      zz[i] := quant[Zz(i)];
      if zz[i] != 0 {
        len := i + 1;
      }
    }
    assert zz[..] == zz[..64];
  }

  // ---- The scan: all blocks of the image

  predicate IsScan(blocks: seq<seq<int>>) {
    forall i :: 0 <= i < |blocks| ==> |blocks[i]| == 64
  }

  /** Every number of the scan has a code; prev is the first coefficient before it. */
  predicate ScanEncodable(prev: int, blocks: seq<seq<int>>)
    requires IsScan(blocks)
    decreases |blocks|
  {
    blocks == [] ||
    (var z := Zigzag(blocks[0]);
     Encodable(prev, z, LengthOf(z, 64)) && ScanEncodable(z[0], blocks[1..]))
  }

  function ScanBits(prev: int, blocks: seq<seq<int>>): seq<bool>
    requires IsScan(blocks)
    decreases |blocks|
  {
    if blocks == [] then [] else
    var z := Zigzag(blocks[0]);
    BlockBits(prev, z, LengthOf(z, 64)) + ScanBits(z[0], blocks[1..])
  }

  datatype Scan = Scan(blocks: seq<seq<int>>, rest: seq<bool>) | BadScan

  /** n blocks, each predicting the first coefficient of the next. */
  function DecodeScan(n: nat, prev: int, bits: seq<bool>): Scan {
    if n == 0 then Scan([], bits) else
    match DecodeBlock(prev, bits)
    case Corrupt => BadScan
    case Decoded(coefs, rest) =>
      if |coefs| != 64 then BadScan
      else
        match DecodeScan(n - 1, coefs[0], rest)
        case BadScan => BadScan
        case Scan(blocks, end) => Scan([Unzigzag(coefs)] + blocks, end)
  }

  lemma CoefsAll(z: seq<int>)
    requires |z| == 64
    ensures Coefs(z, LengthOf(z, 64)) == z
  {}

  /** The decoder gets all blocks back, and stops behind the last one. */
  lemma {:induction false} ScanDecodes(prev: int, blocks: seq<seq<int>>, rest: seq<bool>)
    requires IsScan(blocks) && ScanEncodable(prev, blocks)
    ensures DecodeScan(|blocks|, prev, ScanBits(prev, blocks) + rest) == Scan(blocks, rest)
    decreases |blocks|
  {
    hide DecodeBlock, BlockBits, Zigzag, Unzigzag, LengthOf, Encodable, Coefs;
    if blocks == [] {
      assert ScanBits(prev, blocks) + rest == rest;
    } else {
      var z := Zigzag(blocks[0]);
      var len := LengthOf(z, 64);
      var more := ScanBits(z[0], blocks[1..]) + rest;
      CoefsAll(z);
      BlockDecodes(prev, z, len, more);
      assert ScanBits(prev, blocks) + rest == BlockBits(prev, z, len) + more;
      ScanDecodes(z[0], blocks[1..], rest);
      ZigzagBack(blocks[0]);
      assert [blocks[0]] + blocks[1..] == blocks;
    }
  }

  /** jpec_huff_encode_block: the state takes the file buffer of the call. */
  method EncodeBlock(h: HuffState, zz: seq<int>, len: nat, buf: ByteBuffer)
    requires h.Valid() && buf.Valid() && (h.buf == null || h.buf == buf)
    requires len <= |zz| == 64 && Encodable(h.dc, zz, len)
    modifies h, buf, buf.stream
    ensures h.Valid() && h.buf == buf && (buf.stream == old(buf.stream) || fresh(buf.stream))
    ensures h.Written() == old(h.Written()) + BlockBits(old(h.dc), zz, len)
    ensures h.dc == Coefs(zz, len)[0]
    ensures h.Header() == if old(h.buf) == null then old(buf.Contents()) else old(h.Header())
  {
    hide BlockBits, Encodable, Coefs;
    if h.buf == null {
      h.buf, h.start := buf, |buf.Contents()|;
      assert buf.Contents()[h.start..] == [] == Stuffed([]);
    }
    EncodeBlockImpl(zz, len, h);
  }

  // ---- The whole scan

  /** What stands in the file behind its header: the bits of the blocks, filled up with
      fewer than eight ones, as stuffed bytes. */
  ghost predicate HoldsScan(file: seq<Byte>, raw: seq<Byte>, blocks: seq<seq<int>>)
    requires IsScan(blocks)
  {
    var bits := ScanBits(0, blocks);
    && file == Stuffed(raw)
    && |bits| <= 8 * |raw| < |bits| + 8
    && BitsOf(raw) == bits + Ones(8 * |raw| - |bits|)
  }

  /** The coder has gone through the first i blocks of the scan. */
  ghost predicate Scanning(h: HuffState, buf: ByteBuffer, header: seq<Byte>, blocks: seq<seq<int>>, i: nat)
    requires IsScan(blocks)
    reads h, h.buf, if h.buf == null then {} else {h.buf.stream}
    reads buf, buf.stream
  {
    && h.Valid() && buf.Valid() && i <= |blocks|
    && h.buf == (if i == 0 then null else buf)
    && (if i == 0 then buf.Contents() else h.Header()) == header
    && ScanEncodable(h.dc, blocks[i..])
    && h.Written() + ScanBits(h.dc, blocks[i..]) == ScanBits(0, blocks)
  }

  method ScanNext(h: HuffState, buf: ByteBuffer, zz: array<int>, ghost header: seq<Byte>, blocks: seq<seq<int>>, i: nat)
    requires IsScan(blocks) && i < |blocks| && zz.Length == 64 && Scanning(h, buf, header, blocks, i)
    modifies h, buf, buf.stream, zz
    ensures Scanning(h, buf, header, blocks, i + 1) && (buf.stream == old(buf.stream) || fresh(buf.stream))
  {
    hide BlockBits, Encodable, Coefs, ScanBits, ScanEncodable, Zigzag, LengthOf, BitsWritten, Writing;
    ScanStep(h.dc, blocks, i);
    var len := ScanBlock(blocks[i], zz);
    EncodeBlock(h, zz[..], len, buf);
  }

  /** The block loop of jpec_enc_run and the closing of its coder, on an image of at least
      one block. */
  method EncodeScan(blocks: seq<seq<int>>, buf: ByteBuffer) returns (ghost raw: seq<Byte>)
    requires IsScan(blocks) && ScanEncodable(0, blocks) && blocks != [] && buf.Valid()
    modifies buf, buf.stream
    ensures buf.Valid()
    ensures old(buf.len) <= buf.len && buf.Contents()[..old(buf.len)] == old(buf.Contents())
    ensures HoldsScan(buf.Contents()[old(buf.len)..], raw, blocks)
  {
    hide Scanning, ScanBits, ScanEncodable, BitsWritten, Writing;
    var h := new HuffState();
    var zz := new int[64];
    ghost var header := buf.Contents();
    ScanBegins(h, buf, blocks);
    for i := 0 to |blocks|
      invariant fresh(h) && (buf.stream == old(buf.stream) || fresh(buf.stream))
      invariant Scanning(h, buf, header, blocks, i)
    {
      ScanNext(h, buf, zz, header, blocks, i);
    }
    ScanEnds(h, buf, header, blocks);
    Close(h);
    raw := h.raw;
    WritingIs(buf.Contents(), h.start, h.raw, h.buffer, h.nbits, h.pending);
  }

  lemma ScanBegins(h: HuffState, buf: ByteBuffer, blocks: seq<seq<int>>)
    requires IsScan(blocks) && ScanEncodable(0, blocks) && buf.Valid()
    requires h.buf == null && h.Valid() && h.dc == 0 && h.Written() == []
    ensures Scanning(h, buf, buf.Contents(), blocks, 0)
  {
    hide ScanBits, ScanEncodable, BitsWritten, Writing;
    assert blocks[0..] == blocks;
  }

  lemma ScanEnds(h: HuffState, buf: ByteBuffer, header: seq<Byte>, blocks: seq<seq<int>>)
    requires IsScan(blocks) && blocks != [] && Scanning(h, buf, header, blocks, |blocks|)
    ensures h.buf == buf && h.Valid() && h.Header() == header && h.Written() == ScanBits(0, blocks)
    ensures h.start <= |buf.Contents()|
  {
    assert blocks[|blocks|..] == [];
  }

  lemma ScanStep(prev: int, blocks: seq<seq<int>>, i: nat)
    requires IsScan(blocks) && i < |blocks| && ScanEncodable(prev, blocks[i..])
    ensures var z := Zigzag(blocks[i]); var len := LengthOf(z, 64);
      && Encodable(prev, z, len) && Coefs(z, len) == z
      && ScanEncodable(z[0], blocks[i + 1..])
      && ScanBits(prev, blocks[i..]) == BlockBits(prev, z, len) + ScanBits(z[0], blocks[i + 1..])
  {
    hide BlockBits, Encodable, Coefs, Zigzag, LengthOf;
    CoefsAll(Zigzag(blocks[i]));
    assert blocks[i..][1..] == blocks[i + 1..];
  }

  lemma WritingIs(file: seq<Byte>, start: nat, raw: seq<Byte>, buffer: Words.Word, n: nat, pending: nat)
    requires Writing(file, start, raw, buffer, n, pending)
    ensures start <= |file| && file[start..] == Stuffed(raw)
  {}

  /** The bytes of a scan hold no marker, and a decoder gets the blocks from them; behind them
      fewer than eight ones are left. */
  lemma FileDecodes(file: seq<Byte>, raw: seq<Byte>, blocks: seq<seq<int>>)
    requires IsScan(blocks) && ScanEncodable(0, blocks) && HoldsScan(file, raw, blocks)
    ensures forall i :: 0 <= i < |file| && file[i] == 0xFF ==> i + 1 < |file| && file[i + 1] == 0
    ensures var d := DecodeScan(|blocks|, 0, BitsOf(Unstuffed(file)));
      d.Scan? && d.blocks == blocks && |d.rest| < 8 && forall j :: 0 <= j < |d.rest| ==> d.rest[j]
  {
    hide DecodeScan, ScanBits, ScanEncodable, Stuffed, Unstuffed, BitsOf;
    UnstuffedStuffed(raw);
    ScanDecodes(0, blocks, Ones(8 * |raw| - |ScanBits(0, blocks)|));
    forall i | 0 <= i < |file| && file[i] == 0xFF ensures i + 1 < |file| && file[i + 1] == 0 {
      NoMarkers(raw, i);
    }
  }

}
