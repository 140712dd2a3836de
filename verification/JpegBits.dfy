/** The bit writer of the JPEG encoder (jpec_buffer_write_byte, jpec_huff_write_bits and
    jpec_huff_del in jpeg.c): bits go out as bytes, with a zero byte behind every 0xFF. */
module JpegBits {
  import opened Arith
  import opened Bits
  import opened BitStrings
  import opened Bytes
  import opened Sequences
  import opened Words

  // ---- Stuffing

  function Stuff(b: Byte): seq<Byte> {
    if b == 0xFF then [b, 0] else [b]
  }

  /** Entropy-coded bytes as they stand in the file. */
  function Stuffed(raw: seq<Byte>): seq<Byte> {
    if raw == [] then [] else Stuff(raw[0]) + Stuffed(raw[1..])
  }

  /** What a decoder takes from them (section F.2.2.5 of ITU-T T.81). */
  function Unstuffed(s: seq<Byte>): seq<Byte> {
    if s == [] then []
    else if s[0] == 0xFF && |s| > 1 && s[1] == 0 then [0xFF] + Unstuffed(s[2..])
    else [s[0]] + Unstuffed(s[1..])
  }

  lemma {:induction false} StuffedSnoc(raw: seq<Byte>, b: Byte)
    ensures Stuffed(raw + [b]) == Stuffed(raw) + Stuff(b)
  {
    hide Stuff;
    if raw == [] {
      assert Stuffed([b]) == Stuff(b) + Stuffed([]);
      assert raw + [b] == [b];
    } else {
      StuffedSnoc(raw[1..], b);
      assert (raw + [b])[1..] == raw[1..] + [b];
      Associate(Stuff(raw[0]), Stuffed(raw[1..]), Stuff(b));
    }
  }

  lemma {:induction false} UnstuffedStuffed(raw: seq<Byte>)
    ensures Unstuffed(Stuffed(raw)) == raw
  {
    if raw != [] {
      var rest := Stuffed(raw[1..]);
      UnstuffedStuffed(raw[1..]);
      if raw[0] == 0xFF {
        assert Stuffed(raw)[2..] == rest;
      } else {
        assert Stuffed(raw)[1..] == rest;
      }
      assert raw == [raw[0]] + raw[1..];
    }
  }

  /** No marker can appear in the entropy-coded bytes. */
  lemma {:induction false} NoMarkers(raw: seq<Byte>, i: nat)
    requires i < |Stuffed(raw)| && Stuffed(raw)[i] == 0xFF
    ensures i + 1 < |Stuffed(raw)| && Stuffed(raw)[i + 1] == 0
  {
    var n := |Stuff(raw[0])|;
    if i >= n {
      NoMarkers(raw[1..], i - n);
    }
  }

  // ---- The byte buffer

  const JPEC_BUFFER_INIT_SIZ := 65536

  class ByteBuffer {
    var stream: array<Byte>
    var len: nat

    ghost predicate Valid() reads this { len <= stream.Length }

    ghost function Contents(): (s: seq<Byte>)
      requires Valid()
      reads this, stream
      ensures |s| == len
    {
      stream[..len]
    }

    /** jpec_buffer_new2 */
    constructor (siz: int)
      ensures Valid() && fresh(stream) && Contents() == []
      ensures stream.Length == if siz < 0 then 0 else siz
    {
      stream := new Byte[if siz < 0 then 0 else siz](_ => 0);
      len := 0;
    }

    /** jpec_buffer_write_byte: a full buffer doubles. */
    method WriteByte(val: nat)
      requires Valid()
      modifies this, stream
      ensures Valid() && (stream == old(stream) || fresh(stream))
      ensures Contents() == old(Contents()) + [val % 256]
      ensures stream.Length == if old(stream.Length) > old(len) then old(stream.Length)
                               else if old(stream.Length) > 0 then 2 * old(stream.Length) else JPEC_BUFFER_INIT_SIZ
    {
      if stream.Length == len {
        var nsiz := if stream.Length > 0 then 2 * stream.Length else JPEC_BUFFER_INIT_SIZ;
        var tmp := new Byte[nsiz](_ => 0);
        forall i | 0 <= i < len { tmp[i] := stream[i]; }
        assert tmp[..len] == stream[..len];
        stream := tmp;
      }
      stream[len] := val % 256;
      len := len + 1;
      assert stream[..len] == old(Contents()) + [val % 256];
    }
  }

  // ---- The bits waiting in the 24-bit buffer

  /** The n bits of `pending` stand at the top of the low 24 bits of the buffer; above
      them is what earlier bytes left behind. */
  predicate Pends(buffer: Word, n: nat, pending: nat) {
    n <= 24 && pending < Pow2(n) && buffer % 0x100_0000 == pending * Pow2(24 - n)
  }

  lemma Pow2Values()
    ensures Pow2(8) == 0x100 && Pow2(16) == 0x1_0000 && Pow2(24) == 0x100_0000
  {
    assert Pow2(8) == 256;
    Pow2Sum(8, 8);
    Pow2Sum(16, 8);
  }

  lemma MaskFits(bits: Word, n: nat)
    requires n <= 16
    ensures And(bits, Pow2(n) - 1) == bits % Pow2(n) < Pow2(n)
  {
    hide Pow2;
    MaskIsRemainder(bits, n);
  }

  /** A product fits as many bits as its factors together. */
  lemma JoinedBound(a: nat, b: nat, k: nat, n: nat)
    requires a < Pow2(k) && b < Pow2(n)
    ensures a * Pow2(n) + b < Pow2(k + n)
  {
    hide Pow2;
    Pow2Sum(k, n);
    MulMono(a, Pow2(k) - 1, Pow2(n));
    Distribute(Pow2(k), -1, Pow2(n));
  }

  lemma TopBits(buffer: Word, k: nat, pending: nat)
    requires Pends(buffer, k, pending)
    ensures 0 <= buffer / 0x100_0000 * Pow2(k)
    ensures buffer == (buffer / 0x100_0000 * Pow2(k) + pending) * Pow2(24 - k)
  {
    hide Pow2;
    Pow2Values();
    Pow2Sum(k, 24 - k);
    var g := buffer / 0x100_0000;
    Distribute(g * Pow2(k), pending, Pow2(24 - k));
    Assoc(g, Pow2(k), Pow2(24 - k));
    MulMono(0, g, Pow2(k));
  }

  /** The new bits are shifted below the pending ones. */
  lemma Joined(was: Word, k: nat, pending: nat, v: nat, n: nat)
    requires Pends(was, k, pending) && k + n <= 24 && v < Pow2(n)
    ensures 0 <= v * Pow2(24 - (k + n)) < 0x100_0000
    ensures Pends(OrWord(v * Pow2(24 - (k + n)), was), k + n, pending * Pow2(n) + v)
  {
    hide *;
    PendsRange(was, k, pending);
    var g := was / 0x100_0000;
    var h := g * Pow2(k) + pending;
    TopBits(was, k, pending);
    ShiftedBelow(v, n, 24 - k);
    assert 24 - k - n == 24 - (k + n);
    Below24(24 - k);
    OrSum(v * Pow2(24 - (k + n)), h, 24 - k);
    Recombined(g, pending, k, v, n);
    JoinedBound(pending, v, k, n);
    OrWordIs(v * Pow2(24 - (k + n)), was);
    PendsSum(OrWord(v * Pow2(24 - (k + n)), was), g, k + n, pending * Pow2(n) + v);
  }

  lemma PendsRange(buffer: Word, n: nat, pending: nat)
    requires Pends(buffer, n, pending)
    ensures n <= 24 && pending < Pow2(n)
  {}

  lemma Below24(n: nat)
    requires n <= 24
    ensures Pow2(n) <= 0x100_0000
  {
    hide Pow2;
    Pow2Values();
    Pow2Mono(n, 24);
  }

  lemma OrWordIs(a: Word, b: Word)
    ensures OrWord(a, b) == Or(a, b)
  {}

  lemma PendsSum(buffer: Word, g: nat, n: nat, pending: nat)
    requires n <= 24 && pending < Pow2(n) && buffer == g * 0x100_0000 + pending * Pow2(24 - n)
    ensures Pends(buffer, n, pending)
  {
    hide Pow2;
    Pow2Values();
    ShiftedBelow(pending, n, 24);
    DivModUnique(0x100_0000, g, pending * Pow2(24 - n));
  }

  lemma ShiftedBelow(v: nat, n: nat, m: nat)
    requires v < Pow2(n) && n <= m
    ensures 0 <= v * Pow2(m - n) < Pow2(m)
  {
    hide Pow2;
    JoinedBound(v, 0, n, m - n);
    MulMono(0, v, Pow2(m - n));
  }

  lemma Recombined(g: nat, pending: nat, k: nat, v: nat, n: nat)
    requires k + n <= 24
    ensures (g * Pow2(k) + pending) * Pow2(24 - k) + v * Pow2(24 - (k + n))
         == g * 0x100_0000 + (pending * Pow2(n) + v) * Pow2(24 - (k + n))
  {
    hide Pow2;
    Pow2Values();
    Pow2Sum(k, 24 - k);
    Pow2Sum(n, 24 - (k + n));
    Regrouped(g, pending, v, Pow2(k), Pow2(24 - k), Pow2(n), Pow2(24 - (k + n)));
  }

  lemma Regrouped(g: int, pending: int, v: int, a: int, b: int, c: int, s: int)
    requires a * b == 0x100_0000 && c * s == b
    ensures (g * a + pending) * b + v * s == g * 0x100_0000 + (pending * c + v) * s
  {
    Distribute(g * a, pending, b);
    assert g * a * b == g * 0x100_0000 by { Assoc(g, a, b); }
    assert pending * b == pending * c * s by { Assoc(pending, c, s); }
    Distribute(pending * c, v, s);
  }

  /** The eight bits that leave the buffer, and what then waits in it. */
  lemma FirstByte(buffer: Word, n: nat, pending: nat)
    requires Pends(buffer, n, pending) && 8 <= n
    ensures 0 <= pending / Pow2(n - 8) < 256 && 0 <= pending % Pow2(n - 8)
    ensures buffer / 0x1_0000 % 0x100 == pending / Pow2(n - 8)
    ensures Pends(buffer * 0x100 % 0x1_0000_0000, n - 8, pending % Pow2(n - 8))
  {
    hide Pow2;
    Pow2Values();
    var m, p := Pow2(n - 8), Pow2(24 - n);
    var q, r := pending / m, pending % m;
    Pow2Sum(n - 8, 24 - n);
    Pow2Sum(8, n - 8);
    Pow2Sum(8, 24 - n);
    LowPart(pending, m, 0x100);
    Euclid(pending, m);
    Distribute(q * m, r, p);
    Assoc(q, m, p);
    ShiftedBelow(r, n - 8, 16);
    Assoc(0x100, r, p);
    Assoc(r, 0x100, p);
    ByteOut(buffer, q, r * p);
    Quotient(pending, m);
  }

  lemma ByteOut(buffer: Word, q: nat, w: nat)
    requires q < 0x100 && w < 0x1_0000 && buffer % 0x100_0000 == q * 0x1_0000 + w
    ensures buffer / 0x1_0000 % 0x100 == q
    ensures (buffer * 0x100 % 0x1_0000_0000) % 0x100_0000 == w * 0x100
  {
    var g, r := buffer / 0x100_0000, q * 0x100_0000 + w * 0x100;
    assert buffer == (g * 0x100 + q) * 0x1_0000 + w;
    DivModUnique(0x1_0000, g * 0x100 + q, w);
    DivModUnique(0x100, g, q);
    assert buffer * 0x100 == g * 0x1_0000_0000 + r;
    DivModUnique(0x1_0000_0000, g, r);
    DivModUnique(0x100_0000, q, w * 0x100);
  }

  // ---- The Huffman state

  /** The file from `start` on holds the bytes `raw`, and `n` more bits wait in the buffer. */
  ghost predicate Writing(file: seq<Byte>, start: nat, raw: seq<Byte>, buffer: Word, n: nat, pending: nat) {
    start <= |file| && file[start..] == Stuffed(raw) && Pends(buffer, n, pending)
  }

  ghost function BitsWritten(raw: seq<Byte>, n: nat, pending: nat): seq<bool> {
    BitsOf(raw) + BigEndian(pending, n)
  }

  /** One round of the writer's loop. */
  lemma ByteWritten(file: seq<Byte>, start: nat, raw: seq<Byte>, buffer: Word, n: nat, pending: nat)
    requires Writing(file, start, raw, buffer, n, pending) && n >= 8
    ensures var chunk := buffer / 0x1_0000 % 0x100; var left := pending % Pow2(n - 8);
            && left >= 0
            && Writing(file + Stuff(chunk), start, raw + [chunk], buffer * 0x100 % 0x1_0000_0000, n - 8, left)
            && BitsWritten(raw + [chunk], n - 8, left) == BitsWritten(raw, n, pending)
  {
    hide Pends, Pow2, Stuffed, BitsOf, BigEndian, Stuff;
    FirstByte(buffer, n, pending);
    var chunk := buffer / 0x1_0000 % 0x100;
    StuffedSnoc(raw, chunk);
    assert (file + Stuff(chunk))[start..] == file[start..] + Stuff(chunk);
    BitsOfAppend(raw, [chunk]);
    BitsOfByte(chunk);
    BigEndianSplit(pending, 8, n - 8);
    assert 8 + (n - 8) == n;
  }

  /** The number with n more bits. */
  function Appended(pending: nat, n: nat, v: nat): nat { pending * Pow2(n) + v }

  /** New bits behind the pending ones: v is put at high in the buffer and behind the
      pending bits. */
  lemma BitsJoined(file: seq<Byte>, start: nat, raw: seq<Byte>, buffer: Word, k: nat, pending: nat, bits: Word, n: nat,
                   v: nat, high: Word, joined: nat)
    requires Writing(file, start, raw, buffer, k, pending) && k < 8 && n <= 16
    requires v == And(bits, Pow2(n) - 1) && high == v * Pow2(24 - (k + n)) && joined == Appended(pending, n, v)
    ensures Writing(file, start, raw, OrWord(high, buffer), k + n, joined)
    ensures BitsWritten(raw, k + n, joined) == BitsWritten(raw, k, pending) + BigEndian(bits, n)
  {
    hide Pends, Pow2, Stuffed, BitsOf, BigEndian, And, OrWord;
    MaskFits(bits, n);
    Joined(buffer, k, pending, v, n);
    BigEndianLow(bits, n);
    BigEndianSplit(joined, k, n);
    DivModUnique(Pow2(n), pending, v);
  }

  /** Where new bits go they fit. */
  lemma MaskedShift(bits: Word, k: nat, n: nat)
    requires k < 8 && n <= 16
    ensures 0 <= And(bits, Pow2(n) - 1) * Pow2(24 - (k + n)) < 0x100_0000
  {
    hide Pow2, And;
    MaskFits(bits, n);
    ShiftedBelow(And(bits, Pow2(n) - 1), n, 24 - k);
    assert 24 - k - n == 24 - (k + n);
    Below24(24 - k);
  }

  class HuffState {
    var buffer: Word
    var nbits: nat
    var dc: int
    var buf: ByteBuffer?
    /** Where the entropy-coded bytes begin in the file, these bytes before stuffing, and
        the bits that still wait. */
    ghost var start: nat
    ghost var raw: seq<Byte>
    ghost var pending: nat

    ghost predicate Valid()
      reads this, buf, if buf == null then {} else {buf.stream}
    {
      && nbits < 8
      && if buf == null then raw == [] && nbits == pending == buffer == 0
         else buf.Valid() && Writing(buf.Contents(), start, raw, buffer, nbits, pending)
    }

    /** All bits written so far. */
    ghost function Written(): seq<bool>
      reads this
    {
      BitsWritten(raw, nbits, pending)
    }

    /** The file before the entropy-coded bytes. */
    ghost function Header(): seq<Byte>
      requires buf != null && Valid()
      reads this, buf, if buf == null then {} else {buf.stream}
    {
      buf.Contents()[..start]
    }

    /** jpec_huff_new */
    constructor ()
      ensures Valid() && buf == null && dc == 0 && Written() == []
    {
      buffer, nbits, dc, buf := 0, 0, 0, null;
      start, raw, pending := 0, [], 0;
    }

    /** A byte, and a zero byte behind 0xFF. */
    method PutChunk(chunk: Byte)
      requires buf != null && buf.Valid()
      modifies buf, buf.stream
      ensures buf.Valid() && (buf.stream == old(buf.stream) || fresh(buf.stream))
      ensures buf.Contents() == old(buf.Contents()) + Stuff(chunk)
    {
      buf.WriteByte(chunk);
      if chunk == 0xFF {
        buf.WriteByte(0x00);
      }
    }

    /** jpec_huff_write_bits: the n low bits of `bits` follow what is written already. */
    method WriteBits(bits: Word, n: nat)
      requires buf != null && Valid() && 0 < n <= 16
      modifies this`buffer, `nbits, `raw, `pending, buf, buf.stream
      ensures Valid() && (buf.stream == old(buf.stream) || fresh(buf.stream))
      ensures Written() == old(Written()) + BigEndian(bits, n)
      ensures Header() == old(Header())
    {
      hide Pow2, Writing, BitsWritten, Stuff, And, OrWord, BigEndian;
      var mask := Pow2(n) - 1;
      var nb: nat := nbits + n;
      MaskedShift(bits, nbits, n);
      var masked := And(bits, mask);
      var high: Word := masked * Pow2(24 - nb);
      ghost var joined := Appended(pending, n, masked);
      BitsJoined(buf.Contents(), start, raw, buffer, nbits, pending, bits, n, masked, high, joined);
      var b: Word := OrWord(high, buffer);
      StartWithin(buf.Contents(), start, raw, buffer, nbits, pending);
      pending := joined;
      while nb >= 8
        invariant buf == old(buf) && buf.Valid() && (buf.stream == old(buf.stream) || fresh(buf.stream))
        invariant Writing(buf.Contents(), start, raw, b, nb, pending)
        invariant BitsWritten(raw, nb, pending) == old(Written()) + BigEndian(bits, n)
        invariant start <= |buf.Contents()| && buf.Contents()[..start] == old(Header())
      {
        ghost var file := buf.Contents();
        ByteWritten(file, start, raw, b, nb, pending);
        var chunk := b / 0x1_0000 % 0x100;
        PutChunk(chunk);
        StartKept(file, Stuff(chunk), start);
        raw, pending := raw + [chunk], pending % Pow2(nb - 8);
        b := b * 0x100 % 0x1_0000_0000;
        nb := nb - 8;
      }
      buffer, nbits := b, nb;
    }
  }

  lemma StartWithin(file: seq<Byte>, start: nat, raw: seq<Byte>, buffer: Word, n: nat, pending: nat)
    requires Writing(file, start, raw, buffer, n, pending)
    ensures start <= |file|
  {}

  lemma StartKept(file: seq<Byte>, more: seq<Byte>, start: nat)
    requires start <= |file|
    ensures (file + more)[..start] == file[..start]
  {}

  // ---- Closing the entropy-coded bytes

  function Ones(n: nat): (bits: seq<bool>)
    ensures |bits| == n
  {
    seq(n, _ => true)
  }

  /** jpec_huff_del: the last byte is filled up with ones, and fewer than eight of them. */
  method Close(h: HuffState)
    requires h.buf != null && h.Valid()
    modifies h`buffer, h`nbits, h`raw, h`pending, h.buf, h.buf.stream
    ensures h.Valid() && h.Header() == old(h.Header())
    ensures |old(h.Written())| <= 8 * |h.raw| < |old(h.Written())| + 8
    ensures BitsOf(h.raw) == old(h.Written()) + Ones(8 * |h.raw| - |old(h.Written())|)
  {
    hide BitsWritten, Writing, BigEndian;
    ghost var w := h.Written();
    h.WriteBits(0x7F, 7);
    SevenOnes();
    BitsWrittenIs(h.raw, h.nbits, h.pending);
    Prefixes(BitsOf(h.raw), BigEndian(h.pending, h.nbits), w, Ones(7));
  }

  lemma SevenOnes()
    ensures BigEndian(0x7F, 7) == Ones(7)
  {
    hide Bit;
    assert Pow2(7) == 128;
    forall j | 0 <= j < 7 ensures BigEndian(0x7F, 7)[j] { OnesBit(7, 6 - j); }
  }

  lemma BitsWrittenIs(raw: seq<Byte>, n: nat, pending: nat)
    ensures BitsWritten(raw, n, pending) == BitsOf(raw) + BigEndian(pending, n)
    ensures |BigEndian(pending, n)| == n
  {}

  lemma Prefixes(a: seq<bool>, b: seq<bool>, w: seq<bool>, ones: seq<bool>)
    requires a + b == w + ones && ones == Ones(|ones|) && |w| <= |a|
    ensures |a| - |w| <= |ones| && a == w + Ones(|a| - |w|)
  {
    assert a == (w + ones)[..|a|];
  }

}
