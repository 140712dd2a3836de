/** What a finished QR symbol is, module by module, and how a reader gets the data back. */
module QrSymbol {
  import opened Arith
  import opened Bits
  import opened Gf256
  import opened QrMatrix
  import opened BitBuffer
  import opened BitStrings
  import opened Interleave
  import opened ReedSolomon
  import opened Zigzag
  import opened FunctionModules
  import opened Mask
  import opened Penalty

  // ---- Bytes and bits

  /** The byte written in eight bits, the highest first. */
  function ByteOf(bits: seq<bool>): (b: Byte)
    requires |bits| == 8
    ensures BitsOf([b]) == bits
  {
    BitsOfNumber(bits);
    assert Pow2(8) == 256;
    BitsOfByte(Number(bits));
    Number(bits)
  }

  function BytesOf(bits: seq<bool>): (bytes: seq<Byte>)
    requires |bits| % 8 == 0
    ensures |bytes| == |bits| / 8
  {
    if bits == [] then [] else [ByteOf(bits[..8])] + BytesOf(bits[8..])
  }

  lemma {:induction false} BytesBits(bits: seq<bool>)
    requires |bits| % 8 == 0
    ensures BitsOf(BytesOf(bits)) == bits
  {
    hide Bit;
    if bits != [] {
      BytesBits(bits[8..]);
      BitsOfAppend([ByteOf(bits[..8])], BytesOf(bits[8..]));
      assert bits == bits[..8] + bits[8..];
    }
  }

  /** Bytes are determined by their bits. */
  lemma BitsInjective(a: seq<Byte>, b: seq<Byte>)
    requires BitsOf(a) == BitsOf(b)
    ensures a == b
  {
    hide Bit;
    assert |a| == |b| by { assert |BitsOf(a)| == |BitsOf(b)|; }
    forall i | 0 <= i < |a|
      ensures a[i] == b[i]
    {
      forall k: nat | k < 8
        ensures Bit(a[i], k) == Bit(b[i], k)
      {
        assert BitsOf(a)[8 * i + (7 - k)] == BitsOf(b)[8 * i + (7 - k)];
      }
      Pow2Eight();
      SameBits(a[i], b[i], 8);
    }
  }

  // ---- The symbol

  /** The codewords in transmission order. */
  function Interleaved(l: Layout, d: seq<Byte>): (r: seq<Byte>)
    requires l.Valid() && |d| == l.DataLen()
    ensures |r| == l.raw
  {
    DataSize(l);
    seq(l.raw, k requires 0 <= k < l.raw => IndexOfOwner(l, k); SlotByte(l, d, Owner(l, k)))
  }

  lemma InterleavedIs(l: Layout, d: seq<Byte>, r: seq<Byte>)
    requires l.Valid() && |d| == l.DataLen() && l.raw <= |r|
    ensures IsInterleaved(l, d, r) <==> r[..l.raw] == Interleaved(l, d)
  {
    hide Owner, SlotByte;
    DataSize(l);
    var s := Interleaved(l, d);
    if IsInterleaved(l, d, r) {
      forall k | 0 <= k < l.raw
        ensures r[k] == s[k]
      {
        assert SlotHolds(l, d, r, k);
      }
    }
    if r[..l.raw] == s {
      forall k | 0 <= k < l.raw
        ensures SlotHolds(l, d, r, k)
      {
        assert r[k] == r[..l.raw][k];
      }
    }
  }

  function WalkLength(version: int): nat
    requires 1 <= version <= 40
  {
    StepsNonneg(version);
    Steps(SizeOf(version))
  }

  /** Number of data modules among the first t steps of the walk. */
  ghost function DataModules(version: int, t: nat): nat
    requires 1 <= version <= 40 && t <= WalkLength(version)
  {
    if t == 0 then 0 else
    StepBounds(SizeOf(version), t - 1);
    var (x, y) := CellOf(SizeOf(version), t - 1);
    DataModules(version, t - 1) + if IsFunction(version, x, y) then 0 else 1
  }

  /** Before masking and format bits: a function pattern, or a codeword bit, or a light
      remainder module. */
  ghost predicate BaseDark(version: int, codewords: seq<Byte>, x: int, y: int)
    requires 1 <= version <= 40 && 0 <= x < SizeOf(version) && 0 <= y < SizeOf(version)
  {
    if IsFunction(version, x, y) then FunctionColor(version, true, x, y)
    else
      CellOfStep(SizeOf(version), x, y);
      var r := DataModules(version, StepOf(SizeOf(version), x, y));
      r < 8 * |codewords| && DataBit(codewords, r)
  }

  /** A module of the finished symbol. */
  ghost predicate SymbolDark(version: int, ecl: int, codewords: seq<Byte>, mask: int, x: int, y: int)
    requires ValidVersion(version, ecl) && 0 <= mask <= 7
    requires 0 <= x < SizeOf(version) && 0 <= y < SizeOf(version)
  {
    var i := FormatIndex(SizeOf(version), x, y);
    if 0 <= i <= 15 then FormatDark(FormatBits(ecl, mask), i)
    else BaseDark(version, codewords, x, y) != (!IsFunction(version, x, y) && Invert(mask, x, y))
  }

  ghost function Symbol(version: int, ecl: int, codewords: seq<Byte>, mask: int): (m: Matrix)
    requires ValidVersion(version, ecl) && 0 <= mask <= 7
    ensures |m| == SizeOf(version) && Square(m)
    ensures forall x, y | 0 <= x < |m| && 0 <= y < |m| :: m[y][x] == SymbolDark(version, ecl, codewords, mask, x, y)
  {
    var size := SizeOf(version);
    seq(size, y requires 0 <= y < size =>
      seq(size, x requires 0 <= x < size => SymbolDark(version, ecl, codewords, mask, x, y)))
  }

  /** Format bits lie on function modules. */
  lemma FormatIsFunction(version: int, x: int, y: int)
    requires 1 <= version <= 40 && 0 <= x < SizeOf(version) && 0 <= y < SizeOf(version)
    requires FormatIndex(SizeOf(version), x, y) != NONE
    ensures IsFunction(version, x, y)
  {}

  // ---- A reader

  /** The data bit that step t of the walk shows, if it shows one. */
  ghost function ReadModule(m: Matrix, version: int, mask: int, t: nat): (bits: seq<bool>)
    requires 1 <= version <= 40 && 0 <= mask <= 7 && Square(m) && |m| == SizeOf(version)
    requires t < WalkLength(version)
  {
    StepBounds(SizeOf(version), t);
    var (x, y) := CellOf(SizeOf(version), t);
    if IsFunction(version, x, y) then [] else [m[y][x] != Invert(mask, x, y)]
  }

  /** The data modules along the first t steps, with the mask taken off. */
  ghost function ReadModules(m: Matrix, version: int, mask: int, t: nat): (bits: seq<bool>)
    requires 1 <= version <= 40 && 0 <= mask <= 7 && Square(m) && |m| == SizeOf(version)
    requires t <= WalkLength(version)
    ensures |bits| == DataModules(version, t)
  {
    if t == 0 then [] else ReadModules(m, version, mask, t - 1) + ReadModule(m, version, mask, t - 1)
  }

  /** The first n codewords a reader finds: it walks the data modules, takes the mask off,
      and regroups the bits into bytes. */
  ghost function Received(m: Matrix, version: int, mask: int, n: nat): (r: seq<Byte>)
    requires 1 <= version <= 40 && 0 <= mask <= 7 && Square(m) && |m| == SizeOf(version)
    requires 8 * n <= DataModules(version, WalkLength(version))
    ensures |r| == n
  {
    FirstBytes(ReadModules(m, version, mask, WalkLength(version)), n)
  }

  function FirstBytes(bits: seq<bool>, n: nat): (r: seq<Byte>)
    requires 8 * n <= |bits|
    ensures |r| == n
  {
    hide BytesOf;
    BytesOf(bits[..8 * n])
  }

  lemma {:induction false} ReadModulesBack(version: int, ecl: int, codewords: seq<Byte>, mask: int, t: nat)
    requires ValidVersion(version, ecl) && 0 <= mask <= 7 && t <= WalkLength(version)
    ensures var bits := ReadModules(Symbol(version, ecl, codewords, mask), version, mask, t);
            forall r :: 0 <= r < |bits| ==> bits[r] == (r < 8 * |codewords| && DataBit(codewords, r))
  {
    hide CellOf, StepOf, Bit, IsFunction, FormatIndex, Invert, FunctionColor, FormatBits;
    if t > 0 {
      ReadModulesBack(version, ecl, codewords, mask, t - 1);
      StepBounds(SizeOf(version), t - 1);
      var (x, y) := CellOf(SizeOf(version), t - 1);
      if !IsFunction(version, x, y) {
        if FormatIndex(SizeOf(version), x, y) != NONE { FormatIsFunction(version, x, y); }
      }
    }
  }

  /** In an undamaged symbol it finds those that were drawn. */
  lemma ReceivedBack(version: int, ecl: int, cw: seq<Byte>, mask: int)
    requires ValidVersion(version, ecl) && 0 <= mask <= 7 && 8 * |cw| <= DataModules(version, WalkLength(version))
    ensures Received(Symbol(version, ecl, cw, mask), version, mask, |cw|) == cw
  {
    hide ReadModules, Symbol, WalkLength, DataModules, BytesOf, Bit;
    var bits := ReadModules(Symbol(version, ecl, cw, mask), version, mask, WalkLength(version));
    ReadModulesBack(version, ecl, cw, mask, WalkLength(version));
    var front := bits[..8 * |cw|];
    forall i | 0 <= i < 8 * |cw|
      ensures front[i] == BitsOf(cw)[i]
    {}
    assert front == BitsOf(cw);
    BytesBits(front);
    BitsInjective(BytesOf(front), cw);
  }

  lemma StepsNonneg(version: int)
    requires 1 <= version <= 40
    ensures Steps(SizeOf(version)) >= 0
  {
    MulMono(0, SizeOf(version), SizeOf(version) - 1);
  }

}
