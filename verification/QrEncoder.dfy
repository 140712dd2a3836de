/** qrcodegen_encodeSegmentsAdvanced (qr.c) as a whole. */
module QrEncoder {
  import opened Arith
  import opened Bits
  import opened Gf256
  import opened QrMatrix
  import opened BitBuffer
  import opened BitStrings
  import opened Interleave
  import opened ReedSolomon
  import opened Zigzag
  import opened FunctionModules
  import opened Mask
  import opened MaskChoice
  import opened Penalty
  import opened QrSegments
  import opened QrSymbol
  import opened QrCapacity
  import opened QrText

  /** qrcodegen_BUFFER_LEN_FOR_VERSION */
  function BufferLen(version: int): int {
    (SizeOf(version) * SizeOf(version) + 7) / 8 + 1
  }

  /** The data codewords of a list of segments. */
  function DataCodewords(segs: seq<Segment>, version: int, ecl: int): (d: seq<Byte>)
    requires ValidVersion(version, ecl) && ValidSegments(segs) && FitsSymbol(segs, version, ecl)
    ensures |d| == NumDataCodewords(version, ecl)
  {
    DataFits(version, ecl);
    Packed(AllBits(segs, version), NumDataCodewords(version, ecl))
  }

  /** Bits filled up to the capacity, as bytes. */
  function Packed(bits: seq<bool>, capacity: nat): (d: seq<Byte>)
    requires |bits| <= 8 * capacity
    ensures |d| == capacity
  {
    BytesOf(CodewordBits(bits, capacity))
  }

  /** The symbol of a list of segments. */
  ghost function SymbolOf(segs: seq<Segment>, version: int, ecl: int, mask: int): Matrix
    requires ValidVersion(version, ecl) && 0 <= mask <= 7 && ValidSegments(segs) && FitsSymbol(segs, version, ecl)
  {
    Symbol(version, ecl, Interleaved(SymbolLayout(version, ecl), DataCodewords(segs, version, ecl)), mask)
  }

  // ---- The buffers' lengths

  lemma BufferLenMono(v: int, w: int)
    requires 1 <= v <= w
    ensures 0 < BufferLen(v) <= BufferLen(w)
  {
    SquareMono(SizeOf(v), SizeOf(w));
  }

  lemma SquareMono(a: int, b: int)
    requires 0 <= a <= b
    ensures 0 <= a * a <= b * b
  {}

  /** Raw codewords fit a symbol's buffer. */
  lemma RawFits(version: int)
    requires 1 <= version <= 40
    ensures NumRawDataModules(version) / 8 < BufferLen(version)
  {
    hide NumRawDataModules, SizeOf;
    RawBelow(version);
    AreaIs(version);
  }

  lemma RawBelow(v: int)
    requires 1 <= v <= 40
    ensures NumRawDataModules(v) <= 16 * (v * v) + 128 * v + 64
  {
    assert (16 * v + 128) * v == 16 * (v * v) + 128 * v;
    if v >= 2 {
      var n := v / 7 + 2;
      MulMono(2, n, 25 * n - 10);
    }
  }

  lemma AreaIs(v: int)
    ensures SizeOf(v) * SizeOf(v) == 16 * (v * v) + 136 * v + 289
  {
    assert SizeOf(v) * SizeOf(v) == (4 * v + 17) * (4 * v + 17);
  }

  // ---- Two descriptions of one symbol

  /** Exactly the function modules of fun are dark. */
  ghost predicate FunctionSymbol(fun: seq<Byte>, version: int)
    requires 1 <= version <= 40
  {
    IsSymbol(fun) && Size(fun) == SizeOf(version) &&
    forall x, y | InSymbol(fun, x, y) :: Dark(fun, x, y) == IsFunction(version, x, y)
  }

  lemma {:induction false} FreeIsData(fun: seq<Byte>, version: int, t: nat)
    requires 1 <= version <= 40 && FunctionSymbol(fun, version) && t <= WalkLength(version)
    ensures FreeBefore(fun, t) == DataModules(version, t)
  {
    hide Dark, IsFunction, CellOf;
    if t > 0 {
      FreeIsData(fun, version, t - 1);
      StepBounds(SizeOf(version), t - 1);
    }
  }

  /** Drawing codewords and light function modules over the function modules gives the
      unmasked symbol. */
  lemma BaseModules(fun: seq<Byte>, q: seq<Byte>, base: seq<Byte>, version: int, codewords: seq<Byte>, x: int, y: int)
    requires 1 <= version <= 40 && FunctionSymbol(fun, version) && InSymbol(fun, x, y)
    requires Drawn(fun, q, codewords)
    requires |base| == |q| && base[0] == q[0]
    requires Dark(base, x, y) == FunctionColor(version, Dark(q, x, y), x, y)
    ensures Dark(base, x, y) == BaseDark(version, codewords, x, y)
  {
    hide Dark, FunctionColor, StepOf, FreeBefore, DataModules, InAlignment, Bit;
    if IsFunction(version, x, y) {
      assert Dark(q, x, y);
    } else {
      CellOfStep(SizeOf(version), x, y);
      FreeIsData(fun, version, StepOf(SizeOf(version), x, y));
      DataModulesKept(version, Dark(q, x, y), x, y);
    }
  }

  /** The masked symbol of MaskChoice is the symbol of the codewords. */
  lemma FinishedIsSymbol(fun: seq<Byte>, base: seq<Byte>, version: int, ecl: int, codewords: seq<Byte>, mask: int)
    requires ValidVersion(version, ecl) && 0 <= mask <= 7
    requires FunctionSymbol(fun, version) && IsSymbol(base) && base[0] == fun[0]
    requires forall x, y | InSymbol(base, x, y) :: Dark(base, x, y) == BaseDark(version, codewords, x, y)
    ensures Finished(fun, base, ecl, mask) == Symbol(version, ecl, codewords, mask)
  {
    hide Dark, BaseDark, IsFunction, FormatDark, FormatBits, FormatIndex, Invert, Finished, Symbol, SymbolDark;
    var a, b := Finished(fun, base, ecl, mask), Symbol(version, ecl, codewords, mask);
    forall y | 0 <= y < |a|
      ensures a[y] == b[y]
    {
      forall x | 0 <= x < |a|
        ensures a[y][x] == b[y][x]
      {
        assert InSymbol(base, x, y);
        SameModule(fun, base, version, ecl, codewords, mask, x, y);
      }
    }
  }

  lemma SameModule(fun: seq<Byte>, base: seq<Byte>, version: int, ecl: int, codewords: seq<Byte>, mask: int, x: int,
                   y: int)
    requires ValidVersion(version, ecl) && 0 <= mask <= 7
    requires FunctionSymbol(fun, version) && IsSymbol(base) && base[0] == fun[0] && InSymbol(base, x, y)
    requires Dark(base, x, y) == BaseDark(version, codewords, x, y)
    ensures FinishedDark(fun, base, ecl, mask, x, y) == SymbolDark(version, ecl, codewords, mask, x, y)
  {
    hide Dark, BaseDark, IsFunction, FormatDark, FormatBits, Invert;
  }

  lemma SymbolBuffer(version: int, n: int)
    requires BufferLen(version) <= n
    ensures n > (SizeOf(version) * SizeOf(version) + 7) / 8
  {}

  lemma FunctionSymbolIs(fun: seq<Byte>, version: int)
    requires 1 <= version <= 40 && IsSymbol(fun) && Size(fun) == SizeOf(version)
    requires forall x, y | InSymbol(fun, x, y) :: Dark(fun, x, y) == IsFunction(version, x, y)
    ensures FunctionSymbol(fun, version) && fun[0] == SizeOf(version)
  {}

  lemma Room(fun: seq<Byte>, version: int)
    requires 1 <= version <= 40 && FunctionSymbol(fun, version)
    ensures FreeBefore(fun, Steps(Size(fun))) >= 8 * (NumRawDataModules(version) / 8)
  {
    hide DataModules, FreeBefore, NumRawDataModules;
    Capacity(version);
    FreeIsData(fun, version, WalkLength(version));
  }

  lemma DrawnSize(fun: seq<Byte>, q: seq<Byte>, cw: seq<Byte>)
    requires IsSymbol(fun) && Drawn(fun, q, cw)
    ensures |q| == |fun| && q[0] == fun[0] && Size(q) == Size(fun)
  {}

  lemma AllFinished(fun: seq<Byte>, base: seq<Byte>, version: int, ecl: int, cw: seq<Byte>)
    requires ValidVersion(version, ecl) && FunctionSymbol(fun, version) && IsSymbol(base) && base[0] == fun[0]
    requires forall x, y | InSymbol(base, x, y) :: Dark(base, x, y) == BaseDark(version, cw, x, y)
    ensures forall k :: 0 <= k <= 7 ==> Finished(fun, base, ecl, k) == Symbol(version, ecl, cw, k)
    ensures forall k :: 0 <= k <= 7 ==> FinishedScore(fun, base, ecl, k) == Score(Symbol(version, ecl, cw, k))
  {
    hide Finished, Symbol, Score, Dark, BaseDark, IsFunction;
    forall k | 0 <= k <= 7
      ensures Finished(fun, base, ecl, k) == Symbol(version, ecl, cw, k)
      ensures FinishedScore(fun, base, ecl, k) == Score(Symbol(version, ecl, cw, k))
    {
      FinishedIsSymbol(fun, base, version, ecl, cw, k);
    }
  }

  /** Drawing the codewords, the light function modules and the mask: from the interleaved
      codewords in tempBuffer to the finished symbol in qrcode. */
  method DrawSymbol(version: int, ecl: int, mask0: int, tempBuffer: array<Byte>, qrcode: array<Byte>,
                    ghost cw: seq<Byte>)
    returns (mask: int)
    requires ValidVersion(version, ecl) && -1 <= mask0 <= 7
    requires tempBuffer != qrcode && BufferLen(version) <= tempBuffer.Length && BufferLen(version) <= qrcode.Length
    requires 0 <= NumRawDataModules(version) / 8 <= tempBuffer.Length
    requires tempBuffer[..NumRawDataModules(version) / 8] == cw
    modifies tempBuffer, qrcode
    ensures 0 <= mask <= 7 && (mask0 != MASK_AUTO ==> mask == mask0)
    ensures IsSymbol(qrcode[..])
    ensures Modules(qrcode[..]) == Symbol(version, ecl, cw, mask)
    ensures mask0 == MASK_AUTO ==> LeastPenalty(version, ecl, cw, mask)
  {
    assert 1 <= version <= 40 && 0 <= ecl <= 3 && MASK_AUTO == -1;
    hide *;
    SymbolBuffer(version, qrcode.Length);
    SymbolBuffer(version, tempBuffer.Length);
    InitializeFunctionModules(version, qrcode);
    ghost var fun := qrcode[..];
    FunctionSymbolIs(fun, version);
    Room(fun, version);
    DrawCodewords(tempBuffer, NumRawDataModules(version) / 8, qrcode);
    ghost var q := qrcode[..];
    DrawnSize(fun, q, cw);
    DrawLightFunctionModules(qrcode, version);
    ghost var base := qrcode[..];
    InitializeFunctionModules(version, tempBuffer);
    ghost var fun2 := tempBuffer[..];
    FunctionSymbolIs(fun2, version);
    BaseSymbol(fun, q, base, version, cw);
    mask := ChooseMask(tempBuffer, qrcode, ecl, mask0);
    AllFinished(fun2, base, version, ecl, cw);
    if mask0 == MASK_AUTO {
      LeastPenaltyIs(version, ecl, cw, mask);
    }
  }

  /** mask is the first of the masks whose symbols have the least penalty. */
  ghost predicate LeastPenalty(version: int, ecl: int, cw: seq<Byte>, mask: int)
    requires ValidVersion(version, ecl) && 0 <= mask <= 7
  {
    && (forall k :: 0 <= k <= 7 ==> Score(Symbol(version, ecl, cw, mask)) <= Score(Symbol(version, ecl, cw, k)))
    && (forall k :: 0 <= k < mask ==> Score(Symbol(version, ecl, cw, mask)) < Score(Symbol(version, ecl, cw, k)))
  }

  lemma LeastPenaltyIs(version: int, ecl: int, cw: seq<Byte>, mask: int)
    requires ValidVersion(version, ecl) && 0 <= mask <= 7
    requires forall k :: 0 <= k <= 7 ==> Score(Symbol(version, ecl, cw, mask)) <= Score(Symbol(version, ecl, cw, k))
    requires forall k :: 0 <= k < mask ==> Score(Symbol(version, ecl, cw, mask)) < Score(Symbol(version, ecl, cw, k))
    ensures LeastPenalty(version, ecl, cw, mask)
  {}

  lemma BaseSymbol(fun: seq<Byte>, q: seq<Byte>, base: seq<Byte>, version: int, cw: seq<Byte>)
    requires 1 <= version <= 40 && FunctionSymbol(fun, version)
    requires IsSymbol(q) && Drawn(fun, q, cw)
    requires IsSymbol(base) && |base| == |q| && base[0] == q[0]
    requires forall x, y | InSymbol(q, x, y) :: Dark(base, x, y) == FunctionColor(version, Dark(q, x, y), x, y)
    ensures forall x, y | InSymbol(base, x, y) :: Dark(base, x, y) == BaseDark(version, cw, x, y)
  {
    hide Dark, FunctionColor, BaseDark, DrawnDark, IsFunction;
    forall x, y | InSymbol(base, x, y)
      ensures Dark(base, x, y) == BaseDark(version, cw, x, y)
    {
      assert InSymbol(fun, x, y) && InSymbol(q, x, y);
      BaseModules(fun, q, base, version, cw, x, y);
    }
  }

  /** qrcodegen_encodeSegmentsAdvanced. On success the symbol of the segments stands in
      qrcode, in the smallest version of the range that fits; otherwise nothing fits, and
      the size byte is zero. */
  method EncodeSegmentsAdvanced(segs: seq<Segment>, ecl0: int, minVersion: int, maxVersion: int, mask0: int,
                                boostEcl: bool, tempBuffer: array<Byte>, qrcode: array<Byte>)
    returns (ok: bool, version: int, ecl: int, mask: int)
    requires 1 <= minVersion <= maxVersion <= 40 && 0 <= ecl0 <= 3 && -1 <= mask0 <= 7 && ValidSegments(segs)
    requires tempBuffer != qrcode && BufferLen(maxVersion) <= tempBuffer.Length
             && BufferLen(maxVersion) <= qrcode.Length
    requires qrcode.Length > 0
    modifies tempBuffer, qrcode
    ensures !ok ==> qrcode[0] == 0 && forall v :: minVersion <= v <= maxVersion ==> !FitsSymbol(segs, v, ecl0)
    ensures ok ==>
      && minVersion <= version <= maxVersion && ecl0 <= ecl <= 3 && 0 <= mask <= 7
      && FitsSymbol(segs, version, ecl) && FitsSymbol(segs, version, ecl0)
      && (forall v :: minVersion <= v < version ==> !FitsSymbol(segs, v, ecl0))
      && (if boostEcl then forall e :: ecl < e <= 3 ==> !FitsSymbol(segs, version, e) else ecl == ecl0)
      && IsSymbol(qrcode[..])
      && Modules(qrcode[..]) == SymbolOf(segs, version, ecl, mask)
      && (mask0 != MASK_AUTO ==> mask == mask0)
      && (mask0 == MASK_AUTO ==> forall k :: 0 <= k <= 7 ==>
            Score(SymbolOf(segs, version, ecl, mask)) <= Score(SymbolOf(segs, version, ecl, k)))
  {
    hide *;
    var found, v, dataUsedBits := FindVersion(segs, ecl0, minVersion, maxVersion);
    version, ecl, mask := v, ecl0, 0;
    if !found {
      qrcode[0] := 0;
      return false, version, ecl, mask;
    }
    FitsIs(segs, version, ecl0);
    ecl := BoostLevel(ecl0, boostEcl, version, dataUsedBits);
    BoostFits(segs, version, ecl0, ecl, boostEcl);
    BufferLenMono(version, maxVersion);
    RawFits(version);
    DataFits(version, ecl);
    EncodeBits(segs, version, ecl, qrcode, BufferLen(version));
    ghost var d := qrcode[..NumDataCodewords(version, ecl)];
    DataCodewordsAre(segs, version, ecl, d);
    ghost var l := SymbolLayout(version, ecl);
    AddEccAndInterleave(qrcode, version, ecl, tempBuffer);
    ghost var cw := Interleaved(l, d);
    DataSize(l);
    InterleavedIs(l, d, tempBuffer[..]);
    assert tempBuffer[..][..l.raw] == tempBuffer[..l.raw];
    mask := DrawSymbol(version, ecl, mask0, tempBuffer, qrcode, cw);
    SymbolOfAre(segs, version, ecl, mask0, mask);
    ok := true;
  }

  lemma FitsIs(segs: seq<Segment>, version: int, ecl: int)
    requires ValidVersion(version, ecl) && ValidSegments(segs) && FitsSymbol(segs, version, ecl)
    ensures ValidVersion(version, ecl) && |AllBits(segs, version)| <= 8 * NumDataCodewords(version, ecl)
  {}

  lemma BoostFits(segs: seq<Segment>, version: int, ecl0: int, ecl: int, boostEcl: bool)
    requires 1 <= version <= 40 && 0 <= ecl0 <= ecl < 4 && ValidSegments(segs) && FitsSymbol(segs, version, ecl0)
    requires |AllBits(segs, version)| <= 8 * NumDataCodewords(version, ecl)
    requires boostEcl ==> forall k :: ecl < k < 4 ==> |AllBits(segs, version)| > 8 * NumDataCodewords(version, k)
    ensures ValidVersion(version, ecl) && FitsSymbol(segs, version, ecl)
    ensures boostEcl ==> forall k :: ecl < k <= 3 ==> !FitsSymbol(segs, version, k)
  {
    hide NumDataCodewords, AllBits, CountsFit;
  }

  lemma DataFits(version: int, ecl: int)
    requires ValidVersion(version, ecl)
    ensures 0 <= NumDataCodewords(version, ecl) <= NumRawDataModules(version) / 8
  {
    hide NumDataCodewords, NumRawDataModules;
    DataSize(SymbolLayout(version, ecl));
  }

  lemma DataCodewordsAre(segs: seq<Segment>, version: int, ecl: int, d: seq<Byte>)
    requires ValidVersion(version, ecl) && ValidSegments(segs) && FitsSymbol(segs, version, ecl)
    requires |d| == NumDataCodewords(version, ecl)
    requires BitsOf(d) == CodewordBits(AllBits(segs, version), NumDataCodewords(version, ecl))
    ensures d == DataCodewords(segs, version, ecl)
  {
    hide BitsOf, CodewordBits, AllBits, NumDataCodewords, BytesOf;
    BytesBits(BitsOf(d));
    BitsInjective(d, BytesOf(BitsOf(d)));
  }

  lemma SymbolOfAre(segs: seq<Segment>, version: int, ecl: int, mask0: int, mask: int)
    requires ValidVersion(version, ecl) && 0 <= mask <= 7 && ValidSegments(segs) && FitsSymbol(segs, version, ecl)
    requires mask0 == MASK_AUTO ==>
      LeastPenalty(version, ecl, Interleaved(SymbolLayout(version, ecl), DataCodewords(segs, version, ecl)), mask)
    ensures mask0 == MASK_AUTO ==> forall k :: 0 <= k <= 7 ==>
      Score(SymbolOf(segs, version, ecl, mask)) <= Score(SymbolOf(segs, version, ecl, k))
    ensures SymbolOf(segs, version, ecl, mask)
         == Symbol(version, ecl, Interleaved(SymbolLayout(version, ecl), DataCodewords(segs, version, ecl)), mask)
  {
    hide Score, Symbol, Interleaved, SymbolLayout, DataCodewords, FitsSymbol;
  }

}
