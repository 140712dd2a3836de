/** Choosing and applying the mask of a QR symbol (the last part of
    qrcodegen_encodeSegmentsAdvanced in qr.c). */
module MaskChoice {
  import opened Gf256
  import opened QrMatrix
  import opened Mask
  import opened Penalty

  const LONG_MAX := 0x7FFF_FFFF
  const MASK_AUTO := -1

  /** A module of the finished symbol: a format bit, a function module of the unmasked
      symbol, or a data module inverted where the mask says so. */
  predicate FinishedDark(fun: seq<Byte>, base: seq<Byte>, ecl: int, mask: int, x: int, y: int)
    requires IsSymbol(fun) && IsSymbol(base) && fun[0] == base[0] && InSymbol(base, x, y)
    requires 0 <= ecl <= 3 && 0 <= mask <= 7
  {
    var i := FormatIndex(Size(base), x, y);
    if 0 <= i <= 15 then FormatDark(FormatBits(ecl, mask), i)
    else Dark(base, x, y) != (!Dark(fun, x, y) && Invert(mask, x, y))
  }

  /** The finished symbol for one mask. */
  function Finished(fun: seq<Byte>, base: seq<Byte>, ecl: int, mask: int): (m: Matrix)
    requires IsSymbol(fun) && IsSymbol(base) && fun[0] == base[0]
    requires 0 <= ecl <= 3 && 0 <= mask <= 7
    ensures |m| == Size(base) && Square(m)
    ensures forall x, y | InSymbol(base, x, y) :: m[y][x] == FinishedDark(fun, base, ecl, mask, x, y)
  {
    seq(Size(base), y requires 0 <= y < Size(base) =>
      seq(Size(base), x requires 0 <= x < Size(base) => FinishedDark(fun, base, ecl, mask, x, y)))
  }

  function FinishedScore(fun: seq<Byte>, base: seq<Byte>, ecl: int, mask: int): int
    requires IsSymbol(fun) && IsSymbol(base) && fun[0] == base[0]
    requires 0 <= ecl <= 3 && 0 <= mask <= 7
  {
    Score(Finished(fun, base, ecl, mask))
  }

  /** q agrees with base except on the format modules. */
  ghost predicate SameData(base: seq<Byte>, q: seq<Byte>)
    requires IsSymbol(base)
  {
    && |q| == |base| && q[0] == base[0]
    && forall x, y | InSymbol(base, x, y) ::
         FormatIndex(Size(base), x, y) == NONE ==> Dark(q, x, y) == Dark(base, x, y)
  }

  /** Masking and drawing the format bits finish the symbol, whatever the format modules
      showed before. */
  lemma FinishOnce(fun: seq<Byte>, base: seq<Byte>, q: seq<Byte>, q': seq<Byte>, q'': seq<Byte>, ecl: int, mask: int)
    requires IsSymbol(fun) && IsSymbol(base) && fun[0] == base[0] && SameData(base, q)
    requires 0 <= ecl <= 3 && 0 <= mask <= 7
    requires Masked(fun, q, q', mask) && Formatted(q', q'', FormatBits(ecl, mask))
    ensures Modules(q'') == Finished(fun, base, ecl, mask)
  {
    hide Dark, FormatDark, FormatBits, Invert, FormatIndex, FinishedDark, Modules, Finished;
    var a, b := Modules(q''), Finished(fun, base, ecl, mask);
    forall y | 0 <= y < |a|
      ensures a[y] == b[y]
    {
      forall x | 0 <= x < |a|
        ensures a[y][x] == b[y][x]
      {
        assert InSymbol(base, x, y);
        FinishedModule(fun, base, q, q', q'', ecl, mask, x, y);
      }
    }
  }

  lemma FinishedModule(fun: seq<Byte>, base: seq<Byte>, q: seq<Byte>, q': seq<Byte>, q'': seq<Byte>,
                       ecl: int, mask: int, x: int, y: int)
    requires IsSymbol(fun) && IsSymbol(base) && fun[0] == base[0] && SameData(base, q)
    requires 0 <= ecl <= 3 && 0 <= mask <= 7 && InSymbol(base, x, y)
    requires Masked(fun, q, q', mask) && Formatted(q', q'', FormatBits(ecl, mask))
    ensures Dark(q'', x, y) == FinishedDark(fun, base, ecl, mask, x, y)
  {
    hide Dark, FormatDark, FormatBits, Invert;
  }

  /** Masking again returns the data modules to what they were. */
  lemma UndoOnce(fun: seq<Byte>, base: seq<Byte>, q: seq<Byte>, q': seq<Byte>, q'': seq<Byte>, q''': seq<Byte>,
                 bits: nat, mask: int)
    requires IsSymbol(fun) && IsSymbol(base) && fun[0] == base[0] && SameData(base, q) && 0 <= mask <= 7
    requires Masked(fun, q, q', mask) && Formatted(q', q'', bits) && Masked(fun, q'', q''', mask)
    ensures SameData(base, q''')
  {
    hide Dark, FormatDark, Invert;
  }

  /** The masking part of the encoder. With MASK_AUTO the mask chosen is the first of those
      with the least penalty; in every case the symbol left behind is the finished one. */
  method ChooseMask(fun: array<Byte>, q: array<Byte>, ecl: int, mask0: int) returns (mask: int)
    requires fun != q && IsSymbol(fun[..]) && IsSymbol(q[..]) && fun[0] == q[0]
    requires 0 <= ecl <= 3 && MASK_AUTO <= mask0 <= 7
    modifies q
    ensures 0 <= mask <= 7 && IsSymbol(q[..])
    ensures Modules(q[..]) == Finished(fun[..], old(q[..]), ecl, mask)
    ensures mask0 != MASK_AUTO ==> mask == mask0
    ensures mask0 == MASK_AUTO ==> forall k :: 0 <= k <= 7 ==>
      FinishedScore(fun[..], old(q[..]), ecl, mask) <= FinishedScore(fun[..], old(q[..]), ecl, k)
    ensures mask0 == MASK_AUTO ==> forall k :: 0 <= k < mask ==>
      FinishedScore(fun[..], old(q[..]), ecl, mask) < FinishedScore(fun[..], old(q[..]), ecl, k)
  {
    hide Dark, FormatDark, FormatBits, Invert, FormatIndex, FinishedDark, Modules, Finished, Score, Masked,
         Formatted, SameData;
    ghost var f, base := fun[..], q[..];
    mask := mask0;
    assert SameData(base, q[..]) by { SameDataSelf(base); }
    if mask == MASK_AUTO {
      var minPenalty := LONG_MAX;
      for i := 0 to 8
        invariant IsSymbol(q[..]) && SameData(base, q[..]) && q[0] == base[0]
        invariant i == 0 ==> minPenalty == LONG_MAX
        invariant i > 0 ==> 0 <= mask < i && minPenalty == FinishedScore(f, base, ecl, mask)
        invariant i > 0 ==> forall k :: 0 <= k < i ==> minPenalty <= FinishedScore(f, base, ecl, k)
        invariant i > 0 ==> forall k :: 0 <= k < mask ==> minPenalty < FinishedScore(f, base, ecl, k)
      {
        ghost var q1 := q[..];
        ApplyMask(fun, q, i);
        ghost var q2 := q[..];
        SameSize(f, q1, q2, i);
        DrawFormatBits(ecl, i, q);
        ghost var q3 := q[..];
        SameSizeFormatted(q2, q3, FormatBits(ecl, i));
        FinishOnce(f, base, q1, q2, q3, ecl, i);
        var penalty := GetPenaltyScore(q);
        ScoreBound(Finished(f, base, ecl, i));
        if penalty < minPenalty {
          mask := i;
          minPenalty := penalty;
        }
        ApplyMask(fun, q, i);
        SameSize(f, q3, q[..], i);
        UndoOnce(f, base, q1, q2, q3, q[..], FormatBits(ecl, i), i);
      }
    }
    ghost var q1 := q[..];
    SameDataSize(base, q1);
    ApplyMask(fun, q, mask);
    ghost var q2 := q[..];
    SameSize(f, q1, q2, mask);
    DrawFormatBits(ecl, mask, q);
    FinishOnce(f, base, q1, q2, q[..], ecl, mask);
  }

  lemma SameDataSelf(base: seq<Byte>)
    requires IsSymbol(base)
    ensures SameData(base, base)
  {}

  lemma SameDataSize(base: seq<Byte>, q: seq<Byte>)
    requires IsSymbol(base) && SameData(base, q)
    ensures q[0] == base[0]
  {}

  lemma SameSize(fun: seq<Byte>, q: seq<Byte>, q': seq<Byte>, mask: int)
    requires IsSymbol(fun) && IsSymbol(q) && fun[0] == q[0] && 0 <= mask <= 7 && Masked(fun, q, q', mask)
    ensures |q'| == |q| && q'[0] == q[0]
  {}

  lemma SameSizeFormatted(q: seq<Byte>, q': seq<Byte>, bits: nat)
    requires IsSymbol(q) && Formatted(q, q', bits)
    ensures |q'| == |q| && q'[0] == q[0]
  {}

}
