/** Masking a QR symbol and drawing its format bits (applyMask, drawFormatBits in qr.c). */
module Mask {
  import opened BchCodes
  import opened Bits
  import opened Gf256
  import opened QrMatrix

  // ---- The mask patterns

  /** Whether mask pattern `mask` inverts the module in column x, row y. */
  predicate Invert(mask: int, x: int, y: int)
    requires 0 <= mask <= 7 && 0 <= x && 0 <= y
  {
    match mask
    case 0 => (x + y) % 2 == 0
    case 1 => y % 2 == 0
    case 2 => x % 3 == 0
    case 3 => (x + y) % 3 == 0
    case 4 => (x / 3 + y / 2) % 2 == 0
    case 5 => x * y % 2 + x * y % 3 == 0
    case 6 => (x * y % 2 + x * y % 3) % 2 == 0
    case _ => ((x + y) % 2 + x * y % 3) % 2 == 0
  }

  /** q' is q with the mask applied to the modules that are light in fun. */
  ghost predicate Masked(fun: seq<Byte>, q: seq<Byte>, q': seq<Byte>, mask: int)
    requires IsSymbol(fun) && IsSymbol(q) && fun[0] == q[0] && 0 <= mask <= 7
  {
    && |q'| == |q| && q'[0] == q[0]
    && forall x, y | InSymbol(q, x, y) ::
         Dark(q', x, y) == (Dark(q, x, y) != (!Dark(fun, x, y) && Invert(mask, x, y)))
  }

  /** applyMask */
  method ApplyMask(fun: array<Byte>, q: array<Byte>, mask: int)
    requires fun != q && IsSymbol(fun[..]) && IsSymbol(q[..]) && fun[0] == q[0]
    requires 0 <= mask <= 7
    modifies q
    ensures IsSymbol(q[..])
    ensures Masked(fun[..], old(q[..]), q[..], mask)
  {
    hide Dark, Invert;
    ghost var f, q0 := fun[..], q[..];
    var qrsize: int := q[0];
    for y := 0 to qrsize
      invariant |q[..]| == |q0| && q[0] == q0[0]
      invariant forall x', y' | InSymbol(q0, x', y') ::
                  Dark(q[..], x', y') == (Dark(q0, x', y') != (y' < y && !Dark(f, x', y') && Invert(mask, x', y')))
    {
      for x := 0 to qrsize
        invariant |q[..]| == |q0| && q[0] == q0[0]
        invariant forall x', y' | InSymbol(q0, x', y') ::
                    Dark(q[..], x', y') ==
                    (Dark(q0, x', y') != ((y' < y || (y' == y && x' < x)) && !Dark(f, x', y') && Invert(mask, x', y')))
      {
        var isFunction := GetModule(fun, x, y);
        if !isFunction {
          var invert := Invert(mask, x, y);
          var val := GetModule(q, x, y);
          SetModule(q, x, y, val != invert);
        }
      }
    }
  }

  /** Applying the same mask again undoes it; function modules never change. */
  lemma MaskTwice(fun: seq<Byte>, q: seq<Byte>, q': seq<Byte>, q'': seq<Byte>, mask: int)
    requires IsSymbol(fun) && IsSymbol(q) && IsSymbol(q') && fun[0] == q[0] && 0 <= mask <= 7
    requires Masked(fun, q, q', mask) && Masked(fun, q', q'', mask)
    ensures forall x, y | InSymbol(q, x, y) :: Dark(q'', x, y) == Dark(q, x, y)
    ensures forall x, y | InSymbol(q, x, y) && Dark(fun, x, y) :: Dark(q', x, y) == Dark(q, x, y)
  {
    hide Dark, Invert;
  }

  // ---- The format bits

  function FormatTable(ecl: int): int
    requires 0 <= ecl <= 3
  {
    if ecl == 0 then 1 else if ecl == 1 then 0 else if ecl == 2 then 3 else 2
  }

  function FormatData(ecl: int, mask: int): nat
    requires 0 <= ecl <= 3 && 0 <= mask <= 7
  {
    Or(FormatTable(ecl) * 8, mask)
  }

  function FormatBits(ecl: int, mask: int): nat
    requires 0 <= ecl <= 3 && 0 <= mask <= 7
  {
    var data := FormatData(ecl, mask);
    Xor(Or(data * 1024, Remainder(data, 0x537, 512, 10)), 0x5412)
  }

  lemma FormatDataIs(ecl: int, mask: int)
    requires 0 <= ecl <= 3 && 0 <= mask <= 7
    ensures FormatData(ecl, mask) == FormatTable(ecl) * 8 + mask < 32
  {
    hide Or;
    assert Pow2(3) == 8;
    OrSum(mask, FormatTable(ecl), 3);
    OrComm(mask, FormatTable(ecl) * 8);
  }

  /** The format bits without their mask 0x5412: the level and the mask pattern, and the
      remainder that makes them a multiple of 0x537. */
  lemma FormatWord(ecl: int, mask: int)
    requires 0 <= ecl <= 3 && 0 <= mask <= 7
    ensures var w := Xor(FormatBits(ecl, mask), 0x5412);
      && FormatBits(ecl, mask) < 0x8000 && w < 0x8000
      && w / 1024 == FormatTable(ecl) * 8 + mask && IsMultiple(w, 0x537)
  {
    hide Or, Xor, Pow2, Product, Remainder, FormatTable;
    var data := FormatData(ecl, mask);
    FormatDataIs(ecl, mask);
    Powers();
    Systematic(data, 0x537, 9);
    var rem := Remainder(data, 0x537, 512, 10);
    var word := Or(data * 1024, rem);
    XorAssoc(word, 0x5412, 0x5412);
    XorSelf(0x5412);
    XorZero(word);
    XorBound(word, 0x5412, 15);
  }

  /** That makes them what they are: no other fifteen bits have both properties. */
  lemma FormatOnly(ecl: int, mask: int, bits: nat)
    requires 0 <= ecl <= 3 && 0 <= mask <= 7 && bits < 0x8000
    ensures var w := Xor(bits, 0x5412);
      bits == FormatBits(ecl, mask) <==> w / 1024 == FormatTable(ecl) * 8 + mask && IsMultiple(w, 0x537)
  {
    hide Or, Xor, Pow2, Product, Remainder, FormatTable, FormatBits, IsMultiple;
    FormatWord(ecl, mask);
    var w, u := Xor(bits, 0x5412), Xor(FormatBits(ecl, mask), 0x5412);
    if w / 1024 == FormatTable(ecl) * 8 + mask && IsMultiple(w, 0x537) {
      Powers();
      MultipleUnique(w, u, 0x537, 10, w / 1024, w % 1024, u % 1024);
      XorAssoc(bits, 0x5412, 0x5412);
      XorAssoc(FormatBits(ecl, mask), 0x5412, 0x5412);
      XorSelf(0x5412);
      XorZero(bits);
      XorZero(FormatBits(ecl, mask));
    }
  }

  lemma TableInjective(e: int, f: int)
    requires 0 <= e <= 3 && 0 <= f <= 3 && FormatTable(e) == FormatTable(f)
    ensures e == f
  {}

  /** Different levels or mask patterns give format bits that differ in at least seven
      places. */
  lemma FormatsApart(e: int, k: int, f: int, l: int)
    requires 0 <= e <= 3 && 0 <= k <= 7 && 0 <= f <= 3 && 0 <= l <= 7 && (e != f || k != l)
    ensures Distance(FormatBits(e, k), FormatBits(f, l), 15) >= 7
  {
    hide Xor, FormatBits, Weight, IsMultiple, FormatTable;
    FormatWord(e, k);
    FormatWord(f, l);
    var a, b := FormatBits(e, k), FormatBits(f, l);
    var u, v := Xor(a, 0x5412), Xor(b, 0x5412);
    if u == v {
      assert FormatTable(e) == FormatTable(f);
      TableInjective(e, f);
    }
    FormatDistance(u, v);
    XorRegroup(a, 0x5412, b, 0x5412);
    XorSelf(0x5412);
    XorZero(Xor(a, b));
  }

  const NONE := -1
  const ALWAYS_DARK := 15

  /** Which format bit the module (x, y) shows: 0 to 14, or ALWAYS_DARK, or NONE. */
  function FormatIndex(size: int, x: int, y: int): int {
    if x == 8 && 0 <= y <= 5 then y
    else if x == 8 && y == 7 then 6
    else if x == 8 && y == 8 then 7
    else if x == 7 && y == 8 then 8
    else if y == 8 && 0 <= x <= 5 then 14 - x
    else if y == 8 && size - 8 <= x then size - 1 - x
    else if x == 8 && size - 7 <= y then y - size + 15
    else if x == 8 && y == size - 8 then ALWAYS_DARK
    else NONE
  }

  predicate FormatDark(bits: nat, i: int)
    requires 0 <= i <= 15
  {
    i == ALWAYS_DARK || Bit(bits, i)
  }

  /** q' is q with the format modules redrawn for these format bits. */
  ghost predicate Formatted(q: seq<Byte>, q': seq<Byte>, bits: nat)
    requires IsSymbol(q)
  {
    && |q'| == |q| && q'[0] == q[0]
    && forall x, y | InSymbol(q, x, y) ::
         Dark(q', x, y) == var i := FormatIndex(Size(q), x, y); if 0 <= i <= 15 then FormatDark(bits, i)
           else Dark(q, x, y)
  }

  /** The same with only the modules in `done` redrawn. */
  ghost predicate FormattedIn(q: seq<Byte>, q': seq<Byte>, bits: nat, done: set<(int, int)>)
    requires IsSymbol(q)
  {
    && |q'| == |q| && q'[0] == q[0]
    && forall x, y | InSymbol(q, x, y) ::
         Dark(q', x, y) == var i := FormatIndex(Size(q), x, y);
                           if (x, y) in done && 0 <= i <= 15 then FormatDark(bits, i) else Dark(q, x, y)
  }

  /** One setModuleBounded call of drawFormatBits. */
  method SetFormat(q: array<Byte>, x: int, y: int, dark: bool, ghost q0: seq<Byte>, ghost bits: nat,
                   ghost done: set<(int, int)>) returns (ghost done': set<(int, int)>)
    requires IsSymbol(q0) && IsSymbol(q[..]) && FormattedIn(q0, q[..], bits, done)
    requires InSymbol(q0, x, y)
    requires 0 <= FormatIndex(Size(q0), x, y) <= 15 && dark == FormatDark(bits, FormatIndex(Size(q0), x, y))
    modifies q
    ensures IsSymbol(q[..]) && done' == done + {(x, y)}
    ensures FormattedIn(q0, q[..], bits, done')
  {
    hide Dark, FormatDark, FormatIndex;
    done' := done + {(x, y)};
    SetModule(q, x, y, dark);
  }

  /** drawFormatBits: every format module is written, whatever it showed before. */
  method DrawFormatBits(ecl: int, mask: int, q: array<Byte>)
    requires 0 <= ecl <= 3 && 0 <= mask <= 7 && IsSymbol(q[..])
    modifies q
    ensures IsSymbol(q[..])
    ensures Formatted(old(q[..]), q[..], FormatBits(ecl, mask))
  {
    hide Dark, Or, Xor, Bit;
    ghost var q0 := q[..];
    var data: nat := Or(FormatTable(ecl) * 8, mask);
    var rem := data;
    for i := 0 to 10
      invariant rem == Remainder(data, 0x537, 512, i)
    {
      rem := Xor(rem * 2, (rem / 512) * 0x537);
    }
    var bits: nat := Xor(Or(data * 1024, rem), 0x5412);
    assert bits == FormatBits(ecl, mask);
    ghost var done := DrawFirstCopy(q, bits);
    ghost var done2 := DrawSecondCopy(q, bits, q0, done);
    forall x, y | InSymbol(q0, x, y) && 0 <= FormatIndex(Size(q0), x, y) <= 15
      ensures (x, y) in done2
    {
    }
  }

  method DrawFirstCopy(q: array<Byte>, bits: nat) returns (ghost done: set<(int, int)>)
    requires IsSymbol(q[..])
    modifies q
    ensures IsSymbol(q[..])
    ensures FormattedIn(old(q[..]), q[..], bits, done)
    ensures forall k :: 0 <= k <= 5 ==> (8, k) in done && (k, 8) in done
    ensures (8, 7) in done && (8, 8) in done && (7, 8) in done
  {
    hide Dark, Bit, FormattedIn;
    ghost var q0 := q[..];
    done := {};
    assert FormattedIn(q0, q[..], bits, done) by { NothingDone(q0, bits); }
    for i := 0 to 6
      invariant IsSymbol(q[..]) && FormattedIn(q0, q[..], bits, done)
      invariant forall k :: 0 <= k < i ==> (8, k) in done
    {
      done := SetFormat(q, 8, i, Bit(bits, i), q0, bits, done);
    }
    done := SetFormat(q, 8, 7, Bit(bits, 6), q0, bits, done);
    done := SetFormat(q, 8, 8, Bit(bits, 7), q0, bits, done);
    done := SetFormat(q, 7, 8, Bit(bits, 8), q0, bits, done);
    for i := 9 to 15
      invariant IsSymbol(q[..]) && FormattedIn(q0, q[..], bits, done)
      invariant forall k :: 0 <= k <= 5 ==> (8, k) in done
      invariant (8, 7) in done && (8, 8) in done && (7, 8) in done
      invariant forall k :: 14 - i < k <= 5 ==> (k, 8) in done
    {
      done := SetFormat(q, 14 - i, 8, Bit(bits, i), q0, bits, done);
    }
  }

  method DrawSecondCopy(q: array<Byte>, bits: nat, ghost q0: seq<Byte>, ghost done0: set<(int, int)>)
    returns (ghost done: set<(int, int)>)
    requires IsSymbol(q0) && IsSymbol(q[..]) && FormattedIn(q0, q[..], bits, done0)
    modifies q
    ensures IsSymbol(q[..])
    ensures done0 <= done && FormattedIn(q0, q[..], bits, done)
    ensures forall k :: Size(q0) - 8 <= k < Size(q0) ==> (k, 8) in done && (8, k) in done
  {
    hide Dark, Bit;
    done := done0;
    var qrsize: int := q[0];
    for i := 0 to 8
      invariant IsSymbol(q[..]) && FormattedIn(q0, q[..], bits, done) && done0 <= done
      invariant forall k :: qrsize - 1 - i < k < qrsize ==> (k, 8) in done
    {
      done := SetFormat(q, qrsize - 1 - i, 8, Bit(bits, i), q0, bits, done);
    }
    for i := 8 to 15
      invariant IsSymbol(q[..]) && FormattedIn(q0, q[..], bits, done) && done0 <= done
      invariant forall k :: qrsize - 8 <= k < qrsize ==> (k, 8) in done
      invariant forall k :: qrsize - 7 <= k < qrsize - 15 + i ==> (8, k) in done
    {
      done := SetFormat(q, 8, qrsize - 15 + i, Bit(bits, i), q0, bits, done);
    }
    done := SetFormat(q, 8, qrsize - 8, true, q0, bits, done);
  }

  lemma NothingDone(q: seq<Byte>, bits: nat)
    requires IsSymbol(q)
    ensures FormattedIn(q, q, bits, {})
  {}

}
