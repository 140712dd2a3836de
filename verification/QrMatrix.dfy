/** The module matrix of a QR symbol (qr.c), packed eight modules to a byte behind a
    first byte that holds the symbol's size. */
module QrMatrix {
  import opened Arith
  import opened Bits
  import opened Gf256

  function Size(q: seq<Byte>): int
    requires |q| > 0
  {
    q[0]
  }

  /** The buffer is long enough and its size byte is that of a version 1 to 40. */
  predicate IsSymbol(q: seq<Byte>) {
    && |q| > 0
    && 21 <= q[0] <= 177 && q[0] % 4 == 1
    && |q| > (Size(q) * Size(q) + 7) / 8
  }

  predicate InSymbol(q: seq<Byte>, x: int, y: int)
    requires |q| > 0
  {
    0 <= x < q[0] && 0 <= y < q[0]
  }

  lemma IndexBound(size: int, x: int, y: int)
    requires 0 <= x < size && 0 <= y < size
    ensures 0 <= y * size + x < size * size
  {
    RowMajor(size, size, x, y);
  }

  lemma IndexUnique(size: int, x: int, y: int, x': int, y': int)
    requires 0 <= x < size && 0 <= x' < size
    requires y * size + x == y' * size + x'
    ensures x == x' && y == y'
  {
    DivModUnique(size, y, x);
    DivModUnique(size, y', x');
  }

  /** Whether the module in column x, row y is dark. */
  predicate Dark(q: seq<Byte>, x: int, y: int)
    requires IsSymbol(q) && InSymbol(q, x, y)
  {
    IndexBound(Size(q), x, y);
    var index := y * Size(q) + x;
    Bit(q[index / 8 + 1], index % 8)
  }

  /** getModuleBounded */
  method GetModule(q: array<Byte>, x: int, y: int) returns (dark: bool)
    requires IsSymbol(q[..]) && InSymbol(q[..], x, y)
    ensures dark == Dark(q[..], x, y)
  {
    var qrsize: int := q[0];
    IndexBound(qrsize, x, y);
    var index := y * qrsize + x;
    dark := Bit(q[index / 8 + 1], index % 8);
  }

  /** q' is q with the module (x, y) set to isDark. */
  ghost predicate IsUpdate(q: seq<Byte>, q': seq<Byte>, x: int, y: int, isDark: bool)
    requires IsSymbol(q) && InSymbol(q, x, y)
  {
    && |q'| == |q| && q'[0] == q[0]
    && forall x', y' | InSymbol(q, x', y') ::
         Dark(q', x', y') == if x' == x && y' == y then isDark else Dark(q, x', y')
  }

  /** The byte b with bit k set or cleared. */
  function WithBit(b: Byte, k: nat, on: bool): (r: Byte)
    requires k < 8
    ensures forall j: nat :: j < 8 ==> Bit(r, j) == if j == k then on else Bit(b, j)
  {
    Pow2Small(k);
    WithBitBits(b, k);
    assert Pow2(8) == 256;
    OrBound(b, Pow2(k), 8);
    XorBound(Pow2(k), 0xFF, 8);
    AndBound(b, Xor(Pow2(k), 0xFF), 8);
    if on then Or(b, Pow2(k)) else And(b, Xor(Pow2(k), 0xFF))
  }

  lemma WithBitBits(b: Byte, k: nat)
    requires k < 8
    ensures forall j: nat :: j < 8 ==> Bit(Or(b, Pow2(k)), j) == (j == k || Bit(b, j))
    ensures forall j: nat :: j < 8 ==> Bit(And(b, Xor(Pow2(k), 0xFF)), j) == (j != k && Bit(b, j))
  {
    hide *;
    forall j: nat | j < 8
      ensures Bit(Or(b, Pow2(k)), j) == (j == k || Bit(b, j))
      ensures Bit(And(b, Xor(Pow2(k), 0xFF)), j) == (j != k && Bit(b, j))
    {
      OrBit(b, Pow2(k), j);
      AndBit(b, Xor(Pow2(k), 0xFF), j);
      XorBit(Pow2(k), 0xFF, j);
      Pow2Bit(k, j);
      AllOnes(j);
    }
  }

  lemma AllOnes(j: nat)
    requires j < 8
    ensures Bit(0xFF, j)
  {
    assert Pow2(8) == 256;
    OnesBit(8, j);
  }

  /** setModuleBounded */
  method SetModule(q: array<Byte>, x: int, y: int, isDark: bool)
    requires IsSymbol(q[..]) && InSymbol(q[..], x, y)
    modifies q
    ensures IsSymbol(q[..])
    ensures IsUpdate(old(q[..]), q[..], x, y, isDark)
  {
    hide Bit, Or, And, Xor, Pow2;
    var qrsize: int := q[0];
    IndexBound(qrsize, x, y);
    var index := y * qrsize + x;
    var bitIndex := index % 8;
    var byteIndex := index / 8 + 1;
    ghost var b := WithBit(q[byteIndex], bitIndex, isDark);
    if isDark {
      q[byteIndex] := Or(q[byteIndex], Pow2(bitIndex));
    } else {
      q[byteIndex] := And(q[byteIndex], Xor(Pow2(bitIndex), 0xFF));
    }
    SetByte(old(q[..]), q[..], x, y, isDark);
  }

  lemma SetByte(q: seq<Byte>, q': seq<Byte>, x: int, y: int, isDark: bool)
    requires IsSymbol(q) && InSymbol(q, x, y)
    requires 0 <= y * Size(q) + x < Size(q) * Size(q)
    requires var k := y * Size(q) + x;
             q' == q[k / 8 + 1 := WithBit(q[k / 8 + 1], k % 8, isDark)]
    ensures IsUpdate(q, q', x, y, isDark)
  {
    hide Bit, WithBit;
    var k := y * Size(q) + x;
    forall x', y' | InSymbol(q, x', y')
      ensures Dark(q', x', y') == if x' == x && y' == y then isDark else Dark(q, x', y')
    {
      IndexBound(Size(q), x', y');
      var k' := y' * Size(q) + x';
      if k' == k { IndexUnique(Size(q), x, y, x', y'); }
    }
  }

  /** setModuleUnbounded */
  method SetModuleUnbounded(q: array<Byte>, x: int, y: int, isDark: bool)
    requires IsSymbol(q[..])
    modifies q
    ensures IsSymbol(q[..])
    ensures if InSymbol(old(q[..]), x, y) then IsUpdate(old(q[..]), q[..], x, y, isDark) else q[..] == old(q[..])
  {
    var qrsize: int := q[0];
    if 0 <= x < qrsize && 0 <= y < qrsize {
      SetModule(q, x, y, isDark);
    }
  }

}
