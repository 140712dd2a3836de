/** 32-bit words: the operators of the C code and of the SSE2 lanes. */
module Words {
  import opened Arith
  import opened Bits
  import opened Bytes

  type Word = x: int | 0 <= x < 0x1_0000_0000

  lemma WordPower()
    ensures Pow2(32) == 0x1_0000_0000
  {
    assert Pow2(8) == 256 && Pow2(16) == 65536;
    Pow2Sum(16, 16);
  }

  function XorWord(a: Word, b: Word): Word {
    WordPower();
    XorBound(a, b, 32);
    Xor(a, b)
  }

  function OrWord(a: Word, b: Word): Word {
    WordPower();
    OrBound(a, b, 32);
    Or(a, b)
  }

  function AddWord(a: Word, b: Word): Word { (a + b) % 0x1_0000_0000 }

  /** a << k, losing the high bits. */
  function Shl(a: Word, k: nat): Word { a * Pow2(k) % 0x1_0000_0000 }

  /** a >> k. */
  function Shr(a: Word, k: nat): Word {
    Quotient(a, Pow2(k));
    a / Pow2(k)
  }

  /** The macro ROTL. */
  function Rotl(a: Word, k: nat): Word
    requires k <= 32
  {
    OrWord(Shl(a, k), Shr(a, 32 - k))
  }

  /** What is left of a << k: the low bits of a, moved up. */
  lemma ShlLow(a: Word, k: nat)
    requires k <= 32
    ensures Shl(a, k) == a % Pow2(32 - k) * Pow2(k) && Shr(a, 32 - k) < Pow2(k)
  {
    WordPower();
    Pow2Sum(32 - k, k);
    LowPart(a, Pow2(32 - k), Pow2(k));
  }

  lemma LowPart(a: nat, m: nat, p: nat)
    requires m > 0 && p > 0 && a < m * p
    ensures a * p % (m * p) == a % m * p && a / m < p
  {
    var q, r := a / m, a % m;
    assert a == q * m + r;
    assert a * p == q * (m * p) + r * p by {
      assert (q * m + r) * p == q * m * p + r * p;
      assert q * m * p == q * (m * p);
    }
    MulMono(0, r, p);
    MulMono(r, m - 1, p);
    assert (m - 1) * p == m * p - p;
    DivModUnique(m * p, q, r * p);
    if q >= p { MulMono(p, q, m); }
  }

  /** Rotating with Or, and folding in the two shifted halves with Xor, are the same. */
  lemma RotlHalves(x: Word, t: Word, k: nat)
    requires k <= 32
    ensures XorWord(x, Rotl(t, k)) == XorWord(XorWord(x, Shl(t, k)), Shr(t, 32 - k))
  {
    var h, l := Shl(t, k), Shr(t, 32 - k);
    ShlLow(t, k);
    Disjoint(t % Pow2(32 - k), l, k);
    XorAssoc(x, h, l);
  }

  // ---- Words as four bytes, the lowest first

  /** le32dec of the four bytes from B[4 * p] on. */
  function WordAt(B: seq<Byte>, p: nat): Word
    requires 4 * p + 4 <= |B|
  {
    var b0: int, b1: int, b2: int, b3: int := B[4 * p], B[4 * p + 1], B[4 * p + 2], B[4 * p + 3];
    b0 + b1 * 0x100 + b2 * 0x1_0000 + b3 * 0x100_0000
  }

  /** le32enc. */
  function WordBytes(w: Word): (b: seq<Byte>)
    ensures |b| == 4
  {
    [w % 0x100, w / 0x100 % 0x100, w / 0x1_0000 % 0x100, w / 0x100_0000 % 0x100]
  }

  lemma WordDigits(w: Word)
    ensures w == w % 0x100 + w / 0x100 % 0x100 * 0x100 + w / 0x1_0000 % 0x100 * 0x1_0000
              + w / 0x100_0000 % 0x100 * 0x100_0000
  {
    var a, b, c := w / 0x100, w / 0x1_0000, w / 0x100_0000;
    assert w == a * 0x100 + w % 0x100;
    assert a == b * 0x100 + a % 0x100;
    assert b == c * 0x100 + b % 0x100;
    assert c == c % 0x100;
  }

  /** Reading the bytes written gives the word. */
  lemma WordRoundTrip(w: Word, pre: seq<Byte>, post: seq<Byte>)
    requires |pre| % 4 == 0
    ensures WordAt(pre + WordBytes(w) + post, |pre| / 4) == w
  {
    WordDigits(w);
    var b, p := WordBytes(w), |pre| / 4;
    hide WordBytes;
    var B := pre + b + post;
    assert 4 * p == |pre|;
    assert B[4 * p] == b[0] && B[4 * p + 1] == b[1] && B[4 * p + 2] == b[2] && B[4 * p + 3] == b[3];
  }

}
