/** The AES cipher on sixteen bytes (FIPS 197, section 5), byte 4r + c in row r and
    column c, and why deciphering undoes it. */
module AesCipher {
  import opened Gates
  import opened AesSbox

  type State = s: seq<Octet> | |s| == 16 witness seq(16, _ => ZERO)

  function Sub(s: State): State { seq(16, k requires 0 <= k < 16 => SBox(s[k])) }

  function InverseSub(s: State): State { seq(16, k requires 0 <= k < 16 => InverseSBox(s[k])) }

  /** Row r moves r places to the left: byte k comes from here. */
  function ShiftFrom(k: nat): (j: nat)
    requires k < 16
    ensures j < 16
  {
    k / 4 * 4 + (k % 4 + k / 4) % 4
  }

  function ShiftTo(k: nat): (j: nat)
    requires k < 16
    ensures j < 16
  {
    k / 4 * 4 + (k % 4 + 4 - k / 4) % 4
  }

  function Shift(s: State): State { seq(16, k requires 0 <= k < 16 => s[ShiftFrom(k)]) }

  function InverseShift(s: State): State { seq(16, k requires 0 <= k < 16 => s[ShiftTo(k)]) }

  function Add(s: State, t: State): State { seq(16, k requires 0 <= k < 16 => Plus(s[k], t[k])) }

  /** The byte that a column with a over b over c over d (and around) gets in a's place. */
  function MixByte(a: Octet, b: Octet, c: Octet, d: Octet): Octet {
    Plus(XTimes(Plus(a, b)), Plus(b, Plus(c, d)))
  }

  /** Byte k, going around: k + 4 is the next row of the same column. */
  function Around(s: State, k: nat): Octet { s[k % 16] }

  function MixAt(s: State, k: nat): Octet {
    MixByte(Around(s, k), Around(s, k + 4), Around(s, k + 8), Around(s, k + 12))
  }

  function Mix(s: State): State { seq(16, k requires 0 <= k < 16 => MixAt(s, k)) }

  /** Multiplication of the columns by {04}x^2 + {05}. */
  function Square(s: State): State {
    seq(16, k requires 0 <= k < 16 => SquareByte(s[k], Around(s, k + 8)))
  }

  function SquareByte(a: Octet, c: Octet): Octet { Plus(a, XTimes(XTimes(Plus(a, c)))) }

  function InverseMix(s: State): State { Square(Mix(s)) }

  // ---- Each step and its inverse

  lemma SubBack(s: State)
    ensures InverseSub(Sub(s)) == s
  {
    hide SBox, InverseSBox;
    forall k | 0 <= k < 16 ensures InverseSub(Sub(s))[k] == s[k] { InverseUndoes(s[k]); }
  }

  lemma ShiftsMeet(k: nat)
    requires k < 16
    ensures ShiftFrom(ShiftTo(k)) == k
  {
    var r, c := k / 4, k % 4;
    RowTurn(r, c);
    assert ShiftTo(k) / 4 == r && ShiftTo(k) % 4 == (c + 4 - r) % 4;
  }

  lemma RowTurn(r: nat, c: nat)
    requires r < 4 && c < 4
    ensures ((c + 4 - r) % 4 + r) % 4 == c
  {}

  lemma ShiftBack(s: State)
    ensures InverseShift(Shift(s)) == s
  {
    hide ShiftFrom, ShiftTo;
    forall k | 0 <= k < 16 ensures InverseShift(Shift(s))[k] == s[k] {
      ShiftsMeet(k);
    }
  }

  lemma AddTwice(s: State, t: State)
    ensures Add(Add(s, t), t) == s
  {}

  // ---- The laws of bytes under Plus and XTimes

  lemma XTimesPlus(a: Octet, b: Octet)
    ensures XTimes(Plus(a, b)) == Plus(XTimes(a), XTimes(b))
  {}

  lemma PlusSwap(a: Octet, b: Octet, c: Octet, d: Octet)
    ensures Plus(Plus(a, b), Plus(c, d)) == Plus(Plus(a, c), Plus(b, d))
  {}

  lemma PlusAssoc(a: Octet, b: Octet, c: Octet)
    ensures Plus(Plus(a, b), c) == Plus(a, Plus(b, c))
  {}

  lemma PlusCancel(a: Octet, b: Octet)
    ensures Plus(Plus(a, b), b) == a && Plus(a, b) == Plus(b, a)
  {}

  lemma TwoOverlap(a: Octet, b: Octet, c: Octet)
    ensures Plus(Plus(a, b), Plus(b, c)) == Plus(a, c)
  {}

  lemma ThreeOverlap(a: Octet, b: Octet, c: Octet, d: Octet)
    ensures Plus(Plus(b, Plus(c, d)), Plus(c, Plus(d, a))) == Plus(a, b)
  {}

  lemma ThreeThrice(a: Octet, b: Octet, c: Octet, d: Octet)
    ensures Plus(Plus(c, Plus(d, a)), Plus(Plus(d, Plus(a, b)), Plus(a, Plus(b, c)))) == a
  {
    hide Plus;
    ThreeOverlap(c, d, a, b);
    PlusAssoc(c, d, a);
    PlusCancel(a, Plus(c, d));
  }

  /** Two neighbours of the mixed column: X(a + c) + (a + b). */
  lemma MixNeighbours(a: Octet, b: Octet, c: Octet, d: Octet)
    ensures Plus(MixByte(a, b, c, d), MixByte(b, c, d, a)) == Plus(XTimes(Plus(a, c)), Plus(a, b))
  {
    hide Plus, XTimes;
    var p, q := Plus(a, b), Plus(b, c);
    PlusSwap(XTimes(p), Plus(b, Plus(c, d)), XTimes(q), Plus(c, Plus(d, a)));
    XTimesPlus(p, q);
    TwoOverlap(a, b, c);
    ThreeOverlap(a, b, c, d);
  }

  /** The three others: X(a + b) + a. */
  lemma MixOthers(a: Octet, b: Octet, c: Octet, d: Octet)
    ensures Plus(MixByte(b, c, d, a), Plus(MixByte(c, d, a, b), MixByte(d, a, b, c))) == Plus(XTimes(Plus(a, b)), a)
  {
    hide Plus, XTimes;
    var q, r, s := Plus(b, c), Plus(c, d), Plus(d, a);
    var u, v, w := Plus(c, Plus(d, a)), Plus(d, Plus(a, b)), Plus(a, Plus(b, c));
    PlusSwap(XTimes(r), v, XTimes(s), w);
    PlusSwap(XTimes(q), u, Plus(XTimes(r), XTimes(s)), Plus(v, w));
    XTimesPlus(r, s);
    XTimesPlus(q, Plus(r, s));
    TwoOverlap(c, d, a);
    TwoOverlap(b, c, a);
    PlusCancel(a, b);
    ThreeThrice(a, b, c, d);
  }

  /** The forward matrix, applied twice to a column, is the matrix {04}x^2 + {05}. */
  lemma MixTwiceByte(a: Octet, b: Octet, c: Octet, d: Octet)
    ensures MixByte(MixByte(a, b, c, d), MixByte(b, c, d, a), MixByte(c, d, a, b), MixByte(d, a, b, c))
         == SquareByte(a, c)
  {
    MixNeighbours(a, b, c, d);
    MixOthers(a, b, c, d);
    hide Plus, XTimes;
    var x, y := XTimes(Plus(a, c)), XTimes(Plus(a, b));
    XTimesPlus(x, Plus(a, b));
    PlusCancel(y, a);
    TwoOverlap(XTimes(x), y, a);
    PlusCancel(XTimes(x), a);
  }

  /** And that matrix is its own inverse. */
  lemma SquareTwiceByte(a: Octet, c: Octet)
    ensures SquareByte(SquareByte(a, c), SquareByte(c, a)) == a
  {
    hide Plus, XTimes;
    var x := XTimes(XTimes(Plus(a, c)));
    PlusCancel(a, c);
    PlusCancel(c, x);
    TwoOverlap(a, x, c);
    PlusCancel(a, x);
  }

  lemma MixAround(s: State, k: nat)
    ensures Around(Mix(s), k) == MixByte(Around(s, k), Around(s, k + 4), Around(s, k + 8), Around(s, k + 12))
  {
    hide MixByte, Around;
    AroundAgain(s, k, 0);
    AroundAgain(s, k, 4);
    AroundAgain(s, k, 8);
    AroundAgain(s, k, 12);
    AroundAgain(Mix(s), k, 0);
  }

  lemma AroundAgain(s: State, k: nat, i: nat)
    ensures Around(s, k % 16 + i) == Around(s, k + i)
    ensures Around(s, k % 16) == s[k % 16]
  {
    assert (k % 16 + i) % 16 == (k + i) % 16;
  }

  lemma SquareAround(s: State, k: nat)
    ensures Around(Square(s), k) == SquareByte(Around(s, k), Around(s, k + 8))
  {
    hide SquareByte;
    assert (k % 16 + 8) % 16 == (k + 8) % 16;
  }

  lemma FullCircle(s: State, k: nat)
    ensures Around(s, k + 16) == Around(s, k) && Around(s, k + 20) == Around(s, k + 4)
    ensures Around(s, k + 24) == Around(s, k + 8)
  {}

  lemma MixTwiceAround(s: State, k: nat)
    ensures Around(Mix(Mix(s)), k) == SquareByte(Around(s, k), Around(s, k + 8))
  {
    hide *;
    MixTwiceByte(Around(s, k), Around(s, k + 4), Around(s, k + 8), Around(s, k + 12));
    MixAround(Mix(s), k);
    MixAround(s, k);
    MixAround(s, k + 4);
    MixAround(s, k + 8);
    MixAround(s, k + 12);
    FullCircle(s, k);
  }

  lemma MixBackAround(s: State, k: nat)
    ensures Around(InverseMix(Mix(s)), k) == Around(s, k)
  {
    hide Around, Mix, Square, SquareByte;
    SquareAround(Mix(Mix(s)), k);
    MixTwiceAround(s, k);
    MixTwiceAround(s, k + 8);
    FullCircle(s, k);
    SquareTwiceByte(Around(s, k), Around(s, k + 8));
  }

  /** Deciphering's MixColumns, which only squares the forward matrix, is its inverse. */
  lemma MixBack(s: State)
    ensures InverseMix(Mix(s)) == s
  {
    hide InverseMix, Mix;
    forall k | 0 <= k < 16 ensures InverseMix(Mix(s))[k] == s[k] {
      MixBackAround(s, k);
    }
  }

  // ---- The matrix of FIPS 197, section 5.1.3

  const X02 := Octet(false, true, false, false, false, false, false, false)
  const X03 := Octet(true, true, false, false, false, false, false, false)

  /** Gates with a constant on one side. */
  lemma GatesAtConstants()
    ensures forall w {:trigger AndGate(w, Off)} :: AndGate(w, Off) == Off
    ensures forall w {:trigger AndGate(w, On)} :: AndGate(w, On) == w
    ensures forall w {:trigger XorGate(w, Off)} :: XorGate(w, Off) == w
    ensures forall w {:trigger XorGate(Off, w)} :: XorGate(Off, w) == w
  {}

  lemma TimesTwoLines(l: Lines)
    ensures TimesLines(l, Lines(Off, On, Off, Off, Off, Off, Off, Off))
            == Lines(l.b7, XorGate(l.b0, l.b7), l.b1, XorGate(l.b2, l.b7), XorGate(l.b3, l.b7), l.b4, l.b5, l.b6)
  {
    hide AndGate, XorGate;
    GatesAtConstants();
  }

  lemma TimesThreeLines(l: Lines)
    ensures TimesLines(l, Lines(On, On, Off, Off, Off, Off, Off, Off))
            == Lines(XorGate(l.b0, l.b7), XorGate(XorGate(l.b0, l.b1), l.b7), XorGate(l.b1, l.b2),
                     XorGate(XorGate(l.b2, l.b3), l.b7), XorGate(XorGate(l.b3, l.b4), l.b7), XorGate(l.b4, l.b5),
                     XorGate(l.b5, l.b6), XorGate(l.b6, l.b7))
  {
    hide AndGate, XorGate;
    GatesAtConstants();
  }

  lemma TimesForward(a: Octet)
    ensures Times(a, X02) == XTimes(a) && Times(a, X03) == Plus(XTimes(a), a)
  {
    hide TimesLines;
    TimesTwoLines(LinesOf(a));
    TimesThreeLines(LinesOf(a));
  }

  /** A byte of a mixed column is {02}a + {03}b + c + d. */
  lemma MixMeaning(a: Octet, b: Octet, c: Octet, d: Octet)
    ensures MixByte(a, b, c, d) == Plus(Plus(Times(a, X02), Times(b, X03)), Plus(c, d))
  {
    TimesForward(a);
    TimesForward(b);
    hide Plus, XTimes, Times;
    XTimesPlus(a, b);
    PlusAssoc(XTimes(a), XTimes(b), b);
    PlusAssoc(Plus(XTimes(a), XTimes(b)), b, Plus(c, d));
  }

  // ---- The cipher

  /** The state behind round n's key. */
  function Rounds(keys: seq<State>, s: State, n: nat): State
    requires n < |keys|
  {
    if n == 0 then Add(s, keys[0]) else Add(Mix(Shift(Sub(Rounds(keys, s, n - 1)))), keys[n])
  }

  /** The last round leaves out MixColumns. */
  function Cipher(keys: seq<State>, s: State): State
    requires |keys| >= 2
  {
    Add(Shift(Sub(Rounds(keys, s, |keys| - 2))), keys[|keys| - 1])
  }

  /** The state of deciphering when its rows are about to be shifted back for the
      (n + 1)-st time from the end, for n = |keys| - 2 down to 0. */
  function Descending(keys: seq<State>, s: State, n: nat): State
    requires n <= |keys| - 2
    decreases |keys| - n, 0
  {
    if n == |keys| - 2 then Add(s, keys[|keys| - 1]) else InverseMix(Add(Unrounds(keys, s, n + 1), keys[n + 1]))
  }

  /** Behind that step and the inverse S-box. */
  function Unrounds(keys: seq<State>, s: State, n: nat): State
    requires n <= |keys| - 2
    decreases |keys| - n, 1
  {
    InverseSub(InverseShift(Descending(keys, s, n)))
  }

  function Decipher(keys: seq<State>, s: State): State
    requires |keys| >= 2
  {
    Add(Unrounds(keys, s, 0), keys[0])
  }

  /** Deciphering reaches the states of enciphering in reverse. */
  lemma {:induction false} UnroundsAreRounds(keys: seq<State>, s: State, n: nat)
    requires n <= |keys| - 2
    ensures Unrounds(keys, Cipher(keys, s), n) == Rounds(keys, s, n)
    decreases |keys| - n
  {
    hide Sub, InverseSub, Shift, InverseShift, Add, Mix, InverseMix;
    var e := Rounds(keys, s, n);
    var t := Shift(Sub(e));
    if n == |keys| - 2 {
      AddTwice(t, keys[|keys| - 1]);
    } else {
      UnroundsAreRounds(keys, s, n + 1);
      AddTwice(Mix(t), keys[n + 1]);
      MixBack(t);
    }
    ShiftBack(Sub(e));
    SubBack(e);
  }

  /** Deciphering undoes enciphering, for any number of rounds and any round keys. */
  lemma DecipherUndoes(keys: seq<State>, s: State)
    requires |keys| >= 2
    ensures Decipher(keys, Cipher(keys, s)) == s
  {
    hide Cipher, Unrounds, Add;
    UnroundsAreRounds(keys, s, 0);
    AddTwice(s, keys[0]);
  }

}
