/** The words of an AES-256 key schedule, one from another, byte by byte (FIPS 197, section
    5.2, figure 11): what AES_setup of ctaes.c computes for the keys that the source uses. */
module AesSchedule {
  import opened Bytes
  import opened AesSbox
  import opened AesCipher
  import opened AesBytes
  import opened AesKeys

  /** Byte r of word i: column i % 4 of round key i / 4. */
  lemma WordOf(key: seq<Byte>, keys: seq<State>, i: nat, r: nat)
    requires |key| == 32 && keys == KeySchedule(key, 8, 14) && i < 60 && r < 4
    ensures |keys| == 15 && keys[i / 4][4 * r + i % 4] == KeyWord(key, 8, i)[r]
  {
    hide KeyWord;
    assert 4 * (i / 4) + (4 * r + i % 4) % 4 == i && (4 * r + i % 4) / 4 == r;
  }

  lemma Constants()
    ensures Rcon(0) == OctetOf(1) && Rcon(1) == OctetOf(2) && Rcon(2) == OctetOf(4) && Rcon(3) == OctetOf(8)
    ensures Rcon(4) == OctetOf(16) && Rcon(5) == OctetOf(32) && Rcon(6) == OctetOf(64)
  {
    hide OctetOf;
    Powers();
    assert Rcon(1) == XTimes(Rcon(0)) && Rcon(2) == XTimes(Rcon(1)) && Rcon(3) == XTimes(Rcon(2));
    assert Rcon(4) == XTimes(Rcon(3)) && Rcon(5) == XTimes(Rcon(4)) && Rcon(6) == XTimes(Rcon(5));
  }

  lemma Powers()
    ensures XTimes(OctetOf(1)) == OctetOf(2) && XTimes(OctetOf(2)) == OctetOf(4) && XTimes(OctetOf(4)) == OctetOf(8)
    ensures XTimes(OctetOf(8)) == OctetOf(16) && XTimes(OctetOf(16)) == OctetOf(32)
    ensures XTimes(OctetOf(32)) == OctetOf(64)
  {}

  /** The first eight words are the key. */
  lemma KeyWords(key: seq<Byte>, keys: seq<State>, i: nat, r: nat)
    requires |key| == 32 && keys == KeySchedule(key, 8, 14) && i < 8 && r < 4
    ensures |keys| == 15 && keys[i / 4][4 * r + i % 4] == OctetOf(key[4 * i + r])
  {
    hide KeyWord, KeySchedule;
    WordOf(key, keys, i, r);
    KeyItself(key, 8, i, r);
  }

  /** Every eighth word: the word eight back, the word before with its bytes substituted and
      turned by one, and a power of two in the first byte. */
  lemma EighthWords(key: seq<Byte>, keys: seq<State>, i: nat, r: nat)
    requires |key| == 32 && keys == KeySchedule(key, 8, 14) && 8 <= i < 60 && i % 8 == 0 && r < 4
    ensures |keys| == 15
    ensures keys[i / 4][4 * r + i % 4]
         == Plus(Plus(keys[(i - 8) / 4][4 * r + (i - 8) % 4], SBox(keys[(i - 1) / 4][4 * ((r + 1) % 4) + (i - 1) % 4])),
                 if r == 0 then OctetOf([1, 2, 4, 8, 16, 32, 64][i / 8 - 1]) else ZERO)
  {
    hide KeyWord, KeySchedule, SBox, Plus, Rcon, OctetOf;
    WordOf(key, keys, i, r);
    WordOf(key, keys, i - 8, r);
    WordOf(key, keys, i - 1, (r + 1) % 4);
    NewWord(key, 8, i);
    Turned(KeyWord(key, 8, i - 8), KeyWord(key, 8, i - 1), i, r);
    ConstantAt(i / 8 - 1);
  }

  lemma ConstantAt(q: nat)
    requires q < 7
    ensures Rcon(q) == OctetOf([1, 2, 4, 8, 16, 32, 64][q])
  {
    hide Rcon, OctetOf;
    Constants();
  }

  lemma Turned(v: Column, w: Column, i: nat, r: nat)
    requires 8 <= i && i % 8 == 0 && r < 4
    ensures PlusWord(v, Transformed(8, i, w))[r]
         == Plus(Plus(v[r], SBox(w[(r + 1) % 4])), if r == 0 then Rcon(i / 8 - 1) else ZERO)
  {
    hide SBox, Plus, Rcon;
    PlusThree(v[r], SBox(w[(r + 1) % 4]), if r == 0 then Rcon(i / 8 - 1) else ZERO);
  }

  lemma PlusThree(a: Octet, b: Octet, c: Octet)
    ensures Plus(a, Plus(b, c)) == Plus(Plus(a, b), c)
  {}

  /** The words halfway between them: the word eight back, and the word before substituted. */
  lemma FourthWords(key: seq<Byte>, keys: seq<State>, i: nat, r: nat)
    requires |key| == 32 && keys == KeySchedule(key, 8, 14) && 8 <= i < 60 && i % 8 == 4 && r < 4
    ensures |keys| == 15
    ensures keys[i / 4][4 * r + i % 4]
         == Plus(keys[(i - 8) / 4][4 * r + (i - 8) % 4], SBox(keys[(i - 1) / 4][4 * r + (i - 1) % 4]))
  {
    hide KeyWord, KeySchedule, SBox, Plus;
    WordOf(key, keys, i, r);
    WordOf(key, keys, i - 8, r);
    WordOf(key, keys, i - 1, r);
    NewWord(key, 8, i);
  }

  /** All others: the sum of the word eight back and the word before. */
  lemma OtherWords(key: seq<Byte>, keys: seq<State>, i: nat, r: nat)
    requires |key| == 32 && keys == KeySchedule(key, 8, 14) && 8 <= i < 60 && i % 4 != 0 && r < 4
    ensures |keys| == 15
    ensures keys[i / 4][4 * r + i % 4]
         == Plus(keys[(i - 8) / 4][4 * r + (i - 8) % 4], keys[(i - 1) / 4][4 * r + (i - 1) % 4])
  {
    hide KeyWord, KeySchedule, SBox, Plus;
    WordOf(key, keys, i, r);
    WordOf(key, keys, i - 8, r);
    WordOf(key, keys, i - 1, r);
    NewWord(key, 8, i);
  }
}
