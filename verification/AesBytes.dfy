/** What the functions named after FIPS 197 come to, byte by byte: statements without
    the names RotWord, SubWord, Rcon, SubBytes, ShiftRows and MixColumns, and the
    first round of the example in appendix B of the standard. */
module AesBytes {
  import opened AesWords
  import opened AesTables
  import opened AesTablesFacts
  import opened Fips197
  import opened Fips197Facts
  import opened AesKeySchedule
  import opened AesBlock

  // --------------------------------------------------- bytes and their places

  function Column(s: Block, c: nat): Word
    requires c < 4
  {
    if c == 0 then s.w0 else if c == 1 then s.w1 else if c == 2 then s.w2 else s.w3
  }

  /** Byte 4c + r is row r of column c, in and out (section 3.4). */
  lemma BytePlaces(b: seq<bv8>, s: Block, c: nat, r: nat)
    requires |b| == 16 && c < 4 && r < 4
    ensures Bval(Column(ToBlock(b), c), r) == b[4 * c + r]
    ensures FromBlock(s)[4 * c + r] == Bval(Column(s, c), r)
  {
    hide MakeWord, Bval;
    BytesOfWord(b[4 * c], b[4 * c + 1], b[4 * c + 2], b[4 * c + 3]);
    assert Column(ToBlock(b), c) == WordIn(b, c);
    assert FromBlock(s)[4 * c..4 * c + 4] == WordOut(Column(s, c));
    assert FromBlock(s)[4 * c + r] == FromBlock(s)[4 * c..4 * c + 4][r];
  }

  lemma KeyBytePlaces(key: seq<bv8>, c: nat, r: nat)
    requires 4 * c + 4 <= |key| && r < 4
    ensures Bval(KeyWords(key)[c], r) == key[4 * c + r]
  {
    hide MakeWord, Bval;
    BytesOfWord(key[4 * c], key[4 * c + 1], key[4 * c + 2], key[4 * c + 3]);
  }

  // ---------------------------------------------------------- key expansion

  const POWERS: seq<bv8> := [0x01, 0x02, 0x04, 0x08, 0x10, 0x20, 0x40, 0x80, 0x1b, 0x36]

  /** Section 5.2: every Nk-th word takes the bytes of the one before turned by one
      place to the left, through the S-box, and a power of x in the first byte. */
  lemma TurnedWord(key: seq<Word>, i: nat, a: Word, t: Word, w: Word)
    requires IsKey(key) && i < 10
    requires a == KeyWord(key, |key| * i) && t == KeyWord(key, |key| * i + |key| - 1)
    requires w == KeyWord(key, |key| * i + |key|)
    ensures Bval(w, 0) == Xor8(Bval(a, 0), Xor8(SBox(Bval(t, 1)), POWERS[i]))
    ensures Bval(w, 1) == Xor8(Bval(a, 1), SBox(Bval(t, 2)))
    ensures Bval(w, 2) == Xor8(Bval(a, 2), SBox(Bval(t, 3)))
    ensures Bval(w, 3) == Xor8(Bval(a, 3), SBox(Bval(t, 0)))
  {
    hide Bval, Xor, Xor8, LsBox, RcTable, SBox, KeyWord;
    FirstWord(key, i);
    XorBytewise(a, Xor(LsBox(t, 3), RcTable(i)));
    XorBytewise(LsBox(t, 3), RcTable(i));
    TurnedBytes(t);
    PowerBytes(i);
    Zero8(SBox(Bval(t, 2)));
    Zero8(SBox(Bval(t, 3)));
    Zero8(SBox(Bval(t, 0)));
  }

  lemma TurnedBytes(t: Word)
    ensures Bval(LsBox(t, 3), 0) == SBox(Bval(t, 1)) && Bval(LsBox(t, 3), 1) == SBox(Bval(t, 2))
    ensures Bval(LsBox(t, 3), 2) == SBox(Bval(t, 3)) && Bval(LsBox(t, 3), 3) == SBox(Bval(t, 0))
  {
    hide Bval, SBox, MakeWord, LsBox;
    LsBoxMeaning(t);
    BytesOfWord(Bval(t, 1), Bval(t, 2), Bval(t, 3), Bval(t, 0));
    BytesOfWord(SBox(Bval(t, 1)), SBox(Bval(t, 2)), SBox(Bval(t, 3)), SBox(Bval(t, 0)));
  }

  lemma PowerBytes(i: nat)
    requires i < 10
    ensures Bval(RcTable(i), 0) == POWERS[i]
    ensures Bval(RcTable(i), 1) == 0 && Bval(RcTable(i), 2) == 0 && Bval(RcTable(i), 3) == 0
  {
    hide Bval, MakeWord, W, Wide;
    WEntries(POWERS[i]);
    BytesOfWord(POWERS[i], 0, 0, 0);
    PowersWiden(i);
  }

  lemma PowersWiden(i: nat)
    requires i < 10
    ensures RcTable(i) == W(0, Wide(POWERS[i]))
  {
  }

  /** With eight key words the word in the middle takes the one before through the
      S-box without turning it; every other word just adds the one before. */
  lemma OtherWords(key: seq<Word>, i: nat, c: nat, a: Word, t: Word, w: Word, r: nat)
    requires IsKey(key) && 0 < c < |key| && r < 4
    requires a == KeyWord(key, |key| * i + c) && t == KeyWord(key, |key| * i + |key| + c - 1)
    requires w == KeyWord(key, |key| * i + |key| + c)
    ensures Bval(w, r) == Xor8(Bval(a, r), if |key| == 8 && c == 4 then SBox(Bval(t, r)) else Bval(t, r))
  {
    hide Bval, Xor, Xor8, SBox, MakeWord, LsBox, KeyWord, SubWord;
    if |key| == 8 && c == 4 {
      MiddleWord(key, i);
      LsBoxMeaning(t);
      SubWordBytes(t);
      XorBytewise(a, SubWord(t));
    } else {
      NextWord(key, i, c);
      XorBytewise(a, t);
    }
  }

  // --------------------------------------------------------------- the rounds

  /** A full round (sections 5.1.1 to 5.1.4): column c takes its row r from column
      c + r, through the S-box, mixes the four bytes and adds the key. */
  lemma RoundBytes(s: Block, w: seq<Word>, n: nat, c: nat, a0: bv8, a1: bv8, a2: bv8, a3: bv8)
    requires 4 * n + 8 <= |w| && c < 4
    requires var t := Rounds(s, w, n);
             && a0 == SBox(Bval(Column(t, c), 0)) && a1 == SBox(Bval(Column(t, (c + 1) % 4), 1))
             && a2 == SBox(Bval(Column(t, (c + 2) % 4), 2)) && a3 == SBox(Bval(Column(t, (c + 3) % 4), 3))
    ensures var u, k := Column(Rounds(s, w, n + 1), c), w[4 * n + 4 + c];
            && Bval(u, 0) == Xor8(Xor8(Xor8(Xor8(XTime(a0), Xor8(a1, XTime(a1))), a2), a3), Bval(k, 0))
            && Bval(u, 1) == Xor8(Xor8(Xor8(Xor8(a0, XTime(a1)), Xor8(a2, XTime(a2))), a3), Bval(k, 1))
            && Bval(u, 2) == Xor8(Xor8(Xor8(Xor8(a0, a1), XTime(a2)), Xor8(a3, XTime(a3))), Bval(k, 2))
            && Bval(u, 3) == Xor8(Xor8(Xor8(Xor8(Xor8(a0, XTime(a0)), a1), a2), XTime(a3)), Bval(k, 3))
  {
    hide Bval, SBox, MakeWord, MixColumn, XTime, Xor8, Xor, SubBytes, ShiftRows;
    RoundColumn(s, w, n, c);
    ShiftedColumn(Rounds(s, w, n), c);
    MixedBytes(a0, a1, a2, a3);
    XorBytewise(MixColumn(MakeWord(a0, a1, a2, a3)), w[4 * n + 4 + c]);
    hide Rounds, Column;
  }

  lemma RoundColumn(s: Block, w: seq<Word>, n: nat, c: nat)
    requires 4 * n + 8 <= |w| && c < 4
    ensures Column(Rounds(s, w, n + 1), c)
         == Xor(MixColumn(Column(ShiftRows(SubBytes(Rounds(s, w, n))), c)), w[4 * n + 4 + c])
  {
    hide MixColumn, Xor, SubBytes, ShiftRows;
    var t := Rounds(s, w, n);
    assert Rounds(s, w, n + 1) == AddRoundKey(MixColumns(ShiftRows(SubBytes(t))), w, n + 1);
    hide Rounds;
  }

  lemma ShiftedColumn(s: Block, c: nat)
    requires c < 4
    ensures Column(ShiftRows(SubBytes(s)), c)
         == MakeWord(SBox(Bval(Column(s, c), 0)), SBox(Bval(Column(s, (c + 1) % 4), 1)),
                     SBox(Bval(Column(s, (c + 2) % 4), 2)), SBox(Bval(Column(s, (c + 3) % 4), 3)))
  {
    hide SBox, MakeWord, Bval, SubWord, Diagonal;
    SubShiftColumn(s.w0, s.w1, s.w2, s.w3);
    SubShiftColumn(s.w1, s.w2, s.w3, s.w0);
    SubShiftColumn(s.w2, s.w3, s.w0, s.w1);
    SubShiftColumn(s.w3, s.w0, s.w1, s.w2);
  }

  lemma SubWordBytes(w: Word)
    ensures Bval(SubWord(w), 0) == SBox(Bval(w, 0)) && Bval(SubWord(w), 1) == SBox(Bval(w, 1))
    ensures Bval(SubWord(w), 2) == SBox(Bval(w, 2)) && Bval(SubWord(w), 3) == SBox(Bval(w, 3))
  {
    hide SBox, MakeWord, Bval;
    BytesOfWord(SBox(Bval(w, 0)), SBox(Bval(w, 1)), SBox(Bval(w, 2)), SBox(Bval(w, 3)));
  }

  lemma MixedBytes(a0: bv8, a1: bv8, a2: bv8, a3: bv8)
    ensures var m := MixColumn(MakeWord(a0, a1, a2, a3));
            && Bval(m, 0) == Xor8(Xor8(Xor8(XTime(a0), Xor8(a1, XTime(a1))), a2), a3)
            && Bval(m, 1) == Xor8(Xor8(Xor8(a0, XTime(a1)), Xor8(a2, XTime(a2))), a3)
            && Bval(m, 2) == Xor8(Xor8(Xor8(a0, a1), XTime(a2)), Xor8(a3, XTime(a3)))
            && Bval(m, 3) == Xor8(Xor8(Xor8(Xor8(a0, XTime(a0)), a1), a2), XTime(a3))
  {
    hide Bval, MakeWord, Mul, XTime, Xor8;
    BytesOfWord(a0, a1, a2, a3);
    SmallProducts(a0);
    SmallProducts(a1);
    SmallProducts(a2);
    SmallProducts(a3);
    BytesOfWord(Dot(0x02, 0x03, 0x01, 0x01, a0, a1, a2, a3), Dot(0x01, 0x02, 0x03, 0x01, a0, a1, a2, a3),
                Dot(0x01, 0x01, 0x02, 0x03, a0, a1, a2, a3), Dot(0x03, 0x01, 0x01, 0x02, a0, a1, a2, a3));
  }

  /** Before the rounds the key is added, and the last round does not mix. */
  lemma FirstAndLastBytes(s: Block, w: seq<Word>, nr: nat, c: nat)
    requires 0 < nr && 4 * nr + 4 <= |w| && c < 4
    ensures Column(Rounds(s, w, 0), c) == Xor(Column(s, c), w[c])
    ensures var t, u, k := Rounds(s, w, nr - 1), Column(Cipher(s, w, nr), c), w[4 * nr + c];
            && Bval(u, 0) == Xor8(SBox(Bval(Column(t, c), 0)), Bval(k, 0))
            && Bval(u, 1) == Xor8(SBox(Bval(Column(t, (c + 1) % 4), 1)), Bval(k, 1))
            && Bval(u, 2) == Xor8(SBox(Bval(Column(t, (c + 2) % 4), 2)), Bval(k, 2))
            && Bval(u, 3) == Xor8(SBox(Bval(Column(t, (c + 3) % 4), 3)), Bval(k, 3))
  {
    hide Bval, SBox, MakeWord, Xor8, Xor, SubBytes, ShiftRows;
    assert Rounds(s, w, 0) == AddRoundKey(s, w, 0);
    hide Rounds;
    var t := Rounds(s, w, nr - 1);
    var a0, a1 := SBox(Bval(Column(t, c), 0)), SBox(Bval(Column(t, (c + 1) % 4), 1));
    var a2, a3 := SBox(Bval(Column(t, (c + 2) % 4), 2)), SBox(Bval(Column(t, (c + 3) % 4), 3));
    ShiftedColumn(t, c);
    LastColumn(s, w, nr, c);
    XorBytewise(MakeWord(a0, a1, a2, a3), w[4 * nr + c]);
    BytesOfWord(a0, a1, a2, a3);
  }

  lemma LastColumn(s: Block, w: seq<Word>, nr: nat, c: nat)
    requires 0 < nr && 4 * nr + 4 <= |w| && c < 4
    ensures Column(Cipher(s, w, nr), c) == Xor(Column(ShiftRows(SubBytes(Rounds(s, w, nr - 1))), c), w[4 * nr + c])
  {
    hide Xor, SubBytes, ShiftRows, Rounds;
  }

  // ------------------------------------------------- an example of the standard

  /** A word as the standard writes it, first byte first. */
  function Hex(n: bv32): Word {
    MakeWord(((n >> 24) & 0xff) as bv8, ((n >> 16) & 0xff) as bv8, ((n >> 8) & 0xff) as bv8, (n & 0xff) as bv8)
  }

  const EXAMPLE_KEY: seq<Word> := [Hex(0x2b7e1516), Hex(0x28aed2a6), Hex(0xabf71588), Hex(0x09cf4f3c)]

  /** The first round key of appendix B. */
  lemma ExampleSchedule()
    ensures KeyWord(EXAMPLE_KEY, 4) == Hex(0xa0fafe17) && KeyWord(EXAMPLE_KEY, 5) == Hex(0x88542cb1)
    ensures KeyWord(EXAMPLE_KEY, 6) == Hex(0x23a33939) && KeyWord(EXAMPLE_KEY, 7) == Hex(0x2a6c7605)
  {
    ExampleTurn();
    ExampleSums();
    hide Hex, SubWord, RotWord, Rcon, Xor;
    assert KeyWord(EXAMPLE_KEY, 4) == Hex(0xa0fafe17);
    assert KeyWord(EXAMPLE_KEY, 5) == Hex(0x88542cb1);
    assert KeyWord(EXAMPLE_KEY, 6) == Hex(0x23a33939);
  }

  lemma ExampleTurn()
    ensures SubWord(RotWord(Hex(0x09cf4f3c))) == Hex(0x8a84eb01) && Rcon(1) == Hex(0x01000000)
  {
    assert RotWord(Hex(0x09cf4f3c)) == Hex(0xcf4f3c09);
    hide RotWord;
    assert SubWord(Hex(0xcf4f3c09)) == Hex(0x8a84eb01);
  }

  lemma ExampleSums()
    ensures Xor(Hex(0x2b7e1516), Xor(Hex(0x8a84eb01), Hex(0x01000000))) == Hex(0xa0fafe17)
    ensures Xor(Hex(0x28aed2a6), Hex(0xa0fafe17)) == Hex(0x88542cb1)
    ensures Xor(Hex(0xabf71588), Hex(0x88542cb1)) == Hex(0x23a33939)
    ensures Xor(Hex(0x09cf4f3c), Hex(0x23a33939)) == Hex(0x2a6c7605)
  {
  }

  /** The first round of appendix B. */
  lemma ExampleRound()
    ensures Rounds(Block(Hex(0x3243f6a8), Hex(0x885a308d), Hex(0x313198a2), Hex(0xe0370734)),
                   KeyExpansion(EXAMPLE_KEY), 1)
         == Block(Hex(0xa49c7ff2), Hex(0x689f352b), Hex(0x6b5bea43), Hex(0x026a5049))
  {
    hide Hex, KeyWord, SubBytes, ShiftRows, MixColumn, Xor;
    var input := Block(Hex(0x3243f6a8), Hex(0x885a308d), Hex(0x313198a2), Hex(0xe0370734));
    var w := KeyExpansion(EXAMPLE_KEY);
    ExampleKeyWords();
    ExampleStart();
    var start := Block(Hex(0x193de3be), Hex(0xa0f4e22b), Hex(0x9ac68d2a), Hex(0xe9f84808));
    assert Rounds(input, w, 0) == AddRoundKey(input, w, 0) == start;
    RoundsStep(input, w);
    hide Rounds;
    ExampleSubstitution();
    ExampleMix();
    ExampleEnd();
  }

  lemma RoundsStep(s: Block, w: seq<Word>)
    requires |w| >= 8
    ensures Rounds(s, w, 1) == AddRoundKey(MixColumns(ShiftRows(SubBytes(Rounds(s, w, 0)))), w, 1)
  {
    hide SubBytes, ShiftRows, MixColumns, AddRoundKey;
  }

  lemma ExampleKeyWords()
    ensures var w := KeyExpansion(EXAMPLE_KEY);
            w[..8] == EXAMPLE_KEY + [Hex(0xa0fafe17), Hex(0x88542cb1), Hex(0x23a33939), Hex(0x2a6c7605)]
  {
    hide Hex;
    ExampleSchedule();
    FirstWords(EXAMPLE_KEY);
    hide KeyWord;
  }

  lemma ExampleStart()
    ensures Xor(Hex(0x3243f6a8), Hex(0x2b7e1516)) == Hex(0x193de3be)
    ensures Xor(Hex(0x885a308d), Hex(0x28aed2a6)) == Hex(0xa0f4e22b)
    ensures Xor(Hex(0x313198a2), Hex(0xabf71588)) == Hex(0x9ac68d2a)
    ensures Xor(Hex(0xe0370734), Hex(0x09cf4f3c)) == Hex(0xe9f84808)
  {
  }

  lemma ExampleSubstitution()
    ensures ShiftRows(SubBytes(Block(Hex(0x193de3be), Hex(0xa0f4e22b), Hex(0x9ac68d2a), Hex(0xe9f84808))))
         == Block(Hex(0xd4bf5d30), Hex(0xe0b452ae), Hex(0xb84111f1), Hex(0x1e2798e5))
  {
    ExampleSubWords();
    ExampleShift();
    hide SubWord, ShiftRows, Hex;
  }

  lemma ExampleSubWords()
    ensures SubWord(Hex(0x193de3be)) == Hex(0xd42711ae) && SubWord(Hex(0xa0f4e22b)) == Hex(0xe0bf98f1)
    ensures SubWord(Hex(0x9ac68d2a)) == Hex(0xb8b45de5) && SubWord(Hex(0xe9f84808)) == Hex(0x1e415230)
  {
    ExampleSubWord0();
    ExampleSubWord1();
    ExampleSubWord2();
    ExampleSubWord3();
    hide SubWord, Hex;
  }

  lemma ExampleSubWord0()
    ensures SubWord(Hex(0x193de3be)) == Hex(0xd42711ae)
  {
  }

  lemma ExampleSubWord1()
    ensures SubWord(Hex(0xa0f4e22b)) == Hex(0xe0bf98f1)
  {
  }

  lemma ExampleSubWord2()
    ensures SubWord(Hex(0x9ac68d2a)) == Hex(0xb8b45de5)
  {
  }

  lemma ExampleSubWord3()
    ensures SubWord(Hex(0xe9f84808)) == Hex(0x1e415230)
  {
  }

  lemma ExampleShift()
    ensures ShiftRows(Block(Hex(0xd42711ae), Hex(0xe0bf98f1), Hex(0xb8b45de5), Hex(0x1e415230)))
         == Block(Hex(0xd4bf5d30), Hex(0xe0b452ae), Hex(0xb84111f1), Hex(0x1e2798e5))
  {
  }

  lemma ExampleMix()
    ensures MixColumn(Hex(0xd4bf5d30)) == Hex(0x046681e5) && MixColumn(Hex(0xe0b452ae)) == Hex(0xe0cb199a)
    ensures MixColumn(Hex(0xb84111f1)) == Hex(0x48f8d37a) && MixColumn(Hex(0x1e2798e5)) == Hex(0x2806264c)
  {
    MixedExample(0xd4, 0xbf, 0x5d, 0x30, 0x04, 0x66, 0x81, 0xe5);
    MixedExample(0xe0, 0xb4, 0x52, 0xae, 0xe0, 0xcb, 0x19, 0x9a);
    MixedExample(0xb8, 0x41, 0x11, 0xf1, 0x48, 0xf8, 0xd3, 0x7a);
    MixedExample(0x1e, 0x27, 0x98, 0xe5, 0x28, 0x06, 0x26, 0x4c);
    hide MixColumn;
  }

  lemma MixedExample(a0: bv8, a1: bv8, a2: bv8, a3: bv8, b0: bv8, b1: bv8, b2: bv8, b3: bv8)
    requires b0 == Xor8(Xor8(Xor8(XTime(a0), Xor8(a1, XTime(a1))), a2), a3)
    requires b1 == Xor8(Xor8(Xor8(a0, XTime(a1)), Xor8(a2, XTime(a2))), a3)
    requires b2 == Xor8(Xor8(Xor8(a0, a1), XTime(a2)), Xor8(a3, XTime(a3)))
    requires b3 == Xor8(Xor8(Xor8(Xor8(a0, XTime(a0)), a1), a2), XTime(a3))
    ensures MixColumn(MakeWord(a0, a1, a2, a3)) == MakeWord(b0, b1, b2, b3)
  {
    hide MakeWord, Bval, MixColumn, XTime, Xor8;
    var m := MixColumn(MakeWord(a0, a1, a2, a3));
    MixedBytes(a0, a1, a2, a3);
    WordIsItsBytes(m);
  }

  lemma ExampleEnd()
    ensures Xor(Hex(0x046681e5), Hex(0xa0fafe17)) == Hex(0xa49c7ff2)
    ensures Xor(Hex(0xe0cb199a), Hex(0x88542cb1)) == Hex(0x689f352b)
    ensures Xor(Hex(0x48f8d37a), Hex(0x23a33939)) == Hex(0x6b5bea43)
    ensures Xor(Hex(0x2806264c), Hex(0x2a6c7605)) == Hex(0x026a5049)
  {
  }
}
