/** The inverse cipher of FIPS 197 undoes the cipher. */
module Fips197Inverse {
  import opened AesWords
  import opened Fips197
  import opened Fips197Facts

  lemma InvSubWordUndoes(w: Word)
    ensures InvSubWord(SubWord(w)) == w
  {
    hide SBox, InvSBox, Bval, MakeWord, IsFieldInverse, Affine;
    BytesOfWord(SBox(Bval(w, 0)), SBox(Bval(w, 1)), SBox(Bval(w, 2)), SBox(Bval(w, 3)));
    TablesAreTheSBox(Bval(w, 0));
    TablesAreTheSBox(Bval(w, 1));
    TablesAreTheSBox(Bval(w, 2));
    TablesAreTheSBox(Bval(w, 3));
    WordIsItsBytes(w);
  }

  lemma InvSubBytesUndoes(s: Block)
    ensures InvSubBytes(SubBytes(s)) == s
  {
    hide InvSubWord, SubWord;
    InvSubWordUndoes(s.w0);
    InvSubWordUndoes(s.w1);
    InvSubWordUndoes(s.w2);
    InvSubWordUndoes(s.w3);
  }

  lemma InvShiftRowsUndoes(s: Block)
    ensures InvShiftRows(ShiftRows(s)) == s
  {
    hide MakeWord, Bval;
    var (a, b, c, d) := (s.w0, s.w1, s.w2, s.w3);
    BytesOfWord(Bval(a, 0), Bval(b, 1), Bval(c, 2), Bval(d, 3));
    BytesOfWord(Bval(b, 0), Bval(c, 1), Bval(d, 2), Bval(a, 3));
    BytesOfWord(Bval(c, 0), Bval(d, 1), Bval(a, 2), Bval(b, 3));
    BytesOfWord(Bval(d, 0), Bval(a, 1), Bval(b, 2), Bval(c, 3));
    WordIsItsBytes(a);
    WordIsItsBytes(b);
    WordIsItsBytes(c);
    WordIsItsBytes(d);
  }

  lemma InvMixColumnsUndoes(s: Block)
    ensures InvMixColumns(MixColumns(s)) == s
  {
    hide MixColumn, InvMixColumn;
    InvMixUndoesMix(s.w0);
    InvMixUndoesMix(s.w1);
    InvMixUndoesMix(s.w2);
    InvMixUndoesMix(s.w3);
  }

  lemma AddRoundKeyUndoes(s: Block, w: seq<Word>, r: nat)
    requires 4 * r + 4 <= |w|
    ensures AddRoundKey(AddRoundKey(s, w, r), w, r) == s
  {
    hide Xor;
    XorTwice(w[4 * r], s.w0);
    XorTwice(w[4 * r + 1], s.w1);
    XorTwice(w[4 * r + 2], s.w2);
    XorTwice(w[4 * r + 3], s.w3);
  }

  /** After n rounds of deciphering, what is left is the state that entered the
      SubBytes of enciphering round nr - n. */
  lemma {:induction false} InvRoundsMeetRounds(s: Block, w: seq<Word>, nr: nat, n: nat)
    requires n < nr && 4 * nr + 4 <= |w|
    ensures InvRounds(Cipher(s, w, nr), w, nr, n) == ShiftRows(SubBytes(Rounds(s, w, nr - 1 - n)))
  {
    hide AddRoundKey, InvMixColumns, MixColumns, InvShiftRows, ShiftRows, InvSubBytes, SubBytes;
    if n == 0 {
      AddRoundKeyUndoes(ShiftRows(SubBytes(Rounds(s, w, nr - 1))), w, nr);
    } else {
      InvRoundsMeetRounds(s, w, nr, n - 1);
      var state := Rounds(s, w, nr - n);
      InvShiftRowsUndoes(SubBytes(state));
      InvSubBytesUndoes(state);
      var mixed := MixColumns(ShiftRows(SubBytes(Rounds(s, w, nr - n - 1))));
      assert state == AddRoundKey(mixed, w, nr - n);
      AddRoundKeyUndoes(mixed, w, nr - n);
      InvMixColumnsUndoes(ShiftRows(SubBytes(Rounds(s, w, nr - n - 1))));
    }
  }

  lemma InvCipherUndoesCipher(s: Block, w: seq<Word>, nr: nat)
    requires 0 < nr && 4 * nr + 4 <= |w|
    ensures InvCipher(Cipher(s, w, nr), w, nr) == s
  {
    hide AddRoundKey, InvShiftRows, ShiftRows, InvSubBytes, SubBytes;
    InvRoundsMeetRounds(s, w, nr, nr - 1);
    InvShiftRowsUndoes(SubBytes(Rounds(s, w, 0)));
    InvSubBytesUndoes(Rounds(s, w, 0));
    AddRoundKeyUndoes(s, w, 0);
  }
}
