/** crypto/aes/aescrypt.c: enciphering and deciphering one block.

    The two state arrays `b0` and `b1` are overwritten round by round, and the
    round counts 14, 12 and 10 fall through into each other, as in the source. */
module AesBlock {
  import opened AesWords
  import opened AesTables
  import opened AesTablesFacts
  import opened AesKeySchedule
  import opened Fips197
  import opened Fips197Facts
  import opened Fips197Inverse

  // ------------------------------------------------ blocks as sixteen bytes

  function ToBlock(b: seq<bv8>): Block
    requires |b| == 16
  {
    Block(WordIn(b, 0), WordIn(b, 1), WordIn(b, 2), WordIn(b, 3))
  }

  function WordOut(w: Word): (b: seq<bv8>)
    ensures |b| == 4
  {
    [Bval(w, 0), Bval(w, 1), Bval(w, 2), Bval(w, 3)]
  }

  function FromBlock(s: Block): (b: seq<bv8>)
    ensures |b| == 16
  {
    WordOut(s.w0) + WordOut(s.w1) + WordOut(s.w2) + WordOut(s.w3)
  }

  lemma WordOutIn(b: seq<bv8>, c: nat)
    requires 4 * c + 4 <= |b|
    ensures WordOut(WordIn(b, c)) == b[4 * c..4 * c + 4]
  {
    hide MakeWord, Bval;
    BytesOfWord(b[4 * c], b[4 * c + 1], b[4 * c + 2], b[4 * c + 3]);
  }

  lemma FromToBlock(b: seq<bv8>)
    requires |b| == 16
    ensures FromBlock(ToBlock(b)) == b
  {
    hide WordIn, WordOut;
    WordOutIn(b, 0);
    WordOutIn(b, 1);
    WordOutIn(b, 2);
    WordOutIn(b, 3);
    assert b == b[0..4] + b[4..8] + b[8..12] + b[12..16];
  }

  lemma WordInOut(s: Block, c: nat)
    requires c < 4
    ensures WordIn(FromBlock(s), c) == (match c case 0 => s.w0 case 1 => s.w1 case 2 => s.w2 case _ => s.w3)
  {
    hide MakeWord, Bval;
    WordIsItsBytes(s.w0);
    WordIsItsBytes(s.w1);
    WordIsItsBytes(s.w2);
    WordIsItsBytes(s.w3);
  }

  lemma ToFromBlock(s: Block)
    ensures ToBlock(FromBlock(s)) == s
  {
    hide WordIn, FromBlock;
    WordInOut(s, 0);
    WordInOut(s, 1);
    WordInOut(s, 2);
    WordInOut(s, 3);
  }

  // --------------------------------------------------------------- rounds

  function State(b: array<Word>): Block
    requires b.Length == 4
    reads b
  {
    Block(b[0], b[1], b[2], b[3])
  }

  /** `fwd_var`: which column feeds row r of output column c. */
  function FwdVar(r: nat, c: nat): (v: nat)
    requires r < 4 && c < 4
    ensures v < 4
  {
    if r == 0 then (if c == 0 then 0 else if c == 1 then 1 else if c == 2 then 2 else 3)
    else if r == 1 then (if c == 0 then 1 else if c == 1 then 2 else if c == 2 then 3 else 0)
    else if r == 2 then (if c == 0 then 2 else if c == 1 then 3 else if c == 2 then 0 else 1)
    else (if c == 0 then 3 else if c == 1 then 0 else if c == 2 then 1 else 2)
  }

  function InvVar(r: nat, c: nat): (v: nat)
    requires r < 4 && c < 4
    ensures v < 4
  {
    if r == 0 then (if c == 0 then 0 else if c == 1 then 1 else if c == 2 then 2 else 3)
    else if r == 1 then (if c == 0 then 3 else if c == 1 then 0 else if c == 2 then 1 else 2)
    else if r == 2 then (if c == 0 then 2 else if c == 1 then 3 else if c == 2 then 0 else 1)
    else (if c == 0 then 1 else if c == 1 then 2 else if c == 2 then 3 else 0)
  }

  /** `four_tables(x,t,fwd_var,rf1,c)`. */
  function FwdTables(t: Table, x: array<Word>, c: nat): Word
    requires c < 4 && x.Length == 4
    reads x
  {
    FourTables(t, Bval(x[FwdVar(0, c)], 0), Bval(x[FwdVar(1, c)], 1),
               Bval(x[FwdVar(2, c)], 2), Bval(x[FwdVar(3, c)], 3))
  }

  function InvTables(t: Table, x: array<Word>, c: nat): Word
    requires c < 4 && x.Length == 4
    reads x
  {
    FourTables(t, Bval(x[InvVar(0, c)], 0), Bval(x[InvVar(1, c)], 1),
               Bval(x[InvVar(2, c)], 2), Bval(x[InvVar(3, c)], 3))
  }

  /** SubBytes before ShiftRows is an S-box lookup on the shifted bytes. */
  lemma SubShiftColumn(a: Word, b: Word, c: Word, d: Word)
    ensures Diagonal(SubWord(a), SubWord(b), SubWord(c), SubWord(d))
         == MakeWord(SBox(Bval(a, 0)), SBox(Bval(b, 1)), SBox(Bval(c, 2)), SBox(Bval(d, 3)))
  {
    hide SBox, Bval, MakeWord;
    BytesOfWord(SBox(Bval(a, 0)), SBox(Bval(a, 1)), SBox(Bval(a, 2)), SBox(Bval(a, 3)));
    BytesOfWord(SBox(Bval(b, 0)), SBox(Bval(b, 1)), SBox(Bval(b, 2)), SBox(Bval(b, 3)));
    BytesOfWord(SBox(Bval(c, 0)), SBox(Bval(c, 1)), SBox(Bval(c, 2)), SBox(Bval(c, 3)));
    BytesOfWord(SBox(Bval(d, 0)), SBox(Bval(d, 1)), SBox(Bval(d, 2)), SBox(Bval(d, 3)));
  }

  lemma InvSubShiftColumn(a: Word, b: Word, c: Word, d: Word)
    ensures InvSubWord(Diagonal(a, b, c, d))
         == MakeWord(InvSBox(Bval(a, 0)), InvSBox(Bval(b, 1)), InvSBox(Bval(c, 2)), InvSBox(Bval(d, 3)))
  {
    hide InvSBox, Bval, MakeWord;
    BytesOfWord(Bval(a, 0), Bval(b, 1), Bval(c, 2), Bval(d, 3));
  }

  lemma FwdColumn(a: Word, b: Word, c: Word, d: Word, k: Word)
    ensures Xor(k, FourTables(ForwardNormal, Bval(a, 0), Bval(b, 1), Bval(c, 2), Bval(d, 3)))
         == Xor(MixColumn(Diagonal(SubWord(a), SubWord(b), SubWord(c), SubWord(d))), k)
    ensures Xor(k, FourTables(ForwardLast, Bval(a, 0), Bval(b, 1), Bval(c, 2), Bval(d, 3)))
         == Xor(Diagonal(SubWord(a), SubWord(b), SubWord(c), SubWord(d)), k)
  {
    hide Xor, FourTables, Bval, SBox, MakeWord, MixColumn, SubWord, Diagonal;
    SubShiftColumn(a, b, c, d);
    ForwardNormalSum(Bval(a, 0), Bval(b, 1), Bval(c, 2), Bval(d, 3));
    ForwardLastSum(Bval(a, 0), Bval(b, 1), Bval(c, 2), Bval(d, 3));
    Commutative(k, MixColumn(Diagonal(SubWord(a), SubWord(b), SubWord(c), SubWord(d))));
    Commutative(k, Diagonal(SubWord(a), SubWord(b), SubWord(c), SubWord(d)));
  }

  lemma InvColumn(a: Word, b: Word, c: Word, d: Word, k: Word)
    ensures Xor(k, FourTables(InverseNormal, Bval(a, 0), Bval(b, 1), Bval(c, 2), Bval(d, 3)))
         == Xor(InvMixColumn(InvSubWord(Diagonal(a, b, c, d))), k)
    ensures Xor(k, FourTables(InverseLast, Bval(a, 0), Bval(b, 1), Bval(c, 2), Bval(d, 3)))
         == Xor(InvSubWord(Diagonal(a, b, c, d)), k)
  {
    hide Xor, FourTables, Bval, InvSBox, MakeWord, InvMixColumn, InvSubWord, Diagonal;
    InvSubShiftColumn(a, b, c, d);
    InverseNormalSum(Bval(a, 0), Bval(b, 1), Bval(c, 2), Bval(d, 3));
    InverseLastSum(Bval(a, 0), Bval(b, 1), Bval(c, 2), Bval(d, 3));
    Commutative(k, InvMixColumn(InvSubWord(Diagonal(a, b, c, d))));
    Commutative(k, InvSubWord(Diagonal(a, b, c, d)));
  }

  /** One round of encryption: every column of y from four table entries of x and a key word. */
  method FwdRound(y: array<Word>, x: array<Word>, k: array<Word>, kp: nat)
    requires y.Length == 4 && x.Length == 4 && y != x && y != k && kp % 4 == 0 && kp + 4 <= k.Length
    modifies y
    ensures State(y) == AddRoundKey(MixColumns(ShiftRows(SubBytes(State(x)))), k[..], kp / 4)
  {
    hide Xor, FourTables, Bval, MixColumn, SubWord, Diagonal;
    y[0] := Xor(k[kp], FwdTables(ForwardNormal, x, 0));
    y[1] := Xor(k[kp + 1], FwdTables(ForwardNormal, x, 1));
    y[2] := Xor(k[kp + 2], FwdTables(ForwardNormal, x, 2));
    y[3] := Xor(k[kp + 3], FwdTables(ForwardNormal, x, 3));
    FwdColumn(x[0], x[1], x[2], x[3], k[kp]);
    FwdColumn(x[1], x[2], x[3], x[0], k[kp + 1]);
    FwdColumn(x[2], x[3], x[0], x[1], k[kp + 2]);
    FwdColumn(x[3], x[0], x[1], x[2], k[kp + 3]);
  }

  /** The last round of encryption, through the tables without MixColumns. */
  method FwdLastRound(y: array<Word>, x: array<Word>, k: array<Word>, kp: nat)
    requires y.Length == 4 && x.Length == 4 && y != x && y != k && kp % 4 == 0 && kp + 4 <= k.Length
    modifies y
    ensures State(y) == AddRoundKey(ShiftRows(SubBytes(State(x))), k[..], kp / 4)
  {
    hide Xor, FourTables, Bval, SubWord, Diagonal;
    y[0] := Xor(k[kp], FwdTables(ForwardLast, x, 0));
    y[1] := Xor(k[kp + 1], FwdTables(ForwardLast, x, 1));
    y[2] := Xor(k[kp + 2], FwdTables(ForwardLast, x, 2));
    y[3] := Xor(k[kp + 3], FwdTables(ForwardLast, x, 3));
    FwdColumn(x[0], x[1], x[2], x[3], k[kp]);
    FwdColumn(x[1], x[2], x[3], x[0], k[kp + 1]);
    FwdColumn(x[2], x[3], x[0], x[1], k[kp + 2]);
    FwdColumn(x[3], x[0], x[1], x[2], k[kp + 3]);
  }

  /** One round of decryption, through the tables with InvMixColumns. */
  method InvRound(y: array<Word>, x: array<Word>, k: array<Word>, kp: nat)
    requires y.Length == 4 && x.Length == 4 && y != x && y != k && kp % 4 == 0 && kp + 4 <= k.Length
    modifies y
    ensures State(y) == AddRoundKey(InvMixColumns(InvSubBytes(InvShiftRows(State(x)))), k[..], kp / 4)
  {
    hide Xor, FourTables, Bval, InvMixColumn, InvSubWord, Diagonal;
    y[0] := Xor(k[kp], InvTables(InverseNormal, x, 0));
    y[1] := Xor(k[kp + 1], InvTables(InverseNormal, x, 1));
    y[2] := Xor(k[kp + 2], InvTables(InverseNormal, x, 2));
    y[3] := Xor(k[kp + 3], InvTables(InverseNormal, x, 3));
    InvColumn(x[0], x[3], x[2], x[1], k[kp]);
    InvColumn(x[1], x[0], x[3], x[2], k[kp + 1]);
    InvColumn(x[2], x[1], x[0], x[3], k[kp + 2]);
    InvColumn(x[3], x[2], x[1], x[0], k[kp + 3]);
  }

  /** The last round of decryption, through the tables without it. */
  method InvLastRound(y: array<Word>, x: array<Word>, k: array<Word>, kp: nat)
    requires y.Length == 4 && x.Length == 4 && y != x && y != k && kp % 4 == 0 && kp + 4 <= k.Length
    modifies y
    ensures State(y) == AddRoundKey(InvSubBytes(InvShiftRows(State(x))), k[..], kp / 4)
  {
    hide Xor, FourTables, Bval, InvSubWord, Diagonal;
    y[0] := Xor(k[kp], InvTables(InverseLast, x, 0));
    y[1] := Xor(k[kp + 1], InvTables(InverseLast, x, 1));
    y[2] := Xor(k[kp + 2], InvTables(InverseLast, x, 2));
    y[3] := Xor(k[kp + 3], InvTables(InverseLast, x, 3));
    InvColumn(x[0], x[3], x[2], x[1], k[kp]);
    InvColumn(x[1], x[0], x[3], x[2], k[kp + 1]);
    InvColumn(x[2], x[1], x[0], x[3], k[kp + 2]);
    InvColumn(x[3], x[2], x[1], x[0], k[kp + 3]);
  }

  // ----------------------------------------------------------- aes_encrypt

  /** What an expanded key of 4 * nr + 4 words does to sixteen bytes. */
  function EncryptBlock(w: seq<Word>, b: seq<bv8>): (c: seq<bv8>)
    requires |w| == 44 || |w| == 52 || |w| == 60
    requires |b| == 16
    ensures |c| == 16
  {
    FromBlock(Cipher(ToBlock(b), w, |w| / 4 - 1))
  }

  lemma {:induction false} RoundsReadPrefix(s: Block, w: seq<Word>, n: nat, m: nat)
    requires n <= m && 4 * m + 4 <= |w|
    ensures Rounds(s, w[..4 * m + 4], n) == Rounds(s, w, n)
  {
    hide MixColumns, ShiftRows, SubBytes, Xor;
    if n > 0 {
      RoundsReadPrefix(s, w, n - 1, m);
    }
  }

  lemma CipherReadsPrefix(s: Block, w: seq<Word>, nr: nat)
    requires 0 < nr && 4 * nr + 4 <= |w|
    ensures Cipher(s, w[..4 * nr + 4], nr) == Cipher(s, w, nr)
  {
    hide ShiftRows, SubBytes, Xor;
    RoundsReadPrefix(s, w, nr - 1, nr);
  }

  predicate ValidRounds(rounds: nat) {
    rounds == 10 * 16 || rounds == 12 * 16 || rounds == 14 * 16
  }

  /** One of the pairs of rounds that make up the unrolled cipher. */
  method TwoRounds(b0: array<Word>, b1: array<Word>, k: array<Word>, kp: nat, ghost s: Block)
    requires b0.Length == 4 && b1.Length == 4 && b0 != b1 && b0 != k && b1 != k
    requires kp % 4 == 0 && kp + 12 <= k.Length
    requires State(b0) == Rounds(s, k[..], kp / 4)
    modifies b0, b1
    ensures State(b0) == Rounds(s, k[..], kp / 4 + 2)
  {
    hide AddRoundKey, MixColumns, ShiftRows, SubBytes;
    FwdRound(b1, b0, k, kp + 4);
    FwdRound(b0, b1, k, kp + 8);
  }

  /** The last ten rounds of every key size: the `case 10 * 16` block. */
  method TenRounds(b0: array<Word>, b1: array<Word>, k: array<Word>, kp: nat, ghost s: Block)
    requires b0.Length == 4 && b1.Length == 4 && b0 != b1 && b0 != k && b1 != k
    requires kp % 4 == 0 && kp + 44 <= k.Length
    requires State(b0) == Rounds(s, k[..], kp / 4)
    modifies b0, b1
    ensures State(b0) == Cipher(s, k[..], kp / 4 + 10)
  {
    hide AddRoundKey, MixColumns, ShiftRows, SubBytes;
    ghost var w := k[..];
    TwoRounds(b0, b1, k, kp, s);
    TwoRounds(b0, b1, k, kp + 8, s);
    TwoRounds(b0, b1, k, kp + 16, s);
    TwoRounds(b0, b1, k, kp + 24, s);
    FwdRound(b1, b0, k, kp + 36);
    assert State(b1) == Rounds(s, w, kp / 4 + 9);
    FwdLastRound(b0, b1, k, kp + 40);
  }

  /** The switch of `aes_encrypt`, cases falling through from 14 to 12 to 10. */
  method AllRounds(b0: array<Word>, b1: array<Word>, k: array<Word>, rounds: nat, ghost s: Block)
    requires b0.Length == 4 && b1.Length == 4 && b0 != b1 && b0 != k && b1 != k
    requires ValidRounds(rounds) && k.Length == KS_LENGTH
    requires State(b0) == Rounds(s, k[..], 0)
    modifies b0, b1
    ensures State(b0) == Cipher(s, k[..], rounds / 16)
  {
    hide Rounds, Cipher;
    var kp := 0;
    if rounds == 14 * 16 {
      TwoRounds(b0, b1, k, kp, s);
      kp := kp + 8;
    }
    if rounds == 14 * 16 || rounds == 12 * 16 {
      TwoRounds(b0, b1, k, kp, s);
      kp := kp + 8;
    }
    TenRounds(b0, b1, k, kp, s);
  }

  /** The sixteen bytes at input + i, into the sixteen bytes at output + o. */
  method Encrypt(input: array<bv8>, i: nat, output: array<bv8>, o: nat, cx: Context) returns (ok: bool)
    requires i + 16 <= input.Length && o + 16 <= output.Length && cx.ks.Length == KS_LENGTH
    requires output as object != cx.ks
    modifies output
    ensures ok <==> ValidRounds(cx.rounds)
    ensures ok ==>
              output[o..o + 16] == EncryptBlock(cx.ks[..cx.rounds / 4 + 4], old(input[i..i + 16]))
    ensures output[..o] == old(output[..o]) && output[o + 16..] == old(output[o + 16..])
    ensures !ok ==> output[..] == old(output[..])
  {
    hide AddRoundKey, Cipher, FromBlock, ToBlock;
    if cx.rounds != 10 * 16 && cx.rounds != 12 * 16 && cx.rounds != 14 * 16 {
      return false;
    }
    ghost var s, w := ToBlock(input[i..i + 16]), cx.ks[..];
    ghost var block := input[i..i + 16];
    var b0, b1 := new Word[4](_ => ZERO), new Word[4](_ => ZERO);
    StateIn(b0, input, i, cx.ks, 0);
    AllRounds(b0, b1, cx.ks, cx.rounds, s);
    assert cx.ks[..] == w;
    CipherReadsPrefix(s, w, cx.rounds / 16);
    ghost var used := w[..4 * (cx.rounds / 16) + 4];
    assert FromBlock(State(b0)) == EncryptBlock(used, block);
    StateOut(output, o, b0);
    assert cx.ks[..] == w;
    assert cx.ks[..cx.rounds / 4 + 4] == used;
    ok := true;
  }

  /** state_in(x, in, kp) */
  method StateIn(b: array<Word>, input: array<bv8>, i: nat, k: array<Word>, kp: nat)
    requires b.Length == 4 && i + 16 <= input.Length && b != k && kp % 4 == 0 && kp + 4 <= k.Length
    modifies b
    ensures State(b) == AddRoundKey(ToBlock(input[i..i + 16]), k[..], kp / 4)
  {
    hide Xor, WordIn;
    var bytes := input[i..i + 16];
    b[0] := Xor(WordIn(bytes, 0), k[kp]);
    b[1] := Xor(WordIn(bytes, 1), k[kp + 1]);
    b[2] := Xor(WordIn(bytes, 2), k[kp + 2]);
    b[3] := Xor(WordIn(bytes, 3), k[kp + 3]);
  }

  /** word_out(out, c, v), with `at` the address of out[4 * c] */
  method StoreBytes(output: array<bv8>, at: nat, v: Word)
    requires at + 4 <= output.Length
    modifies output
    ensures output[at..at + 4] == WordOut(v)
    ensures forall j :: 0 <= j < at || at + 4 <= j < output.Length ==> output[j] == old(output[j])
  {
    hide Bval;
    output[at] := Bval(v, 0);
    output[at + 1] := Bval(v, 1);
    output[at + 2] := Bval(v, 2);
    output[at + 3] := Bval(v, 3);
  }

  /** state_out(out, b) */
  method StateOut(output: array<bv8>, o: nat, b: array<Word>)
    requires b.Length == 4 && o + 16 <= output.Length
    modifies output
    ensures output[o..o + 16] == FromBlock(State(b))
    ensures output[..o] == old(output[..o]) && output[o + 16..] == old(output[o + 16..])
  {
    hide WordOut;
    StoreBytes(output, o, b[0]);
    StoreBytes(output, o + 4, b[1]);
    assert output[o..o + 4] == WordOut(b[0]);
    StoreBytes(output, o + 8, b[2]);
    assert output[o..o + 4] == WordOut(b[0]) && output[o + 4..o + 8] == WordOut(b[1]);
    StoreBytes(output, o + 12, b[3]);
    assert output[o..o + 4] == WordOut(b[0]) && output[o + 4..o + 8] == WordOut(b[1]);
    assert output[o + 8..o + 12] == WordOut(b[2]) && output[o + 12..o + 16] == WordOut(b[3]);
    assert output[o..o + 16]
        == output[o..o + 4] + output[o + 4..o + 8] + output[o + 8..o + 12] + output[o + 12..o + 16];
  }

  // ----------------------------------------------------------- aes_decrypt

  /** The equivalent inverse cipher (section 5.3.5) over a reversed schedule. */
  function EqInvRounds(s: Block, dk: seq<Word>, n: nat): Block
    requires 4 * n + 4 <= |dk|
  {
    if n == 0 then AddRoundKey(s, dk, 0)
    else AddRoundKey(InvMixColumns(InvSubBytes(InvShiftRows(EqInvRounds(s, dk, n - 1)))), dk, n)
  }

  function EqInvCipher(s: Block, dk: seq<Word>, nr: nat): Block
    requires 0 < nr && 4 * nr + 4 <= |dk|
  {
    AddRoundKey(InvSubBytes(InvShiftRows(EqInvRounds(s, dk, nr - 1))), dk, nr)
  }

  function DecryptBlock(dk: seq<Word>, b: seq<bv8>): (c: seq<bv8>)
    requires |dk| == 44 || |dk| == 52 || |dk| == 60
    requires |b| == 16
    ensures |c| == 16
  {
    FromBlock(EqInvCipher(ToBlock(b), dk, |dk| / 4 - 1))
  }

  lemma {:induction false} EqInvRoundsReadPrefix(s: Block, dk: seq<Word>, n: nat, m: nat)
    requires n <= m && 4 * m + 4 <= |dk|
    ensures EqInvRounds(s, dk[..4 * m + 4], n) == EqInvRounds(s, dk, n)
  {
    hide InvMixColumns, InvShiftRows, InvSubBytes, Xor;
    if n > 0 {
      EqInvRoundsReadPrefix(s, dk, n - 1, m);
    }
  }

  lemma EqInvCipherReadsPrefix(s: Block, dk: seq<Word>, nr: nat)
    requires 0 < nr && 4 * nr + 4 <= |dk|
    ensures EqInvCipher(s, dk[..4 * nr + 4], nr) == EqInvCipher(s, dk, nr)
  {
    hide InvShiftRows, InvSubBytes, Xor;
    EqInvRoundsReadPrefix(s, dk, nr - 1, nr);
  }

  /** Two rounds at rnd_key offsets kp and kp + 4. */
  method TwoInvRounds(b0: array<Word>, b1: array<Word>, k: array<Word>, kp: nat, ghost s: Block)
    requires b0.Length == 4 && b1.Length == 4 && b0 != b1 && b0 != k && b1 != k
    requires 4 <= kp && kp % 4 == 0 && kp + 8 <= k.Length
    requires State(b0) == EqInvRounds(s, k[..], kp / 4 - 1)
    modifies b0, b1
    ensures State(b0) == EqInvRounds(s, k[..], kp / 4 + 1)
  {
    hide AddRoundKey, InvMixColumns, InvShiftRows, InvSubBytes;
    InvRound(b1, b0, k, kp);
    InvRound(b0, b1, k, kp + 4);
  }

  /** The `case 10 * 16` block, with kp the last round key. */
  method TenInvRounds(b0: array<Word>, b1: array<Word>, k: array<Word>, kp: nat, ghost s: Block)
    requires b0.Length == 4 && b1.Length == 4 && b0 != b1 && b0 != k && b1 != k
    requires 40 <= kp && kp % 4 == 0 && kp + 4 <= k.Length
    requires State(b0) == EqInvRounds(s, k[..], kp / 4 - 10)
    modifies b0, b1
    ensures State(b0) == EqInvCipher(s, k[..], kp / 4)
  {
    hide AddRoundKey, InvMixColumns, InvShiftRows, InvSubBytes;
    ghost var dk := k[..];
    TwoInvRounds(b0, b1, k, kp - 36, s);
    TwoInvRounds(b0, b1, k, kp - 28, s);
    TwoInvRounds(b0, b1, k, kp - 20, s);
    TwoInvRounds(b0, b1, k, kp - 12, s);
    InvRound(b1, b0, k, kp - 4);
    assert State(b1) == EqInvRounds(s, dk, kp / 4 - 1);
    InvLastRound(b0, b1, k, kp);
  }

  method AllInvRounds(b0: array<Word>, b1: array<Word>, k: array<Word>, rounds: nat, ghost s: Block)
    requires b0.Length == 4 && b1.Length == 4 && b0 != b1 && b0 != k && b1 != k
    requires ValidRounds(rounds) && k.Length == KS_LENGTH
    requires State(b0) == EqInvRounds(s, k[..], 0)
    modifies b0, b1
    ensures State(b0) == EqInvCipher(s, k[..], rounds / 16)
  {
    hide EqInvRounds, EqInvCipher;
    var kp := rounds / 4;
    if rounds == 14 * 16 {
      TwoInvRounds(b0, b1, k, kp - 13 * 4, s);
    }
    if rounds == 14 * 16 || rounds == 12 * 16 {
      TwoInvRounds(b0, b1, k, kp - 11 * 4, s);
    }
    TenInvRounds(b0, b1, k, kp, s);
  }

  /** The sixteen bytes at input + i, into the sixteen bytes at output + o. */
  method Decrypt(input: array<bv8>, i: nat, output: array<bv8>, o: nat, cx: Context) returns (ok: bool)
    requires i + 16 <= input.Length && o + 16 <= output.Length && cx.ks.Length == KS_LENGTH
    requires output as object != cx.ks
    modifies output
    ensures ok <==> ValidRounds(cx.rounds)
    ensures ok ==>
              output[o..o + 16] == DecryptBlock(cx.ks[..cx.rounds / 4 + 4], old(input[i..i + 16]))
    ensures output[..o] == old(output[..o]) && output[o + 16..] == old(output[o + 16..])
    ensures !ok ==> output[..] == old(output[..])
  {
    hide AddRoundKey, EqInvCipher, FromBlock, ToBlock;
    if cx.rounds != 10 * 16 && cx.rounds != 12 * 16 && cx.rounds != 14 * 16 {
      return false;
    }
    ghost var s, dk := ToBlock(input[i..i + 16]), cx.ks[..];
    ghost var block := input[i..i + 16];
    var b0, b1 := new Word[4](_ => ZERO), new Word[4](_ => ZERO);
    StateIn(b0, input, i, cx.ks, 0);
    AllInvRounds(b0, b1, cx.ks, cx.rounds, s);
    assert cx.ks[..] == dk;
    EqInvCipherReadsPrefix(s, dk, cx.rounds / 16);
    ghost var used := dk[..4 * (cx.rounds / 16) + 4];
    assert FromBlock(State(b0)) == DecryptBlock(used, block);
    StateOut(output, o, b0);
    assert cx.ks[..] == dk;
    assert cx.ks[..cx.rounds / 4 + 4] == used;
    ok := true;
  }

  // ------------------------------- deciphering under the optimised schedule

  /** A round key as the equivalent inverse cipher adds it between rounds. */
  function MixedKey(k: Block): Block {
    Block(InvMcol(k.w0), InvMcol(k.w1), InvMcol(k.w2), InvMcol(k.w3))
  }

  lemma ScheduleWord(key: seq<Word>, n: nat, c: nat)
    requires IsKey(key) && n <= RoundCount(key) && c < 4
    ensures var nr, w := RoundCount(key), KeyExpansion(key)[4 * (RoundCount(key) - n) + c];
            DecryptSchedule(key)[4 * n + c] == if 0 < n < nr then InvMcol(w) else w
  {
    hide InvMcol, KeyWord;
    assert (4 * n + c) % 4 == c;
    assert KsIndex(4 * RoundCount(key), 4 * n + c) == 4 * (RoundCount(key) - n) + c;
  }

  /** The round key the source adds after n deciphering rounds. */
  lemma ScheduleRow(key: seq<Word>, n: nat)
    requires IsKey(key) && n <= RoundCount(key)
    ensures var nr := RoundCount(key);
            var k := RoundKey(KeyExpansion(key), nr - n);
            RoundKey(DecryptSchedule(key), n) == if 0 < n < nr then MixedKey(k) else k
  {
    hide InvMcol, DecryptSchedule, KeyExpansion;
    ScheduleWord(key, n, 0);
    ScheduleWord(key, n, 1);
    ScheduleWord(key, n, 2);
    ScheduleWord(key, n, 3);
  }

  /** Moving AddRoundKey in front of InvMixColumns transforms the round key. */
  lemma RoundKeyThroughMix(s: Block, w: seq<Word>, r: nat, dk: seq<Word>, n: nat)
    requires 4 * r + 4 <= |w| && 4 * n + 4 <= |dk|
    requires RoundKey(dk, n) == MixedKey(RoundKey(w, r))
    ensures AddRoundKey(InvMixColumns(s), dk, n) == InvMixColumns(AddRoundKey(s, w, r))
  {
    hide InvMcol, InvMixColumn, Xor, RoundKey;
    var k := RoundKey(w, r);
    InvMcolMeaning(k.w0);
    InvMcolMeaning(k.w1);
    InvMcolMeaning(k.w2);
    InvMcolMeaning(k.w3);
    InvMixColumnDistributes(s.w0, k.w0);
    InvMixColumnDistributes(s.w1, k.w1);
    InvMixColumnDistributes(s.w2, k.w2);
    InvMixColumnDistributes(s.w3, k.w3);
  }

  lemma {:induction false} EqInvRoundsAreInvRounds(key: seq<Word>, s: Block, n: nat)
    requires IsKey(key) && n < RoundCount(key)
    ensures EqInvRounds(s, DecryptSchedule(key), n) == InvRounds(s, KeyExpansion(key), RoundCount(key), n)
  {
    hide MixedKey, InvMixColumns, InvShiftRows, InvSubBytes, DecryptSchedule, KeyExpansion, Xor, RoundKey;
    var nr, dk, w := RoundCount(key), DecryptSchedule(key), KeyExpansion(key);
    ScheduleRow(key, n);
    if n > 0 {
      EqInvRoundsAreInvRounds(key, s, n - 1);
      var state := InvSubBytes(InvShiftRows(InvRounds(s, w, nr, n - 1)));
      RoundKeyThroughMix(state, w, nr - n, dk, n);
    }
  }

  /** The equivalent inverse cipher under the optimised schedule is the inverse
      cipher of section 5.3 under the expanded key. */
  lemma EqInvCipherIsInvCipher(key: seq<Word>, s: Block)
    requires IsKey(key)
    ensures EqInvCipher(s, DecryptSchedule(key), RoundCount(key)) == InvCipher(s, KeyExpansion(key), RoundCount(key))
  {
    hide MixedKey, InvShiftRows, InvSubBytes, DecryptSchedule, KeyExpansion, Xor, RoundKey, InvRounds, EqInvRounds;
    var nr := RoundCount(key);
    EqInvRoundsAreInvRounds(key, s, nr - 1);
    ScheduleRow(key, nr);
  }

  /** Deciphering undoes enciphering, for every key and every block. */
  lemma DecryptUndoesEncrypt(key: seq<Word>, b: seq<bv8>)
    requires IsKey(key) && |b| == 16
    ensures DecryptBlock(DecryptSchedule(key), EncryptBlock(KeyExpansion(key), b)) == b
  {
    hide Cipher, InvCipher, EqInvCipher, ToBlock, FromBlock, DecryptSchedule, KeyExpansion;
    var w, nr := KeyExpansion(key), RoundCount(key);
    ToFromBlock(Cipher(ToBlock(b), w, nr));
    EqInvCipherIsInvCipher(key, Cipher(ToBlock(b), w, nr));
    InvCipherUndoesCipher(ToBlock(b), w, nr);
    FromToBlock(b);
  }

  /** The four routines in sequence: schedule, encipher, schedule, decipher. */
  method EncryptThenDecrypt(key: array<bv8>, keyLen: int, plain: array<bv8>) returns (back: array<bv8>)
    requires KeyBytes(keyLen) > 0 && key.Length == KeyBytes(keyLen) && plain.Length == 16
    ensures back[..] == plain[..]
  {
    hide EncryptBlock, DecryptBlock, KeyExpansion, DecryptSchedule, WordIn;
    ghost var words := KeyWords(key[..]);
    var enc := new Context();
    var dec := new Context();
    var coded := new bv8[16](_ => 0);
    back := new bv8[16](_ => 0);
    var ok := EncryptKey(key, keyLen, enc);
    ok := Encrypt(plain, 0, coded, 0, enc);
    ok := DecryptKey(key, keyLen, dec);
    ok := Decrypt(coded, 0, back, 0, dec);
    assert plain[0..16] == plain[..] && coded[0..16] == coded[..] && back[0..16] == back[..];
    DecryptUndoesEncrypt(words, plain[..]);
  }
}
