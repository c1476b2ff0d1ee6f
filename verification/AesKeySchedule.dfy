/** crypto/aes/aeskey.c: the six key schedules.

    The macros that advance a schedule by one cycle are methods over the running
    words `ss` and the schedule `k`, both updated in place as the source does;
    the unrolled sequences of macro calls are written as loops.  `key` is a
    ghost parameter that names the key the schedule belongs to. */
module AesKeySchedule {
  import opened AesWords
  import opened AesTables
  import opened AesTablesFacts
  import opened Fips197

  /** aes_encrypt_ctx and aes_decrypt_ctx, which have the same layout.  `rounds`
      is inf.b[0], sixteen times the number of rounds, and `pos` is inf.b[2]. */
  class Context {
    const ks: array<Word>
    var rounds: nat
    var pos: nat

    constructor ()
      ensures fresh(ks) && ks.Length == KS_LENGTH
    {
      ks := new Word[KS_LENGTH](_ => ZERO);
      rounds, pos := 0, 0;
    }
  }

  const KS_LENGTH := 60

  function WordIn(s: seq<bv8>, c: nat): Word
    requires 4 * c + 4 <= |s|
  {
    MakeWord(s[4 * c], s[4 * c + 1], s[4 * c + 2], s[4 * c + 3])
  }

  /** The key bytes as words, section 5.2 of FIPS 197. */
  function KeyWords(key: seq<bv8>): (w: seq<Word>)
    ensures |w| == |key| / 4
  {
    seq(|key| / 4, c requires 0 <= c < |key| / 4 => WordIn(key, c))
  }

  // ---------------------------------------------------- the key recurrence

  /** The words of one cycle of the expansion, in the terms of the macros. */
  lemma FirstWord(key: seq<Word>, i: nat)
    requires IsKey(key) && i < 10
    ensures KeyWord(key, |key| * i + |key|)
         == Xor(KeyWord(key, |key| * i), Xor(LsBox(KeyWord(key, |key| * i + |key| - 1), 3), RcTable(i)))
  {
    hide Xor, LsBox, SubWord, RotWord, RcTable, Rcon;
    var nk := |key|;
    var j := nk * i + nk;
    assert j % nk == 0 && j / nk == i + 1 by {
      if nk == 4 {
      } else if nk == 6 {
      } else {
      }
    }
    XPowers(i + 1);
    LsBoxMeaning(KeyWord(key, j - 1));
  }

  lemma NextWord(key: seq<Word>, i: nat, c: nat)
    requires IsKey(key) && 0 < c < |key| && !(|key| == 8 && c == 4)
    ensures KeyWord(key, |key| * i + |key| + c)
         == Xor(KeyWord(key, |key| * i + c), KeyWord(key, |key| * i + |key| + c - 1))
  {
    hide Xor, SubWord, RotWord, Rcon;
    var nk := |key|;
    var j := nk * i + nk + c;
    assert j % nk == c by {
      if nk == 4 {
      } else if nk == 6 {
      } else {
      }
    }
  }

  lemma MiddleWord(key: seq<Word>, i: nat)
    requires |key| == 8
    ensures KeyWord(key, 8 * i + 12) == Xor(KeyWord(key, 8 * i + 4), LsBox(KeyWord(key, 8 * i + 11), 0))
  {
    hide Xor, LsBox, SubWord, RotWord, Rcon;
    var j := 8 * i + 12;
    assert j % |key| == 4;
    LsBoxMeaning(KeyWord(key, j - 1));
  }

  lemma Cycle4(key: seq<Word>, i: nat)
    requires |key| == 4 && i < 10
    ensures KeyWord(key, 4 * i + 4) == Xor(KeyWord(key, 4 * i), Xor(LsBox(KeyWord(key, 4 * i + 3), 3), RcTable(i)))
    ensures KeyWord(key, 4 * i + 5) == Xor(KeyWord(key, 4 * i + 1), KeyWord(key, 4 * i + 4))
    ensures KeyWord(key, 4 * i + 6) == Xor(KeyWord(key, 4 * i + 2), KeyWord(key, 4 * i + 5))
    ensures KeyWord(key, 4 * i + 7) == Xor(KeyWord(key, 4 * i + 3), KeyWord(key, 4 * i + 6))
  {
    hide Xor, LsBox, RcTable, KeyWord;
    FirstWord(key, i);
    NextWord(key, i, 1);
    NextWord(key, i, 2);
    NextWord(key, i, 3);
  }

  lemma Cycle6First(key: seq<Word>, i: nat)
    requires |key| == 6 && i < 10
    ensures KeyWord(key, 6 * i + 6) == Xor(KeyWord(key, 6 * i), Xor(LsBox(KeyWord(key, 6 * i + 5), 3), RcTable(i)))
    ensures KeyWord(key, 6 * i + 7) == Xor(KeyWord(key, 6 * i + 1), KeyWord(key, 6 * i + 6))
    ensures KeyWord(key, 6 * i + 8) == Xor(KeyWord(key, 6 * i + 2), KeyWord(key, 6 * i + 7))
    ensures KeyWord(key, 6 * i + 9) == Xor(KeyWord(key, 6 * i + 3), KeyWord(key, 6 * i + 8))
  {
    hide Xor, LsBox, RcTable, KeyWord;
    FirstWord(key, i);
    NextWord(key, i, 1);
    NextWord(key, i, 2);
    NextWord(key, i, 3);
  }

  lemma Cycle6Rest(key: seq<Word>, i: nat)
    requires |key| == 6 && i < 10
    ensures KeyWord(key, 6 * i + 10) == Xor(KeyWord(key, 6 * i + 4), KeyWord(key, 6 * i + 9))
    ensures KeyWord(key, 6 * i + 11) == Xor(KeyWord(key, 6 * i + 5), KeyWord(key, 6 * i + 10))
  {
    hide Xor, LsBox, RcTable, KeyWord;
    NextWord(key, i, 4);
    NextWord(key, i, 5);
  }

  lemma Cycle8First(key: seq<Word>, i: nat)
    requires |key| == 8 && i < 10
    ensures KeyWord(key, 8 * i + 8) == Xor(KeyWord(key, 8 * i), Xor(LsBox(KeyWord(key, 8 * i + 7), 3), RcTable(i)))
    ensures KeyWord(key, 8 * i + 9) == Xor(KeyWord(key, 8 * i + 1), KeyWord(key, 8 * i + 8))
    ensures KeyWord(key, 8 * i + 10) == Xor(KeyWord(key, 8 * i + 2), KeyWord(key, 8 * i + 9))
    ensures KeyWord(key, 8 * i + 11) == Xor(KeyWord(key, 8 * i + 3), KeyWord(key, 8 * i + 10))
  {
    hide Xor, LsBox, RcTable, KeyWord;
    FirstWord(key, i);
    NextWord(key, i, 1);
    NextWord(key, i, 2);
    NextWord(key, i, 3);
  }

  lemma Cycle8Rest(key: seq<Word>, i: nat)
    requires |key| == 8 && i < 10
    ensures KeyWord(key, 8 * i + 12) == Xor(KeyWord(key, 8 * i + 4), LsBox(KeyWord(key, 8 * i + 11), 0))
    ensures KeyWord(key, 8 * i + 13) == Xor(KeyWord(key, 8 * i + 5), KeyWord(key, 8 * i + 12))
    ensures KeyWord(key, 8 * i + 14) == Xor(KeyWord(key, 8 * i + 6), KeyWord(key, 8 * i + 13))
    ensures KeyWord(key, 8 * i + 15) == Xor(KeyWord(key, 8 * i + 7), KeyWord(key, 8 * i + 14))
  {
    hide Xor, LsBox, RcTable, KeyWord;
    MiddleWord(key, i);
    NextWord(key, i, 5);
    NextWord(key, i, 6);
    NextWord(key, i, 7);
  }

  lemma FirstWords(key: seq<Word>)
    requires IsKey(key)
    ensures forall j :: 0 <= j < |key| ==> KeyWord(key, j) == key[j]
  {
  }

  // ------------------------------------------------- encryption schedules

  /** The first m words of the schedule are those of the expanded key. */
  ghost predicate Expanded(k: array<Word>, key: seq<Word>, m: nat)
    requires IsKey(key)
    reads k
  {
    m <= k.Length && forall j :: 0 <= j < m ==> k[j] == KeyWord(key, j)
  }

  /** The running words are words m, m + 1, ... of the expanded key. */
  ghost predicate Running(ss: array<Word>, key: seq<Word>, m: nat)
    requires IsKey(key)
    reads ss
  {
    && |key| <= ss.Length
    && ss[0] == KeyWord(key, m)
    && ss[1] == KeyWord(key, m + 1)
    && ss[2] == KeyWord(key, m + 2)
    && ss[3] == KeyWord(key, m + 3)
    && (|key| >= 6 ==> ss[4] == KeyWord(key, m + 4) && ss[5] == KeyWord(key, m + 5))
    && (|key| == 8 ==> ss[6] == KeyWord(key, m + 6) && ss[7] == KeyWord(key, m + 7))
  }

  /** Adds x to a running word, which makes it the next word of the expansion, and
      stores that. */
  method Advance(k: array<Word>, ss: array<Word>, m: nat, c: nat, x: Word, ghost key: seq<Word>)
    requires IsKey(key) && k != ss && m < k.Length && c < ss.Length
    requires Expanded(k, key, m) && Xor(ss[c], x) == KeyWord(key, m)
    modifies k, ss
    ensures Expanded(k, key, m + 1)
    ensures ss[c] == KeyWord(key, m)
    ensures forall b :: 0 <= b < ss.Length && b != c ==> ss[b] == old(ss[b])
  {
    hide Xor, KeyWord;
    ss[c] := Xor(ss[c], x);
    k[m] := ss[c];
  }

  method Ke4(k: array<Word>, ss: array<Word>, i: nat, ghost key: seq<Word>)
    requires |key| == 4 && i < 10 && k != ss && k.Length == KS_LENGTH
    requires Expanded(k, key, 4 * i + 4) && Running(ss, key, 4 * i)
    modifies k, ss
    ensures Expanded(k, key, 4 * i + 8) && Running(ss, key, 4 * i + 4)
  {
    hide Xor, LsBox, RcTable, KeyWord;
    Cycle4(key, i);
    Advance(k, ss, 4 * i + 4, 0, Xor(LsBox(ss[3], 3), RcTable(i)), key);
    Advance(k, ss, 4 * i + 5, 1, ss[0], key);
    Advance(k, ss, 4 * i + 6, 2, ss[1], key);
    Advance(k, ss, 4 * i + 7, 3, ss[2], key);
  }

  method EncryptKey128(key: array<bv8>, cx: Context)
    requires key.Length == 16 && cx.ks.Length == KS_LENGTH
    modifies cx, cx.ks
    ensures cx.ks[..44] == KeyExpansion(KeyWords(key[..]))
    ensures cx.rounds == 10 * 16 && cx.pos == 0
  {
    hide Xor, LsBox, RcTable, KeyWord, WordIn;
    ghost var words := KeyWords(key[..]);
    var ss := LoadKey(key, cx.ks, 4, 4);
    for i := 0 to 10
      invariant Expanded(cx.ks, words, 4 * i + 4) && Running(ss, words, 4 * i)
    {
      Ke4(cx.ks, ss, i, words);
    }
    cx.rounds, cx.pos := 10 * 16, 0;
  }

  /** The key itself makes the first words of the expansion and the running words. */
  method LoadKey(key: array<bv8>, k: array<Word>, nk: nat, size: nat) returns (ss: array<Word>)
    requires (nk == 4 || nk == 6 || nk == 8) && key.Length == 4 * nk && nk <= size && k.Length == KS_LENGTH
    modifies k
    ensures fresh(ss) && ss.Length == size
    ensures Expanded(k, KeyWords(key[..]), nk) && Running(ss, KeyWords(key[..]), 0)
  {
    hide KeyWord, WordIn;
    ghost var words := KeyWords(key[..]);
    ss := new Word[size](_ => ZERO);
    for c := 0 to nk
      invariant forall b :: 0 <= b < c ==> k[b] == ss[b] == words[b]
      invariant key[..] == old(key[..])
    {
      ss[c] := WordIn(key[..], c);
      k[c] := ss[c];
    }
    FirstWords(words);
  }

  method Ke6Half(k: array<Word>, ss: array<Word>, i: nat, ghost key: seq<Word>)
    requires |key| == 6 && i < 8 && k != ss && k.Length == KS_LENGTH
    requires Expanded(k, key, 6 * i + 6) && Running(ss, key, 6 * i)
    modifies k, ss
    ensures Expanded(k, key, 6 * i + 10)
    ensures ss[0] == KeyWord(key, 6 * i + 6) && ss[1] == KeyWord(key, 6 * i + 7)
    ensures ss[2] == KeyWord(key, 6 * i + 8) && ss[3] == KeyWord(key, 6 * i + 9)
    ensures ss[4] == KeyWord(key, 6 * i + 4) && ss[5] == KeyWord(key, 6 * i + 5)
  {
    hide Xor, LsBox, RcTable, KeyWord;
    Cycle6First(key, i);
    Advance(k, ss, 6 * i + 6, 0, Xor(LsBox(ss[5], 3), RcTable(i)), key);
    Advance(k, ss, 6 * i + 7, 1, ss[0], key);
    Advance(k, ss, 6 * i + 8, 2, ss[1], key);
    Advance(k, ss, 6 * i + 9, 3, ss[2], key);
  }

  method Ke6(k: array<Word>, ss: array<Word>, i: nat, ghost key: seq<Word>)
    requires |key| == 6 && i < 7 && k != ss && k.Length == KS_LENGTH
    requires Expanded(k, key, 6 * i + 6) && Running(ss, key, 6 * i)
    modifies k, ss
    ensures Expanded(k, key, 6 * i + 12) && Running(ss, key, 6 * i + 6)
  {
    hide Xor, LsBox, RcTable, KeyWord;
    Cycle6Rest(key, i);
    Ke6Half(k, ss, i, key);
    Advance(k, ss, 6 * i + 10, 4, ss[3], key);
    Advance(k, ss, 6 * i + 11, 5, ss[4], key);
  }

  method EncryptKey192(key: array<bv8>, cx: Context)
    requires key.Length == 24 && cx.ks.Length == KS_LENGTH
    modifies cx, cx.ks
    ensures cx.ks[..52] == KeyExpansion(KeyWords(key[..]))
    ensures cx.rounds == 12 * 16 && cx.pos == 0
  {
    hide Xor, LsBox, RcTable, KeyWord, WordIn;
    ghost var words := KeyWords(key[..]);
    var ss := LoadKey(key, cx.ks, 6, 6);
    for i := 0 to 7
      invariant Expanded(cx.ks, words, 6 * i + 6) && Running(ss, words, 6 * i)
    {
      Ke6(cx.ks, ss, i, words);
    }
    Ke6Half(cx.ks, ss, 7, words);
    cx.rounds, cx.pos := 12 * 16, 0;
  }

  method Ke8Half(k: array<Word>, ss: array<Word>, i: nat, ghost key: seq<Word>)
    requires |key| == 8 && i < 7 && k != ss && k.Length == KS_LENGTH
    requires Expanded(k, key, 8 * i + 8) && Running(ss, key, 8 * i)
    modifies k, ss
    ensures Expanded(k, key, 8 * i + 12)
    ensures ss[0] == KeyWord(key, 8 * i + 8) && ss[1] == KeyWord(key, 8 * i + 9)
    ensures ss[2] == KeyWord(key, 8 * i + 10) && ss[3] == KeyWord(key, 8 * i + 11)
    ensures ss[4] == KeyWord(key, 8 * i + 4) && ss[5] == KeyWord(key, 8 * i + 5)
    ensures ss[6] == KeyWord(key, 8 * i + 6) && ss[7] == KeyWord(key, 8 * i + 7)
  {
    hide Xor, LsBox, RcTable, KeyWord;
    Cycle8First(key, i);
    Advance(k, ss, 8 * i + 8, 0, Xor(LsBox(ss[7], 3), RcTable(i)), key);
    Advance(k, ss, 8 * i + 9, 1, ss[0], key);
    Advance(k, ss, 8 * i + 10, 2, ss[1], key);
    Advance(k, ss, 8 * i + 11, 3, ss[2], key);
  }

  method Ke8(k: array<Word>, ss: array<Word>, i: nat, ghost key: seq<Word>)
    requires |key| == 8 && i < 6 && k != ss && k.Length == KS_LENGTH
    requires Expanded(k, key, 8 * i + 8) && Running(ss, key, 8 * i)
    modifies k, ss
    ensures Expanded(k, key, 8 * i + 16) && Running(ss, key, 8 * i + 8)
  {
    hide Xor, LsBox, RcTable, KeyWord;
    Cycle8Rest(key, i);
    Ke8Half(k, ss, i, key);
    Advance(k, ss, 8 * i + 12, 4, LsBox(ss[3], 0), key);
    Advance(k, ss, 8 * i + 13, 5, ss[4], key);
    Advance(k, ss, 8 * i + 14, 6, ss[5], key);
    Advance(k, ss, 8 * i + 15, 7, ss[6], key);
  }

  method EncryptKey256(key: array<bv8>, cx: Context)
    requires key.Length == 32 && cx.ks.Length == KS_LENGTH
    modifies cx, cx.ks
    ensures cx.ks[..60] == KeyExpansion(KeyWords(key[..]))
    ensures cx.rounds == 14 * 16 && cx.pos == 0
  {
    hide Xor, LsBox, RcTable, KeyWord, WordIn;
    ghost var words := KeyWords(key[..]);
    var ss := LoadKey(key, cx.ks, 8, 8);
    for i := 0 to 6
      invariant Expanded(cx.ks, words, 8 * i + 8) && Running(ss, words, 8 * i)
    {
      Ke8(cx.ks, ss, i, words);
    }
    Ke8Half(cx.ks, ss, 6, words);
    cx.rounds, cx.pos := 14 * 16, 0;
  }

  // ------------------------------------------------- decryption schedules

  /** `v(n,i)`: round n/4 - i/4 of the reversed schedule, same column. */
  function KsIndex(n: nat, i: nat): nat
    requires n % 4 == 0 && i < n + 4
  {
    n - i + 2 * (i % 4)
  }

  lemma KsIndexIsInvolution(n: nat, i: nat)
    requires n % 4 == 0 && i < n + 4
    ensures KsIndex(n, i) < n + 4 && KsIndex(n, KsIndex(n, i)) == i
  {
    var q, c := i / 4, i % 4;
    var r := n / 4 - q;
    assert KsIndex(n, i) == 4 * r + c;
    assert (4 * r + c) % 4 == c;
  }

  /** Word j as the equivalent inverse cipher needs it (section 5.3.5): through
      InvMixColumns except in the first and the last round. */
  function DecryptWord(key: seq<Word>, n: nat, j: nat): Word
    requires IsKey(key)
  {
    if j < 4 || j >= n then KeyWord(key, j) else InvMcol(KeyWord(key, j))
  }

  /** Words 0..m of the schedule are in place in reversed round order. */
  ghost predicate Reversed(k: array<Word>, key: seq<Word>, n: nat, m: nat)
    requires IsKey(key) && n % 4 == 0 && m <= n + 4 <= k.Length
    reads k
  {
    forall j :: 0 <= j < m ==> 0 <= KsIndex(n, j) < k.Length && k[KsIndex(n, j)] == DecryptWord(key, n, j)
  }

  /** The j-th word of the decryption schedule goes to its place in reversed order. */
  method StoreWord(k: array<Word>, n: nat, j: nat, x: Word, ghost key: seq<Word>)
    requires IsKey(key) && n % 4 == 0 && j < n + 4 <= k.Length
    requires Reversed(k, key, n, j) && x == DecryptWord(key, n, j)
    modifies k
    ensures Reversed(k, key, n, j + 1)
  {
    hide DecryptWord;
    KsIndexIsInvolution(n, j);
    forall b | 0 <= b < j
      ensures KsIndex(n, b) != KsIndex(n, j)
    {
      KsIndexIsInvolution(n, b);
    }
    k[KsIndex(n, j)] := x;
  }

  /** ff(a ^ b) can be had from ff(a) and ff(b), the point of the `kd` macros. */
  lemma InvMcolOfSum(a: Word, b: Word)
    ensures Xor(InvMcol(a), InvMcol(b)) == InvMcol(Xor(a, b)) == InvMcol(Xor(b, a))
  {
    hide InvMcol, Xor;
    InvMcolDistributes(a, b);
    Commutative(a, b);
  }

  /** Since the transform is additive, the next stored word is the transform of what
      is added to an earlier word, plus that word as it is stored. */
  method AddDelta(k: array<Word>, n: nat, j: nat, b: nat, delta: Word, ghost x: Word, ghost key: seq<Word>)
    returns (sum: Word)
    requires IsKey(key) && n % 4 == 0 && 4 <= b < j < n && n + 4 <= k.Length
    requires Reversed(k, key, n, j)
    requires delta == InvMcol(x) && KeyWord(key, j) == Xor(KeyWord(key, b), x)
    modifies k
    ensures Reversed(k, key, n, j + 1) && sum == InvMcol(KeyWord(key, j))
  {
    hide Xor, KeyWord, InvMcol;
    InvMcolOfSum(x, KeyWord(key, b));
    sum := Xor(delta, k[KsIndex(n, b)]);
    StoreWord(k, n, j, sum, key);
  }

  // ------------------------------------- 128 bits: the four running sums

  /** Before cycle i, slot i + 3 (modulo 4) of `ss` is the last word of row i, and
      the other slots are sums of words of that row. */
  ghost predicate Combos(ss: array<Word>, key: seq<Word>, i: nat)
    requires IsKey(key) && ss.Length == 5
    reads ss
  {
    var e0, e1, e2, e3 :=
      KeyWord(key, 4 * i), KeyWord(key, 4 * i + 1), KeyWord(key, 4 * i + 2), KeyWord(key, 4 * i + 3);
    && ss[(i + 3) % 4] == e3
    && ss[(i + 2) % 4] == Xor(e2, e3)
    && ss[(i + 1) % 4] == Xor(e1, e3)
    && ss[i % 4] == Xor(Xor(e0, e2), Xor(e1, e3))
  }

  /** Adding the delta word t to the sum of row e yields the sums of the next row
      f one slot further on: this is why one update a cycle is enough. */
  lemma SumsOfNextRow(e0: Word, e1: Word, e2: Word, e3: Word, t: Word)
    ensures var f0 := Xor(e0, t); var f1 := Xor(e1, f0); var f2 := Xor(e2, f1); var f3 := Xor(e3, f2);
            && Xor(Xor(Xor(e0, e2), Xor(e1, e3)), t) == f3
            && Xor(f2, f3) == e3
            && Xor(f1, f3) == Xor(e2, e3)
            && Xor(Xor(f0, f2), Xor(f1, f3)) == Xor(e1, e3)
  {
    hide Xor;
    var f0 := Xor(e0, t);
    var f1 := Xor(e1, f0);
    var f2 := Xor(e2, f1);
    var f3 := Xor(e3, f2);
    assert Xor(f2, f3) == e3 by {
      XorTwice(f2, e3);
    }
    assert Xor(f1, f3) == Xor(e2, e3) by {
      Exchange(f1, e3, f2);
      XorTwice(f1, e2);
      Commutative(e3, e2);
    }
    assert Xor(f0, f2) == Xor(e2, e1) by {
      Exchange(f0, e2, f1);
      XorTwice(f0, e1);
    }
    assert Xor(Xor(e2, e1), Xor(e2, e3)) == Xor(e1, e3) by {
      Commutative(e2, e1);
      Associative(e1, e2, Xor(e2, e3));
      XorTwice(e2, e3);
    }
    assert Xor(Xor(Xor(e0, e2), Xor(e1, e3)), t) == f3 by {
      Commutative(e0, e2);
      Associative(e2, e0, Xor(e1, e3));
      Exchange(e0, e1, e3);
      Commutative(e0, e3);
      Exchange(e1, e3, e0);
      Exchange(e2, e3, Xor(e1, e0));
      Associative(e3, Xor(e2, Xor(e1, e0)), t);
      Associative(e2, Xor(e1, e0), t);
      Associative(e1, e0, t);
    }
  }

  method Kdf4(k: array<Word>, ss: array<Word>, ghost key: seq<Word>)
    requires |key| == 4 && k != ss && k.Length == KS_LENGTH && ss.Length == 5
    requires Reversed(k, key, 40, 4) && Running(ss, key, 0)
    modifies k, ss
    ensures Reversed(k, key, 40, 8) && Combos(ss, key, 1)
  {
    hide Xor, LsBox, RcTable, KeyWord, InvMcol;
    Cycle4(key, 0);
    ghost var e0, e1, e2, e3 := ss[0], ss[1], ss[2], ss[3];
    ghost var t := Xor(LsBox(e3, 3), RcTable(0));
    SumsOfNextRow(e0, e1, e2, e3, t);
    assert Xor(Xor(Xor(e0, e2), e1), e3) == Xor(Xor(e0, e2), Xor(e1, e3)) by {
      Associative(Xor(e0, e2), e1, e3);
    }
    ss[0] := Xor(Xor(Xor(ss[0], ss[2]), ss[1]), ss[3]);
    ss[1] := Xor(ss[1], ss[3]);
    ss[2] := Xor(ss[2], ss[3]);
    ss[4] := Xor(LsBox(ss[3], 3), RcTable(0));
    ss[0] := Xor(ss[0], ss[4]);
    Commutative(t, e0);
    ss[4] := Xor(ss[4], k[KsIndex(40, 0)]);
    StoreWord(k, 40, 4, InvMcol(ss[4]), key);
    Commutative(ss[4], e1);
    ss[4] := Xor(ss[4], k[KsIndex(40, 1)]);
    StoreWord(k, 40, 5, InvMcol(ss[4]), key);
    Commutative(ss[4], e2);
    ss[4] := Xor(ss[4], k[KsIndex(40, 2)]);
    StoreWord(k, 40, 6, InvMcol(ss[4]), key);
    Commutative(ss[4], e3);
    ss[4] := Xor(ss[4], k[KsIndex(40, 3)]);
    StoreWord(k, 40, 7, InvMcol(ss[4]), key);
  }

  /** A middle cycle: four words come from one delta, first the transform of the word
      added and then each word stored; the source keeps it in a fifth running word. */
  method Kd4(k: array<Word>, ss: array<Word>, i: nat, ghost key: seq<Word>)
    requires |key| == 4 && 0 < i < 9 && k != ss && k.Length == KS_LENGTH && ss.Length == 5
    requires Reversed(k, key, 40, 4 * i + 4) && Combos(ss, key, i)
    modifies k, ss
    ensures Reversed(k, key, 40, 4 * i + 8) && Combos(ss, key, i + 1)
  {
    hide Xor, LsBox, RcTable, KeyWord, InvMcol, Reversed;
    Cycle4(key, i);
    ghost var m := 4 * i;
    var delta := Xor(LsBox(ss[(i + 3) % 4], 3), RcTable(i));
    ghost var t := delta;
    SumsOfNextRow(KeyWord(key, m), KeyWord(key, m + 1), KeyWord(key, m + 2), KeyWord(key, m + 3), t);
    ss[i % 4] := Xor(ss[i % 4], delta);
    assert Combos(ss, key, i + 1);
    hide Combos;
    delta := InvMcol(delta);
    delta := AddDelta(k, 40, 4 * i + 4, 4 * i, delta, t, key);
    delta := AddDelta(k, 40, 4 * i + 5, 4 * i + 1, delta, KeyWord(key, m + 4), key);
    delta := AddDelta(k, 40, 4 * i + 6, 4 * i + 2, delta, KeyWord(key, m + 5), key);
    delta := AddDelta(k, 40, 4 * i + 7, 4 * i + 3, delta, KeyWord(key, m + 6), key);
  }

  method Kdl4(k: array<Word>, ss: array<Word>, ghost key: seq<Word>)
    requires |key| == 4 && k != ss && k.Length == KS_LENGTH && ss.Length == 5
    requires Reversed(k, key, 40, 40) && Combos(ss, key, 9)
    modifies k, ss
    ensures Reversed(k, key, 40, 44)
  {
    hide Xor, LsBox, RcTable, KeyWord, InvMcol;
    Cycle4(key, 9);
    ghost var e0, e1, e2, e3 := KeyWord(key, 36), KeyWord(key, 37), KeyWord(key, 38), KeyWord(key, 39);
    ghost var f0, f1, f2, f3 := KeyWord(key, 40), KeyWord(key, 41), KeyWord(key, 42), KeyWord(key, 43);
    SumsOfNextRow(e0, e1, e2, e3, Xor(LsBox(e3, 3), RcTable(9)));
    ss[4] := Xor(LsBox(ss[0], 3), RcTable(9));
    ss[1] := Xor(ss[1], ss[4]);
    assert Combos(ss, key, 10);
    assert ss[1] == f3 && ss[0] == Xor(f2, f3) && ss[3] == Xor(f1, f3) && ss[2] == Xor(Xor(f0, f2), Xor(f1, f3));
    ss[0] := Xor(ss[0], ss[1]);
    XorTwice(f3, f2);
    XorTwice(Xor(f1, f3), Xor(f0, f2));
    Commutative(f0, f2);
    XorTwice(f2, f0);
    Associative(f2, Xor(Xor(f0, f2), Xor(f1, f3)), Xor(f1, f3));
    StoreWord(k, 40, 40, Xor(Xor(ss[0], ss[2]), ss[3]), key);
    Commutative(f1, f3);
    XorTwice(f3, f1);
    StoreWord(k, 40, 41, Xor(ss[1], ss[3]), key);
    StoreWord(k, 40, 42, ss[0], key);
    StoreWord(k, 40, 43, ss[1], key);
  }

  /** The whole decryption schedule of a key. */
  function DecryptSchedule(key: seq<Word>): (dk: seq<Word>)
    requires IsKey(key)
    ensures |dk| == 4 * RoundCount(key) + 4
  {
    var n := 4 * RoundCount(key);
    seq(n + 4, p requires 0 <= p < n + 4 => DecryptWord(key, n, KsIndex(n, p)))
  }

  lemma ReversedIsSchedule(k: array<Word>, key: seq<Word>)
    requires IsKey(key) && k.Length == KS_LENGTH
    requires Reversed(k, key, 4 * RoundCount(key), 4 * RoundCount(key) + 4)
    ensures k[..4 * RoundCount(key) + 4] == DecryptSchedule(key)
  {
    hide DecryptWord;
    var n := 4 * RoundCount(key);
    forall p | 0 <= p < n + 4
      ensures k[p] == DecryptSchedule(key)[p]
    {
      KsIndexIsInvolution(n, p);
      assert k[KsIndex(n, KsIndex(n, p))] == DecryptWord(key, n, KsIndex(n, p));
    }
  }

  /** The words of the key go to their reversed places, transformed from the fourth
      on, and make the running words. */
  method LoadDecryptKey(key: array<bv8>, k: array<Word>, nk: nat, n: nat, size: nat) returns (ss: array<Word>)
    requires (nk == 4 || nk == 6 || nk == 8) && key.Length == 4 * nk && nk <= size && k.Length == KS_LENGTH
    requires n == 4 * (nk + 6)
    modifies k
    ensures fresh(ss) && ss.Length == size
    ensures Reversed(k, KeyWords(key[..]), n, nk) && Running(ss, KeyWords(key[..]), 0)
  {
    hide KeyWord, WordIn, InvMcol;
    ghost var words := KeyWords(key[..]);
    FirstWords(words);
    ss := new Word[size](_ => ZERO);
    for c := 0 to nk
      invariant forall b :: 0 <= b < c ==> ss[b] == words[b]
      invariant Reversed(k, words, n, c)
      invariant key[..] == old(key[..])
    {
      ss[c] := WordIn(key[..], c);
      StoreWord(k, n, c, if c < 4 then ss[c] else InvMcol(ss[c]), words);
    }
  }

  method DecryptKey128(key: array<bv8>, cx: Context)
    requires key.Length == 16 && cx.ks.Length == KS_LENGTH
    modifies cx, cx.ks
    ensures cx.ks[..44] == DecryptSchedule(KeyWords(key[..]))
    ensures cx.rounds == 10 * 16 && cx.pos == 0
  {
    hide Xor, LsBox, RcTable, KeyWord, WordIn, InvMcol;
    ghost var words := KeyWords(key[..]);
    var ss := LoadDecryptKey(key, cx.ks, 4, 40, 5);
    Kdf4(cx.ks, ss, words);
    for i := 1 to 9
      invariant Reversed(cx.ks, words, 40, 4 * i + 4) && Combos(ss, words, i)
    {
      Kd4(cx.ks, ss, i, words);
    }
    Kdl4(cx.ks, ss, words);
    ReversedIsSchedule(cx.ks, words);
    cx.rounds, cx.pos := 10 * 16, 0;
  }

  // ------------------------------------------------------- 192 and 256 bits

  /** The running words while a cycle is under way: the first c of them are those
      of the next row, the others those of the row that starts at word m. */
  ghost predicate Midway(ss: array<Word>, key: seq<Word>, m: nat, c: nat)
    requires IsKey(key) && ss.Length == |key| + 1
    reads ss
  {
    forall b :: 0 <= b < |key| ==> ss[b] == KeyWord(key, if b < c then m + |key| + b else m + b)
  }

  lemma StartOfCycle(ss: array<Word>, key: seq<Word>, m: nat)
    requires IsKey(key) && ss.Length == |key| + 1 && Running(ss, key, m)
    ensures Midway(ss, key, m, 0)
  {
    hide KeyWord;
  }

  lemma EndOfCycle(ss: array<Word>, key: seq<Word>, m: nat)
    requires IsKey(key) && ss.Length == |key| + 1 && Midway(ss, key, m, |key|)
    ensures Running(ss, key, m + |key|)
  {
    hide KeyWord;
  }

  /** In the first cycle a running word steps to the next word of the expansion, and
      its transform is stored. */
  method StoreTransformed(k: array<Word>, ss: array<Word>, n: nat, c: nat, x: Word, ghost key: seq<Word>)
    requires IsKey(key) && |key| > 4 && n == 4 * RoundCount(key) && k.Length == KS_LENGTH
    requires k != ss && ss.Length == |key| + 1 && c < |key|
    requires Reversed(k, key, n, |key| + c) && Midway(ss, key, 0, c)
    requires KeyWord(key, |key| + c) == Xor(KeyWord(key, c), x)
    modifies k, ss
    ensures Reversed(k, key, n, |key| + c + 1) && Midway(ss, key, 0, c + 1)
  {
    hide Xor, KeyWord, InvMcol, Reversed;
    ss[c] := Xor(ss[c], x);
    StoreWord(k, n, ss.Length - 1 + c, InvMcol(ss[c]), key);
  }

  /** In a middle cycle: the last word stored is added to the one a cycle back,
      which is what a step of the recurrence does to transformed words; the running
      word follows untransformed. */
  method NextDelta(k: array<Word>, ss: array<Word>, n: nat, i: nat, m: nat, c: nat, ghost key: seq<Word>)
    requires IsKey(key) && |key| > 4 && n == 4 * RoundCount(key) && k.Length == KS_LENGTH
    requires k != ss && ss.Length == |key| + 1
    requires 0 < i && m == |key| * i && 0 < c < |key| && m + |key| + c < n && !(|key| == 8 && c == 4)
    requires Reversed(k, key, n, m + |key| + c) && Midway(ss, key, m, c)
    requires ss[|key|] == InvMcol(KeyWord(key, m + |key| + c - 1))
    modifies k, ss
    ensures Reversed(k, key, n, m + |key| + c + 1) && Midway(ss, key, m, c + 1)
    ensures ss[|key|] == InvMcol(KeyWord(key, m + |key| + c))
  {
    hide Xor, KeyWord, InvMcol, Reversed;
    NextWord(key, i, c);
    ss[c] := Xor(ss[c], ss[c - 1]);
    ss[ss.Length - 1] := AddDelta(k, n, m + ss.Length - 1 + c, m + c, ss[ss.Length - 1], ss[c - 1], key);
  }

  /** The same where the recurrence substitutes bytes: the word to add is new, and is
      transformed before it meets the stored word. */
  method FreshDelta(k: array<Word>, ss: array<Word>, n: nat, m: nat, c: nat, x: Word, ghost key: seq<Word>)
    requires IsKey(key) && |key| > 4 && n == 4 * RoundCount(key) && k.Length == KS_LENGTH
    requires k != ss && ss.Length == |key| + 1
    requires 4 <= m && c < |key| && m + |key| + c < n
    requires Reversed(k, key, n, m + |key| + c) && Midway(ss, key, m, c)
    requires KeyWord(key, m + |key| + c) == Xor(KeyWord(key, m + c), x)
    modifies k, ss
    ensures Reversed(k, key, n, m + |key| + c + 1) && Midway(ss, key, m, c + 1)
    ensures ss[|key|] == InvMcol(KeyWord(key, m + |key| + c))
  {
    hide Xor, KeyWord, InvMcol, Reversed;
    var d := ss.Length - 1;
    ss[d] := x;
    ss[c] := Xor(ss[c], ss[d]);
    ss[d] := InvMcol(ss[d]);
    ss[d] := AddDelta(k, n, m + d + c, m + c, ss[d], x, key);
  }

  method Kdf6(k: array<Word>, ss: array<Word>, ghost key: seq<Word>)
    requires |key| == 6 && k != ss && k.Length == KS_LENGTH && ss.Length == 7
    requires Reversed(k, key, 48, 6) && Running(ss, key, 0)
    modifies k, ss
    ensures Reversed(k, key, 48, 12) && Running(ss, key, 6)
  {
    hide Xor, LsBox, RcTable, KeyWord, InvMcol, Reversed;
    Cycle6First(key, 0);
    Cycle6Rest(key, 0);
    StartOfCycle(ss, key, 0);
    StoreTransformed(k, ss, 48, 0, Xor(LsBox(ss[5], 3), RcTable(0)), key);
    StoreTransformed(k, ss, 48, 1, ss[0], key);
    StoreTransformed(k, ss, 48, 2, ss[1], key);
    StoreTransformed(k, ss, 48, 3, ss[2], key);
    StoreTransformed(k, ss, 48, 4, ss[3], key);
    StoreTransformed(k, ss, 48, 5, ss[4], key);
    EndOfCycle(ss, key, 0);
  }

  method Kd6(k: array<Word>, ss: array<Word>, i: nat, ghost key: seq<Word>)
    requires |key| == 6 && 0 < i < 7 && k != ss && k.Length == KS_LENGTH && ss.Length == 7
    requires Reversed(k, key, 48, 6 * i + 6) && Running(ss, key, 6 * i)
    modifies k, ss
    ensures Reversed(k, key, 48, 6 * i + 12) && Running(ss, key, 6 * i + 6)
  {
    hide Xor, LsBox, RcTable, KeyWord, InvMcol, Reversed, Running;
    var m := 6 * i;
    Cycle6First(key, i);
    StartOfCycle(ss, key, m);
    assert ss[5] == KeyWord(key, m + 5);
    FreshDelta(k, ss, 48, m, 0, Xor(LsBox(ss[5], 3), RcTable(i)), key);
    NextDelta(k, ss, 48, i, m, 1, key);
    NextDelta(k, ss, 48, i, m, 2, key);
    NextDelta(k, ss, 48, i, m, 3, key);
    NextDelta(k, ss, 48, i, m, 4, key);
    NextDelta(k, ss, 48, i, m, 5, key);
    EndOfCycle(ss, key, m);
  }

  method Kdl6(k: array<Word>, ss: array<Word>, ghost key: seq<Word>)
    requires |key| == 6 && k != ss && k.Length == KS_LENGTH && ss.Length == 7
    requires Reversed(k, key, 48, 48) && Running(ss, key, 42)
    modifies k, ss
    ensures Reversed(k, key, 48, 52)
  {
    hide Xor, LsBox, RcTable, KeyWord, InvMcol, Reversed;
    Cycle6First(key, 7);
    ss[0] := Xor(ss[0], Xor(LsBox(ss[5], 3), RcTable(7)));
    StoreWord(k, 48, 48, ss[0], key);
    ss[1] := Xor(ss[1], ss[0]);
    StoreWord(k, 48, 49, ss[1], key);
    ss[2] := Xor(ss[2], ss[1]);
    StoreWord(k, 48, 50, ss[2], key);
    ss[3] := Xor(ss[3], ss[2]);
    StoreWord(k, 48, 51, ss[3], key);
  }

  method DecryptKey192(key: array<bv8>, cx: Context)
    requires key.Length == 24 && cx.ks.Length == KS_LENGTH
    modifies cx, cx.ks
    ensures cx.ks[..52] == DecryptSchedule(KeyWords(key[..]))
    ensures cx.rounds == 12 * 16 && cx.pos == 0
  {
    hide Xor, LsBox, RcTable, KeyWord, WordIn, InvMcol;
    ghost var words := KeyWords(key[..]);
    var ss := LoadDecryptKey(key, cx.ks, 6, 48, 7);
    Kdf6(cx.ks, ss, words);
    for i := 1 to 7
      invariant Reversed(cx.ks, words, 48, 6 * i + 6) && Running(ss, words, 6 * i)
    {
      Kd6(cx.ks, ss, i, words);
    }
    Kdl6(cx.ks, ss, words);
    ReversedIsSchedule(cx.ks, words);
    cx.rounds, cx.pos := 12 * 16, 0;
  }

  method Kdf8(k: array<Word>, ss: array<Word>, ghost key: seq<Word>)
    requires |key| == 8 && k != ss && k.Length == KS_LENGTH && ss.Length == 9
    requires Reversed(k, key, 56, 8) && Running(ss, key, 0)
    modifies k, ss
    ensures Reversed(k, key, 56, 16) && Running(ss, key, 8)
  {
    hide Xor, LsBox, RcTable, KeyWord, InvMcol, Reversed;
    Cycle8First(key, 0);
    Cycle8Rest(key, 0);
    StartOfCycle(ss, key, 0);
    StoreTransformed(k, ss, 56, 0, Xor(LsBox(ss[7], 3), RcTable(0)), key);
    StoreTransformed(k, ss, 56, 1, ss[0], key);
    StoreTransformed(k, ss, 56, 2, ss[1], key);
    StoreTransformed(k, ss, 56, 3, ss[2], key);
    StoreTransformed(k, ss, 56, 4, LsBox(ss[3], 0), key);
    StoreTransformed(k, ss, 56, 5, ss[4], key);
    StoreTransformed(k, ss, 56, 6, ss[5], key);
    StoreTransformed(k, ss, 56, 7, ss[6], key);
    EndOfCycle(ss, key, 0);
  }

  method Kd8(k: array<Word>, ss: array<Word>, i: nat, ghost key: seq<Word>)
    requires |key| == 8 && 0 < i < 6 && k != ss && k.Length == KS_LENGTH && ss.Length == 9
    requires Reversed(k, key, 56, 8 * i + 8) && Running(ss, key, 8 * i)
    modifies k, ss
    ensures Reversed(k, key, 56, 8 * i + 16) && Running(ss, key, 8 * i + 8)
  {
    hide Xor, LsBox, RcTable, KeyWord, InvMcol, Reversed, Running;
    var m := 8 * i;
    Cycle8First(key, i);
    Cycle8Rest(key, i);
    StartOfCycle(ss, key, m);
    assert ss[7] == KeyWord(key, m + 7);
    FreshDelta(k, ss, 56, m, 0, Xor(LsBox(ss[7], 3), RcTable(i)), key);
    NextDelta(k, ss, 56, i, m, 1, key);
    NextDelta(k, ss, 56, i, m, 2, key);
    NextDelta(k, ss, 56, i, m, 3, key);
    FreshDelta(k, ss, 56, m, 4, LsBox(ss[3], 0), key);
    NextDelta(k, ss, 56, i, m, 5, key);
    NextDelta(k, ss, 56, i, m, 6, key);
    NextDelta(k, ss, 56, i, m, 7, key);
    EndOfCycle(ss, key, m);
  }

  method Kdl8(k: array<Word>, ss: array<Word>, ghost key: seq<Word>)
    requires |key| == 8 && k != ss && k.Length == KS_LENGTH && ss.Length == 9
    requires Reversed(k, key, 56, 56) && Running(ss, key, 48)
    modifies k, ss
    ensures Reversed(k, key, 56, 60)
  {
    hide Xor, LsBox, RcTable, KeyWord, InvMcol, Reversed;
    Cycle8First(key, 6);
    ss[0] := Xor(ss[0], Xor(LsBox(ss[7], 3), RcTable(6)));
    StoreWord(k, 56, 56, ss[0], key);
    ss[1] := Xor(ss[1], ss[0]);
    StoreWord(k, 56, 57, ss[1], key);
    ss[2] := Xor(ss[2], ss[1]);
    StoreWord(k, 56, 58, ss[2], key);
    ss[3] := Xor(ss[3], ss[2]);
    StoreWord(k, 56, 59, ss[3], key);
  }

  method DecryptKey256(key: array<bv8>, cx: Context)
    requires key.Length == 32 && cx.ks.Length == KS_LENGTH
    modifies cx, cx.ks
    ensures cx.ks[..60] == DecryptSchedule(KeyWords(key[..]))
    ensures cx.rounds == 14 * 16 && cx.pos == 0
  {
    hide Xor, LsBox, RcTable, KeyWord, WordIn, InvMcol;
    ghost var words := KeyWords(key[..]);
    var ss := LoadDecryptKey(key, cx.ks, 8, 56, 9);
    Kdf8(cx.ks, ss, words);
    for i := 1 to 6
      invariant Reversed(cx.ks, words, 56, 8 * i + 8) && Running(ss, words, 8 * i)
    {
      Kd8(cx.ks, ss, i, words);
    }
    Kdl8(cx.ks, ss, words);
    ReversedIsSchedule(cx.ks, words);
    cx.rounds, cx.pos := 14 * 16, 0;
  }

  // ------------------------------------------ aes_encrypt_key, aes_decrypt_key

  /** The key size in bytes that a key_len argument in bytes or bits stands for. */
  function KeyBytes(keyLen: int): nat {
    match keyLen
    case 16 => 16 case 128 => 16
    case 24 => 24 case 192 => 24
    case 32 => 32 case 256 => 32
    case _ => 0
  }

  method EncryptKey(key: array<bv8>, keyLen: int, cx: Context) returns (ok: bool)
    requires KeyBytes(keyLen) > 0 ==> key.Length == KeyBytes(keyLen)
    requires cx.ks.Length == KS_LENGTH
    modifies cx, cx.ks
    ensures ok <==> keyLen in {16, 24, 32, 128, 192, 256}
    ensures ok ==> key.Length == if keyLen <= 32 then keyLen else keyLen / 8
    ensures ok ==> var words := KeyWords(key[..]);
                   && cx.rounds == RoundCount(words) * 16 && cx.pos == 0
                   && cx.ks[..cx.rounds / 4 + 4] == KeyExpansion(words)
    ensures !ok ==> cx.rounds == old(cx.rounds) && cx.pos == old(cx.pos) && cx.ks[..] == old(cx.ks[..])
  {
    hide KeyWord, WordIn;
    ok := true;
    match keyLen
    case 16 => EncryptKey128(key, cx);
    case 128 => EncryptKey128(key, cx);
    case 24 => EncryptKey192(key, cx);
    case 192 => EncryptKey192(key, cx);
    case 32 => EncryptKey256(key, cx);
    case 256 => EncryptKey256(key, cx);
    case _ => ok := false;
  }

  method DecryptKey(key: array<bv8>, keyLen: int, cx: Context) returns (ok: bool)
    requires KeyBytes(keyLen) > 0 ==> key.Length == KeyBytes(keyLen)
    requires cx.ks.Length == KS_LENGTH
    modifies cx, cx.ks
    ensures ok <==> keyLen in {16, 24, 32, 128, 192, 256}
    ensures ok ==> key.Length == if keyLen <= 32 then keyLen else keyLen / 8
    ensures ok ==> var words := KeyWords(key[..]);
                   && cx.rounds == RoundCount(words) * 16 && cx.pos == 0
                   && cx.ks[..cx.rounds / 4 + 4] == DecryptSchedule(words)
    ensures !ok ==> cx.rounds == old(cx.rounds) && cx.pos == old(cx.pos) && cx.ks[..] == old(cx.ks[..])
  {
    hide KeyWord, WordIn, DecryptWord;
    ok := true;
    match keyLen
    case 16 => DecryptKey128(key, cx);
    case 128 => DecryptKey128(key, cx);
    case 24 => DecryptKey192(key, cx);
    case 192 => DecryptKey192(key, cx);
    case 32 => DecryptKey256(key, cx);
    case 256 => DecryptKey256(key, cx);
    case _ => ok := false;
  }
}
