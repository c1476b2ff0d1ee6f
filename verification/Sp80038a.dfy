/** The modes under the key they are given: NIST SP 800-38A over the cipher of
    FIPS 197, for a message from the start of a stream. */
module Sp80038a {
  import opened AesWords
  import opened Fips197
  import opened AesKeySchedule
  import opened AesBlock
  import opened AesStreamSpec
  import opened AesModes
  import opened AesCounter

  /** The block function of the modes is the cipher, not its inverse. */
  lemma EncipherIsCipher(key: seq<Word>, b: seq<bv8>)
    requires IsKey(key) && |b| == 16
    ensures Encipher(Key(KeyExpansion(key)), b) == FromBlock(Cipher(ToBlock(b), KeyExpansion(key), |key| + 6))
  {
    hide Cipher, FromBlock, ToBlock, KeyWord;
  }

  /** Section 6.3, encryption: each byte is added to the cipher of the ciphertext block
      before its own, or of the initialisation vector. */
  lemma CfbEncryption(key: seq<Word>, iv: seq<bv8>, p: seq<bv8>, i: nat)
    requires IsKey(key) && |iv| == 16 && i < |p|
    ensures var w := KeyExpansion(key);
            var c := Run(CfbEncrypt, Key(w), Stream(iv, 0), p);
            var last := if i < 16 then iv else c[i / 16 * 16 - 16..i / 16 * 16];
            c[i] == Xor8(FromBlock(Cipher(ToBlock(last), w, |key| + 6))[i % 16], p[i])
  {
    hide Encipher, KeyExpansion, Cipher, FromBlock, ToBlock, Xor8, Run, After, CfbRegister;
    var k := Key(KeyExpansion(key));
    CfbEncryptIsCfb(k, iv, p);
    var c := Run(CfbEncrypt, k, Stream(iv, 0), p);
    CfbBlock(key, iv, p, c, i);
  }

  lemma CfbBlock(key: seq<Word>, iv: seq<bv8>, p: seq<bv8>, c: seq<bv8>, i: nat)
    requires IsKey(key) && |iv| == 16 && |p| == |c| && i < |p| && IsCfb(Key(KeyExpansion(key)), iv, p, c)
    ensures var last := if i < 16 then iv else c[i / 16 * 16 - 16..i / 16 * 16];
            c[i] == Xor8(FromBlock(Cipher(ToBlock(last), KeyExpansion(key), |key| + 6))[i % 16], p[i])
  {
    hide Encipher, KeyExpansion, Cipher, FromBlock, ToBlock, Xor8;
    EncipherIsCipher(key, CipherBlock(iv, c, i / 16));
  }

  /** Section 6.3, decryption: the same relation, read the other way. */
  lemma CfbDecryption(key: seq<Word>, iv: seq<bv8>, c: seq<bv8>, i: nat)
    requires IsKey(key) && |iv| == 16 && i < |c|
    ensures var w := KeyExpansion(key);
            var p := Run(CfbDecrypt, Key(w), Stream(iv, 0), c);
            var last := if i < 16 then iv else c[i / 16 * 16 - 16..i / 16 * 16];
            p[i] == Xor8(FromBlock(Cipher(ToBlock(last), w, |key| + 6))[i % 16], c[i])
  {
    hide Encipher, KeyExpansion, Cipher, FromBlock, ToBlock, Xor8, Run, After, CfbRegister;
    var k := Key(KeyExpansion(key));
    CfbDecryptIsCfb(k, iv, c);
    var p := Run(CfbDecrypt, k, Stream(iv, 0), c);
    CfbBlock(key, iv, p, c, i);
    var last := if i < 16 then iv else c[i / 16 * 16 - 16..i / 16 * 16];
    XorTwice8(FromBlock(Cipher(ToBlock(last), k.w, |key| + 6))[i % 16], p[i]);
  }

  /** Between two calls the register holds the ciphertext of the open block and then what
      is left of its keystream, or the last whole block of ciphertext. */
  lemma CfbSaved(key: seq<Word>, w: seq<Word>, iv: seq<bv8>, p: seq<bv8>)
    requires IsKey(key) && w == KeyExpansion(key) && |iv| == 16
    ensures var c := Run(CfbEncrypt, Key(w), Stream(iv, 0), p);
            var q, r := |c| / 16 * 16, |c| % 16;
            var last := if |c| < 16 then iv else c[q - 16..q];
            && After(CfbEncrypt, Key(w), Stream(iv, 0), p) == After(CfbDecrypt, Key(w), Stream(iv, 0), c)
            && After(CfbEncrypt, Key(w), Stream(iv, 0), p)
               == Stream(if r == 0 then last else c[q..] + FromBlock(Cipher(ToBlock(last), w, |key| + 6))[r..], r)
  {
    hide Encipher, KeyExpansion, Cipher, FromBlock, ToBlock, Xor8, Run, After, IsCfb;
    var c := Run(CfbEncrypt, Key(w), Stream(iv, 0), p);
    CfbEncryptIsCfb(Key(w), iv, p);
    CfbRoundTrip(Key(w), Stream(iv, 0), p);
    EncipherIsCipher(key, CipherBlock(iv, c, |c| / 16));
  }

  /** Section 6.4: each byte is added to the output block it falls into, where `o` are
      the initialisation vector enciphered over and over. */
  lemma OfbOutput(key: seq<Word>, w: seq<Word>, iv: seq<bv8>, p: seq<bv8>, o: seq<seq<bv8>>, i: nat)
    requires IsKey(key) && w == KeyExpansion(key) && |iv| == 16 && i < |p| && |o| == i / 16 + 2 && o[0] == iv
    requires forall j :: 0 <= j < |o| ==> |o[j]| == 16
    requires forall j {:trigger o[j]} :: 0 < j < |o| ==> o[j] == FromBlock(Cipher(ToBlock(o[j - 1]), w, |key| + 6))
    ensures Run(Ofb, Key(w), Stream(iv, 0), p)[i] == Xor8(o[i / 16 + 1][i % 16], p[i])
  {
    hide Encipher, KeyExpansion, Cipher, FromBlock, ToBlock, Xor8, Run, After;
    OfbIsOfb(Key(w), iv, p);
    OutputBlocks(key, w, iv, o, i / 16 + 1);
  }

  lemma {:induction false} OutputBlocks(key: seq<Word>, w: seq<Word>, iv: seq<bv8>, o: seq<seq<bv8>>, n: nat)
    requires IsKey(key) && w == KeyExpansion(key) && |iv| == 16 && n < |o| && o[0] == iv
    requires forall j :: 0 <= j < |o| ==> |o[j]| == 16
    requires forall j {:trigger o[j]} :: 0 < j < |o| ==> o[j] == FromBlock(Cipher(ToBlock(o[j - 1]), w, |key| + 6))
    ensures o[n] == OutputBlock(Key(w), iv, n)
  {
    hide Encipher, KeyExpansion, Cipher, FromBlock, ToBlock;
    if n > 0 {
      OutputBlocks(key, w, iv, o, n - 1);
      EncipherIsCipher(key, o[n - 1]);
    }
  }

  /** Section 6.5: each byte is added to the cipher of the counter block it falls into,
      where `t` are the counter blocks, each the caller's step of the one before. */
  lemma CtrOutput(key: seq<Word>, inc: Increment, pos: nat, p: seq<bv8>, t: seq<seq<bv8>>, i: nat)
    requires IsKey(key) && i < |p| && |t| == (pos + i) / 16 + 1
    requires |t[0]| == 16 && forall j :: 0 < j < |t| ==> |t[j]| == 16 && t[j] == inc(t[j - 1])
    ensures var w := KeyExpansion(key);
            CtrRun(Key(w), inc, t[0], pos, p)[i]
            == Xor8(p[i], FromBlock(Cipher(ToBlock(t[(pos + i) / 16]), w, |key| + 6))[(pos + i) % 16])
  {
    hide Encipher, KeyExpansion, Cipher, FromBlock, ToBlock, Xor8;
    CounterBlocks(inc, t, (pos + i) / 16);
    EncipherIsCipher(key, t[(pos + i) / 16]);
  }

  lemma {:induction false} CounterBlocks(inc: Increment, t: seq<seq<bv8>>, n: nat)
    requires n < |t| && |t[0]| == 16 && forall j :: 0 < j < |t| ==> |t[j]| == 16 && t[j] == inc(t[j - 1])
    ensures t[n] == CounterBlock(inc, t[0], n)
  {
    if n > 0 {
      CounterBlocks(inc, t, n - 1);
    }
  }

  /** Between two calls the counter buffer is the block the stream stands in, which is
      only left behind when another one is wanted, and the position is in it. */
  lemma CtrSaved(inc: Increment, pos: nat, len: nat, t: seq<seq<bv8>>)
    requires pos <= 16 && |t| == (pos + len) / 16 + 1
    requires |t[0]| == 16 && forall j :: 0 < j < |t| ==> |t[j]| == 16 && t[j] == inc(t[j - 1])
    ensures CtrAfter(inc, Counter(t[0], pos), len)
         == if 0 < pos && pos + len <= 16 then Counter(t[0], pos + len)
            else Counter(t[(pos + len) / 16], (pos + len) % 16)
  {
    CounterBlocks(inc, t, (pos + len) / 16);
    CounterBlocks(inc, t, 0);
    hide CounterBlock;
  }

  // ------------------------------------------------------- from the key bytes

  /** Every block on its own, under the key expansion of the bytes. */
  method EcbWithKey(key: array<bv8>, keyLen: int, ibuf: array<bv8>, obuf: array<bv8>) returns (ok: bool)
    requires KeyBytes(keyLen) > 0 && key.Length == KeyBytes(keyLen) && ibuf.Length == obuf.Length
    modifies obuf
    ensures ok <==> ibuf.Length % 16 == 0
    ensures ok ==>
              var words := old(KeyWords(key[..]));
              forall j :: 0 <= j < ibuf.Length / 16 ==>
                obuf[16 * j..16 * j + 16]
                == FromBlock(Cipher(ToBlock(old(ibuf[16 * j..16 * j + 16])), KeyExpansion(words), |words| + 6))
  {
    hide KeyWord, WordIn, Encipher, Cipher, FromBlock, ToBlock, KeyExpansion;
    ghost var words, source := KeyWords(key[..]), ibuf[..];
    var cx := new Context();
    ok := EncryptKey(key, keyLen, cx);
    ok := EcbEncrypt(ibuf, obuf, ibuf.Length, cx);
    if ok {
      forall j | 0 <= j < ibuf.Length / 16
        ensures obuf[16 * j..16 * j + 16]
             == FromBlock(Cipher(ToBlock(source[16 * j..16 * j + 16]), KeyExpansion(words), |words| + 6))
      {
        assert BlockAt(obuf[..], j) == obuf[16 * j..16 * j + 16];
        EncipherIsCipher(words, BlockAt(source, j));
      }
    }
  }

  /** Schedule and mode on arrays: the mode runs under the key expansion of the bytes. */
  method CryptWithKey(m: Mode, key: array<bv8>, keyLen: int, ibuf: array<bv8>, obuf: array<bv8>, iv: array<bv8>)
    returns (ok: bool)
    requires KeyBytes(keyLen) > 0 && key.Length == KeyBytes(keyLen)
    requires iv.Length == 16 && iv != ibuf && iv != obuf && ibuf.Length == obuf.Length
    modifies obuf, iv
    ensures ok
    ensures obuf[..] == Run(m, Key(KeyExpansion(old(KeyWords(key[..])))), Stream(old(iv[..]), 0), old(ibuf[..]))
  {
    hide KeyWord, Run, After, WordIn;
    ghost var words := KeyWords(key[..]);
    var cx := new Context();
    ok := EncryptKey(key, keyLen, cx);
    ghost var whole := ibuf[..];
    assert ibuf[..ibuf.Length] == whole;
    ok := Crypt(m, ibuf, obuf, ibuf.Length, iv, cx);
    assert obuf[..ibuf.Length] == obuf[..];
  }
}
