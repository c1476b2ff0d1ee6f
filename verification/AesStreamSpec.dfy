/** The streaming modes of crypto/aes/aes_modes.c, one byte at a time.

    A mode keeps a sixteen-byte register and a position in it.  At position zero
    the register is enciphered; every byte of the message is then added to one
    byte of the register.  The modes differ only in what goes back into that
    byte.  AesModes proves that the buffered routines of the source compute
    `Run`, and the lemmas here relate `Run` to NIST SP 800-38A. */
module AesStreamSpec {
  import opened AesWords
  import opened AesBlock

  /** The round keys in use: |w| is 44, 52 or 60 in a context that holds a key. */
  datatype Key = Key(w: seq<Word>) {
    predicate Set() {
      |w| == 44 || |w| == 52 || |w| == 60
    }
  }

  /** The block function; total, because a context need not hold a key. */
  function Encipher(k: Key, b: seq<bv8>): (c: seq<bv8>)
    requires |b| == 16
    ensures |c| == 16
  {
    if k.Set() then EncryptBlock(k.w, b) else b
  }

  datatype Mode = CfbEncrypt | CfbDecrypt | Ofb

  datatype Stream = Stream(iv: seq<bv8>, pos: nat) {
    predicate Valid() {
      |iv| == 16 && pos < 16
    }
  }

  /** The register with keystream from `pos` on. */
  function Ready(k: Key, s: Stream): (iv: seq<bv8>)
    requires s.Valid()
    ensures |iv| == 16
  {
    if s.pos == 0 then Encipher(k, s.iv) else s.iv
  }

  function Output(k: Key, s: Stream, x: bv8): bv8
    requires s.Valid()
  {
    Xor8(Ready(k, s)[s.pos], x)
  }

  function Next(m: Mode, k: Key, s: Stream, x: bv8): (t: Stream)
    requires s.Valid()
    ensures t.Valid()
  {
    var iv := Ready(k, s);
    var back := match m
                case CfbEncrypt => Xor8(iv[s.pos], x)
                case CfbDecrypt => x
                case Ofb => iv[s.pos];
    Stream(iv[s.pos := back], (s.pos + 1) % 16)
  }

  /** The stream after a message, and what the message became. */
  function After(m: Mode, k: Key, s: Stream, msg: seq<bv8>): (t: Stream)
    requires s.Valid()
    ensures t.Valid()
  {
    if msg == [] then s else Next(m, k, After(m, k, s, msg[..|msg| - 1]), msg[|msg| - 1])
  }

  function Run(m: Mode, k: Key, s: Stream, msg: seq<bv8>): (out: seq<bv8>)
    requires s.Valid()
    ensures |out| == |msg|
  {
    if msg == [] then []
    else
      var init := msg[..|msg| - 1];
      Run(m, k, s, init) + [Output(k, After(m, k, s, init), msg[|msg| - 1])]
  }

  lemma OneMoreByte(m: Mode, k: Key, s: Stream, init: seq<bv8>, x: bv8)
    requires s.Valid()
    ensures After(m, k, s, init + [x]) == Next(m, k, After(m, k, s, init), x)
    ensures Run(m, k, s, init + [x]) == Run(m, k, s, init) + [Output(k, After(m, k, s, init), x)]
  {
    hide Next, Output;
    assert (init + [x])[..|init + [x]| - 1] == init;
  }

  lemma {:induction false} PositionAfter(m: Mode, k: Key, s: Stream, msg: seq<bv8>)
    requires s.Valid()
    ensures After(m, k, s, msg).pos == (s.pos + |msg|) % 16
  {
    hide Ready;
    if msg != [] {
      PositionAfter(m, k, s, msg[..|msg| - 1]);
    }
  }

  // ------------------------------------------------------------- chunking

  lemma {:induction false} RunConcat(m: Mode, k: Key, s: Stream, a: seq<bv8>, b: seq<bv8>)
    requires s.Valid()
    ensures After(m, k, s, a + b) == After(m, k, After(m, k, s, a), b)
    ensures Run(m, k, s, a + b) == Run(m, k, s, a) + Run(m, k, After(m, k, s, a), b)
  {
    hide Next, Output;
    if b == [] {
      assert a + b == a;
    } else {
      var init := b[..|b| - 1];
      RunConcat(m, k, s, a, init);
      assert (a + b)[..|a + b| - 1] == a + init;
    }
  }

  function Flatten(chunks: seq<seq<bv8>>): seq<bv8> {
    if chunks == [] then [] else chunks[0] + Flatten(chunks[1..])
  }

  /** One call of a mode per chunk, each resuming where the last one stopped. */
  function RunChunks(m: Mode, k: Key, s: Stream, chunks: seq<seq<bv8>>): (r: (Stream, seq<bv8>))
    requires s.Valid()
    ensures r.0.Valid()
    decreases |chunks|
  {
    if chunks == [] then (s, [])
    else
      var (t, rest) := RunChunks(m, k, After(m, k, s, chunks[0]), chunks[1..]);
      (t, Run(m, k, s, chunks[0]) + rest)
  }

  /** How a message is cut into calls is invisible in the result. */
  lemma {:induction false} ChunkingIsInvisible(m: Mode, k: Key, s: Stream, chunks: seq<seq<bv8>>)
    requires s.Valid()
    ensures RunChunks(m, k, s, chunks) == (After(m, k, s, Flatten(chunks)), Run(m, k, s, Flatten(chunks)))
    decreases |chunks|
  {
    hide After, Run;
    if chunks == [] {
      RunConcat(m, k, s, [], []);
      assert After(m, k, s, []) == s by { RunOfEmpty(m, k, s); }
      assert Run(m, k, s, []) == [];
    } else {
      ChunkingIsInvisible(m, k, After(m, k, s, chunks[0]), chunks[1..]);
      RunConcat(m, k, s, chunks[0], Flatten(chunks[1..]));
    }
  }

  lemma RunOfEmpty(m: Mode, k: Key, s: Stream)
    requires s.Valid()
    ensures After(m, k, s, []) == s
  {
  }

  // ------------------------------------------------------------ round trips

  lemma XorTwice8(a: bv8, b: bv8)
    ensures Xor8(a, Xor8(a, b)) == b
  {
  }

  /** CFB decryption of a CFB encryption, both starting from the same register. */
  lemma {:induction false} CfbRoundTrip(k: Key, s: Stream, msg: seq<bv8>)
    requires s.Valid()
    ensures var c := Run(CfbEncrypt, k, s, msg);
            && Run(CfbDecrypt, k, s, c) == msg
            && After(CfbDecrypt, k, s, c) == After(CfbEncrypt, k, s, msg)
  {
    hide Ready, Xor8;
    if msg != [] {
      var init, x := msg[..|msg| - 1], msg[|msg| - 1];
      CfbRoundTrip(k, s, init);
      var c := Run(CfbEncrypt, k, s, msg);
      var t := After(CfbEncrypt, k, s, init);
      assert c[..|c| - 1] == Run(CfbEncrypt, k, s, init);
      XorTwice8(Ready(k, t)[t.pos], x);
      assert msg == init + [x];
    }
  }

  lemma {:induction false} OfbRoundTrip(k: Key, s: Stream, msg: seq<bv8>)
    requires s.Valid()
    ensures var c := Run(Ofb, k, s, msg);
            && Run(Ofb, k, s, c) == msg
            && After(Ofb, k, s, c) == After(Ofb, k, s, msg)
  {
    hide Ready, Xor8;
    if msg != [] {
      var init, x := msg[..|msg| - 1], msg[|msg| - 1];
      OfbRoundTrip(k, s, init);
      var c := Run(Ofb, k, s, msg);
      var t := After(Ofb, k, s, init);
      assert c[..|c| - 1] == Run(Ofb, k, s, init);
      XorTwice8(Ready(k, t)[t.pos], x);
      assert msg == init + [x];
    }
  }

  /** The two sides may cut the message differently: whatever chunks the sender
      used and whatever chunks the receiver sees, the message comes back. */
  lemma CfbAcrossChunkings(k: Key, s: Stream, sent: seq<seq<bv8>>, received: seq<seq<bv8>>)
    requires s.Valid()
    requires Flatten(received) == RunChunks(CfbEncrypt, k, s, sent).1
    ensures RunChunks(CfbDecrypt, k, s, received).1 == Flatten(sent)
    ensures RunChunks(CfbDecrypt, k, s, received).0 == RunChunks(CfbEncrypt, k, s, sent).0
  {
    ChunkingIsInvisible(CfbEncrypt, k, s, sent);
    ChunkingIsInvisible(CfbDecrypt, k, s, received);
    CfbRoundTrip(k, s, Flatten(sent));
  }

  lemma OfbAcrossChunkings(k: Key, s: Stream, sent: seq<seq<bv8>>, received: seq<seq<bv8>>)
    requires s.Valid()
    requires Flatten(received) == RunChunks(Ofb, k, s, sent).1
    ensures RunChunks(Ofb, k, s, received).1 == Flatten(sent)
    ensures RunChunks(Ofb, k, s, received).0 == RunChunks(Ofb, k, s, sent).0
  {
    ChunkingIsInvisible(Ofb, k, s, sent);
    ChunkingIsInvisible(Ofb, k, s, received);
    OfbRoundTrip(k, s, Flatten(sent));
  }

  // ------------------------------------------- SP 800-38A sections 6.3 and 6.4

  /** C_j, with C_0 the initialisation vector. */
  function CipherBlock(iv: seq<bv8>, c: seq<bv8>, j: nat): (b: seq<bv8>)
    requires |iv| == 16 && 16 * j <= |c|
    ensures |b| == 16
  {
    if j == 0 then iv else c[16 * (j - 1)..16 * j]
  }

  /** What the register holds after ciphertext c: the last whole block when the
      position is zero, otherwise the ciphertext of the open block followed by
      keystream that has not been used. */
  function CfbRegister(k: Key, iv: seq<bv8>, c: seq<bv8>): (r: seq<bv8>)
    requires |iv| == 16
    ensures |r| == 16
  {
    var q, p := |c| / 16, |c| % 16;
    if p == 0 then CipherBlock(iv, c, q) else c[16 * q..] + Encipher(k, CipherBlock(iv, c, q))[p..]
  }

  /** Byte i of CFB: x plus byte i of the encipherment of the previous block. */
  function CfbByte(k: Key, iv: seq<bv8>, c: seq<bv8>, i: nat, x: bv8): bv8
    requires |iv| == 16 && i <= |c|
  {
    Xor8(Encipher(k, CipherBlock(iv, c, i / 16))[i % 16], x)
  }

  predicate IsCfb(k: Key, iv: seq<bv8>, p: seq<bv8>, c: seq<bv8>)
    requires |iv| == 16 && |p| == |c|
  {
    forall i :: 0 <= i < |p| ==> c[i] == CfbByte(k, iv, c, i, p[i])
  }

  lemma {:induction false} CfbEncryptIsCfb(k: Key, iv: seq<bv8>, msg: seq<bv8>)
    requires |iv| == 16
    ensures var c := Run(CfbEncrypt, k, Stream(iv, 0), msg);
            && IsCfb(k, iv, msg, c)
            && After(CfbEncrypt, k, Stream(iv, 0), msg) == Stream(CfbRegister(k, iv, c), |msg| % 16)
  {
    hide Xor8, CfbRegister, Ready, CfbByte, After, Run;
    if msg == [] {
      RegisterOfEmpty(k, iv);
      RunOfEmpty(CfbEncrypt, k, Stream(iv, 0));
    } else {
      var n := |msg| - 1;
      var init, x := msg[..n], msg[n];
      assert msg == init + [x];
      CfbEncryptIsCfb(k, iv, init);
      OneMoreByte(CfbEncrypt, k, Stream(iv, 0), init, x);
      var c0 := Run(CfbEncrypt, k, Stream(iv, 0), init);
      var c := Run(CfbEncrypt, k, Stream(iv, 0), msg);
      RegisterStep(k, iv, c0, c, x);
      forall i | 0 <= i < |msg|
        ensures c[i] == CfbByte(k, iv, c, i, msg[i])
      {
        if i < n {
          assert c[i] == c0[i] && msg[i] == init[i];
          CfbByteOfPrefix(k, iv, c0, c, i, msg[i]);
        }
      }
    }
  }

  lemma CfbByteOfPrefix(k: Key, iv: seq<bv8>, c0: seq<bv8>, c: seq<bv8>, i: nat, x: bv8)
    requires |iv| == 16 && i <= |c0| && c0 <= c
    ensures CfbByte(k, iv, c0, i, x) == CfbByte(k, iv, c, i, x)
  {
    hide Encipher, Xor8;
    assert CipherBlock(iv, c0, i / 16) == CipherBlock(iv, c, i / 16);
  }

  lemma RegisterOfEmpty(k: Key, iv: seq<bv8>)
    requires |iv| == 16
    ensures CfbRegister(k, iv, []) == iv
  {
  }

  /** Appending one ciphertext byte moves the register as the modes do. */
  lemma RegisterStep(k: Key, iv: seq<bv8>, c0: seq<bv8>, c: seq<bv8>, x: bv8)
    requires |iv| == 16 && |c| == |c0| + 1 && c0 == c[..|c0|]
    ensures var s := Stream(CfbRegister(k, iv, c0), |c0| % 16);
            && Xor8(Ready(k, s)[s.pos], x) == CfbByte(k, iv, c, |c0|, x)
            && Ready(k, s)[s.pos := c[|c0|]] == CfbRegister(k, iv, c)
  {
    hide Encipher, Xor8;
    var n := |c0|;
    var q, p := n / 16, n % 16;
    assert CipherBlock(iv, c0, q) == CipherBlock(iv, c, q);
    if p == 15 {
      assert (n + 1) / 16 == q + 1 && (n + 1) % 16 == 0;
      assert c[16 * q..16 * (q + 1)] == c0[16 * q..] + [c[n]];
    } else {
      assert (n + 1) / 16 == q && (n + 1) % 16 == p + 1;
      assert c[16 * q..] == c0[16 * q..] + [c[n]];
    }
  }

  lemma {:induction false} CfbRoundTripBack(k: Key, s: Stream, c: seq<bv8>)
    requires s.Valid()
    ensures var p := Run(CfbDecrypt, k, s, c);
            && Run(CfbEncrypt, k, s, p) == c
            && After(CfbEncrypt, k, s, p) == After(CfbDecrypt, k, s, c)
  {
    hide Ready, Xor8;
    if c != [] {
      var init, x := c[..|c| - 1], c[|c| - 1];
      CfbRoundTripBack(k, s, init);
      var p := Run(CfbDecrypt, k, s, c);
      var t := After(CfbDecrypt, k, s, init);
      assert p[..|p| - 1] == Run(CfbDecrypt, k, s, init);
      XorTwice8(Ready(k, t)[t.pos], x);
      assert c == init + [x];
    }
  }

  lemma CfbDecryptIsCfb(k: Key, iv: seq<bv8>, c: seq<bv8>)
    requires |iv| == 16
    ensures IsCfb(k, iv, Run(CfbDecrypt, k, Stream(iv, 0), c), c)
    ensures After(CfbDecrypt, k, Stream(iv, 0), c) == Stream(CfbRegister(k, iv, c), |c| % 16)
  {
    hide CfbRegister, After, Run, IsCfb, Encipher;
    CfbRoundTripBack(k, Stream(iv, 0), c);
    CfbEncryptIsCfb(k, iv, Run(CfbDecrypt, k, Stream(iv, 0), c));
  }

  /** O_j: the j-fold encipherment of the initialisation vector. */
  function OutputBlock(k: Key, iv: seq<bv8>, j: nat): (b: seq<bv8>)
    requires |iv| == 16
    ensures |b| == 16
  {
    if j == 0 then iv else Encipher(k, OutputBlock(k, iv, j - 1))
  }

  /** Byte i of OFB is added to byte i of the concatenated output blocks. */
  function OfbByte(k: Key, iv: seq<bv8>, i: nat, x: bv8): bv8
    requires |iv| == 16
  {
    Xor8(OutputBlock(k, iv, i / 16 + 1)[i % 16], x)
  }

  lemma {:induction false} OfbIsOfb(k: Key, iv: seq<bv8>, msg: seq<bv8>)
    requires |iv| == 16
    ensures var c := Run(Ofb, k, Stream(iv, 0), msg);
            forall i :: 0 <= i < |msg| ==> c[i] == OfbByte(k, iv, i, msg[i])
    ensures After(Ofb, k, Stream(iv, 0), msg) == Stream(OutputBlock(k, iv, (|msg| + 15) / 16), |msg| % 16)
  {
    hide Encipher, Xor8, After, Run, OfbByte;
    if msg == [] {
      RunOfEmpty(Ofb, k, Stream(iv, 0));
    } else {
      var n := |msg| - 1;
      var init, x := msg[..n], msg[n];
      assert msg == init + [x];
      OfbIsOfb(k, iv, init);
      OneMoreByte(Ofb, k, Stream(iv, 0), init, x);
      OutputStep(k, iv, n, x);
      var c := Run(Ofb, k, Stream(iv, 0), msg);
      forall i | 0 <= i < |msg|
        ensures c[i] == OfbByte(k, iv, i, msg[i])
      {
        if i < n {
          assert msg[i] == init[i];
        }
      }
    }
  }

  lemma OutputStep(k: Key, iv: seq<bv8>, n: nat, x: bv8)
    requires |iv| == 16
    ensures var s := Stream(OutputBlock(k, iv, (n + 15) / 16), n % 16);
            && Output(k, s, x) == OfbByte(k, iv, n, x)
            && Next(Ofb, k, s, x) == Stream(OutputBlock(k, iv, (n + 16) / 16), (n + 1) % 16)
  {
    hide Encipher, Xor8;
    if n % 16 == 0 {
      assert (n + 15) / 16 == n / 16 && (n + 16) / 16 == n / 16 + 1;
    } else {
      assert (n + 15) / 16 == n / 16 + 1 == (n + 16) / 16;
    }
  }
}
