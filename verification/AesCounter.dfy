/** crypto/aes/aes_modes.c: `aes_ctr_crypt`, and `aes_ecb_encrypt` under it.

    The caller's `ctr_inc` is a parameter: any function from counter blocks to
    counter blocks. */
module AesCounter {
  import opened AesWords
  import opened AesKeySchedule
  import opened AesBlock
  import opened AesStreamSpec
  import opened AesModes

  // -------------------------------------------------- SP 800-38A section 6.5

  type Increment = seq<bv8> -> seq<bv8>

  /** ctr_inc writes into sixteen bytes, so it keeps the length. */
  function Stepped(inc: Increment, b: seq<bv8>): (c: seq<bv8>)
    requires |b| == 16
    ensures |c| == 16
  {
    var c := inc(b);
    if |c| == 16 then c else b
  }

  /** T_j for j counted from the block `ctr`. */
  function CounterBlock(inc: Increment, ctr: seq<bv8>, j: nat): (t: seq<bv8>)
    requires |ctr| == 16
    ensures |t| == 16
  {
    if j == 0 then ctr else Stepped(inc, CounterBlock(inc, ctr, j - 1))
  }

  /** Byte i of the stream that starts at byte 0 of `ctr`, added to x. */
  function CtrByte(k: Key, inc: Increment, ctr: seq<bv8>, i: nat, x: bv8): bv8
    requires |ctr| == 16
  {
    Xor8(x, Encipher(k, CounterBlock(inc, ctr, i / 16))[i % 16])
  }

  function CtrRun(k: Key, inc: Increment, ctr: seq<bv8>, pos: nat, msg: seq<bv8>): (out: seq<bv8>)
    requires |ctr| == 16
    ensures |out| == |msg|
  {
    seq(|msg|, i requires 0 <= i < |msg| => CtrByte(k, inc, ctr, pos + i, msg[i]))
  }

  /** The saved position after a call: a block that a call completes by filling
      the open block exactly is left at position sixteen, its counter not stepped. */
  function CtrPos(pos: nat, len: nat): nat {
    if 0 < pos && pos + len <= 16 then pos + len else (pos + len) % 16
  }

  datatype Counter = Counter(ctr: seq<bv8>, pos: nat) {
    predicate Valid() {
      |ctr| == 16 && pos <= 16
    }
  }

  function CtrAfter(inc: Increment, c: Counter, len: nat): (d: Counter)
    requires c.Valid()
    ensures d.Valid()
  {
    var pos := CtrPos(c.pos, len);
    Counter(CounterBlock(inc, c.ctr, (c.pos + len - pos) / 16), pos)
  }

  lemma {:induction false} CounterBlocksAdd(inc: Increment, ctr: seq<bv8>, i: nat, j: nat)
    requires |ctr| == 16
    ensures CounterBlock(inc, CounterBlock(inc, ctr, i), j) == CounterBlock(inc, ctr, i + j)
    decreases j
  {
    hide Stepped;
    if j > 0 {
      CounterBlocksAdd(inc, ctr, i, j - 1);
    }
  }

  /** Two calls, the second resuming the first, are one call on both messages. */
  lemma CtrConcat(k: Key, inc: Increment, c: Counter, a: seq<bv8>, b: seq<bv8>)
    requires c.Valid()
    ensures var d := CtrAfter(inc, c, |a|);
            CtrRun(k, inc, c.ctr, c.pos, a + b) == CtrRun(k, inc, c.ctr, c.pos, a) + CtrRun(k, inc, d.ctr, d.pos, b)
  {
    hide Encipher, Xor8;
    var d := CtrAfter(inc, c, |a|);
    var q := (c.pos + |a| - d.pos) / 16;
    assert c.pos + |a| == 16 * q + d.pos;
    forall i | 0 <= i < |b|
      ensures CtrByte(k, inc, c.ctr, c.pos + |a| + i, b[i]) == CtrByte(k, inc, d.ctr, d.pos + i, b[i])
    {
      assert c.pos + |a| + i == 16 * q + (d.pos + i);
      CounterBlocksAdd(inc, c.ctr, q, (d.pos + i) / 16);
    }
    forall i | 0 <= i < |a + b|
      ensures CtrRun(k, inc, c.ctr, c.pos, a + b)[i]
           == (CtrRun(k, inc, c.ctr, c.pos, a) + CtrRun(k, inc, d.ctr, d.pos, b))[i]
    {
      if i >= |a| {
        assert (a + b)[i] == b[i - |a|];
      }
    }
  }

  /** One call per chunk, each resuming where the last one stopped. */
  function CtrChunks(k: Key, inc: Increment, c: Counter, chunks: seq<seq<bv8>>): seq<bv8>
    requires c.Valid()
    decreases |chunks|
  {
    if chunks == [] then []
    else CtrRun(k, inc, c.ctr, c.pos, chunks[0]) + CtrChunks(k, inc, CtrAfter(inc, c, |chunks[0]|), chunks[1..])
  }

  lemma {:induction false} CtrChunkingIsInvisible(k: Key, inc: Increment, c: Counter, chunks: seq<seq<bv8>>)
    requires c.Valid()
    ensures CtrChunks(k, inc, c, chunks) == CtrRun(k, inc, c.ctr, c.pos, Flatten(chunks))
    decreases |chunks|
  {
    hide CtrAfter;
    if chunks != [] {
      CtrChunkingIsInvisible(k, inc, CtrAfter(inc, c, |chunks[0]|), chunks[1..]);
      CtrConcat(k, inc, c, chunks[0], Flatten(chunks[1..]));
      hide CtrRun;
    } else {
      assert CtrRun(k, inc, c.ctr, c.pos, []) == [];
    }
  }

  /** Encrypting twice from the same counter gives the message back, however the
      two sides cut it. */
  lemma CtrAcrossChunkings(k: Key, inc: Increment, c: Counter, sent: seq<seq<bv8>>, received: seq<seq<bv8>>)
    requires c.Valid()
    requires Flatten(received) == CtrChunks(k, inc, c, sent)
    ensures CtrChunks(k, inc, c, received) == Flatten(sent)
  {
    hide Encipher, Xor8, CtrChunks;
    CtrChunkingIsInvisible(k, inc, c, sent);
    CtrChunkingIsInvisible(k, inc, c, received);
    var msg := Flatten(sent);
    forall i | 0 <= i < |msg|
      ensures CtrByte(k, inc, c.ctr, c.pos + i, CtrByte(k, inc, c.ctr, c.pos + i, msg[i])) == msg[i]
    {
      XorBack8(msg[i], Encipher(k, CounterBlock(inc, c.ctr, (c.pos + i) / 16))[(c.pos + i) % 16]);
    }
  }

  lemma XorBack8(a: bv8, b: bv8)
    ensures Xor8(Xor8(a, b), b) == a
  {
  }

  // ------------------------------------------------------------- routines

  /** The caller's step, written back over the counter. */
  method CtrInc(cbuf: array<bv8>, inc: Increment)
    requires cbuf.Length == 16
    modifies cbuf
    ensures cbuf[..] == Stepped(inc, old(cbuf[..]))
  {
    hide Stepped;
    var c := Stepped(inc, cbuf[..]);
    for i := 0 to 16
      invariant cbuf[..i] == c[..i]
    {
      cbuf[i] := c[i];
    }
  }

  /** One block copied to position `at`. */
  method CopyBlock(to: array<bv8>, at: nat, from: array<bv8>)
    requires from.Length == 16 && at + 16 <= to.Length && to != from
    modifies to
    ensures to[at..at + 16] == from[..]
    ensures to[..at] == old(to[..at]) && to[at + 16..] == old(to[at + 16..])
  {
    for i := 0 to 16
      invariant to[at..at + i] == from[..i]
      invariant to[..at] == old(to[..at]) && to[at + 16..] == old(to[at + 16..])
    {
      to[at + i] := from[i];
    }
  }

  function BlockAt(s: seq<bv8>, j: nat): (b: seq<bv8>)
    requires 16 * j + 16 <= |s|
    ensures |b| == 16
  {
    s[16 * j..16 * j + 16]
  }

  lemma OtherBlocksKept(s: seq<bv8>, t: seq<bv8>, b: nat)
    requires |s| == |t| && 16 * b + 16 <= |s| && s[..16 * b] == t[..16 * b]
    ensures forall j :: 0 <= j < b ==> BlockAt(s, j) == BlockAt(t, j)
  {
    forall j | 0 <= j < b
      ensures BlockAt(s, j) == BlockAt(t, j)
    {
      assert BlockAt(s, j) == s[..16 * b][16 * j..16 * j + 16];
      assert BlockAt(t, j) == t[..16 * b][16 * j..16 * j + 16];
    }
  }

  /** One block of the input, enciphered. */
  method EcbBlock(ibuf: array<bv8>, obuf: array<bv8>, b: nat, cx: Context) returns (ok: bool)
    requires 16 * b + 16 <= ibuf.Length && 16 * b + 16 <= obuf.Length
    requires cx.ks.Length == KS_LENGTH && obuf as object != cx.ks
    modifies obuf
    ensures ok <==> ValidRounds(cx.rounds)
    ensures ok ==> BlockAt(obuf[..], b) == Encipher(KeyOf(cx), old(BlockAt(ibuf[..], b)))
    ensures forall j :: 0 <= j < b ==> BlockAt(obuf[..], j) == old(BlockAt(obuf[..], j))
    ensures forall j :: 16 * b + 16 <= j < obuf.Length ==> obuf[j] == old(obuf[j])
  {
    hide EncryptBlock;
    ghost var before := obuf[..];
    assert ibuf[16 * b..16 * b + 16] == BlockAt(ibuf[..], b);
    ok := Encrypt(ibuf, 16 * b, obuf, 16 * b, cx);
    assert obuf[..][16 * b + 16..] == before[16 * b + 16..];
    assert forall j :: 16 * b + 16 <= j < obuf.Length ==> obuf[j] == before[16 * b + 16..][j - (16 * b + 16)];
    OtherBlocksKept(before, obuf[..], b);
  }

  /** Every whole block of the input, enciphered; the buffers may be the same. */
  method EcbEncrypt(ibuf: array<bv8>, obuf: array<bv8>, len: nat, cx: Context) returns (ok: bool)
    requires len <= ibuf.Length && len <= obuf.Length && cx.ks.Length == KS_LENGTH && obuf as object != cx.ks
    modifies obuf
    ensures ok <==> len % 16 == 0 && (len == 0 || cx.rounds == 160 || cx.rounds == 192 || cx.rounds == 224)
    ensures ok ==>
              forall j :: 0 <= j < len / 16 ==> BlockAt(obuf[..], j) == Encipher(KeyOf(cx), BlockAt(old(ibuf[..]), j))
    ensures obuf[len..] == old(obuf[len..])
  {
    hide Encipher;
    if len % 16 != 0 {
      return false;
    }
    ghost var k, source := KeyOf(cx), ibuf[..];
    var nb := len / 16;
    for b := 0 to nb
      invariant b > 0 ==> ValidRounds(cx.rounds)
      invariant KeyOf(cx) == k
      invariant forall j :: 16 * b <= j < ibuf.Length ==> ibuf[j] == source[j]
      invariant forall j :: 16 * b <= j < obuf.Length ==> obuf[j] == old(obuf[j])
      invariant forall j :: 0 <= j < b ==> BlockAt(obuf[..], j) == Encipher(k, BlockAt(source, j))
    {
      assert BlockAt(ibuf[..], b) == BlockAt(source, b);
      ok := EcbBlock(ibuf, obuf, b, cx);
      if !ok {
        return;
      }
    }
    ok := true;
  }

  const BFR_LENGTH := 8 * 16

  /** The counter copied to block i of the buffer, behind its predecessors. */
  method StoreCounter(buf: array<bv8>, i: nat, cbuf: array<bv8>, ghost inc: Increment, ghost ctr: seq<bv8>)
    requires 16 * i + 16 <= buf.Length && cbuf.Length == 16 && buf != cbuf && |ctr| == 16
    requires cbuf[..] == CounterBlock(inc, ctr, i)
    requires forall j :: 0 <= j < i ==> BlockAt(buf[..], j) == CounterBlock(inc, ctr, j)
    modifies buf
    ensures forall j :: 0 <= j < i + 1 ==> BlockAt(buf[..], j) == CounterBlock(inc, ctr, j)
  {
    hide Stepped, CounterBlock;
    ghost var before := buf[..];
    CopyBlock(buf, 16 * i, cbuf);
    OtherBlocksKept(before, buf[..], i);
  }

  /** Successive counters for blen bytes; the last one is not stepped past when
      it is needed for a part of a block only. */
  method FillCounters(buf: array<bv8>, blen: nat, cbuf: array<bv8>, inc: Increment) returns (i: nat)
    requires buf.Length == BFR_LENGTH && cbuf.Length == 16 && buf != cbuf && blen <= BFR_LENGTH
    modifies buf, cbuf
    ensures i == (blen + 15) / 16
    ensures forall j :: 0 <= j < i ==> BlockAt(buf[..], j) == CounterBlock(inc, old(cbuf[..]), j)
    ensures cbuf[..] == CounterBlock(inc, old(cbuf[..]), blen / 16)
  {
    hide Stepped, BlockAt;
    ghost var ctr := cbuf[..];
    i := 0;
    while i < blen / 16
      invariant 0 <= i <= blen / 16
      invariant cbuf[..] == CounterBlock(inc, ctr, i)
      invariant forall j :: 0 <= j < i ==> BlockAt(buf[..], j) == CounterBlock(inc, ctr, j)
    {
      StoreCounter(buf, i, cbuf, inc, ctr);
      CtrInc(cbuf, inc);
      i := i + 1;
    }
    if blen % 16 != 0 {
      StoreCounter(buf, i, cbuf, inc, ctr);
      i := i + 1;
    }
  }

  /** The next n bytes of a batch that began at byte `at`, from its byte i on. */
  method XorBytes(ibuf: array<bv8>, obuf: array<bv8>, at: nat, i: nat, n: nat, buf: array<bv8>)
    requires i + n <= buf.Length && buf != ibuf && buf != obuf
    requires at + i + n <= ibuf.Length && at + i + n <= obuf.Length
    modifies obuf
    ensures forall j :: at + i <= j < at + i + n ==> obuf[j] == Xor8(old(ibuf[j]), buf[j - at])
    ensures forall j :: 0 <= j < at + i || at + i + n <= j < obuf.Length ==> obuf[j] == old(obuf[j])
  {
    hide Xor8;
    for c := 0 to n
      invariant forall j :: at + i <= j < at + i + c ==> obuf[j] == Xor8(old(ibuf[j]), buf[j - at])
      invariant forall j :: 0 <= j < at + i || at + i + c <= j < obuf.Length ==> obuf[j] == old(obuf[j])
      invariant forall j :: at + i + c <= j < at + i + n ==> ibuf[j] == old(ibuf[j])
    {
      obuf[at + i + c] := Xor8(ibuf[at + i + c], buf[i + c]);
    }
  }

  /** The two output loops of a batch: whole blocks, then the tail, which reads
      the last block of the buffer from b_pos on. */
  method XorBatch(ibuf: array<bv8>, obuf: array<bv8>, at: nat, blen: nat, buf: array<bv8>, pos: nat)
    returns (b_pos: nat)
    requires pos == 0
    requires buf.Length == BFR_LENGTH && blen <= BFR_LENGTH && buf != ibuf && buf != obuf
    requires at + blen <= ibuf.Length && at + blen <= obuf.Length
    modifies obuf
    ensures b_pos == blen % 16
    ensures forall j :: at <= j < at + blen ==> obuf[j] == Xor8(old(ibuf[j]), buf[j - at])
    ensures forall j :: 0 <= j < at || at + blen <= j < obuf.Length ==> obuf[j] == old(obuf[j])
  {
    hide Xor8;
    var i := 0;
    while i + 16 <= blen
      invariant 0 <= i <= blen && i % 16 == 0
      invariant forall j :: at <= j < at + i ==> obuf[j] == Xor8(old(ibuf[j]), buf[j - at])
      invariant forall j :: at + i <= j < at + blen ==> ibuf[j] == old(ibuf[j])
      invariant forall j :: 0 <= j < at || at + i <= j < obuf.Length ==> obuf[j] == old(obuf[j])
    {
      XorBytes(ibuf, obuf, at, i, 16, buf);
      i := i + 16;
    }
    XorBytes(ibuf, obuf, at, i, blen - i, buf);
    b_pos := pos + (blen - i);
  }

  /** What holds between two batches: `at` bytes are done and no block is open. */
  ghost predicate Batched(k: Key, inc: Increment, c: Counter, msg: seq<bv8>, rest: seq<bv8>, at: nat,
                          ibuf: array<bv8>, obuf: array<bv8>, cbuf: array<bv8>)
    requires c.Valid() && |msg| <= ibuf.Length && |msg| <= obuf.Length
    reads ibuf, obuf, cbuf
  {
    && at <= |msg|
    && (forall j :: at <= j < |msg| ==> ibuf[j] == msg[j])
    && obuf[..at] == CtrRun(k, inc, c.ctr, c.pos, msg)[..at]
    && obuf[|msg|..] == rest
    && (at < |msg| ==> (c.pos + at) % 16 == 0)
    && cbuf[..] == CounterBlock(inc, c.ctr, (c.pos + at) / 16)
  }

  /** Byte j of the stream of enciphered counters that starts at `ctr`. */
  function KeyByte(k: Key, inc: Increment, ctr: seq<bv8>, j: nat): bv8
    requires |ctr| == 16
  {
    Encipher(k, CounterBlock(inc, ctr, j / 16))[j % 16]
  }

  lemma KeyByteShift(k: Key, inc: Increment, ctr: seq<bv8>, base: nat, j: nat)
    requires |ctr| == 16
    ensures KeyByte(k, inc, CounterBlock(inc, ctr, base), j) == KeyByte(k, inc, ctr, 16 * base + j)
  {
    hide Encipher, CounterBlock, Stepped;
    CounterBlocksAdd(inc, ctr, base, j / 16);
    InBlocks(base, j);
  }

  lemma InBlocks(base: nat, j: nat)
    ensures (16 * base + j) / 16 == base + j / 16 && (16 * base + j) % 16 == j % 16
  {
  }

  /** Masking a run of bytes with the batch's keystream continues the whole run. */
  lemma BatchIsRun(k: Key, inc: Increment, c: Counter, msg: seq<bv8>, at: nat, blen: nat, stream: seq<bv8>,
                   out: seq<bv8>)
    requires c.Valid() && (c.pos + at) % 16 == 0 && at + blen <= |msg| && at + blen <= |out| && blen <= |stream|
    requires forall j :: 0 <= j < blen ==>
               stream[j] == KeyByte(k, inc, CounterBlock(inc, c.ctr, (c.pos + at) / 16), j)
    requires forall j :: at <= j < at + blen ==> out[j] == Xor8(msg[j], stream[j - at])
    requires out[..at] == CtrRun(k, inc, c.ctr, c.pos, msg)[..at]
    ensures out[..at + blen] == CtrRun(k, inc, c.ctr, c.pos, msg)[..at + blen]
  {
    hide Xor8, Encipher, Stepped, CounterBlock;
    var run := CtrRun(k, inc, c.ctr, c.pos, msg);
    forall j | 0 <= j < at + blen
      ensures out[j] == run[j]
    {
      if j < at {
        assert out[j] == out[..at][j] && run[j] == run[..at][j];
      } else {
        assert stream[j - at] == KeyByte(k, inc, c.ctr, c.pos + j) by {
          KeyByteShift(k, inc, c.ctr, (c.pos + at) / 16, j - at);
        }
      }
    }
  }

  /** Counters for blen bytes, enciphered. */
  method Keystream(buf: array<bv8>, blen: nat, cbuf: array<bv8>, inc: Increment, cx: Context) returns (ok: bool)
    requires buf.Length == BFR_LENGTH && cbuf.Length == 16 && buf != cbuf && 0 < blen <= BFR_LENGTH
    requires cx.ks.Length == KS_LENGTH && buf as object != cx.ks && cbuf as object != cx.ks
    modifies buf, cbuf
    ensures ok <==> ValidRounds(cx.rounds)
    ensures ok ==> forall j :: 0 <= j < blen ==> buf[j] == KeyByte(KeyOf(cx), inc, old(cbuf[..]), j)
    ensures ok ==> cbuf[..] == CounterBlock(inc, old(cbuf[..]), blen / 16)
  {
    hide Encipher, Stepped, CounterBlock;
    ghost var ctr := cbuf[..];
    var i := FillCounters(buf, blen, cbuf, inc);
    ghost var counters := buf[..];
    ok := EcbEncrypt(buf, buf, 16 * i, cx);
    if ok {
      forall j | 0 <= j < blen
        ensures buf[j] == KeyByte(KeyOf(cx), inc, ctr, j)
      {
        assert BlockAt(buf[..], j / 16) == Encipher(KeyOf(cx), BlockAt(counters, j / 16));
        assert BlockAt(buf[..], j / 16)[j % 16] == buf[j];
      }
    }
  }

  /** One batch: counters, their encryption, and the output. */
  method Batch(ibuf: array<bv8>, obuf: array<bv8>, at: nat, blen: nat, buf: array<bv8>, cbuf: array<bv8>,
               inc: Increment, cx: Context, pos: nat, ghost k: Key, ghost c: Counter, ghost msg: seq<bv8>,
               ghost rest: seq<bv8>)
    returns (ok: bool, b_pos: nat)
    requires Separate(ibuf, obuf, cbuf, cx) && c.Valid() && |msg| <= ibuf.Length && |msg| <= obuf.Length
    requires buf.Length == BFR_LENGTH && buf != ibuf && buf != obuf && buf != cbuf && buf as object != cx.ks
    requires at < |msg| && blen == (if |msg| - at > BFR_LENGTH then BFR_LENGTH else |msg| - at)
    requires k == KeyOf(cx) && Batched(k, inc, c, msg, rest, at, ibuf, obuf, cbuf) && pos == 0
    modifies buf, obuf, cbuf
    ensures ok <==> ValidRounds(cx.rounds)
    ensures ok ==> b_pos == blen % 16
    ensures ok ==> Batched(k, inc, c, msg, rest, at + blen, ibuf, obuf, cbuf)
    ensures obuf[|msg|..] == rest
  {
    hide Xor8, Encipher, Stepped, CounterBlock, CtrRun, KeyByte;
    ghost var base := (c.pos + at) / 16;
    b_pos := pos;
    ok := Keystream(buf, blen, cbuf, inc, cx);
    if !ok {
      return;
    }
    assert cbuf[..] == CounterBlock(inc, c.ctr, (c.pos + (at + blen)) / 16) by {
      CounterBlocksAdd(inc, c.ctr, base, blen / 16);
      InBlocks(base, blen);
    }
    ghost var done := obuf[..at];
    b_pos := XorBatch(ibuf, obuf, at, blen, buf, b_pos);
    assert obuf[..at] == done;
    BatchIsRun(k, inc, c, msg, at, blen, buf[..], obuf[..]);
    assert obuf[..][..at + blen] == obuf[..at + blen];
    assert obuf[|msg|..] == rest;
    assert forall j :: at + blen <= j < |msg| ==> ibuf[j] == msg[j];
  }

  /** Masks bytes with what the open block still holds. */
  method OpenBytes(ibuf: array<bv8>, obuf: array<bv8>, pos: nat, len: nat, buf: array<bv8>)
    returns (at: nat, b_pos: nat)
    requires pos <= 16 <= buf.Length && buf != ibuf && buf != obuf && len <= ibuf.Length && len <= obuf.Length
    modifies obuf
    ensures at == (if len <= 16 - pos then len else 16 - pos) && b_pos == pos + at
    ensures forall j :: 0 <= j < at ==> obuf[j] == Xor8(old(ibuf[j]), buf[pos + j])
    ensures forall j :: at <= j < obuf.Length ==> obuf[j] == old(obuf[j])
    ensures forall j :: at <= j < len ==> ibuf[j] == old(ibuf[j])
  {
    hide Xor8;
    at, b_pos := 0, pos;
    while b_pos < 16 && at < len
      invariant b_pos == pos + at <= 16 && at <= len
      invariant forall j :: 0 <= j < at ==> obuf[j] == Xor8(old(ibuf[j]), buf[pos + j])
      invariant forall j :: at <= j < obuf.Length ==> obuf[j] == old(obuf[j])
      invariant forall j :: at <= j < len ==> ibuf[j] == old(ibuf[j])
    {
      obuf[at] := Xor8(ibuf[at], buf[b_pos]);
      at, b_pos := at + 1, b_pos + 1;
    }
  }

  /** Uses up the open block, and steps past it if more is wanted. */
  method Partial(ibuf: array<bv8>, obuf: array<bv8>, len: nat, buf: array<bv8>, cbuf: array<bv8>,
                 inc: Increment, cx: Context, ghost k: Key, ghost c: Counter, ghost msg: seq<bv8>, ghost rest: seq<bv8>)
    returns (ok: bool, at: nat, b_pos: nat)
    requires Separate(ibuf, obuf, cbuf, cx) && c.Valid() && len == |msg| <= ibuf.Length && len <= obuf.Length
    requires buf.Length == BFR_LENGTH && buf != ibuf && buf != obuf && buf != cbuf && buf as object != cx.ks
    requires 0 < c.pos == cx.pos && cbuf[..] == c.ctr && k == KeyOf(cx)
    requires ibuf[..len] == msg && obuf[len..] == rest
    modifies buf, obuf, cbuf
    ensures ok <==> ValidRounds(cx.rounds)
    ensures ok ==> at == (if len <= 16 - c.pos then len else 16 - c.pos)
    ensures ok ==> b_pos == (if at < len then 0 else c.pos + len)
    ensures ok && at < len ==> Batched(k, inc, c, msg, rest, at, ibuf, obuf, cbuf)
    ensures ok && at == len ==> cbuf[..] == c.ctr && obuf[..len] == CtrRun(k, inc, c.ctr, c.pos, msg)
    ensures obuf[len..] == rest
  {
    hide Xor8, Encipher, Stepped;
    at, b_pos := 0, cx.pos;
    CopyBlock(buf, 0, cbuf);
    assert BlockAt(buf[..], 0) == c.ctr;
    ok := EcbEncrypt(buf, buf, 16, cx);
    if !ok {
      return;
    }
    ghost var stream := BlockAt(buf[..], 0);
    at, b_pos := OpenBytes(ibuf, obuf, cx.pos, len, buf);
    forall j | 0 <= j < at
      ensures obuf[j] == CtrByte(k, inc, c.ctr, c.pos + j, msg[j])
    {
      assert CounterBlock(inc, c.ctr, 0) == c.ctr;
      assert stream[c.pos + j] == buf[c.pos + j];
    }
    assert obuf[..at] == CtrRun(k, inc, c.ctr, c.pos, msg)[..at];
    if at < len {
      Exhausted(inc, c);
      CtrInc(cbuf, inc);
      b_pos := 0;
    } else {
      assert CtrRun(k, inc, c.ctr, c.pos, msg)[..at] == CtrRun(k, inc, c.ctr, c.pos, msg);
    }
  }

  lemma Exhausted(inc: Increment, c: Counter)
    requires c.Valid()
    ensures (c.pos + (16 - c.pos)) / 16 == 1 && (c.pos + (16 - c.pos)) % 16 == 0
    ensures CounterBlock(inc, c.ctr, 1) == Stepped(inc, c.ctr)
  {
    assert CounterBlock(inc, c.ctr, 1) == Stepped(inc, CounterBlock(inc, c.ctr, 0));
  }

  /** What the call promises once every byte is out. */
  lemma Finished(k: Key, inc: Increment, c: Counter, msg: seq<bv8>, rest: seq<bv8>, ibuf: array<bv8>, obuf: array<bv8>,
                 cbuf: array<bv8>)
    requires c.Valid() && |msg| <= ibuf.Length && |msg| <= obuf.Length
    requires Batched(k, inc, c, msg, rest, |msg|, ibuf, obuf, cbuf)
    requires c.pos == 0 || c.pos + |msg| > 16
    ensures obuf[..|msg|] == CtrRun(k, inc, c.ctr, c.pos, msg) && obuf[|msg|..] == rest
    ensures Counter(cbuf[..], (c.pos + |msg|) % 16) == CtrAfter(inc, c, |msg|)
  {
    hide Xor8, Encipher, Stepped, CtrByte, CounterBlock;
    var run := CtrRun(k, inc, c.ctr, c.pos, msg);
    assert run[..|msg|] == run;
    var pos := (c.pos + |msg|) % 16;
    assert pos == CtrPos(c.pos, |msg|);
    assert (c.pos + |msg| - pos) / 16 == (c.pos + |msg|) / 16;
  }

  lemma Unstarted(k: Key, inc: Increment, c: Counter, msg: seq<bv8>, ibuf: array<bv8>, obuf: array<bv8>,
                  cbuf: array<bv8>)
    requires c.Valid() && |msg| <= ibuf.Length && |msg| <= obuf.Length
    requires c.pos == 0 && ibuf[..|msg|] == msg && cbuf[..] == c.ctr
    ensures Batched(k, inc, c, msg, obuf[|msg|..], 0, ibuf, obuf, cbuf)
  {
  }

  /** Batches of at most 128 bytes until the message is done. */
  method Batches(ibuf: array<bv8>, obuf: array<bv8>, from: nat, len: nat, buf: array<bv8>, cbuf: array<bv8>,
                 inc: Increment, cx: Context, pos: nat,
                 ghost k: Key, ghost c: Counter, ghost msg: seq<bv8>, ghost rest: seq<bv8>)
    returns (ok: bool, b_pos: nat)
    requires Separate(ibuf, obuf, cbuf, cx) && c.Valid() && len == |msg| <= ibuf.Length && len <= obuf.Length
    requires buf.Length == BFR_LENGTH && buf != ibuf && buf != obuf && buf != cbuf && buf as object != cx.ks
    requires from <= len && (c.pos + from) % 16 == 0 && pos == 0
    requires k == KeyOf(cx) && Batched(k, inc, c, msg, rest, from, ibuf, obuf, cbuf)
    requires obuf[len..] == rest
    modifies buf, obuf, cbuf
    ensures ok <==> from == len || ValidRounds(cx.rounds)
    ensures ok ==> b_pos == (c.pos + len) % 16 && Batched(k, inc, c, msg, rest, len, ibuf, obuf, cbuf)
    ensures obuf[len..] == rest
  {
    hide Batched, CounterBlock;
    var at := from;
    b_pos := pos;
    while at < len
      invariant from <= at <= len && b_pos == (c.pos + at) % 16 && k == KeyOf(cx)
      invariant at < len ==> b_pos == 0
      invariant at > from ==> ValidRounds(cx.rounds)
      invariant Batched(k, inc, c, msg, rest, at, ibuf, obuf, cbuf) && obuf[len..] == rest
    {
      var blen := if len - at > BFR_LENGTH then BFR_LENGTH else len - at;
      ok, b_pos := Batch(ibuf, obuf, at, blen, buf, cbuf, inc, cx, b_pos, k, c, msg, rest);
      if !ok {
        return;
      }
      at := at + blen;
    }
    ok := true;
  }

  method CtrCrypt(ibuf: array<bv8>, obuf: array<bv8>, len: nat, cbuf: array<bv8>, inc: Increment, cx: Context)
    returns (ok: bool)
    requires Separate(ibuf, obuf, cbuf, cx) && len <= ibuf.Length && len <= obuf.Length && cx.pos <= 16
    modifies obuf, cbuf, cx`pos
    ensures ok <==> cx.rounds == 160 || cx.rounds == 192 || cx.rounds == 224 || (old(cx.pos) == 0 && len == 0)
    ensures ok ==>
              cx.pos == if 0 < old(cx.pos) && old(cx.pos) + len <= 16 then old(cx.pos) + len
                        else (old(cx.pos) + len) % 16
    ensures ok ==>
              var c := Counter(old(cbuf[..]), old(cx.pos));
              && obuf[..len] == CtrRun(KeyOf(cx), inc, c.ctr, c.pos, old(ibuf[..len]))
              && Counter(cbuf[..], cx.pos) == CtrAfter(inc, c, len)
    ensures obuf[len..] == old(obuf[len..])
    ensures !ok ==> cx.pos == old(cx.pos)
  {
    hide Xor8, Encipher, Stepped, CtrRun, Batched;
    ghost var k, msg, rest := KeyOf(cx), ibuf[..len], obuf[len..];
    ghost var c := Counter(cbuf[..], cx.pos);
    var buf := new bv8[BFR_LENGTH];
    var at, b_pos := 0, cx.pos;
    if b_pos != 0 {
      ok, at, b_pos := Partial(ibuf, obuf, len, buf, cbuf, inc, cx, k, c, msg, rest);
      if !ok {
        return;
      }
      if at == len {
        assert (c.pos + len - CtrPos(c.pos, len)) / 16 == 0;
        cx.pos := b_pos;
        return;
      }
      Exhausted(inc, c);
    } else {
      Unstarted(k, inc, c, msg, ibuf, obuf, cbuf);
    }
    ok, b_pos := Batches(ibuf, obuf, at, len, buf, cbuf, inc, cx, b_pos, k, c, msg, rest);
    if !ok {
      return;
    }
    Finished(k, inc, c, msg, rest, ibuf, obuf, cbuf);
    cx.pos := b_pos;
  }
}
