/** crypto/aes/aes_modes.c: CFB, OFB and CTR over buffers of any length.

    The three feedback routines of the source are the same code around a
    different byte statement, so they are one method over the `Mode`. */
module AesModes {
  import opened AesWords
  import opened AesKeySchedule
  import opened AesBlock
  import opened AesStreamSpec

  function KeyOf(cx: Context): Key
    requires cx.ks.Length == KS_LENGTH
    reads cx`rounds, cx.ks
  {
    Key(if ValidRounds(cx.rounds) then cx.ks[..cx.rounds / 4 + 4] else [])
  }

  /** A block must be enciphered unless the open block has room for the message. */
  predicate NeedsBlock(pos: nat, len: nat) {
    if pos == 0 then len > 0 else pos + len > 16
  }

  /** The buffers of a call.  Input and output may be the same buffer. */
  predicate Separate(ibuf: array<bv8>, obuf: array<bv8>, iv: array<bv8>, cx: Context) {
    && cx.ks.Length == KS_LENGTH && iv.Length == 16
    && iv != ibuf && iv != obuf
    && obuf as object != cx.ks && iv as object != cx.ks
  }

  method EncryptRegister(iv: array<bv8>, cx: Context) returns (ok: bool)
    requires iv.Length == 16 && cx.ks.Length == KS_LENGTH && iv as object != cx.ks
    modifies iv
    ensures ok <==> ValidRounds(cx.rounds)
    ensures ok ==> iv[..] == Encipher(KeyOf(cx), old(iv[..]))
  {
    hide EncryptBlock;
    ghost var was := iv[..];
    assert iv[0..16] == was;
    ok := Encrypt(iv, 0, iv, 0, cx);
    assert iv[0..16] == iv[..];
  }

  // ------------------------------------------------------ feedback modes

  /** The register while bytes are being taken from it: after `pos` reaches 16
      it is the next call's register, before that it holds keystream. */
  ghost predicate Open(m: Mode, k: Key, s: Stream, msg: seq<bv8>, iv: seq<bv8>, pos: nat)
    requires s.Valid()
  {
    var t := After(m, k, s, msg);
    if pos < 16 then t.pos == pos && Ready(k, t) == iv else t == Stream(iv, 0)
  }

  /** Byte by byte, as far as the open block and the message go. */
  method Bytes(m: Mode, ibuf: array<bv8>, obuf: array<bv8>, from: nat, pos: nat, len: nat, iv: array<bv8>,
               ghost k: Key, ghost s: Stream, ghost msg: seq<bv8>)
    returns (cnt: nat, b_pos: nat)
    requires iv.Length == 16 && iv != ibuf && iv != obuf
    requires s.Valid() && from <= len == |msg| && len <= ibuf.Length && len <= obuf.Length && pos < 16
    requires ibuf[from..len] == msg[from..]
    requires Open(m, k, s, msg[..from], iv[..], pos)
    requires obuf[..from] == Run(m, k, s, msg[..from])
    modifies obuf, iv
    ensures cnt == (if len - from < 16 - pos then len else from + 16 - pos) && b_pos == pos + cnt - from
    ensures ibuf[cnt..len] == msg[cnt..]
    ensures Open(m, k, s, msg[..cnt], iv[..], b_pos)
    ensures obuf[..cnt] == Run(m, k, s, msg[..cnt])
    ensures obuf[len..] == old(obuf[len..])
  {
    hide After, Run, Xor8, Ready;
    cnt, b_pos := from, pos;
    while b_pos < 16 && cnt < len
      invariant from <= cnt <= len && pos <= b_pos <= 16 && b_pos - pos == cnt - from
      invariant ibuf[cnt..len] == msg[cnt..]
      invariant Open(m, k, s, msg[..cnt], iv[..], b_pos)
      invariant obuf[..cnt] == Run(m, k, s, msg[..cnt])
      invariant obuf[len..] == old(obuf[len..])
    {
      var x := ibuf[cnt];
      assert x == msg[cnt] && msg[..cnt + 1] == msg[..cnt] + [x];
      OneMoreByte(m, k, s, msg[..cnt], x);
      OpenAdvances(m, k, After(m, k, s, msg[..cnt]), x);
      ghost var ready, rest := iv[..], ibuf[cnt..len];
      match m {
        case CfbEncrypt =>
          iv[b_pos] := Xor8(iv[b_pos], x);
          obuf[cnt] := iv[b_pos];
        case CfbDecrypt =>
          obuf[cnt] := Xor8(iv[b_pos], x);
          iv[b_pos] := x;
        case Ofb =>
          obuf[cnt] := Xor8(iv[b_pos], x);
      }
      assert iv[..] == Next(m, k, After(m, k, s, msg[..cnt]), x).iv;
      assert ibuf[cnt + 1..len] == rest[1..];
      cnt, b_pos := cnt + 1, b_pos + 1;
    }
  }

  lemma OpenAdvances(m: Mode, k: Key, t: Stream, x: bv8)
    requires t.Valid()
    ensures var u := Next(m, k, t, x);
            if t.pos == 15 then u.pos == 0 else u.pos == t.pos + 1 && Ready(k, u) == u.iv
  {
  }

  /** What holds between two calls of `Segment`: cnt bytes are done, the rest of
      the input and what lies beyond the message are untouched. */
  ghost predicate Resumed(m: Mode, k: Key, s: Stream, msg: seq<bv8>, rest: seq<bv8>, cnt: nat, ibuf: array<bv8>,
                          obuf: array<bv8>, iv: array<bv8>, pos: nat)
    requires s.Valid() && |msg| <= ibuf.Length && |msg| <= obuf.Length
    reads ibuf, obuf, iv
  {
    && cnt <= |msg|
    && ibuf[cnt..|msg|] == msg[cnt..]
    && obuf[..cnt] == Run(m, k, s, msg[..cnt])
    && obuf[|msg|..] == rest
    && Stream(iv[..], pos) == After(m, k, s, msg[..cnt])
  }

  /** Bytes, with the register enciphered first if no block is open. */
  method Segment(m: Mode, ibuf: array<bv8>, obuf: array<bv8>, from: nat, pos: nat, len: nat, iv: array<bv8>,
                 cx: Context, ghost k: Key, ghost s: Stream, ghost msg: seq<bv8>, ghost rest: seq<bv8>)
    returns (ok: bool, cnt: nat, b_pos: nat)
    requires Separate(ibuf, obuf, iv, cx) && s.Valid()
    requires k == KeyOf(cx)
    requires from <= len == |msg| && len <= ibuf.Length && len <= obuf.Length
    requires pos != 0 || from < len
    requires pos < 16 && Resumed(m, k, s, msg, rest, from, ibuf, obuf, iv, pos)
    modifies obuf, iv
    ensures ok <==> pos != 0 || ValidRounds(cx.rounds)
    ensures ok ==> cnt == if len - from < 16 - pos then len else from + 16 - pos
    ensures ok ==> b_pos == (pos + cnt - from) % 16
    ensures ok ==> Resumed(m, k, s, msg, rest, cnt, ibuf, obuf, iv, b_pos)
    ensures obuf[len..] == rest
    ensures !ok ==> obuf[..] == old(obuf[..])
  {
    hide After, Run, Xor8, Encipher;
    cnt, b_pos := from, pos;
    if pos == 0 {
      ok := EncryptRegister(iv, cx);
      if !ok {
        return;
      }
    }
    cnt, b_pos := Bytes(m, ibuf, obuf, from, pos, len, iv, k, s, msg);
    b_pos := if b_pos == 16 then 0 else b_pos;
    assert (pos + cnt - from) % 16 == b_pos;
    ok := true;
  }

  lemma Unbegun(m: Mode, k: Key, s: Stream, msg: seq<bv8>, ibuf: array<bv8>, obuf: array<bv8>, iv: array<bv8>)
    requires s.Valid() && |msg| <= ibuf.Length && |msg| <= obuf.Length && ibuf[..|msg|] == msg && iv[..] == s.iv
    ensures Resumed(m, k, s, msg, obuf[|msg|..], 0, ibuf, obuf, iv, s.pos)
  {
    RunOfEmpty(m, k, s);
    assert msg[..0] == [];
  }

  lemma Ended(m: Mode, k: Key, s: Stream, msg: seq<bv8>, rest: seq<bv8>, ibuf: array<bv8>, obuf: array<bv8>,
              iv: array<bv8>, pos: nat)
    requires s.Valid() && |msg| <= ibuf.Length && |msg| <= obuf.Length
    requires Resumed(m, k, s, msg, rest, |msg|, ibuf, obuf, iv, pos)
    ensures obuf[..|msg|] == Run(m, k, s, msg) && Stream(iv[..], pos) == After(m, k, s, msg)
  {
    assert msg[..|msg|] == msg;
  }

  /** Whole blocks while there are any; every one of them starts at position 0. */
  method WholeBlocks(m: Mode, ibuf: array<bv8>, obuf: array<bv8>, from: nat, len: nat, iv: array<bv8>, cx: Context,
                     ghost k: Key, ghost s: Stream, ghost msg: seq<bv8>, ghost rest: seq<bv8>)
    returns (ok: bool, cnt: nat, b_pos: nat)
    requires Separate(ibuf, obuf, iv, cx) && s.Valid() && k == KeyOf(cx)
    requires from <= len == |msg| && len <= ibuf.Length && len <= obuf.Length
    requires Resumed(m, k, s, msg, rest, from, ibuf, obuf, iv, 0) && obuf[len..] == rest
    modifies obuf, iv
    ensures ok <==> from + 16 > len || ValidRounds(cx.rounds)
    ensures ok ==> from <= cnt <= len < cnt + 16 && b_pos == 0
    ensures ok ==> Resumed(m, k, s, msg, rest, cnt, ibuf, obuf, iv, 0)
    ensures obuf[len..] == rest
  {
    hide After, Run, Xor8, Encipher, Resumed;
    cnt, b_pos := from, 0;
    while cnt + 16 <= len
      invariant from <= cnt <= len && b_pos == 0 && k == KeyOf(cx) && obuf[len..] == rest
      invariant Resumed(m, k, s, msg, rest, cnt, ibuf, obuf, iv, 0)
      invariant cnt > from ==> ValidRounds(cx.rounds)
    {
      ok, cnt, b_pos := Segment(m, ibuf, obuf, cnt, 0, len, iv, cx, k, s, msg, rest);
      if !ok {
        return;
      }
    }
    ok := true;
  }

  /** What is left of the message: at most the rest of a block. */
  method Tail(m: Mode, ibuf: array<bv8>, obuf: array<bv8>, from: nat, pos: nat, len: nat, iv: array<bv8>, cx: Context,
              ghost k: Key, ghost s: Stream, ghost msg: seq<bv8>, ghost rest: seq<bv8>)
    returns (ok: bool, b_pos: nat)
    requires Separate(ibuf, obuf, iv, cx) && s.Valid() && k == KeyOf(cx)
    requires from <= len == |msg| && len <= ibuf.Length && len <= obuf.Length && pos < 16 && (pos != 0 ==> from == len)
    requires Resumed(m, k, s, msg, rest, from, ibuf, obuf, iv, pos) && obuf[len..] == rest
    modifies obuf, iv
    ensures ok <==> from == len || ValidRounds(cx.rounds)
    ensures ok ==> b_pos < 16 && Resumed(m, k, s, msg, rest, len, ibuf, obuf, iv, b_pos)
    ensures obuf[len..] == rest
  {
    hide After, Run, Xor8, Encipher, Resumed;
    var cnt := from;
    b_pos := pos;
    while cnt < len
      invariant from <= cnt <= len && b_pos < 16 && (b_pos != 0 ==> cnt == len) && k == KeyOf(cx) && obuf[len..] == rest
      invariant Resumed(m, k, s, msg, rest, cnt, ibuf, obuf, iv, b_pos)
      invariant cnt > from ==> ValidRounds(cx.rounds)
    {
      ok, cnt, b_pos := Segment(m, ibuf, obuf, cnt, b_pos, len, iv, cx, k, s, msg, rest);
      if !ok {
        return;
      }
    }
    ok := true;
  }

  /** A saved position of 16, which a CTR call leaves when it fills the open block,
      counts as a block used up: the byte loop then takes nothing from it. */
  method Crypt(m: Mode, ibuf: array<bv8>, obuf: array<bv8>, len: nat, iv: array<bv8>, cx: Context)
    returns (ok: bool)
    requires Separate(ibuf, obuf, iv, cx) && len <= ibuf.Length && len <= obuf.Length && cx.pos <= 16
    modifies obuf, iv, cx`pos
    ensures ok <==> cx.rounds == 160 || cx.rounds == 192 || cx.rounds == 224
                    || (if old(cx.pos) == 0 then len == 0 else old(cx.pos) + len <= 16)
    ensures ok ==> cx.pos == (old(cx.pos) + len) % 16
    ensures ok ==>
              var s := Stream(old(iv[..]), if old(cx.pos) == 16 then 0 else old(cx.pos));
              && obuf[..len] == Run(m, KeyOf(cx), s, old(ibuf[..len]))
              && Stream(iv[..], cx.pos) == After(m, KeyOf(cx), s, old(ibuf[..len]))
    ensures obuf[len..] == old(obuf[len..])
    ensures !ok ==> cx.pos == old(cx.pos)
  {
    hide After, Run, Xor8, Encipher, Resumed;
    ghost var k, msg, rest := KeyOf(cx), ibuf[..len], obuf[len..];
    ghost var s := Stream(iv[..], if cx.pos == 16 then 0 else cx.pos);
    Unbegun(m, k, s, msg, ibuf, obuf, iv);
    var cnt, b_pos := 0, cx.pos;
    if b_pos == 16 {
      b_pos := 0;
    } else if b_pos != 0 {
      ok, cnt, b_pos := Segment(m, ibuf, obuf, 0, b_pos, len, iv, cx, k, s, msg, rest);
    }
    var nb := (len - cnt) / 16;
    if nb != 0 {
      ok, cnt, b_pos := WholeBlocks(m, ibuf, obuf, cnt, len, iv, cx, k, s, msg, rest);
      if !ok {
        return;
      }
    }
    ok, b_pos := Tail(m, ibuf, obuf, cnt, b_pos, len, iv, cx, k, s, msg, rest);
    if !ok {
      return;
    }
    Ended(m, k, s, msg, rest, ibuf, obuf, iv, b_pos);
    PositionAfter(m, k, s, msg);
    cx.pos := b_pos;
  }
}
