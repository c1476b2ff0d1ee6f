/** Messages over a byte stream that moves as many bytes per call as it likes:
    stream/cistreamrw.cpp, stream/clenvalueseparator.cpp, rpc/cirpcchannel.cpp
    and comm/streamrpcchannel.cpp. */
module Framing {
  import opened Octets
  import opened Transfers
  import opened Wrappers

  // ------------------------------------------------------------------ streams

  /** A stream: `unread` is what the peer sent and this end has not read, `written`
      what this end sent; the sizes are what its calls will move. */
  class CIStreamRW {
    const maxSingleReadSize: nat
    var unread: Bytes
    var written: Bytes
    var readSizes: seq<int>
    var writeSizes: seq<int>

    constructor (maxSingleReadSize: nat, unread: Bytes, readSizes: seq<int>, writeSizes: seq<int>)
      ensures this.maxSingleReadSize == maxSingleReadSize && this.unread == unread && written == []
      ensures this.readSizes == readSizes && this.writeSizes == writeSizes
    {
      this.maxSingleReadSize, this.unread, this.written := maxSingleReadSize, unread, [];
      this.readSizes, this.writeSizes := readSizes, writeSizes;
    }

    method ReadSomeAppend(data: Bytes, maxCount: nat) returns (r: int, appended: Bytes)
      modifies this`unread, this`readSizes
      ensures r == Moved(old(readSizes), Min(maxCount, |old(unread)|))
      ensures appended == data + old(unread)[..r] && unread == old(unread)[r..]
      ensures readSizes == if r > 0 then old(readSizes)[1..] else old(readSizes)
    {
      r := Moved(readSizes, Min(maxCount, |unread|));
      appended := data + unread[..r];
      unread := unread[r..];
      if r > 0 {
        readSizes := readSizes[1..];
      }
    }

    method WriteSome(data: Bytes) returns (n: int)
      modifies this`written, this`writeSizes
      ensures n == Moved(old(writeSizes), |data|)
      ensures written == old(written) + data[..n]
      ensures writeSizes == if n > 0 then old(writeSizes)[1..] else old(writeSizes)
    {
      n := Moved(writeSizes, |data|);
      written := written + data[..n];
      if n > 0 {
        writeSizes := writeSizes[1..];
      }
    }

    method ReadExactNumBytesAppend(data: Bytes, num: nat) returns (ok: bool, appended: Bytes)
      modifies this`unread, this`readSizes
      ensures ok <==> Suffices(old(readSizes), maxSingleReadSize, |old(unread)|, num)
      ensures |appended| >= |data| && |appended| - |data| <= num && |appended| - |data| <= |old(unread)|
      ensures ok ==> |appended| == |data| + num
      ensures appended == data + old(unread)[..|appended| - |data|]
      ensures unread == old(unread)[|appended| - |data|..]
      ensures Steady(old(readSizes), |old(unread)|) ==> Steady(readSizes, |unread|)
    {
      hide Steady, Suffices, Moved;
      appended := data;
      var left := num;
      ghost var done := 0;
      while left > 0
        invariant left >= 0 && done == num - left == |appended| - |data| && done <= |old(unread)|
        invariant appended == data + old(unread)[..done] && unread == old(unread)[done..]
        invariant Suffices(old(readSizes), maxSingleReadSize, |old(unread)|, num)
             <==> Suffices(readSizes, maxSingleReadSize, |unread|, left)
        invariant Steady(old(readSizes), |old(unread)|) ==> Steady(readSizes, |unread|)
      {
        var r;
        ghost var sizes, available := readSizes, |unread|;
        SufficesStep(sizes, maxSingleReadSize, available, left);
        r, appended := ReadSomeAppend(appended, if left >= maxSingleReadSize then maxSingleReadSize else left);
        assert old(unread)[done..][r..] == old(unread)[done + r..];
        assert old(unread)[..done] + old(unread)[done..][..r] == old(unread)[..done + r];
        done := done + r;
        if r <= 0 {
          return false, appended;
        }
        SteadyStep(sizes, available, r);
        left := left - r;
      }
      SufficesNothing(readSizes, maxSingleReadSize, |unread|);
      return true, appended;
    }

    method WriteAll(data: Bytes) returns (ok: bool)
      modifies this`written, this`writeSizes
      ensures ok <==> Suffices(old(writeSizes), |data|, |data|, |data|)
      ensures old(written) <= written <= old(written) + data
      ensures ok ==> written == old(written) + data
      ensures ok ==> forall n :: n >= |data| && Steady(old(writeSizes), n) ==> Steady(writeSizes, n - |data|)
    {
      hide Steady, Suffices, Moved;
      var first := 0;
      while first != |data|
        invariant 0 <= first <= |data|
        invariant forall n :: n >= |data| && Steady(old(writeSizes), n) ==> Steady(writeSizes, n - first)
        invariant written == old(written) + data[..first]
        invariant Suffices(old(writeSizes), |data|, |data|, |data|)
             <==> Suffices(writeSizes, |data|, |data| - first, |data| - first)
      {
        ghost var sizes := writeSizes;
        SufficesStep(sizes, |data|, |data| - first, |data| - first);
        var n := WriteSome(data[first..]);
        assert data[..first] + data[first..][..n] == data[..first + n];
        if n <= 0 {
          return false;
        }
        forall m: nat | m >= |data| && Steady(old(writeSizes), m)
          ensures Steady(writeSizes, m - (first + n))
        {
          SteadyStep(sizes, m - first, n);
        }
        first := first + n;
      }
      assert data[..first] == data;
      SufficesNothing(writeSizes, |data|, 0);
      return true;
    }
  }

  // ------------------------------------------------------------------- frames

  /** The length field is 32 bits wide. */
  const LENGTHS := 0x1_0000_0000

  function Encoded(m: Bytes): Bytes {
    Fixed(|m| % LENGTHS, 4) + m
  }

  function Decoded(s: Bytes): Option<(Bytes, Bytes)> {
    if |s| < 4 || |s| < 4 + Value(s[..4]) then None
    else Some((s[4..4 + Value(s[..4])], s[4 + Value(s[..4])..]))
  }

  lemma LengthField(m: Bytes, rest: Bytes)
    ensures var s := Encoded(m) + rest; |s| >= 4 && Value(s[..4]) == |m| % LENGTHS
  {
    Spans();
    ValueOfFixed(|m| % LENGTHS, 4);
    var s := Encoded(m) + rest;
    assert s[..4] == Fixed(|m| % LENGTHS, 4);
  }

  /** A message is read back as itself exactly when its length fits the field. */
  lemma FrameRoundTrip(m: Bytes, rest: Bytes)
    ensures Decoded(Encoded(m) + rest) == Some((m, rest)) <==> |m| < 0x1_0000_0000
  {
    LengthField(m, rest);
    var s := Encoded(m) + rest;
    hide Value, Fixed;
    if |m| < LENGTHS {
      assert s[4..4 + |m|] == m;
      assert s[4 + |m|..] == rest;
    }
  }

  /** What is read back is exactly a frame with what follows it. */
  lemma DecodedExactly(s: Bytes, m: Bytes, rest: Bytes)
    ensures Decoded(s) == Some((m, rest)) <==> |m| < 0x1_0000_0000 && s == Encoded(m) + rest
  {
    Spans();
    if |m| < LENGTHS && s == Encoded(m) + rest {
      FrameRoundTrip(m, rest);
    }
    if Decoded(s) == Some((m, rest)) {
      FixedOfValue(s[..4]);
      hide Value, Fixed, Span;
      assert s == s[..4] + s[4..4 + |m|] + s[4 + |m|..];
    }
  }

  /** The length in four bytes, the highest first, and then the message. */
  lemma EncodedLayout(m: Bytes)
    requires |m| < 0x1_0000_0000
    ensures Encoded(m)
         == [|m| / 0x100_0000, |m| / 0x1_0000 % 256, |m| / 0x100 % 256, |m| % 256] + m
  {
    FourBytes(|m|);
    hide Fixed;
  }

  lemma FourBytes(n: nat)
    requires n < 0x1_0000_0000
    ensures Fixed(n, 4) == [n / 0x100_0000, n / 0x1_0000 % 256, n / 0x100 % 256, n % 256]
  {
    TwoBytes(n);
    TwoBytes(n / 0x1_0000);
    assert Fixed(n, 4) == Fixed(n / 256, 3) + [n % 256] == Fixed(n / 256 / 256, 2) + [n / 256 % 256] + [n % 256];
    hide Fixed;
  }

  lemma TwoBytes(n: nat)
    ensures Fixed(n, 2) == [n / 256 % 256, n % 256]
  {
    assert Fixed(n, 2) == Fixed(n / 256, 1) + [n % 256] == Fixed(n / 256 / 256, 0) + [n / 256 % 256] + [n % 256];
  }

  class CLenValueSeparator {
    const rw: CIStreamRW

    constructor (rw: CIStreamRW)
      ensures this.rw == rw
    {
      this.rw := rw;
    }

    method WriteMessage(m: Bytes) returns (ok: bool)
      modifies rw`written, rw`writeSizes
      ensures ok <==> var n := |Encoded(m)|; Suffices(old(rw.writeSizes), n, n, n)
      ensures old(rw.written) <= rw.written <= old(rw.written) + Encoded(m)
      ensures ok ==> rw.written == old(rw.written) + Encoded(m)
      ensures ok ==> var n := |Encoded(m)|;
                     forall k :: k >= n && Steady(old(rw.writeSizes), k) ==> Steady(rw.writeSizes, k - n)
    {
      var b := Fixed(|m| % LENGTHS, 4);
      b := b + m;
      ok := rw.WriteAll(b);
    }

    /** It hands out the next message of the stream, and on a steady stream it
        fails only when no whole frame is there.  A read that fails inside a frame
        loses what it has taken. */
    method ReadMessage() returns (ok: bool, out: Bytes)
      modifies rw`unread, rw`readSizes
      ensures ok ==> Decoded(old(rw.unread)) == Some((out, rw.unread))
      ensures |rw.unread| <= |old(rw.unread)| && rw.unread == old(rw.unread)[|old(rw.unread)| - |rw.unread|..]
      ensures Steady(old(rw.readSizes), |old(rw.unread)|) && rw.maxSingleReadSize > 0 ==>
                (ok <==> Decoded(old(rw.unread)).Some?) && Steady(rw.readSizes, |rw.unread|)
    {
      hide Value, Suffices, Steady;
      ghost var stream, most := rw.unread, rw.maxSingleReadSize;
      SteadyReads(rw.readSizes, most, |stream|, 4);
      var header;
      ok, header := rw.ReadExactNumBytesAppend([], 4);
      out := [];
      if !ok {
        return;
      }
      var size := Value(header);
      assert header == stream[..4] && rw.unread == stream[4..];
      SteadyReads(rw.readSizes, most, |rw.unread|, size);
      ok, out := rw.ReadExactNumBytesAppend(out, size);
      if ok {
        assert out == stream[4..][..size] == stream[4..4 + size];
        assert stream[4..][size..] == stream[4 + size..];
      }
    }
  }

  // ---------------------------------------------------------- whole streams

  function Frames(ms: seq<Bytes>): Bytes
    decreases |ms|
  {
    if ms == [] then [] else Encoded(ms[0]) + Frames(ms[1..])
  }

  /** What n reads of a stream hand out, and what is left. */
  function Reads(s: Bytes, n: nat): Option<(seq<Bytes>, Bytes)>
    decreases n
  {
    if n == 0 then Some(([], s))
    else
      match Decoded(s)
      case None => None
      case Some(first) =>
        match Reads(first.1, n - 1)
        case None => None
        case Some(more) => Some(([first.0] + more.0, more.1))
  }

  lemma {:induction false} StreamRoundTrip(ms: seq<Bytes>, rest: Bytes)
    requires forall i :: 0 <= i < |ms| ==> |ms[i]| < LENGTHS
    ensures Reads(Frames(ms) + rest, |ms|) == Some((ms, rest))
    decreases |ms|
  {
    hide Decoded, Encoded;
    if ms == [] {
      assert Frames(ms) + rest == rest;
    } else {
      FrameRoundTrip(ms[0], Frames(ms[1..]) + rest);
      assert Frames(ms) + rest == Encoded(ms[0]) + (Frames(ms[1..]) + rest);
      StreamRoundTrip(ms[1..], rest);
      assert [ms[0]] + ms[1..] == ms;
    }
  }

  /** Different sequences of messages never give the same stream. */
  lemma {:induction false} FramesAreInjective(ms: seq<Bytes>, ns: seq<Bytes>)
    requires forall i :: 0 <= i < |ms| ==> |ms[i]| < LENGTHS
    requires forall i :: 0 <= i < |ns| ==> |ns[i]| < LENGTHS
    requires Frames(ms) == Frames(ns)
    ensures ms == ns
    decreases |ms|
  {
    hide Decoded;
    if ms != [] && ns != [] {
      FrameRoundTrip(ms[0], Frames(ms[1..]));
      FrameRoundTrip(ns[0], Frames(ns[1..]));
      FramesAreInjective(ms[1..], ns[1..]);
      assert ms == [ms[0]] + ms[1..] && ns == [ns[0]] + ns[1..];
    }
  }

  // -------------------------------------------------------------- RPC channel

  const SAN_RPC_MAX_FID := 65000

  datatype Datagram = Datagram(fid: nat, data: Bytes)

  function Prefixed(d: Datagram): Bytes {
    Fixed(d.fid, 2) + d.data
  }

  function Unprefixed(b: Bytes): Option<Datagram> {
    if |b| < 2 then None else Some(Datagram(Value(b[..2]), b[2..]))
  }

  /** What sendData lets through and one frame can hold. */
  predicate Sendable(d: Datagram) {
    d.fid <= SAN_RPC_MAX_FID && |d.data| + 2 < LENGTHS
  }

  lemma PrefixRoundTrip(d: Datagram)
    requires d.fid <= SAN_RPC_MAX_FID
    ensures Unprefixed(Prefixed(d)) == Some(d)
  {
    Spans();
    ValueOfFixed(d.fid, 2);
    var b := Prefixed(d);
    assert b[..2] == Fixed(d.fid, 2) && b[2..] == d.data;
  }

  /** The id in two bytes, the higher first, and then the arguments; what is read back
      is exactly that. */
  lemma UnprefixedExactly(b: Bytes, d: Datagram)
    requires d.fid < 0x1_0000
    ensures Prefixed(d) == [d.fid / 256, d.fid % 256] + d.data
    ensures Unprefixed(b) == Some(d) <==> b == Prefixed(d)
  {
    TwoBytes(d.fid);
    Spans();
    ValueOfFixed(d.fid, 2);
    hide Value, Fixed;
    assert Prefixed(d)[..2] == Fixed(d.fid, 2) && Prefixed(d)[2..] == d.data;
    if Unprefixed(b) == Some(d) {
      FixedOfValue(b[..2]);
      assert b == b[..2] + b[2..];
    }
  }

  class StreamRpcChannel {
    const separator: CLenValueSeparator

    constructor (rw: CIStreamRW)
      ensures separator.rw == rw
    {
      separator := new CLenValueSeparator(rw);
    }

    method SendData(d: Datagram) returns (ok: bool)
      modifies separator.rw`written, separator.rw`writeSizes
      ensures ok <==> d.fid <= SAN_RPC_MAX_FID
                      && var n := |Encoded(Prefixed(d))|; Suffices(old(separator.rw.writeSizes), n, n, n)
      ensures ok ==> separator.rw.written == old(separator.rw.written) + Encoded(Prefixed(d))
      ensures d.fid > 65000 ==> !ok && separator.rw.written == old(separator.rw.written)
      ensures ok ==> var n := |Encoded(Prefixed(d))|;
                     forall k :: k >= n && Steady(old(separator.rw.writeSizes), k) ==>
                         Steady(separator.rw.writeSizes, k - n)
    {
      hide Encoded;
      if d.fid > SAN_RPC_MAX_FID {
        return false;
      }
      var b := Fixed(d.fid, 2);
      b := b + d.data;
      ok := separator.WriteMessage(b);
    }

    method RecvData() returns (ok: bool, d: Datagram)
      modifies separator.rw`unread, separator.rw`readSizes
      ensures ok ==> exists b ::
                Decoded(old(separator.rw.unread)) == Some((b, separator.rw.unread)) && Unprefixed(b) == Some(d)
      ensures Steady(old(separator.rw.readSizes), |old(separator.rw.unread)|) && separator.rw.maxSingleReadSize > 0 ==>
                && Steady(separator.rw.readSizes, |separator.rw.unread|)
                && (ok <==> Decoded(old(separator.rw.unread)).Some?
                            && Unprefixed(Decoded(old(separator.rw.unread)).value.0).Some?)
    {
      hide Decoded, Steady;
      var out;
      ok, out := separator.ReadMessage();
      d := Datagram(0, []);
      if !ok {
        return;
      }
      if |out| < 2 {
        return false, d;
      }
      d := Datagram(Value(out[..2]), out[2..]);
    }
  }

  function Prefixes(ds: seq<Datagram>): seq<Bytes> {
    seq(|ds|, i requires 0 <= i < |ds| => Prefixed(ds[i]))
  }

  /** Any sequence of datagrams comes out of the stream as it went in. */
  lemma ChannelRoundTrip(ds: seq<Datagram>, rest: Bytes)
    requires forall i :: 0 <= i < |ds| ==> Sendable(ds[i])
    ensures Reads(Frames(Prefixes(ds)) + rest, |ds|) == Some((Prefixes(ds), rest))
    ensures forall i :: 0 <= i < |ds| ==> Unprefixed(Prefixes(ds)[i]) == Some(ds[i])
  {
    hide Prefixed, Unprefixed, Reads, Frames;
    forall i | 0 <= i < |ds|
      ensures |Prefixes(ds)[i]| < LENGTHS
    {
      PrefixedFits(ds[i]);
    }
    StreamRoundTrip(Prefixes(ds), rest);
    forall i | 0 <= i < |ds|
      ensures Unprefixed(Prefixes(ds)[i]) == Some(ds[i])
    {
      PrefixRoundTrip(ds[i]);
    }
  }

  /** Sending them one after another writes exactly their frames, and a steady
      stream takes them all. */
  method SendAll(channel: StreamRpcChannel, ds: seq<Datagram>) returns (ok: bool)
    requires forall i :: 0 <= i < |ds| ==> Sendable(ds[i])
    modifies channel.separator.rw
    ensures ok ==> channel.separator.rw.written == old(channel.separator.rw.written) + Frames(Prefixes(ds))
    ensures Steady(old(channel.separator.rw.writeSizes), |Frames(Prefixes(ds))|) ==> ok
    ensures channel.separator.rw.unread == old(channel.separator.rw.unread)
    ensures channel.separator.rw.readSizes == old(channel.separator.rw.readSizes)
  {
    hide Encoded, Prefixed, Steady, Suffices;
    ghost var rw := channel.separator.rw;
    ghost var all := Frames(Prefixes(ds));
    ghost var steady := Steady(rw.writeSizes, |all|);
    var i := 0;
    assert Prefixes(ds)[0..] == Prefixes(ds);
    while i < |ds|
      invariant 0 <= i <= |ds|
      invariant rw.written + Frames(Prefixes(ds)[i..]) == old(rw.written) + all
      invariant steady ==> Steady(rw.writeSizes, |Frames(Prefixes(ds)[i..])|)
      invariant rw.unread == old(rw.unread) && rw.readSizes == old(rw.readSizes)
    {
      ghost var left := Prefixes(ds)[i..];
      assert left[0] == Prefixed(ds[i]) && left[1..] == Prefixes(ds)[i + 1..];
      assert Frames(left) == Encoded(left[0]) + Frames(left[1..]);
      assert Sendable(ds[i]);
      SteadyWrites(rw.writeSizes, |Encoded(left[0])|, |Frames(left)|);
      ghost var before := rw.written;
      ok := channel.SendData(ds[i]);
      if !ok {
        return;
      }
      assert before + (Encoded(left[0]) + Frames(left[1..])) == before + Encoded(left[0]) + Frames(left[1..]);
      i := i + 1;
    }
    assert Prefixes(ds)[|ds|..] == [];
    ok := true;
  }

  lemma SteadyWrites(sizes: seq<int>, n: nat, most: nat)
    requires n <= most
    ensures Steady(sizes, most) ==> Suffices(sizes, n, n, n)
  {
    if n > 0 && Steady(sizes, most) {
      SteadySuffices(sizes, n, n, n);
    }
  }

  /** Both ends of a connection: whatever pieces the bytes are written and read in,
      the datagrams arrive as they were sent. */
  method SendAndReceive(tx: StreamRpcChannel, rx: StreamRpcChannel, ds: seq<Datagram>)
    returns (ok: bool, received: seq<Datagram>)
    requires forall i :: 0 <= i < |ds| ==> Sendable(ds[i])
    requires tx.separator.rw != rx.separator.rw && tx.separator.rw.written == []
    requires rx.separator.rw.maxSingleReadSize > 0 && Steady(rx.separator.rw.readSizes, |Frames(Prefixes(ds))|)
    modifies tx.separator.rw, rx.separator.rw
    ensures Steady(old(tx.separator.rw.writeSizes), |Frames(Prefixes(ds))|) ==> ok
    ensures ok ==> received == ds
  {
    hide Frames, Prefixes, Steady, Sendable;
    received := [];
    ok := SendAll(tx, ds);
    if ok {
      assert [] + Frames(Prefixes(ds)) == Frames(Prefixes(ds));
      rx.separator.rw.unread := tx.separator.rw.written;
      received := ReceiveAll(rx, ds);
    }
  }

  /** A peer that wrote these datagrams and a steady reader: each RecvData hands out
      the next one. */
  method ReceiveAll(channel: StreamRpcChannel, ds: seq<Datagram>) returns (received: seq<Datagram>)
    requires forall i :: 0 <= i < |ds| ==> Sendable(ds[i])
    requires channel.separator.rw.unread == Frames(Prefixes(ds)) && channel.separator.rw.maxSingleReadSize > 0
    requires Steady(channel.separator.rw.readSizes, |channel.separator.rw.unread|)
    modifies channel.separator.rw
    ensures received == ds && channel.separator.rw.unread == []
  {
    hide Decoded, Encoded, Steady, Prefixed, Unprefixed;
    received := [];
    while |received| < |ds|
      invariant received <= ds
      invariant channel.separator.rw.unread == Frames(Prefixes(ds[|received|..]))
      invariant Steady(channel.separator.rw.readSizes, |channel.separator.rw.unread|)
    {
      ghost var left := ds[|received|..];
      assert Prefixes(left)[1..] == Prefixes(left[1..]);
      assert Sendable(left[0]);
      PrefixRoundTrip(left[0]);
      PrefixedFits(left[0]);
      FrameRoundTrip(Prefixed(left[0]), Frames(Prefixes(left[1..])));
      var _, d := channel.RecvData();
      received := received + [d];
      assert left[1..] == ds[|received|..];
    }
    assert ds[|ds|..] == [];
  }

  lemma PrefixedFits(d: Datagram)
    requires Sendable(d)
    ensures |Prefixed(d)| < LENGTHS
  {
  }
}
