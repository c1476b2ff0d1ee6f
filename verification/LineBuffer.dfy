/** cppl/bufferprocessor.cpp, with `cppl_extract_buffer` of cppl/helper.cpp: lines
    out of a connection that delivers its bytes in any chunks. */
module LineBuffer {
  import opened Octets
  import opened Transfers
  import opened Wrappers

  /** mReadBufferSize */
  const SIZE := 1024

  const LF: Byte := 0x0A

  datatype ErrorCode =
    | SUCCESS
    | FAILURE
    | TERMINATED
    | PEER_DISCONNECT
    | ILLEGAL_CHARACTER_RECEIVED
    | SEGMENT_TOO_LONG
    | BUFFER_TO_SMALL

  // ------------------------------------------------ what the byte stream says

  /** The index of the first d in s, or |s|. */
  function FirstOf(s: Bytes, d: Byte): (i: nat)
    ensures i <= |s|
    ensures i < |s| ==> s[i] == d
    ensures forall j :: 0 <= j < i ==> s[j] != d
  {
    if s == [] || s[0] == d then 0 else 1 + FirstOf(s[1..], d)
  }

  lemma {:induction false} FirstOfPrefix(s: Bytes, n: nat, d: Byte)
    requires n <= |s|
    ensures FirstOf(s, d) < n ==> FirstOf(s[..n], d) == FirstOf(s, d)
    ensures FirstOf(s, d) >= n <==> FirstOf(s[..n], d) == n
    decreases |s|
  {
    if n > 0 && s[0] != d {
      FirstOfPrefix(s[1..], n - 1, d);
      assert s[..n][1..] == s[1..][..n - 1];
    }
  }

  /** What reading one line out of `pending` must come to, for room of this size. */
  function Outcome(pending: Bytes, room: nat): ErrorCode {
    var end := FirstOf(pending, LF);
    if end < |pending| && end < SIZE then
      if end + 1 > room then BUFFER_TO_SMALL else SUCCESS
    else if |pending| >= SIZE then SEGMENT_TOO_LONG
    else PEER_DISCONNECT
  }

  /** SEGMENT_TOO_LONG means exactly that the next 1024 bytes hold no line feed. */
  lemma TooLongMeansNoLineFeed(pending: Bytes, room: nat)
    ensures Outcome(pending, room) == SEGMENT_TOO_LONG <==> |pending| >= SIZE && LF !in pending[..SIZE]
  {
    var end := FirstOf(pending, LF);
    if |pending| >= SIZE && end < SIZE {
      assert pending[..SIZE][end] == LF;
    }
  }

  /** All outcomes, by whether the first 1024 bytes, and those for which there is room,
      hold a line feed. */
  lemma OutcomeMeans(pending: Bytes, room: nat)
    ensures var seen := pending[..Min(|pending|, 1024)];
            var fitting := seen[..Min(|seen|, room)];
            && (Outcome(pending, room) == SUCCESS <==> 0x0A in fitting)
            && (Outcome(pending, room) == BUFFER_TO_SMALL <==> 0x0A in seen && 0x0A !in fitting)
            && (Outcome(pending, room) == SEGMENT_TOO_LONG <==> 0x0A !in seen && |pending| >= 1024)
            && (Outcome(pending, room) == PEER_DISCONNECT <==> 0x0A !in seen && |pending| < 1024)
  {
    hide FirstOf;
    var end := FirstOf(pending, LF);
    var seen := pending[..Min(|pending|, 1024)];
    var fitting := seen[..Min(|seen|, room)];
    if end < |seen| {
      assert seen[end] == LF;
      if end < room {
        assert fitting[end] == LF;
      }
    }
  }

  /** s up to and with its first d, if it has one. */
  function Segment(s: Bytes, d: Byte): Option<Bytes> {
    var i := FirstOf(s, d);
    if i < |s| then Some(s[..i + 1]) else None
  }

  /** Lines are cut at the line feed whatever delimiter is given, so the caller gets
      the segment it asked for exactly when it asked for a line feed. */
  lemma DelimiterIsIgnored(pending: Bytes, d: Byte)
    requires FirstOf(pending, LF) < |pending|
    ensures Segment(pending, d) == Segment(pending, LF) <==> d == LF
  {
    var i, j := FirstOf(pending, LF), FirstOf(pending, d);
    if j < |pending| {
      assert |pending[..i + 1]| == i + 1 && |pending[..j + 1]| == j + 1;
    }
  }

  /** The lines that n successful reads deliver and what they leave. */
  function Lines(pending: Bytes, n: nat): (seq<Bytes>, Bytes)
    decreases n
  {
    var end := FirstOf(pending, LF);
    if n == 0 || end == |pending| then ([], pending)
    else
      var (more, rest) := Lines(pending[end + 1..], n - 1);
      ([pending[..end + 1]] + more, rest)
  }

  function Joined(lines: seq<Bytes>): Bytes {
    if lines == [] then [] else lines[0] + Joined(lines[1..])
  }

  predicate IsLine(line: Bytes) {
    |line| > 0 && FirstOf(line, LF) == |line| - 1
  }

  predicate AllLines(lines: seq<Bytes>) {
    forall i :: 0 <= i < |lines| ==> IsLine(lines[i])
  }

  /** Lines end in their only line feed, and nothing is lost between them. */
  lemma {:induction false} LinesPartition(pending: Bytes, n: nat)
    ensures Joined(Lines(pending, n).0) + Lines(pending, n).1 == pending
    ensures AllLines(Lines(pending, n).0)
    decreases n
  {
    hide FirstOf, IsLine, Joined;
    var end := FirstOf(pending, LF);
    if n > 0 && end < |pending| {
      LinesPartition(pending[end + 1..], n - 1);
      FirstLine(pending);
      LinesStep(pending, n);
      var after := Lines(pending[end + 1..], n - 1);
      hide Lines;
      OneMoreLine(pending[..end + 1], after.0, after.1);
    } else {
      NoLines();
    }
  }

  lemma LinesStep(pending: Bytes, n: nat)
    requires n > 0 && FirstOf(pending, LF) < |pending|
    ensures var end := FirstOf(pending, LF);
            var after := Lines(pending[end + 1..], n - 1);
            Lines(pending, n) == ([pending[..end + 1]] + after.0, after.1)
  {
  }

  lemma FirstLine(pending: Bytes)
    requires FirstOf(pending, LF) < |pending|
    ensures var end := FirstOf(pending, LF);
            IsLine(pending[..end + 1]) && pending == pending[..end + 1] + pending[end + 1..]
  {
    hide FirstOf;
    var end := FirstOf(pending, LF);
    FirstOfPrefix(pending, end + 1, LF);
    Halves(pending, end + 1);
  }

  lemma Halves(s: Bytes, n: nat)
    requires n <= |s|
    ensures s == s[..n] + s[n..] && |s[..n]| == n
  {
  }

  /** One more read takes the next line off what is left. */
  lemma {:induction false} LinesGoOn(pending: Bytes, n: nat)
    requires |Lines(pending, n).0| == n && FirstOf(Lines(pending, n).1, LF) < |Lines(pending, n).1|
    ensures var (lines, rest) := Lines(pending, n);
            var end := FirstOf(rest, LF);
            Lines(pending, n + 1) == (lines + [rest[..end + 1]], rest[end + 1..])
    decreases n
  {
    hide FirstOf, Lines;
    LinesOfNone(pending);
    if n == 0 {
      LinesStep(pending, 1);
      LinesOfNone(pending[FirstOf(pending, LF) + 1..]);
      assert [] + [pending[..FirstOf(pending, LF) + 1]] == [pending[..FirstOf(pending, LF) + 1]] + [];
    } else {
      NotAtTheEnd(pending, n);
      LinesStep(pending, n);
      LinesStep(pending, n + 1);
      var first := FirstOf(pending, LF) + 1;
      LinesGoOn(pending[first..], n - 1);
      var (more, rest) := Lines(pending[first..], n - 1);
      var next := rest[..FirstOf(rest, LF) + 1];
      assert [pending[..first]] + (more + [next]) == [pending[..first]] + more + [next];
    }
  }

  lemma NotAtTheEnd(pending: Bytes, n: nat)
    requires n > 0 && |Lines(pending, n).0| == n
    ensures FirstOf(pending, LF) < |pending|
  {
  }

  lemma LinesOfNone(pending: Bytes)
    ensures Lines(pending, 0) == ([], pending)
  {
  }

  lemma NoLines()
    ensures Joined([]) == []
  {
  }

  lemma OneMoreLine(line: Bytes, more: seq<Bytes>, rest: Bytes)
    ensures Joined([line] + more) + rest == line + (Joined(more) + rest)
  {
    assert ([line] + more)[1..] == more;
  }

  /** A line feed in the buffer is the first of everything pending. */
  lemma BufferedLine(pending: Bytes, n: nat)
    requires n <= |pending| && n <= SIZE
    ensures var i := FirstOf(pending[..n], LF);
            i < n ==>
              && FirstOf(pending, LF) == i
              && forall room :: Outcome(pending, room) == if i + 1 > room then BUFFER_TO_SMALL else SUCCESS
  {
    FirstOfPrefix(pending, n, LF);
  }

  /** None in a full buffer, or in all that there is, settles the matter too. */
  lemma NoBufferedLine(pending: Bytes, n: nat, room: nat)
    requires n <= |pending| && n <= SIZE && FirstOf(pending[..n], LF) == n
    ensures n == SIZE ==> Outcome(pending, room) == SEGMENT_TOO_LONG
    ensures n == |pending| && n < SIZE ==> Outcome(pending, room) == PEER_DISCONNECT
  {
    FirstOfPrefix(pending, n, LF);
  }

  // ------------------------------------------------------------------ routines

  /** cppl_extract_buffer: false for the sizes it rejects. */
  method ExtractFront(buffer: array<Byte>, len: nat, output: array<Byte>, count: nat) returns (ok: bool, left: nat)
    requires len <= buffer.Length && buffer != output
    modifies buffer, output
    ensures ok <==> 0 < count <= len && count <= output.Length
    ensures ok ==> left == len - count && buffer[..left] == old(buffer[count..len])
    ensures ok ==> output[..count] == old(buffer[..count])
    ensures !ok ==> left == len && buffer[..] == old(buffer[..])
    ensures output[if ok then count else 0..] == old(output[if ok then count else 0..])
  {
    if count == 0 || len == 0 || count > buffer.Length || count > output.Length || count > len {
      return false, len;
    }
    for i := 0 to count
      invariant buffer[..] == old(buffer[..])
      invariant output[..i] == buffer[..i] && output[count..] == old(output[count..])
    {
      output[i] := buffer[i];
    }
    assert output[..count] == old(buffer[..])[..count];
    left := len - count;
    ShiftDown(buffer, count, left);
    ok := true;
  }

  /** Moves `left` bytes down by `count`, front to back. */
  method ShiftDown(buffer: array<Byte>, count: nat, left: nat)
    requires count + left <= buffer.Length
    modifies buffer
    ensures buffer[..left] == old(buffer[count..count + left])
  {
    for i := 0 to left
      invariant forall j :: 0 <= j < i ==> buffer[j] == old(buffer[j + count])
      invariant forall j :: i <= j < buffer.Length ==> buffer[j] == old(buffer[j])
    {
      buffer[i] := buffer[i + count];
    }
  }

  /** `stream` is what the peer has sent and read() has not delivered, `sizes` how
      much each read will deliver, `terminations` what isTerminated will answer. */
  class BufferProcessor {
    const mReadBuffer: array<Byte>
    var mReadBufferLen: nat
    var stream: Bytes
    var sizes: seq<int>
    var terminations: seq<bool>

    ghost predicate Valid()
      reads this
    {
      mReadBuffer.Length == SIZE && mReadBufferLen <= SIZE
    }

    ghost function Buffered(): Bytes
      requires Valid()
      reads this, mReadBuffer
    {
      mReadBuffer[..mReadBufferLen]
    }

    /** Every byte received and not yet handed out, and every byte to come. */
    ghost function Pending(): Bytes
      requires Valid()
      reads this, mReadBuffer
    {
      Buffered() + stream
    }

    /** Reads deliver something while there is something, and nobody stops us. */
    ghost predicate Undisturbed()
      reads this
    {
      Steady(sizes, |stream|) && true !in terminations
    }

    constructor (stream: Bytes, sizes: seq<int>, terminations: seq<bool>)
      ensures Valid() && fresh(mReadBuffer) && Pending() == stream
      ensures this.stream == stream && this.sizes == sizes && this.terminations == terminations
    {
      mReadBuffer := new Byte[SIZE](_ => 0);
      mReadBufferLen := 0;
      this.stream, this.sizes, this.terminations := stream, sizes, terminations;
    }

    method IsTerminated() returns (t: bool)
      modifies this`terminations
      ensures true !in old(terminations) ==> !t && true !in terminations
    {
      t := terminations != [] && terminations[0];
      if terminations != [] {
        terminations := terminations[1..];
      }
    }

    /** Delivers what arrives next behind the bytes already buffered. */
    method Read() returns (code: ErrorCode, bytesRead: nat)
      requires Valid()
      modifies this`stream, this`sizes, mReadBuffer
      ensures Valid()
      ensures bytesRead == Moved(old(sizes), Min(SIZE - mReadBufferLen, |old(stream)|))
      ensures code == if bytesRead > 0 then SUCCESS else PEER_DISCONNECT
      ensures mReadBufferLen + bytesRead <= SIZE
      ensures mReadBuffer[..mReadBufferLen + bytesRead] == old(Buffered()) + old(stream)[..bytesRead]
      ensures stream == old(stream)[bytesRead..]
      ensures sizes == if bytesRead > 0 then old(sizes)[1..] else old(sizes)
    {
      bytesRead := Moved(sizes, Min(SIZE - mReadBufferLen, |stream|));
      for i := 0 to bytesRead
        invariant stream == old(stream) && sizes == old(sizes)
        invariant mReadBuffer[..mReadBufferLen + i] == old(Buffered()) + stream[..i]
      {
        mReadBuffer[mReadBufferLen + i] := stream[i];
      }
      stream := stream[bytesRead..];
      if bytesRead == 0 {
        return PEER_DISCONNECT, 0;
      }
      sizes := sizes[1..];
      code := SUCCESS;
    }

    method FillBuffer() returns (code: ErrorCode)
      requires Valid()
      modifies this`stream, this`sizes, this`mReadBufferLen, mReadBuffer
      ensures Valid() && Pending() == old(Pending())
      ensures code == SUCCESS || code == PEER_DISCONNECT
      ensures code == SUCCESS && old(mReadBufferLen) < SIZE ==> mReadBufferLen > old(mReadBufferLen)
      ensures old(Undisturbed()) ==> Undisturbed() && (code == PEER_DISCONNECT ==> stream == [])
      ensures old(mReadBufferLen) == SIZE ==> code == SUCCESS
      ensures code != SUCCESS ==> mReadBufferLen == old(mReadBufferLen)
      ensures mReadBufferLen >= old(mReadBufferLen)
    {
      hide Steady, Moved;
      var remainingLen := SIZE - mReadBufferLen;
      SteadyMoves(sizes, |stream|, remainingLen);
      if remainingLen == 0 {
        return SUCCESS;
      }
      var bytesRead;
      code, bytesRead := Read();
      mReadBufferLen := mReadBufferLen + bytesRead;
      assert Buffered() == old(Buffered()) + old(stream)[..bytesRead];
      assert old(stream) == old(stream)[..bytesRead] + old(stream)[bytesRead..];
      if bytesRead > 0 {
        SteadyStep(old(sizes), |old(stream)|, bytesRead);
      }
    }

    method ExtractBuffer(output: array<Byte>, count: nat) returns (code: ErrorCode)
      requires Valid() && output != mReadBuffer
      modifies this`mReadBufferLen, mReadBuffer, output
      ensures Valid()
      ensures code == if count > output.Length then BUFFER_TO_SMALL
                      else if 0 < count <= old(mReadBufferLen) then SUCCESS else FAILURE
      ensures code == SUCCESS ==> output[..count] + Buffered() == old(Buffered())
      ensures code == SUCCESS ==> mReadBufferLen == old(mReadBufferLen) - count
      ensures code != SUCCESS ==> Buffered() == old(Buffered()) && output[..] == old(output[..])
    {
      if count > output.Length {
        return BUFFER_TO_SMALL;
      }
      ghost var was := Buffered();
      var ok, left := ExtractFront(mReadBuffer, mReadBufferLen, output, count);
      mReadBufferLen := left;
      if !ok {
        return FAILURE;
      }
      assert was == was[..count] + was[count..];
      code := SUCCESS;
    }

    /** The first line feed of the buffer, or its length. */
    method FindLineFeed() returns (found: bool, index: nat)
      requires Valid()
      ensures index == FirstOf(Buffered(), LF) && (found <==> index < mReadBufferLen)
    {
      index := 0;
      ghost var b := Buffered();
      assert b[0..] == b;
      while index < mReadBufferLen
        invariant 0 <= index <= mReadBufferLen
        invariant FirstOf(b, LF) == index + FirstOf(b[index..], LF)
      {
        if mReadBuffer[index] == LF {
          return true, index;
        }
        assert b[index..][1..] == b[index + 1..];
        index := index + 1;
      }
      found := false;
    }

    /** What it does to the bytes depends on Pending() alone: not on how they
        arrived and not on the delimiter, so it returns the segment that was asked
        for exactly when the delimiter is a line feed. */
    method ReadDelimeter(output: array<Byte>, delimeter: Byte) returns (code: ErrorCode, outputLen: nat)
      requires Valid() && output != mReadBuffer
      modifies this, mReadBuffer, output
      ensures Valid()
      ensures old(Undisturbed()) ==> Undisturbed() && code == Outcome(old(Pending()), output.Length)
      ensures code in {Outcome(old(Pending()), output.Length), TERMINATED, PEER_DISCONNECT}
      ensures code == SUCCESS ==>
                var end := FirstOf(old(Pending()), LF);
                && end < |old(Pending())| && outputLen == end + 1 <= output.Length
                && output[..outputLen] == old(Pending())[..end + 1]
                && Pending() == old(Pending())[end + 1..]
      ensures code == SUCCESS ==> (Segment(old(Pending()), delimeter) == Some(output[..outputLen]) <==> delimeter == LF)
      ensures code != SUCCESS ==> Pending() == old(Pending()) && output[..] == old(output[..])
    {
      hide Outcome, FirstOf, Steady;
      ghost var pending := Pending();
      outputLen := 0;
      while true
        invariant Valid() && Pending() == pending && output[..] == old(output[..])
        invariant old(Undisturbed()) ==> Undisturbed()
        decreases SIZE - mReadBufferLen
      {
        var terminated := IsTerminated();
        if terminated {
          return TERMINATED, outputLen;
        }
        assert pending[..mReadBufferLen] == Buffered();
        BufferedLine(pending, mReadBufferLen);
        var found;
        found, outputLen := FindLineFeed();
        if found {
          outputLen := outputLen + 1;
          DelimiterIsIgnored(pending, delimeter);
          code := ExtractLine(output, outputLen, pending);
          return;
        } else {
          NoBufferedLine(pending, mReadBufferLen, output.Length);
          if mReadBufferLen == SIZE {
            return SEGMENT_TOO_LONG, outputLen;
          }
          var rval := FillBuffer();
          if rval != SUCCESS {
            return rval, outputLen;
          }
        }
      }
    }

    /** Reading on until n lines are there or a read fails: the lines are those of
        the byte stream, and an undisturbed connection stops where it says. */
    method ReadLines(output: array<Byte>, n: nat) returns (code: ErrorCode, lines: seq<Bytes>)
      requires Valid() && output != mReadBuffer
      modifies this, mReadBuffer, output
      ensures Valid()
      ensures (lines, Pending()) == Lines(old(Pending()), |lines|)
      ensures code == SUCCESS <==> |lines| == n
      ensures |lines| <= n
      ensures old(Undisturbed()) && code != SUCCESS ==> code == Outcome(Pending(), output.Length)
    {
      hide Lines, Outcome, FirstOf, Steady;
      code, lines := SUCCESS, [];
      ghost var pending := Pending();
      LinesOfNone(pending);
      while |lines| < n
        invariant Valid() && |lines| <= n && code == SUCCESS
        invariant (lines, Pending()) == Lines(pending, |lines|)
        invariant old(Undisturbed()) ==> Undisturbed()
      {
        var outputLen;
        code, outputLen := ReadDelimeter(output, LF);
        if code != SUCCESS {
          return;
        }
        LinesGoOn(pending, |lines|);
        lines := lines + [output[..outputLen]];
      }
    }

    method ExtractLine(output: array<Byte>, count: nat, ghost pending: Bytes) returns (code: ErrorCode)
      requires Valid() && output != mReadBuffer && Pending() == pending
      requires 0 < count <= mReadBufferLen
      modifies this`mReadBufferLen, mReadBuffer, output
      ensures Valid()
      ensures code == if count > output.Length then BUFFER_TO_SMALL else SUCCESS
      ensures code == SUCCESS ==> output[..count] == pending[..count] && Pending() == pending[count..]
      ensures code != SUCCESS ==> Pending() == pending && output[..] == old(output[..])
    {
      ghost var b := Buffered();
      code := ExtractBuffer(output, count);
      if code == SUCCESS {
        assert pending == output[..count] + (Buffered() + stream);
      }
    }

    method ReadLine(line: array<Byte>) returns (code: ErrorCode, lineLen: nat)
      requires Valid() && line != mReadBuffer
      modifies this, mReadBuffer, line
      ensures Valid()
      ensures code in {SUCCESS, ILLEGAL_CHARACTER_RECEIVED} ==>
                var end := FirstOf(old(Pending()), LF);
                && end < |old(Pending())| && lineLen == end + 1 <= line.Length
                && Pending() == old(Pending())[end + 1..]
                && (code == SUCCESS <==> forall i :: 0 <= i < end ==> old(Pending())[i] > 31)
                && (code == SUCCESS ==> line[..lineLen] == old(Pending())[..end] + [0])
      ensures code !in {SUCCESS, ILLEGAL_CHARACTER_RECEIVED} ==> Pending() == old(Pending())
      ensures old(Undisturbed()) ==>
                && Undisturbed()
                && var o := Outcome(old(Pending()), line.Length);
                   if o == SUCCESS then code in {SUCCESS, ILLEGAL_CHARACTER_RECEIVED} else code == o
    {
      hide FirstOf, Segment, Steady;
      ghost var pending := Pending();
      code, lineLen := ReadDelimeter(line, LF);
      if code != SUCCESS {
        return;
      }
      ghost var text := line[..lineLen];
      assert text == pending[..lineLen];
      assert forall j :: 0 <= j < lineLen - 1 ==> text[j] == pending[j] != LF;
      for i := 0 to lineLen
        invariant line[..lineLen] == text
        invariant forall j :: 0 <= j < i ==> text[j] == LF || text[j] > 31
      {
        if 0 <= line[i] <= 9 {
          assert text[i] <= 31 && i < lineLen - 1;
          return ILLEGAL_CHARACTER_RECEIVED, lineLen;
        }
        if 11 <= line[i] <= 31 {
          assert text[i] <= 31 && i < lineLen - 1;
          return ILLEGAL_CHARACTER_RECEIVED, lineLen;
        }
      }
      assert forall j :: 0 <= j < lineLen - 1 ==> text[j] > 31;
      line[lineLen - 1] := 0;
      assert line[..lineLen] == text[..lineLen - 1] + [0];
    }

    /** With room for more than is buffered it reads first, so at the end of the
        stream bytes that are still buffered are withheld from such a caller. */
    method ReadSome(buffer: array<Byte>) returns (code: ErrorCode, bytesRead: nat)
      requires Valid() && buffer != mReadBuffer
      modifies this, mReadBuffer, buffer
      ensures Valid() && bytesRead <= buffer.Length
      ensures code == SUCCESS ==> bytesRead > 0 && buffer[..bytesRead] + Pending() == old(Pending())
      ensures code != SUCCESS ==> Pending() == old(Pending())
      ensures code == FAILURE <==> buffer.Length == 0
      ensures old(Undisturbed()) && buffer.Length > 0 ==>
                (code == SUCCESS <==> old(mReadBufferLen) >= Min(buffer.Length, SIZE) || old(stream) != [])
    {
      bytesRead := 0;
      if buffer.Length > mReadBufferLen {
        var rval := FillBuffer();
        if rval != SUCCESS {
          return rval, bytesRead;
        }
      }
      ghost var b := Buffered();
      bytesRead := if buffer.Length >= mReadBufferLen then mReadBufferLen else buffer.Length;
      code := ExtractBuffer(buffer, bytesRead);
      if code == SUCCESS {
        assert buffer[..bytesRead] + (Buffered() + stream) == b + stream;
      }
    }
  }
}
