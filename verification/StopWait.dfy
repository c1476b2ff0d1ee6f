/** shell/stopwaittx.cpp and shell/stopwaitrx.cpp: the two ends of the
    stop-and-wait protocol. */
module StopWait {
  import opened Octets
  import opened Wrappers

  /** Sequence numbers are 64 bits wide and wrap. */
  const SEQUENCE := 0x1_0000_0000_0000_0000

  const SOF: Byte := 0x53

  function Successor(n: nat): (m: nat)
    ensures m < SEQUENCE
    ensures n < 0xFFFF_FFFF_FFFF_FFFF ==> m == n + 1
    ensures n == 0xFFFF_FFFF_FFFF_FFFF ==> m == 0
  {
    (n + 1) % SEQUENCE
  }

  function Frame(number: nat, payload: Bytes): Bytes {
    [SOF] + Fixed(number, 8) + payload
  }

  datatype Parsed = Malformed | Numbered(number: nat, payload: Bytes)

  function Parse(data: Bytes): Parsed {
    if |data| < 9 || data[0] != SOF then Malformed else Numbered(Value(data[1..9]), data[9..])
  }

  lemma ParseFrame(number: nat, payload: Bytes)
    requires number < SEQUENCE
    ensures Parse(Frame(number, payload)) == Numbered(number, payload)
  {
    Spans();
    ValueOfFixed(number, 8);
    var f := Frame(number, payload);
    assert f[1..9] == Fixed(number, 8);
    assert f[9..] == payload;
  }

  /** On the wire: a start byte, the number in eight bytes with the highest first, and
      the payload. */
  lemma FrameLayout(number: nat, payload: Bytes, i: nat, h: nat, d: nat, low: nat)
    requires i < 8 && d < 256 && low < Span(7 - i) && number == (h * 256 + d) * Span(7 - i) + low
    ensures var f := Frame(number, payload);
            |f| == 9 + |payload| && f[0] == 0x53 && f[1 + i] == d && f[9..] == payload
  {
    FixedDigits(number, 8, i, h, d, low);
    hide Fixed;
    assert Frame(number, payload)[1..9] == Fixed(number, 8);
    assert Frame(number, payload)[1 + i] == Frame(number, payload)[1..9][i];
  }

  // --------------------------------------------------------------- capsules

  datatype Endpoint = Endpoint(address: nat, port: nat)

  /** A capsule whose ports parse, or not; `data` is what follows the ports. */
  datatype Capsule = Capsule(source: nat, ports: Option<Ports>, data: Bytes)

  datatype Ports = Ports(destination: nat, source: nat)

  // ----------------------------------------------------------------- client

  /** One turn of the loop as the connector sees it: the capsule could not be
      sent, nothing came in time, or something came. */
  datatype Turn = Refused | Silent | Answer(data: Bytes)

  datatype Verdict = Retry | Fail | Success(response: Bytes)

  function Judge(expected: nat, t: Turn): Verdict {
    match t
    case Refused => Fail
    case Silent => Retry
    case Answer(data) =>
      match Parse(data)
      case Malformed => Fail
      case Numbered(number, payload) => if number == expected then Success(payload) else Retry
  }

  datatype Outcome = Outcome(ok: bool, response: Bytes, sends: nat)

  /** The call as a whole: up to `tries` turns. */
  function Exchange(expected: nat, tries: nat, turns: seq<Turn>): (o: Outcome)
    requires tries <= |turns|
    ensures o.sends <= tries
    decreases tries
  {
    if tries == 0 then Outcome(false, [], 0)
    else
      match Judge(expected, turns[0])
      case Fail => Outcome(false, [], if turns[0].Refused? then 0 else 1)
      case Success(response) => Outcome(true, response, 1)
      case Retry =>
        var o := Exchange(expected, tries - 1, turns[1..]);
        o.(sends := o.sends + 1)
  }

  datatype Arrival = SendFails | NothingArrives | Arrives(capsule: Capsule)

  class StopWaitTx {
    const repetitions: nat
    const server: Endpoint
    const client: Endpoint
    var expectedSeqNum: nat

    ghost predicate Valid()
      reads this
    {
      expectedSeqNum < SEQUENCE
    }

    constructor (repetitions: nat, server: Endpoint, client: Endpoint)
      ensures Valid() && expectedSeqNum == 1
      ensures this.repetitions == repetitions && this.server == server && this.client == client
    {
      this.repetitions, this.server, this.client := repetitions, server, client;
      expectedSeqNum := 1;
    }

    /** What a turn is to the protocol: capsules from elsewhere count as silence. */
    function Seen(a: Arrival): Turn {
      match a
      case SendFails => Refused
      case NothingArrives => Silent
      case Arrives(c) =>
        if c.source == server.address && c.ports == Some(Ports(client.port, server.port))
        then Answer(c.data)
        else Silent
    }

    method AwaitDatagram(a: Arrival) returns (ok: bool, data: Bytes)
      requires !a.SendFails?
      ensures ok <==> a.Arrives? && a.capsule.source == server.address && a.capsule.ports.Some?
                      && a.capsule.ports.value.destination == client.port
                      && a.capsule.ports.value.source == server.port
      ensures ok ==> data == a.capsule.data
      ensures if ok then Seen(a) == Answer(data) else Seen(a) == Silent
    {
      ok, data := false, [];
      if a.NothingArrives? {
        return;
      }
      var capsule := a.capsule;
      if capsule.ports.None? {
        return;
      }
      if capsule.ports.value.destination != client.port {
        return;
      }
      if capsule.ports.value.source != server.port {
        return;
      }
      if capsule.source != server.address {
        return;
      }
      return true, capsule.data;
    }

    /** Nothing came that ends the call: at most an answer with another number. */
    ghost predicate Passed(a: Arrival, number: nat) {
      && !a.SendFails?
      && (FromServer(a) ==>
            |a.capsule.data| >= 9 && a.capsule.data[0] == 0x53 && Value(a.capsule.data[1..9]) != number)
    }

    ghost predicate FromServer(a: Arrival) {
      a.Arrives? && a.capsule.source == server.address && a.capsule.ports == Some(Ports(client.port, server.port))
    }

    /** `script` is what the connector does, turn by turn; `sent` what it was given.
        It returns true with the first answer from the server that carries its number,
        and false for a capsule that cannot be sent, an answer from the server that
        does not parse, or when all turns are used up. */
    method SendReliableMessage(request: Bytes, script: seq<Arrival>)
      returns (ok: bool, response: Bytes, sent: seq<Bytes>)
      requires Valid() && repetitions <= |script|
      modifies this
      ensures Valid()
      ensures var o := Exchange(old(expectedSeqNum), repetitions,
                                seq(|script|, i requires 0 <= i < |script| => Seen(script[i])));
              && ok == o.ok && |sent| == o.sends
              && (ok ==> response == o.response)
      ensures forall i :: 0 <= i < |sent| ==> sent[i] == Frame(old(expectedSeqNum), request)
      ensures expectedSeqNum == if ok then Successor(old(expectedSeqNum)) else old(expectedSeqNum)
      ensures ok ==>
                && sent != [] && var a := script[|sent| - 1];
                && a.Arrives? && a.capsule.source == server.address
                && a.capsule.ports == Some(Ports(client.port, server.port))
                && |a.capsule.data| >= 9 && a.capsule.data[0] == 0x53
                && Value(a.capsule.data[1..9]) == old(expectedSeqNum) && response == a.capsule.data[9..]
      ensures |sent| <= repetitions
      ensures !ok ==>
                || |sent| == repetitions
                || script[|sent|].SendFails?
                || (sent != [] && var a := script[|sent| - 1];
                    FromServer(a) && (|a.capsule.data| < 9 || a.capsule.data[0] != 0x53))
      ensures forall i :: 0 <= i < |sent| - 1 ==> Passed(script[i], old(expectedSeqNum))
    {
      hide Value, Fixed, Successor;
      ghost var turns := seq(|script|, i requires 0 <= i < |script| => Seen(script[i]));
      ghost var whole := Exchange(expectedSeqNum, repetitions, turns);
      response, sent := [], [];
      var data := [SOF];
      data := data + Fixed(expectedSeqNum, 8);
      data := data + request;
      var tries := repetitions;
      while tries > 0
        invariant 0 <= tries <= repetitions && |sent| == repetitions - tries
        invariant forall i :: 0 <= i < |sent| ==> sent[i] == data
        invariant expectedSeqNum == old(expectedSeqNum)
        invariant forall i :: 0 <= i < |sent| ==> Passed(script[i], expectedSeqNum)
        invariant whole == var o := Exchange(expectedSeqNum, tries, turns[|sent|..]); o.(sends := o.sends + |sent|)
      {
        var a := script[repetitions - tries];
        assert turns[|sent|..][0] == Seen(a);
        assert turns[|sent|..][1..] == turns[|sent| + 1..];
        if a.SendFails? {
          return false, response, sent;
        }
        sent := sent + [data];
        ok, response := AwaitDatagram(a);
        if !ok {
          tries := tries - 1;
          continue;
        }
        if |response| < 9 {
          return false, response, sent;
        }
        if response[0] != SOF {
          return false, response, sent;
        }
        var rxseq := Value(response[1..9]);
        if rxseq != expectedSeqNum {
          tries := tries - 1;
          continue;
        }
        response := response[9..];
        expectedSeqNum := Successor(expectedSeqNum);
        return true, response, sent;
      }
      return false, response, sent;
    }
  }

  // ----------------------------------------------------------------- server

  /** processDatagram: any handler, which may fail and may change its state. */
  type Handler<!A> = (A, nat, Bytes) -> (A, Option<Bytes>)

  /** The fields of the receiver and the state of its handler. */
  datatype Receiver<A> = Receiver(expected: nat, last: Bytes, app: A)

  /** What a capsule from the client does to the receiver and what it sends. */
  function Incoming<A>(p: Handler<A>, r: Receiver<A>, data: Bytes): (Receiver<A>, Option<Bytes>) {
    match Parse(data)
    case Malformed => (r, None)
    case Numbered(number, request) =>
      if number != r.expected then (r, Some(r.last))
      else
        var (app, answer) := p(r.app, number, request);
        match answer
        case None => (r.(app := app), None)
        case Some(response) =>
          var frame := Frame(r.expected, response);
          (Receiver(Successor(r.expected), frame, app), Some(frame))
  }

  class StopWaitRx<A> {
    const client: Endpoint
    const handler: Handler<A>
    var app: A
    var expectedSeqNum: nat
    var lastSerializedCapsule: Bytes

    constructor (client: Endpoint, handler: Handler<A>, app: A)
      ensures this.client == client && this.handler == handler && Abstract() == Receiver(1, [], app)
    {
      this.client, this.handler, this.app := client, handler, app;
      expectedSeqNum, lastSerializedCapsule := 1, [];
    }

    ghost function Abstract(): Receiver<A>
      reads this
    {
      Receiver(expectedSeqNum, lastSerializedCapsule, app)
    }

    /** What the expected request does: it goes to the handler, and an answer is sent,
        kept and followed by the next number, whether or not sending succeeds. */
    ghost predicate Processed(was: Receiver<A>, number: nat, request: Bytes, sendSucceeds: bool, ok: bool,
                              sent: Option<Bytes>)
      reads this
    {
      var (next, response) := handler(was.app, number, request);
      match response
      case None => !ok && sent == None && Abstract() == was.(app := next)
      case Some(r) =>
        && ok == sendSucceeds && sent == Some(lastSerializedCapsule) && lastSerializedCapsule == Frame(number, r)
        && expectedSeqNum == Successor(number) && app == next
    }

    method IncommingCapsule(rxcapsule: Capsule, sendSucceeds: bool) returns (ok: bool, sent: Option<Bytes>)
      modifies this
      ensures rxcapsule.source != client.address || rxcapsule.ports.None? || rxcapsule.ports.value.source != client.port
              || |rxcapsule.data| < 9 || rxcapsule.data[0] != 0x53
              ==> !ok && sent == None && Abstract() == old(Abstract())
      ensures rxcapsule.source == client.address && rxcapsule.ports.Some?
              && rxcapsule.ports.value.source == client.port ==>
                && (Abstract(), sent) == Incoming(handler, old(Abstract()), rxcapsule.data)
                && (|rxcapsule.data| >= 9 && rxcapsule.data[0] == 0x53 ==>
                      var number := Value(rxcapsule.data[1..9]);
                      if number == old(expectedSeqNum)
                      then Processed(old(Abstract()), number, rxcapsule.data[9..], sendSucceeds, ok, sent)
                      else ok && sent == Some(old(lastSerializedCapsule)) && Abstract() == old(Abstract()))
    {
      sent := None;
      var data := rxcapsule.data;
      if rxcapsule.source != client.address {
        return false, None;
      }
      if rxcapsule.ports.None? {
        return false, None;
      }
      if rxcapsule.ports.value.source != client.port {
        return false, None;
      }
      if |data| < 9 {
        return false, None;
      }
      if data[0] != SOF {
        return false, None;
      }
      var rxseq := Value(data[1..9]);
      if rxseq != expectedSeqNum {
        return true, Some(lastSerializedCapsule);
      }
      var request := data[9..];
      var (next, response) := handler(app, rxseq, request);
      app := next;
      if response.None? {
        return false, None;
      }
      var dataOut := [SOF];
      dataOut := dataOut + Fixed(expectedSeqNum, 8);
      dataOut := dataOut + response.value;
      expectedSeqNum := Successor(expectedSeqNum);
      lastSerializedCapsule := dataOut;
      return sendSucceeds, Some(dataOut);
    }
  }
}
