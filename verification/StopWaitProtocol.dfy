/** The two ends of StopWait over a network that may lose, repeat, delay and
    reorder what it carries. */
module StopWaitProtocol {
  import opened Octets
  import opened Wrappers
  import opened StopWait

  datatype Client =
    | Idle
    | Sending(request: Bytes, tries: nat)
    | Awaiting(request: Bytes, tries: nat)
    | Stopped

  /** What the application does after a call that failed: nothing more, only the
      same request again, or whatever it likes. */
  datatype Policy = Never | SameRequest | Anything

  /** A request and how many calls had succeeded when it was issued. */
  datatype Issued = Issued(exchange: nat, request: Bytes)

  /** A request the server has processed: the handler's state it met, and the answer. */
  datatype Entry<A> = Entry(app: A, request: Bytes, response: Bytes)

  /** A true return: the request of the call and the response it was given. */
  datatype Return = Return(request: Bytes, response: Bytes)

  /** The network never forgets: it may deliver any frame it was ever given, as
      often as it likes or not at all.  `issued`, `calls`, `processed` and
      `returned` are the history of the run; `calls` are the requests handed to
      the handler, whether it answered or not. */
  datatype System<A> = System(
    client: Client, number: nat, server: Receiver<A>, toServer: set<Bytes>, toClient: set<Bytes>,
    issued: seq<Issued>, calls: seq<Bytes>, processed: seq<Entry<A>>, returned: seq<Return>)

  datatype Config<!A> = Config(handler: Handler<A>, repetitions: nat, policy: Policy)

  datatype Action =
    | Issue(request: Bytes)
    | Send(accepted: bool)
    | Await(turn: Turn)
    | Deliver(frame: Bytes, accepted: bool)

  function Start<A>(app: A): System<A> {
    System(Idle, 1, Receiver(1, [], app), {}, {}, [], [], [], [])
  }

  predicate MayIssue<A>(c: Config<A>, s: System<A>, request: Bytes) {
    match c.policy
    case Never => s.client.Idle?
    case SameRequest =>
      s.client.Idle? || (s.client.Stopped? && s.issued != [] && request == s.issued[|s.issued| - 1].request)
    case Anything => s.client.Idle? || s.client.Stopped?
  }

  predicate Enabled<A>(c: Config<A>, s: System<A>, a: Action) {
    match a
    case Issue(request) => MayIssue(c, s, request)
    case Send(_) => s.client.Sending?
    case Await(turn) => s.client.Awaiting? && !turn.Refused? && (turn.Answer? ==> turn.data in s.toClient)
    case Deliver(frame, _) => frame in s.toServer
  }

  /** The client with this many turns left. */
  function Turns(request: Bytes, tries: nat): Client {
    if tries == 0 then Stopped else Sending(request, tries)
  }

  function Apply<A>(c: Config<A>, s: System<A>, a: Action): System<A>
    requires Enabled(c, s, a)
  {
    match a
    case Issue(request) =>
      s.(client := Turns(request, c.repetitions), issued := s.issued + [Issued(|s.returned|, request)])
    case Send(accepted) =>
      if accepted then
        s.(client := Awaiting(s.client.request, s.client.tries),
           toServer := s.toServer + {Frame(s.number, s.client.request)})
      else s.(client := Stopped)
    case Await(turn) => (
      match Judge(s.number, turn)
      case Retry => s.(client := if s.client.tries == 0 then Stopped else Turns(s.client.request, s.client.tries - 1))
      case Fail => s.(client := Stopped)
      case Success(response) =>
        s.(client := Idle, number := Successor(s.number),
           returned := s.returned + [Return(s.client.request, response)]))
    case Deliver(frame, accepted) =>
      var (server, sent) := Incoming(c.handler, s.server, frame);
      s.(server := server,
         toClient := if sent.Some? && accepted then s.toClient + {sent.value} else s.toClient,
         calls := s.calls + Handed(s.server, frame),
         processed := s.processed + Progress(s.server, server, frame))
  }

  /** The request that a delivery hands to the handler, if any. */
  function Handed<A>(r: Receiver<A>, frame: Bytes): seq<Bytes> {
    match Parse(frame)
    case Malformed => []
    case Numbered(number, request) => if number == r.expected then [request] else []
  }

  /** The entry that a delivery adds, if the receiver's number moved. */
  function Progress<A>(before: Receiver<A>, after: Receiver<A>, frame: Bytes): seq<Entry<A>> {
    if after.expected == before.expected || |frame| < 9 || |after.last| < 9 then []
    else [Entry(before.app, frame[9..], after.last[9..])]
  }

  predicate Possible<A>(c: Config<A>, s: System<A>, actions: seq<Action>)
    decreases |actions|
  {
    actions == [] || (Enabled(c, s, actions[0]) && Possible(c, Apply(c, s, actions[0]), actions[1..]))
  }

  function After<A>(c: Config<A>, s: System<A>, actions: seq<Action>): System<A>
    requires Possible(c, s, actions)
    decreases |actions|
  {
    if actions == [] then s else After(c, Apply(c, s, actions[0]), actions[1..])
  }

  // ---------------------------------------------- what the handler must say

  /** The handler run on its calls one after another, from the state `app`: where
      it ends and which calls it answered.  A call it declines may change its
      state and keeps the number. */
  function Handle<A>(p: Handler<A>, app: A, calls: seq<Bytes>): (A, seq<Entry<A>>)
    decreases |calls|
  {
    if calls == [] then (app, [])
    else
      var last := calls[|calls| - 1];
      var (met, entries) := Handle(p, app, calls[..|calls| - 1]);
      var (next, answer) := p(met, Number(|entries|), last);
      (next, entries + match answer case None => [] case Some(response) => [Entry(met, last, response)])
  }

  lemma HandleOneMore<A>(p: Handler<A>, app: A, calls: seq<Bytes>, request: Bytes)
    ensures var (met, entries) := Handle(p, app, calls);
            var (next, answer) := p(met, Number(|entries|), request);
            Handle(p, app, calls + [request])
            == (next, entries + match answer case None => [] case Some(response) => [Entry(met, request, response)])
  {
    assert (calls + [request])[..|calls|] == calls;
  }

  // -------------------------------------------------------------- invariant

  /** The number of the i-th exchange, counting from 0: the first has number 1. */
  function Number(i: nat): (n: nat)
    ensures n < SEQUENCE
  {
    Successor(i)
  }

  lemma NumbersDiffer(i: nat, j: nat)
    requires i < SEQUENCE && j < SEQUENCE && Number(i) == Number(j)
    ensures i == j
  {
  }

  lemma NumbersFollow(i: nat)
    ensures Successor(Number(i)) == Number(i + 1)
  {
  }

  /** Below 2^64 exchanges. */
  predicate Within<A>(s: System<A>) {
    forall i :: 0 <= i < |s.issued| ==> s.issued[i].exchange + 1 < SEQUENCE
  }

  predicate IsRequest<A>(s: System<A>, frame: Bytes, x: Issued) {
    x in s.issued && frame == Frame(Number(x.exchange), x.request)
  }

  predicate IsResponse<A>(s: System<A>, frame: Bytes, i: nat) {
    i < |s.processed| && frame == Frame(Number(i), s.processed[i].response)
  }

  ghost predicate ARequest<A>(s: System<A>, frame: Bytes) {
    exists x :: IsRequest(s, frame, x)
  }

  ghost predicate AResponse<A>(s: System<A>, frame: Bytes) {
    exists i: nat :: IsResponse(s, frame, i)
  }

  /** Where the two ends are, and what the client is waiting on. */
  predicate InStep<A>(c: Config<A>, s: System<A>) {
    var done, processed := |s.returned|, |s.processed|;
    && s.number == Number(done)
    && s.server.expected == Number(processed)
    && done <= processed <= done + 1
    && (forall i :: 0 <= i < |s.issued| ==> s.issued[i].exchange <= done)
    && (s.client.Idle? ==> forall i :: 0 <= i < |s.issued| ==> s.issued[i].exchange < done)
    && (!s.client.Idle? ==> s.issued != [] && s.issued[|s.issued| - 1].exchange == done)
    && (s.client.Sending? || s.client.Awaiting? ==>
          s.client.request == s.issued[|s.issued| - 1].request && 0 < s.client.tries <= c.repetitions)
    && (processed > 0 ==> IsResponse(s, s.server.last, processed - 1))
  }

  /** Both histories went under the numbers of requests issued, and every return
      has the response processed under its number. */
  predicate History<A>(s: System<A>) {
    && |s.returned| <= |s.processed|
    && (forall i :: 0 <= i < |s.processed| ==> Issued(i, s.processed[i].request) in s.issued)
    && (forall i :: 0 <= i < |s.returned| ==>
          Issued(i, s.returned[i].request) in s.issued && s.returned[i].response == s.processed[i].response)
  }

  /** Everything in the network carries the number of its exchange. */
  ghost predicate Traffic<A>(s: System<A>) {
    && (forall f <- s.toServer :: ARequest(s, f))
    && (forall f <- s.toClient :: AResponse(s, f))
  }

  ghost predicate Served<A>(c: Config<A>, start: A, s: System<A>) {
    Handle(c.handler, start, s.calls) == (s.server.app, s.processed)
  }

  /** One request for every exchange. */
  predicate InTurn<A>(s: System<A>) {
    && |s.issued| == |s.returned| + (if s.client.Idle? then 0 else 1)
    && forall i :: 0 <= i < |s.issued| ==> s.issued[i].exchange == i
  }

  /** Without repeats, or with repeats of the same request only. */
  predicate Disciplined<A>(c: Config<A>, s: System<A>) {
    && (c.policy == SameRequest ==>
          forall i, j :: 0 <= i < |s.issued| && 0 <= j < |s.issued| && s.issued[i].exchange == s.issued[j].exchange
            ==> s.issued[i].request == s.issued[j].request)
    && (c.policy == Never ==> InTurn(s))
  }

  /** The handler is only ever asked what was issued under the number it is at. */
  ghost predicate Asked<A>(c: Config<A>, start: A, s: System<A>) {
    forall i :: 0 <= i < |s.calls| ==> Issued(|Handle(c.handler, start, s.calls[..i]).1|, s.calls[i]) in s.issued
  }

  ghost predicate Inv<A>(c: Config<A>, start: A, s: System<A>) {
    InStep(c, s) && History(s) && Traffic(s) && Served(c, start, s) && Asked(c, start, s) && Disciplined(c, s)
  }

  lemma AskedStays<A>(c: Config<A>, start: A, s: System<A>, t: System<A>)
    requires Asked(c, start, s) && s.issued <= t.issued && t.calls == s.calls
    ensures Asked(c, start, t)
  {
    hide Handle;
  }

  lemma AskedOnceMore<A>(c: Config<A>, start: A, s: System<A>, t: System<A>, x: Issued)
    requires Asked(c, start, s) && Served(c, start, s) && x in s.issued && x.exchange == |s.processed|
    requires t.issued == s.issued && t.calls == s.calls + [x.request]
    ensures Asked(c, start, t)
  {
    hide Handle;
    forall i | 0 <= i < |t.calls|
      ensures Issued(|Handle(c.handler, start, t.calls[..i]).1|, t.calls[i]) in t.issued
    {
      if i < |s.calls| {
        assert t.calls[..i] == s.calls[..i];
      } else {
        assert t.calls[..i] == s.calls;
      }
    }
  }

  lemma InvStarts<A>(c: Config<A>, app: A)
    ensures Inv(c, app, Start(app))
  {
  }

  /** Frames stay what they were while the histories only grow. */
  lemma FramesStay<A>(s: System<A>, t: System<A>)
    requires s.issued <= t.issued && s.processed <= t.processed
    ensures forall f :: ARequest(s, f) ==> ARequest(t, f)
    ensures forall f :: AResponse(s, f) ==> AResponse(t, f)
  {
    hide Frame, Number;
    forall f | ARequest(s, f)
      ensures ARequest(t, f)
    {
      var x :| IsRequest(s, f, x);
      assert IsRequest(t, f, x);
    }
    forall f | AResponse(s, f)
      ensures AResponse(t, f)
    {
      var i: nat :| IsResponse(s, f, i);
      assert IsResponse(t, f, i);
    }
  }

  lemma IssueKeeps<A>(c: Config<A>, start: A, s: System<A>, request: Bytes)
    requires Inv(c, start, s) && Enabled(c, s, Issue(request))
    ensures Inv(c, start, Apply(c, s, Issue(request)))
  {
    hide Frame, Number, ARequest, AResponse, Handle, Asked;
    FramesStay(s, Apply(c, s, Issue(request)));
    AskedStays(c, start, s, Apply(c, s, Issue(request)));
  }

  lemma SendKeeps<A>(c: Config<A>, start: A, s: System<A>, accepted: bool)
    requires Inv(c, start, s) && Enabled(c, s, Send(accepted))
    ensures Inv(c, start, Apply(c, s, Send(accepted)))
  {
    hide Frame, Number, Handle, Asked;
    var t := Apply(c, s, Send(accepted));
    FramesStay(s, t);
    AskedStays(c, start, s, t);
    if accepted {
      var f := Frame(s.number, s.client.request);
      assert IsRequest(t, f, s.issued[|s.issued| - 1]);
      assert ARequest(t, f);
    }
    hide ARequest, AResponse;
  }

  lemma ProcessedWithin<A>(c: Config<A>, start: A, s: System<A>)
    requires Inv(c, start, s) && Within(s)
    ensures |s.processed| < SEQUENCE
  {
    if |s.processed| > 0 {
      var last := |s.processed| - 1;
      assert Issued(last, s.processed[last].request) in s.issued;
    }
  }

  /** The client accepts only what was processed under its number, and never meets
      a response it cannot parse. */
  lemma AnswerIsOurs<A>(c: Config<A>, start: A, s: System<A>, turn: Turn)
    requires Inv(c, start, s) && Enabled(c, s, Await(turn)) && Within(s)
    ensures !Judge(s.number, turn).Fail?
    ensures Judge(s.number, turn).Success? ==>
              |s.processed| == |s.returned| + 1
              && Judge(s.number, turn).response == s.processed[|s.returned|].response
  {
    hide Frame, Parse, Number, Handle, Disciplined;
    ProcessedWithin(c, start, s);
    if turn.Answer? {
      assert AResponse(s, turn.data);
      var i: nat :| IsResponse(s, turn.data, i);
      ParseFrame(Number(i), s.processed[i].response);
      if Number(i) == s.number {
        assert s.issued[|s.issued| - 1].exchange == |s.returned|;
        NumbersDiffer(i, |s.returned|);
      }
    }
  }

  lemma AwaitKeeps<A>(c: Config<A>, start: A, s: System<A>, turn: Turn)
    requires Inv(c, start, s) && Enabled(c, s, Await(turn)) && Within(s)
    ensures Inv(c, start, Apply(c, s, Await(turn)))
  {
    hide Frame, Judge, Number, Handle, Asked, Successor;
    var t := Apply(c, s, Await(turn));
    AskedStays(c, start, s, t);
    AnswerIsOurs(c, start, s, turn);
    NumbersFollow(|s.returned|);
    FramesStay(s, t);
    hide ARequest, AResponse;
    if Judge(s.number, turn).Success? {
      ReturnKeeps(c, s, t, Judge(s.number, turn).response);
    } else {
      WaitingKeeps(c, s, t);
    }
    hide InStep, History, Disciplined;
  }

  lemma ReturnKeeps<A>(c: Config<A>, s: System<A>, t: System<A>, response: Bytes)
    requires InStep(c, s) && History(s) && Disciplined(c, s) && s.client.Awaiting?
    requires |s.processed| == |s.returned| + 1 && response == s.processed[|s.returned|].response
    requires t == s.(client := Idle, number := Number(|s.returned| + 1),
                     returned := s.returned + [Return(s.client.request, response)])
    ensures InStep(c, t) && History(t) && Disciplined(c, t)
  {
    hide Frame, Number;
    var last := s.issued[|s.issued| - 1];
    assert last == Issued(|s.returned|, s.client.request) && last in s.issued;
  }

  lemma WaitingKeeps<A>(c: Config<A>, s: System<A>, t: System<A>)
    requires InStep(c, s) && History(s) && Disciplined(c, s) && s.client.Awaiting?
    requires t.client == Stopped || t.client == Turns(s.client.request, s.client.tries - 1)
    requires t == s.(client := t.client)
    ensures InStep(c, t) && History(t) && Disciplined(c, t)
  {
    hide Frame, Number;
  }

  /** What the server does with a request of the i-th exchange when it waits for
      that of the p-th. */
  lemma DeliveryCases<A>(c: Config<A>, start: A, s: System<A>, frame: Bytes, x: Issued)
    requires Inv(c, start, s) && IsRequest(s, frame, x) && Within(s)
    ensures var p := |s.processed|;
            var (r, sent) := Incoming(c.handler, s.server, frame);
            && (x.exchange != p ==>
                  r == s.server && p > 0 && sent == Some(s.server.last) && Handed(s.server, frame) == [])
            && (x.exchange == p ==>
                  var (app, answer) := c.handler(s.server.app, Number(p), x.request);
                  && Handed(s.server, frame) == [x.request]
                  && match answer
                     case None => r == s.server.(app := app) && sent == None
                     case Some(response) =>
                       && r == Receiver(Number(p + 1), Frame(Number(p), response), app)
                       && sent == Some(Frame(Number(p), response)))
    ensures |frame| >= 9 && frame[9..] == x.request
  {
    hide Number, ARequest, AResponse, Parse, Handle, Disciplined;
    ProcessedWithin(c, start, s);
    ParseFrame(Number(x.exchange), x.request);
    assert |frame| >= 9 && frame[9..] == x.request;
    hide Frame;
    if x.exchange == |s.processed| {
      NumbersFollow(x.exchange);
    } else if Number(x.exchange) == s.server.expected {
      NumbersDiffer(x.exchange, |s.processed|);
    }
  }

  lemma DeliverKeeps<A>(c: Config<A>, start: A, s: System<A>, frame: Bytes, accepted: bool)
    requires Inv(c, start, s) && Enabled(c, s, Deliver(frame, accepted)) && Within(s)
    ensures Inv(c, start, Apply(c, s, Deliver(frame, accepted)))
  {
    hide Incoming, Number, Frame, Handed, Handle, Asked;
    var t := Apply(c, s, Deliver(frame, accepted));
    assert ARequest(s, frame);
    var x :| IsRequest(s, frame, x);
    var p := |s.processed|;
    DeliveryCases(c, start, s, frame, x);
    HandleOneMore(c.handler, start, s.calls, x.request);
    assert s.calls + [] == s.calls;
    if x.exchange == p && c.handler(s.server.app, Number(p), x.request).1.Some? {
      var (app, answer) := c.handler(s.server.app, Number(p), x.request);
      AnsweredKeeps(c, start, s, t, frame, x, answer.value, accepted, app);
    } else {
      assert t.processed == s.processed;
      assert Served(c, start, t);
      if x.exchange == p {
        AskedOnceMore(c, start, s, t, x);
      } else {
        AskedStays(c, start, s, t);
      }
      hide Served, History, Disciplined, Traffic;
      UnansweredKeeps(c, start, s, t);
    }
  }

  /** A delivery that adds no entry, whether it repeats the last answer or not. */
  lemma UnansweredKeeps<A>(c: Config<A>, start: A, s: System<A>, t: System<A>)
    requires InStep(c, s) && History(s) && Traffic(s) && Disciplined(c, s) && Served(c, start, t) && Asked(c, start, t)
    requires t == s.(server := t.server, toClient := t.toClient, calls := t.calls)
    requires t.server.expected == s.server.expected && t.server.last == s.server.last
    requires t.toClient <= s.toClient + if s.processed == [] then {} else {s.server.last}
    ensures Inv(c, start, t)
  {
    hide Frame, Number, Served, Disciplined, Asked;
    FramesStay(s, t);
    var p := |s.processed|;
    if p > 0 {
      assert IsResponse(s, s.server.last, p - 1);
      assert AResponse(t, s.server.last);
    }
    hide ARequest, AResponse;
    DisciplineStays(c, s, t);
  }

  lemma DisciplineStays<A>(c: Config<A>, s: System<A>, t: System<A>)
    requires Disciplined(c, s) && t.client == s.client && t.issued == s.issued && t.returned == s.returned
    ensures Disciplined(c, t)
  {
  }

  lemma AnsweredKeeps<A>(c: Config<A>, start: A, s: System<A>, t: System<A>, frame: Bytes, x: Issued, response: Bytes,
                         accepted: bool, app: A)
    requires Inv(c, start, s) && Within(s) && x in s.issued && x.exchange == |s.processed|
    requires |frame| >= 9 && frame[9..] == x.request
    requires c.handler(s.server.app, Number(x.exchange), x.request) == (app, Some(response))
    requires var p := |s.processed|;
             var out := Frame(Number(p), response);
             var r := Receiver(Number(p + 1), out, app);
             t == s.(server := r, toClient := if accepted then s.toClient + {out} else s.toClient,
                     calls := s.calls + [x.request], processed := s.processed + Progress(s.server, r, frame))
    ensures Inv(c, start, t)
  {
    var p := |s.processed|;
    ProgressIsEntry(s.server, t.server, frame, p, response);
    hide Progress, Asked;
    AskedOnceMore(c, start, s, t, x);
    AnsweredTraffic(s, t, p, response);
    hide Number, Frame, ARequest, AResponse, Traffic, InStep, Served, Disciplined;
    AnsweredHistory(s, t, x, s.server.app, response);
    hide History;
    AnsweredInStep(c, s, t, x);
    AnsweredServed(c, start, s, t, x.request, response, app);
    DisciplineStays(c, s, t);
  }

  lemma AnsweredInStep<A>(c: Config<A>, s: System<A>, t: System<A>, x: Issued)
    requires InStep(c, s) && x in s.issued && x.exchange == |s.processed|
    requires t.client == s.client && t.number == s.number && t.issued == s.issued && t.returned == s.returned
    requires |t.processed| == |s.processed| + 1 && t.server.expected == Number(|s.processed| + 1)
    requires IsResponse(t, t.server.last, |s.processed|)
    ensures InStep(c, t)
  {
    hide Number, IsResponse;
  }

  lemma AnsweredServed<A>(c: Config<A>, start: A, s: System<A>, t: System<A>, request: Bytes, response: Bytes, app: A)
    requires Served(c, start, s) && c.handler(s.server.app, Number(|s.processed|), request) == (app, Some(response))
    requires t.calls == s.calls + [request] && t.server.app == app
    requires t.processed == s.processed + [Entry(s.server.app, request, response)]
    ensures Served(c, start, t)
  {
    HandleOneMore(c.handler, start, s.calls, request);
    hide Handle, Number;
  }

  lemma AnsweredTraffic<A>(s: System<A>, t: System<A>, p: nat, response: Bytes)
    requires Traffic(s) && p == |s.processed| && t.issued == s.issued && t.toServer == s.toServer
    requires s.processed <= t.processed && |t.processed| == p + 1 && t.processed[p].response == response
    requires t.toClient <= s.toClient + {Frame(Number(p), response)}
    ensures Traffic(t) && IsResponse(t, Frame(Number(p), response), p)
  {
    var out := Frame(Number(p), response);
    hide Number, Frame;
    FramesStay(s, t);
    assert IsResponse(t, out, p);
    assert AResponse(t, out);
  }

  lemma AnsweredHistory<A>(s: System<A>, t: System<A>, x: Issued, met: A, response: Bytes)
    requires History(s) && x in s.issued && x.exchange == |s.processed|
    requires t.issued == s.issued && t.returned == s.returned
    requires t.processed == s.processed + [Entry(met, x.request, response)]
    ensures History(t)
  {
  }

  lemma ProgressIsEntry<A>(before: Receiver<A>, after: Receiver<A>, frame: Bytes, p: nat, response: Bytes)
    requires |frame| >= 9 && p < SEQUENCE - 1
    requires before.expected == Number(p) && after.expected == Number(p + 1) && after.last == Frame(Number(p), response)
    ensures Progress(before, after, frame) == [Entry(before.app, frame[9..], response)]
  {
    if Number(p + 1) == Number(p) {
      NumbersDiffer(p, p + 1);
    }
    assert after.last[9..] == response;
  }

  lemma StepKeeps<A>(c: Config<A>, start: A, s: System<A>, a: Action)
    requires Inv(c, start, s) && Enabled(c, s, a) && Within(Apply(c, s, a))
    ensures Inv(c, start, Apply(c, s, a))
  {
    WithinBefore(c, s, a);
    hide Inv, Within;
    match a
    case Issue(request) => IssueKeeps(c, start, s, request);
    case Send(accepted) => SendKeeps(c, start, s, accepted);
    case Await(turn) => AwaitKeeps(c, start, s, turn);
    case Deliver(frame, accepted) => DeliverKeeps(c, start, s, frame, accepted);
  }

  lemma WithinBefore<A>(c: Config<A>, s: System<A>, a: Action)
    requires Enabled(c, s, a) && Within(Apply(c, s, a))
    ensures Within(s)
  {
    var t := Apply(c, s, a);
    assert forall i :: 0 <= i < |s.issued| ==> t.issued[i] == s.issued[i];
  }

  lemma {:induction false} WithinFromTheStart<A>(c: Config<A>, s: System<A>, actions: seq<Action>)
    requires Possible(c, s, actions) && Within(After(c, s, actions))
    ensures Within(s)
    decreases |actions|
  {
    hide Within;
    if actions != [] {
      WithinFromTheStart(c, Apply(c, s, actions[0]), actions[1..]);
      WithinBefore(c, s, actions[0]);
    }
  }

  lemma {:induction false} RunKeeps<A>(c: Config<A>, start: A, s: System<A>, actions: seq<Action>)
    requires Inv(c, start, s) && Possible(c, s, actions) && Within(After(c, s, actions))
    ensures Inv(c, start, After(c, s, actions))
    decreases |actions|
  {
    hide Inv, Within;
    if actions != [] {
      var t := Apply(c, s, actions[0]);
      WithinFromTheStart(c, t, actions[1..]);
      StepKeeps(c, start, s, actions[0]);
      RunKeeps(c, start, t, actions[1..]);
    }
  }

  // ---------------------------------------------------------------- theorems

  /** The handler is called with requests issued under the number it is at, and its
      calls explain everything that was processed, state by state; each entry answers
      a request issued under its number, at most one is made per number, and every
      return hands back the response processed under the number of its call. */
  ghost predicate Consistent<A>(c: Config<A>, start: A, s: System<A>) {
    && Handle(c.handler, start, s.calls) == (s.server.app, s.processed)
    && (forall i :: 0 <= i < |s.calls| ==> Issued(|Handle(c.handler, start, s.calls[..i]).1|, s.calls[i]) in s.issued)
    && |s.returned| <= |s.processed| <= |s.returned| + 1
    && s.server.expected in {s.number, Successor(s.number)}
    && (forall i :: 0 <= i < |s.processed| ==> Issued(i, s.processed[i].request) in s.issued)
    && (forall i :: 0 <= i < |s.returned| ==>
          Issued(i, s.returned[i].request) in s.issued && s.returned[i].response == s.processed[i].response)
  }

  /** Every return hands back the answer to the very request of its call. */
  ghost predicate OwnAnswers<A>(s: System<A>) {
    && |s.returned| <= |s.processed|
    && forall i :: 0 <= i < |s.returned| ==>
         s.returned[i] == Return(s.processed[i].request, s.processed[i].response)
  }

  /** The issued requests are processed in order and without repeats. */
  ghost predicate InOrder<A>(s: System<A>) {
    && |s.processed| <= |s.issued| <= |s.returned| + 1
    && forall i :: 0 <= i < |s.processed| ==> s.issued[i] == Issued(i, s.processed[i].request)
  }

  lemma InvMeans<A>(c: Config<A>, start: A, s: System<A>)
    requires Inv(c, start, s)
    ensures Consistent(c, start, s)
    ensures c.policy != Anything ==> OwnAnswers(s)
    ensures c.policy == Never ==> InOrder(s)
  {
    NumbersFollow(|s.returned|);
    hide Number, Successor, Traffic, IsResponse, Handle, Disciplined, OwnAnswers, InOrder;
    if c.policy != Anything {
      AnswersAreOwn(c, s);
    }
    if c.policy == Never {
      OrderIsKept(c, s);
    }
  }

  lemma OneRequestEach<A>(c: Config<A>, s: System<A>, x: Issued, y: Issued)
    requires Disciplined(c, s) && c.policy != Anything && x in s.issued && y in s.issued && x.exchange == y.exchange
    ensures x == y
  {
    var j :| 0 <= j < |s.issued| && s.issued[j] == x;
    var k :| 0 <= k < |s.issued| && s.issued[k] == y;
    assert c.policy == Never ==> s.issued[j].exchange == j && s.issued[k].exchange == k;
  }

  lemma AnswersAreOwn<A>(c: Config<A>, s: System<A>)
    requires History(s) && Disciplined(c, s) && c.policy != Anything
    ensures OwnAnswers(s)
  {
    hide Disciplined;
    forall i | 0 <= i < |s.returned|
      ensures s.returned[i].request == s.processed[i].request
    {
      OneRequestEach(c, s, Issued(i, s.returned[i].request), Issued(i, s.processed[i].request));
    }
  }

  lemma OrderIsKept<A>(c: Config<A>, s: System<A>)
    requires InStep(c, s) && History(s) && Disciplined(c, s) && c.policy == Never
    ensures InOrder(s)
  {
    hide IsResponse, Number;
    forall i | 0 <= i < |s.processed|
      ensures i < |s.issued| && s.issued[i] == Issued(i, s.processed[i].request)
    {
      var j :| 0 <= j < |s.issued| && s.issued[j] == Issued(i, s.processed[i].request);
      assert s.issued[j].exchange == j;
    }
    if s.processed != [] {
      var last := |s.processed| - 1;
      var j :| 0 <= j < |s.issued| && s.issued[j] == Issued(last, s.processed[last].request);
      assert s.issued[j].exchange == j;
    }
  }

  /** Below 2^64 exchanges, whatever the application does after failures. */
  lemma EveryRunIsConsistent<A>(c: Config<A>, app: A, actions: seq<Action>)
    requires Possible(c, Start(app), actions) && Within(After(c, Start(app), actions))
    ensures Consistent(c, app, After(c, Start(app), actions))
    ensures c.policy != Anything ==> OwnAnswers(After(c, Start(app), actions))
    ensures c.policy == Never ==> InOrder(After(c, Start(app), actions))
  {
    hide Inv, Within, Consistent, OwnAnswers, InOrder;
    InvStarts(c, app);
    RunKeeps(c, app, Start(app), actions);
    InvMeans(c, app, After(c, Start(app), actions));
  }

  lemma OneIssueEach<A>(c: Config<A>, app: A, actions: seq<Action>)
    requires c.policy == Never && Possible(c, Start(app), actions)
    requires |After(c, Start(app), actions).issued| < SEQUENCE
    ensures Within(After(c, Start(app), actions))
  {
    IssuedInTurn(c, Start(app), actions);
  }

  lemma {:induction false} IssuedInTurn<A>(c: Config<A>, s: System<A>, actions: seq<Action>)
    requires c.policy == Never && Possible(c, s, actions) && InTurn(s)
    ensures InTurn(After(c, s, actions))
    decreases |actions|
  {
    if actions != [] {
      StepInTurn(c, s, actions[0]);
      hide InTurn;
      IssuedInTurn(c, Apply(c, s, actions[0]), actions[1..]);
    }
  }

  lemma StepInTurn<A>(c: Config<A>, s: System<A>, a: Action)
    requires c.policy == Never && Enabled(c, s, a) && InTurn(s)
    ensures InTurn(Apply(c, s, a))
  {
    hide Judge, Incoming, Frame, Handed, Progress;
  }

  /** Below 2^64 requests, for a client that issues nothing after a failure: the
      server has processed the issued requests in order and without repeats, the
      i-th return hands back the response to the i-th request, that response is
      the one the handler gave when run on its calls from the start, and the
      server is at the client's number or one past it. */
  lemma ExactlyOnceInOrder<A>(c: Config<A>, app: A, actions: seq<Action>)
    requires c.policy == Never && Possible(c, Start(app), actions)
    requires |After(c, Start(app), actions).issued| < SEQUENCE
    ensures var s := After(c, Start(app), actions);
            && Consistent(c, app, s)
            && |s.processed| <= |s.issued| <= |s.returned| + 1
            && (forall i :: 0 <= i < |s.processed| ==> s.issued[i] == Issued(i, s.processed[i].request))
            && (forall i :: 0 <= i < |s.returned| ==>
                  s.returned[i] == Return(s.issued[i].request, s.processed[i].response))
  {
    OneIssueEach(c, app, actions);
    EveryRunIsConsistent(c, app, actions);
    hide Consistent, Possible, After, Within;
  }

  lemma OneAction<A>(c: Config<A>, s: System<A>, a: Action, t: System<A>, rest: seq<Action>)
    requires Enabled(c, s, a) && t == Apply(c, s, a) && Possible(c, t, rest)
    ensures Possible(c, s, [a] + rest) && After(c, s, [a] + rest) == After(c, t, rest)
  {
    assert ([a] + rest)[1..] == rest;
  }

  // ------------------------------------------------- a call is a run of steps

  /** The steps that one call of sendReliableMessage takes. */
  function CallActions(number: nat, tries: nat, turns: seq<Turn>): seq<Action>
    requires tries <= |turns|
    decreases tries
  {
    if tries == 0 then []
    else if turns[0].Refused? then [Send(false)]
    else if Judge(number, turns[0]).Retry? then
      [Send(true), Await(turns[0])] + CallActions(number, tries - 1, turns[1..])
    else [Send(true), Await(turns[0])]
  }

  /** The client's steps of a run, without what the network and the server do. */
  function OfClient(actions: seq<Action>): seq<Action>
    decreases |actions|
  {
    if actions == [] then []
    else (if actions[0].Deliver? then [] else [actions[0]]) + OfClient(actions[1..])
  }

  /** What the client knows of the system. */
  datatype View = View(client: Client, number: nat, issued: seq<Issued>, returned: seq<Return>)

  function Seen<A>(s: System<A>): View {
    View(s.client, s.number, s.issued, s.returned)
  }

  function ViewApply(repetitions: nat, v: View, a: Action): View {
    match a
    case Issue(request) =>
      v.(client := Turns(request, repetitions), issued := v.issued + [Issued(|v.returned|, request)])
    case Send(accepted) =>
      if !v.client.Sending? then v
      else v.(client := if accepted then Awaiting(v.client.request, v.client.tries) else Stopped)
    case Await(turn) =>
      if !v.client.Awaiting? then v else (
        match Judge(v.number, turn)
        case Retry => v.(client := if v.client.tries == 0 then Stopped else Turns(v.client.request, v.client.tries - 1))
        case Fail => v.(client := Stopped)
        case Success(response) =>
          v.(client := Idle, number := Successor(v.number),
             returned := v.returned + [Return(v.client.request, response)]))
    case Deliver(_, _) => v
  }

  function ViewAfter(repetitions: nat, v: View, actions: seq<Action>): View
    decreases |actions|
  {
    if actions == [] then v else ViewAfter(repetitions, ViewApply(repetitions, v, actions[0]), actions[1..])
  }

  lemma ViewOfStep<A>(c: Config<A>, s: System<A>, a: Action)
    requires Enabled(c, s, a)
    ensures Seen(Apply(c, s, a)) == ViewApply(c.repetitions, Seen(s), a)
  {
    hide Judge, Incoming, Frame, Handed, Progress;
  }

  /** The client's view of a run is that of its own steps alone. */
  lemma {:induction false} ViewOfRun<A>(c: Config<A>, s: System<A>, actions: seq<Action>)
    requires Possible(c, s, actions)
    ensures Seen(After(c, s, actions)) == ViewAfter(c.repetitions, Seen(s), OfClient(actions))
    decreases |actions|
  {
    hide ViewApply, Seen;
    if actions != [] {
      var t := Apply(c, s, actions[0]);
      ViewOfStep(c, s, actions[0]);
      ViewOfRun(c, t, actions[1..]);
      if actions[0].Deliver? {
        assert OfClient(actions) == [] + OfClient(actions[1..]) == OfClient(actions[1..]);
        DeliveryIsUnseen(c.repetitions, Seen(s), actions[0]);
      } else {
        assert OfClient(actions)[1..] == OfClient(actions[1..]);
      }
    }
  }

  lemma DeliveryIsUnseen(repetitions: nat, v: View, a: Action)
    requires a.Deliver?
    ensures ViewApply(repetitions, v, a) == v
  {
  }

  lemma {:induction false} CallOnView(repetitions: nat, v: View, request: Bytes, tries: nat, turns: seq<Turn>)
    requires v.client == Turns(request, tries) && tries <= |turns|
    ensures var o := Exchange(v.number, tries, turns);
            ViewAfter(repetitions, v, CallActions(v.number, tries, turns))
            == v.(client := if o.ok then Idle else Stopped,
                  number := if o.ok then Successor(v.number) else v.number,
                  returned := if o.ok then v.returned + [Return(request, o.response)] else v.returned)
    decreases tries
  {
    hide Judge;
    if tries > 0 {
      var turn := turns[0];
      if turn.Refused? {
        RefusalFails(v.number);
        ViewAfterOne(repetitions, v, Send(false), []);
        assert [Send(false)] + [] == [Send(false)];
      } else {
        var rest := if Judge(v.number, turn).Retry? then CallActions(v.number, tries - 1, turns[1..]) else [];
        var u := v.(client := Awaiting(request, tries));
        var w := ViewApply(repetitions, u, Await(turn));
        ViewAfterOne(repetitions, u, Await(turn), rest);
        ViewAfterOne(repetitions, v, Send(true), [Await(turn)] + rest);
        assert [Send(true)] + ([Await(turn)] + rest) == [Send(true), Await(turn)] + rest;
        assert [Send(true), Await(turn)] + [] == [Send(true), Await(turn)];
        if Judge(v.number, turn).Retry? {
          CallOnView(repetitions, w, request, tries - 1, turns[1..]);
        }
      }
    }
  }

  lemma ViewAfterOne(repetitions: nat, v: View, a: Action, rest: seq<Action>)
    ensures ViewAfter(repetitions, v, [a] + rest) == ViewAfter(repetitions, ViewApply(repetitions, v, a), rest)
  {
    assert ([a] + rest)[1..] == rest;
  }

  lemma RefusalFails(number: nat)
    ensures Judge(number, Refused).Fail?
  {
  }

  /** Exchange, which the method is proved against, is what the client's steps come
      to in any run, with the server and the network at work in between. */
  lemma CallIsARun<A>(c: Config<A>, s: System<A>, request: Bytes, tries: nat, turns: seq<Turn>, actions: seq<Action>)
    requires s.client == Turns(request, tries) && tries <= |turns|
    requires Possible(c, s, actions) && OfClient(actions) == CallActions(s.number, tries, turns)
    ensures var t, o := After(c, s, actions), Exchange(s.number, tries, turns);
            && t.client == (if o.ok then Idle else Stopped)
            && t.number == (if o.ok then Successor(s.number) else s.number)
            && t.issued == s.issued
            && t.returned == if o.ok then s.returned + [Return(request, o.response)] else s.returned
  {
    hide Exchange, CallActions, ViewAfter, OfClient, Possible, After;
    ViewOfRun(c, s, actions);
    CallOnView(c.repetitions, Seen(s), request, tries, turns);
  }

  /** Where nothing is lost and the handler answers, one turn is enough. */
  lemma CallSucceeds<A>(c: Config<A>, start: A, s: System<A>, request: Bytes, next: A, response: Bytes)
    requires Inv(c, start, s) && s.client.Idle? && c.repetitions > 0
    requires c.handler(s.server.app, s.number, request) == (next, Some(response))
    ensures var f, out := Frame(s.number, request), Frame(s.number, response);
            var run := [Issue(request)] + ([Send(true)] + ([Deliver(f, true)] + [Await(Answer(out))]));
            && Possible(c, s, run)
            && After(c, s, run).returned == s.returned + [Return(request, response)]
            && After(c, s, run).client == Idle
  {
    IdleIsEven(c, start, s);
    var n := s.number;
    var f, out := Frame(n, request), Frame(n, response);
    ParseFrame(n, request);
    ParseFrame(n, response);
    assert f[9..] == request && out[9..] == response;
    var s1 := Apply(c, s, Issue(request));
    var s2 := Apply(c, s1, Send(true));
    var served := Receiver(Successor(n), out, next);
    assert Incoming(c.handler, s2.server, f) == (served, Some(out));
    hide Frame, Incoming, Parse, Progress, Handed, Inv;
    var s3 := Apply(c, s2, Deliver(f, true));
    var s4 := Apply(c, s3, Await(Answer(out)));
    OneAction(c, s3, Await(Answer(out)), s4, []);
    assert [Await(Answer(out))] + [] == [Await(Answer(out))];
    OneAction(c, s2, Deliver(f, true), s3, [Await(Answer(out))]);
    OneAction(c, s1, Send(true), s2, [Deliver(f, true)] + [Await(Answer(out))]);
    OneAction(c, s, Issue(request), s1, [Send(true)] + ([Deliver(f, true)] + [Await(Answer(out))]));
  }

  lemma IdleIsEven<A>(c: Config<A>, start: A, s: System<A>)
    requires Inv(c, start, s) && s.client.Idle?
    ensures s.server.expected == s.number && s.number < SEQUENCE
  {
  }

  // ------------------------------------------------- going on after a failure

  /** A request that the handler declines, issued and given up. */
  function Attempt(repetitions: nat, request: Bytes): seq<Action> {
    [Issue(request)] + ([Send(true)] + ([Deliver(Frame(1, request), true)] + ([Await(Silent)] +
    (if repetitions > 1 then [Send(false)] else []))))
  }

  function Attempts(repetitions: nat, requests: seq<Bytes>): seq<Action>
    decreases |requests|
  {
    if requests == [] then []
    else Attempts(repetitions, requests[..|requests| - 1]) + Attempt(repetitions, requests[|requests| - 1])
  }

  /** Requests issued before the first success. */
  function AllIssued(requests: seq<Bytes>): seq<Issued> {
    seq(|requests|, i requires 0 <= i < |requests| => Issued(0, requests[i]))
  }

  /** Nothing has been answered yet, the handler is in state `met`, and the client may
      go on. */
  ghost predicate Untouched<A>(s: System<A>, met: A, requests: seq<Bytes>) {
    && (s.client.Idle? || s.client.Stopped?) && s.number == 1 && s.server == Receiver(1, [], met)
    && s.issued == AllIssued(requests) && s.calls == requests
    && s.processed == [] && s.returned == [] && s.toClient == {}
  }

  /** A request has been given up that the server was handed: what becomes of the
      server, and the client no longer waits. */
  lemma GivenUpAfterDelivery<A>(c: Config<A>, s: System<A>, met: A, requests: seq<Bytes>, request: Bytes)
    requires c.policy == Anything && c.repetitions > 0 && Untouched(s, met, requests)
    ensures Possible(c, s, Attempt(c.repetitions, request))
    ensures var t := After(c, s, Attempt(c.repetitions, request));
            var (next, answer) := c.handler(met, 1, request);
            && t.client == Stopped && t.number == 1 && t.returned == []
            && t.issued == AllIssued(requests + [request]) && t.calls == requests + [request]
            && match answer
               case None => t.server == Receiver(1, [], next) && t.processed == [] && t.toClient == {}
               case Some(response) =>
                 && t.server == Receiver(2, Frame(1, response), next) && t.toClient == {Frame(1, response)}
                 && t.processed == [Entry(met, request, response)]
  {
    var f, n := Frame(1, request), c.repetitions;
    ParseFrame(1, request);
    assert f[9..] == request;
    assert AllIssued(requests) + [Issued(0, request)] == AllIssued(requests + [request]);
    var s1 := Apply(c, s, Issue(request));
    var s2 := Apply(c, s1, Send(true));
    var s3 := Apply(c, s2, Deliver(f, true));
    DeliveredFirst(c, s2, met, request);
    hide Frame, Incoming, Progress, Parse, Handed, AllIssued;
    var s4 := Apply(c, s3, Await(Silent));
    var failing := if n > 1 then [Send(false)] else [];
    if n > 1 {
      OneAction(c, s4, Send(false), s4.(client := Stopped), []);
      assert [Send(false)] + [] == [Send(false)];
    }
    OneAction(c, s3, Await(Silent), s4, failing);
    OneAction(c, s2, Deliver(f, true), s3, [Await(Silent)] + failing);
    OneAction(c, s1, Send(true), s2, [Deliver(f, true)] + ([Await(Silent)] + failing));
    OneAction(c, s, Issue(request), s1, [Send(true)] + ([Deliver(f, true)] + ([Await(Silent)] + failing)));
  }

  lemma DeliveredFirst<A>(c: Config<A>, s: System<A>, met: A, request: Bytes)
    requires s.server == Receiver(1, [], met) && Frame(1, request) in s.toServer
    requires s.toClient == {} && s.processed == []
    ensures var t := Apply(c, s, Deliver(Frame(1, request), true));
            var (next, answer) := c.handler(met, 1, request);
            && t.calls == s.calls + [request]
            && t == s.(server := t.server, toClient := t.toClient, calls := t.calls, processed := t.processed)
            && match answer
               case None => t.server == Receiver(1, [], next) && t.processed == [] && t.toClient == {}
               case Some(response) =>
                 && t.server == Receiver(2, Frame(1, response), next) && t.toClient == {Frame(1, response)}
                 && t.processed == [Entry(met, request, response)]
  {
    var f := Frame(1, request);
    ParseFrame(1, request);
    assert f[9..] == request;
    match c.handler(met, 1, request).1
    case None =>
    case Some(response) => assert Frame(1, response)[9..] == response;
  }

  lemma {:induction false} AttemptsRun<A>(c: Config<A>, app: A, requests: seq<Bytes>)
    requires c.policy == Anything && c.repetitions > 0 && Handle(c.handler, app, requests).1 == []
    ensures Possible(c, Start(app), Attempts(c.repetitions, requests))
    ensures Untouched(After(c, Start(app), Attempts(c.repetitions, requests)), Handle(c.handler, app, requests).0,
                      requests)
    decreases |requests|
  {
    if requests != [] {
      var last := requests[|requests| - 1];
      var before := requests[..|requests| - 1];
      AttemptsRun(c, app, before);
      var s := After(c, Start(app), Attempts(c.repetitions, before));
      var met := Handle(c.handler, app, before).0;
      GivenUpAfterDelivery(c, s, met, before, last);
      hide Attempt;
      assert before + [last] == requests;
      Joined(c, Start(app), Attempts(c.repetitions, before), Attempt(c.repetitions, last));
    } else {
      assert AllIssued([]) == [];
    }
  }

  lemma {:induction false} Joined<A>(c: Config<A>, s: System<A>, first: seq<Action>, second: seq<Action>)
    requires Possible(c, s, first) && Possible(c, After(c, s, first), second)
    ensures Possible(c, s, first + second) && After(c, s, first + second) == After(c, After(c, s, first), second)
    decreases |first|
  {
    if first == [] {
      assert first + second == second;
    } else {
      assert (first + second)[1..] == first[1..] + second;
      Joined(c, Apply(c, s, first[0]), first[1..], second);
    }
  }

  /** Some requests are declined, r1 is answered but too late, and r2 takes the answer. */
  function StaleRun(repetitions: nat, declined: seq<Bytes>, r1: Bytes, r2: Bytes, response: Bytes): seq<Action> {
    Attempts(repetitions, declined) + Attempt(repetitions, r1) +
    ([Issue(r2)] + ([Send(true)] + [Await(Answer(Frame(1, response)))]))
  }

  /** Whatever the handler, whichever request it answers first and whichever other
      request comes next: a client that goes on after a failure can be given the
      answer to the first as the answer to the second, which is never processed. */
  lemma ResumingTakesStaleAnswers<A>(c: Config<A>, app: A, declined: seq<Bytes>, r1: Bytes, r2: Bytes, response: Bytes)
    requires c.policy == Anything && c.repetitions > 0
    requires Handle(c.handler, app, declined).1 == []
    requires c.handler(Handle(c.handler, app, declined).0, 1, r1).1 == Some(response)
    ensures var run := StaleRun(c.repetitions, declined, r1, r2, response);
            && Possible(c, Start(app), run)
            && var s := After(c, Start(app), run);
               && s.issued == AllIssued(declined + [r1, r2])
               && s.returned == [Return(r2, response)]
               && s.processed == [Entry(Handle(c.handler, app, declined).0, r1, response)]
  {
    hide Attempt, Attempts, Handle, Frame, AllIssued;
    var n, met := c.repetitions, Handle(c.handler, app, declined).0;
    var s0 := Start(app);
    AttemptsRun(c, app, declined);
    var s1 := After(c, s0, Attempts(n, declined));
    GivenUpAfterDelivery(c, s1, met, declined, r1);
    Joined(c, s0, Attempts(n, declined), Attempt(n, r1));
    var s2 := After(c, s1, Attempt(n, r1));
    StaleEnd(c, s2, declined + [r1], r2, response);
    Joined(c, s0, Attempts(n, declined) + Attempt(n, r1),
           [Issue(r2)] + ([Send(true)] + [Await(Answer(Frame(1, response)))]));
    assert declined + [r1] + [r2] == declined + [r1, r2];
  }

  lemma StaleEnd<A>(c: Config<A>, s: System<A>, requests: seq<Bytes>, r2: Bytes, response: Bytes)
    requires c.policy == Anything && c.repetitions > 0 && s.client == Stopped && s.number == 1 && s.returned == []
    requires s.issued == AllIssued(requests) && s.toClient == {Frame(1, response)}
    ensures var rest := [Issue(r2)] + ([Send(true)] + [Await(Answer(Frame(1, response)))]);
            && Possible(c, s, rest)
            && After(c, s, rest).issued == AllIssued(requests + [r2])
            && After(c, s, rest).returned == [Return(r2, response)]
            && After(c, s, rest).processed == s.processed
  {
    ParseFrame(1, response);
    hide Frame, Parse;
    assert AllIssued(requests) + [Issued(0, r2)] == AllIssued(requests + [r2]);
    var out := Frame(1, response);
    var s1 := Apply(c, s, Issue(r2));
    var s2 := Apply(c, s1, Send(true));
    var s3 := Apply(c, s2, Await(Answer(out)));
    var last := [Await(Answer(out))];
    OneAction(c, s2, Await(Answer(out)), s3, []);
    assert last + [] == last;
    OneAction(c, s1, Send(true), s2, last);
    OneAction(c, s, Issue(r2), s1, [Send(true)] + last);
  }

  ghost predicate AlwaysOwnAnswers<A(!new)>(c: Config<A>, app: A) {
    forall actions: seq<Action> :: Possible(c, Start(app), actions) && Within(After(c, Start(app), actions)) ==>
      OwnAnswers(After(c, Start(app), actions))
  }

  /** No sequence of calls, however long, gets an answer. */
  ghost predicate NeverAnswers<A(!new)>(p: Handler<A>, app: A) {
    forall calls :: Handle(p, app, calls).1 == []
  }

  /** The calls up to the first that is answered. */
  lemma {:induction false} FirstAnswered<A>(p: Handler<A>, app: A, calls: seq<Bytes>)
    returns (declined: seq<Bytes>, r1: Bytes)
    requires Handle(p, app, calls).1 != []
    ensures Handle(p, app, declined).1 == [] && p(Handle(p, app, declined).0, 1, r1).1.Some?
    decreases |calls|
  {
    var before := calls[..|calls| - 1];
    if Handle(p, app, before).1 == [] {
      declined, r1 := before, calls[|calls| - 1];
      assert Number(0) == 1;
    } else {
      declined, r1 := FirstAnswered(p, app, before);
    }
  }

  /** With no repetitions nothing is ever sent. */
  lemma {:induction false} NoTurnsNoReturns<A>(c: Config<A>, s: System<A>, actions: seq<Action>)
    requires c.repetitions == 0 && Possible(c, s, actions)
    requires !s.client.Sending? && !s.client.Awaiting? && s.returned == []
    ensures After(c, s, actions).returned == []
    decreases |actions|
  {
    hide Judge, Incoming, Frame, Handed, Progress;
    if actions != [] {
      NoTurnsNoReturns(c, Apply(c, s, actions[0]), actions[1..]);
    }
  }

  /** Every true return answers the request of its own call, in every run, exactly
      when the application issues nothing but the same request after a failure, or
      there are no true returns at all: no repetitions, or a handler that never
      answers. */
  lemma OwnAnswersExactly<A(!new)>(c: Config<A>, app: A)
    ensures AlwaysOwnAnswers(c, app)
       <==> c.policy != Anything || c.repetitions == 0 || NeverAnswers(c.handler, app)
  {
    hide Handle;
    if c.policy == Anything && c.repetitions > 0 && !NeverAnswers(c.handler, app) {
      var calls :| Handle(c.handler, app, calls).1 != [];
      var declined, r1 := FirstAnswered(c.handler, app, calls);
      var met := Handle(c.handler, app, declined).0;
      var response := c.handler(met, 1, r1).1.value;
      var r2 := r1 + [0];
      var run := StaleRun(c.repetitions, declined, r1, r2, response);
      ResumingTakesStaleAnswers(c, app, declined, r1, r2, response);
      hide StaleRun, Possible, After;
      var s := After(c, Start(app), run);
      assert Within(s);
      assert s.returned[0].request == r2 && s.processed[0].request == r1 && |r1| != |r2|;
    } else {
      forall actions: seq<Action> | Possible(c, Start(app), actions) && Within(After(c, Start(app), actions))
        ensures OwnAnswers(After(c, Start(app), actions))
      {
        EveryRunIsConsistent(c, app, actions);
        if c.repetitions == 0 {
          NoTurnsNoReturns(c, Start(app), actions);
        }
      }
    }
  }
}
