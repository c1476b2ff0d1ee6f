/** A client that logs in (shell/clientsession.cpp) to the session of the server
    (shell/session.cpp) over the stop-and-wait protocol. */
module ShellLogin {
  import opened Octets
  import opened Wrappers
  import opened SrpArithmetic
  import opened SrpAgreement
  import opened SrpSpec
  import opened Srp
  import opened SessionSpec
  import StopWait
  import Net = StopWaitProtocol

  /** The session and how often it was called: each call draws a b of its own. */
  datatype Server = Server(session: State, calls: nat)

  type Entry = Net.Entry<Server>

  /** The session as the handler of the stop-and-wait server. */
  function Shell(be: Backend, draws: nat -> Bytes): StopWait.Handler<Server> {
    (s: Server, number: nat, request: Bytes) =>
      var step := Process(be, s.session, Datagram(number, request, draws(s.calls)));
      (Server(step.state, s.calls + 1), step.response)
  }

  /** What the session made of the n-th request answered. */
  function Made(be: Backend, draws: nat -> Bytes, n: nat, entry: Entry): Step {
    Process(be, entry.app.session, Datagram(Net.Number(n), entry.request, draws(entry.app.calls)))
  }

  // ------------------------------------------------- the calls of the session

  /** Some call with this request is declined in state s. */
  ghost predicate Declines(be: Backend, s: State, request: Bytes) {
    exists b: Bytes :: Process(be, s, Datagram(Net.Number(1), request, b)).response == None
  }

  /** The first answer came in ZERO. */
  predicate Opened(be: Backend, draws: nat -> Bytes, first: Bytes, entry: Entry) {
    && entry.request == first && entry.app.session.mode == Zero && Inv(entry.app.session)
    && Made(be, draws, 0, entry).response == Some(entry.response)
  }

  /** The session is where the first answer left it, or was thrown back to ZERO by a
      second request that it declined. */
  ghost predicate Waits(be: Backend, left: State, second: Bytes, s: State) {
    Inv(s) && (s == left || (s.mode == Zero && Declines(be, left, second)))
  }

  /** The session met the answered requests as they were issued. */
  ghost predicate Follows(be: Backend, draws: nat -> Bytes, first: Bytes, second: Bytes, s: State, e: seq<Entry>) {
    && Inv(s)
    && |e| <= 2
    && (|e| == 0 ==> s.mode == Zero)
    && (|e| >= 1 ==> Opened(be, draws, first, e[0]))
    && (|e| == 1 ==> Waits(be, Made(be, draws, 0, e[0]).state, second, s))
    && (|e| == 2 ==>
          && e[1].request == second && Waits(be, Made(be, draws, 0, e[0]).state, second, e[1].app.session)
          && Made(be, draws, 1, e[1]) == Step(s, Some(e[1].response)))
  }

  lemma FirstCallFollows(be: Backend, draws: nat -> Bytes, first: Bytes, second: Bytes, s: Server)
    requires Follows(be, draws, first, second, s.session, [])
    ensures var (next, answer) := Shell(be, draws)(s, Net.Number(0), first);
            Follows(be, draws, first, second, next.session,
                    [] + match answer case None => [] case Some(response) => [Net.Entry(s, first, response)])
  {
    var d := Datagram(Net.Number(0), first, draws(s.calls));
    ProcessKeepsInv(be, s.session, d);
    if Process(be, s.session, d).response == None {
      FailureClears(be, s.session, d);
    }
    hide Process, Inv;
  }

  lemma SecondCallFollows(be: Backend, draws: nat -> Bytes, first: Bytes, second: Bytes, s: Server, e: seq<Entry>)
    requires Follows(be, draws, first, second, s.session, e) && |e| == 1 && ParseA(second) == None
    ensures var (next, answer) := Shell(be, draws)(s, Net.Number(1), second);
            Follows(be, draws, first, second, next.session,
                    e + match answer case None => [] case Some(response) => [Net.Entry(s, second, response)])
  {
    var d := Datagram(Net.Number(1), second, draws(s.calls));
    ProcessKeepsInv(be, s.session, d);
    if s.session.mode == Zero {
      MalformedFirstMessage(be, s.session, d);
    } else if Process(be, s.session, d).response == None {
      FailureClears(be, s.session, d);
    }
    hide Process, Inv;
  }

  /** The handler is only asked the first request until it answers it, and the
      second after that. */
  ghost predicate InTurn(be: Backend, draws: nat -> Bytes, start: State, first: Bytes, second: Bytes,
                         calls: seq<Bytes>) {
    forall i :: 0 <= i < |calls| ==>
      var k := |Net.Handle(Shell(be, draws), Server(start, 0), calls[..i]).1|;
      k < 2 && calls[i] == if k == 0 then first else second
  }

  lemma NothingFollows(be: Backend, draws: nat -> Bytes, start: State, first: Bytes, second: Bytes)
    requires Inv(start) && start.mode == Zero
    ensures Follows(be, draws, first, second, start, [])
  {
  }

  lemma {:induction false} CallsFollow(be: Backend, draws: nat -> Bytes, start: State, first: Bytes, second: Bytes,
                                       calls: seq<Bytes>)
    requires Inv(start) && start.mode == Zero && ParseA(second) == None
    requires InTurn(be, draws, start, first, second, calls)
    ensures var (s, e) := Net.Handle(Shell(be, draws), Server(start, 0), calls);
            Follows(be, draws, first, second, s.session, e)
    decreases |calls|
  {
    hide Follows, Inv, Shell, InTurn;
    NothingFollows(be, draws, start, first, second);
    if calls != [] {
      var n := |calls| - 1;
      var before := calls[..n];
      InTurnBefore(be, draws, start, first, second, calls);
      CallsFollow(be, draws, start, first, second, before);
      assert calls == before + [calls[n]];
      NextCallFollows(be, draws, start, first, second, before, calls[n]);
      hide *;
    }
  }

  lemma InTurnBefore(be: Backend, draws: nat -> Bytes, start: State, first: Bytes, second: Bytes, calls: seq<Bytes>)
    requires InTurn(be, draws, start, first, second, calls) && calls != []
    ensures var n := |calls| - 1;
            var k := |Net.Handle(Shell(be, draws), Server(start, 0), calls[..n]).1|;
            && InTurn(be, draws, start, first, second, calls[..n])
            && k < 2 && calls[n] == if k == 0 then first else second
  {
    hide Shell, Net.Handle;
    var before := calls[..|calls| - 1];
    assert forall i :: 0 <= i < |before| ==> before[..i] == calls[..i];
  }

  lemma NextCallFollows(be: Backend, draws: nat -> Bytes, start: State, first: Bytes, second: Bytes, before: seq<Bytes>,
                        request: Bytes)
    requires ParseA(second) == None
    requires var (s, e) := Net.Handle(Shell(be, draws), Server(start, 0), before);
             Follows(be, draws, first, second, s.session, e) && |e| < 2 && request == if |e| == 0 then first else second
    ensures var (s, e) := Net.Handle(Shell(be, draws), Server(start, 0), before + [request]);
            Follows(be, draws, first, second, s.session, e)
  {
    hide Follows, Shell, Net.Number, Net.Handle;
    var (s, e) := Net.Handle(Shell(be, draws), Server(start, 0), before);
    Net.HandleOneMore(Shell(be, draws), Server(start, 0), before, request);
    if e == [] {
      FirstCallFollows(be, draws, first, second, s);
    } else {
      SecondCallFollows(be, draws, first, second, s, e);
    }
  }

  // ---------------------------------------------------------------- theorems

  /** A run of the two ends at whose end the application has issued these two
      requests, nothing after a failure, and both calls have returned true. */
  ghost predicate TwoCalls(be: Backend, draws: nat -> Bytes, start: State, c: Net.Config<Server>,
                           actions: seq<Net.Action>, first: Bytes, second: Bytes, s: Net.System<Server>) {
    && Inv(start) && start.mode == Zero
    && c.handler == Shell(be, draws) && c.policy == Net.Never
    && Net.Possible(c, Net.Start(Server(start, 0)), actions) && s == Net.After(c, Net.Start(Server(start, 0)), actions)
    && |s.issued| == |s.returned| == 2 && s.issued[0].request == first && s.issued[1].request == second
  }

  lemma SessionFollows(be: Backend, draws: nat -> Bytes, start: State, c: Net.Config<Server>, actions: seq<Net.Action>,
                       first: Bytes, second: Bytes, s: Net.System<Server>)
    requires TwoCalls(be, draws, start, c, actions, first, second, s) && ParseA(second) == None
    ensures |s.processed| == 2 && Follows(be, draws, first, second, s.server.app.session, s.processed)
    ensures s.returned == [Net.Return(first, s.processed[0].response), Net.Return(second, s.processed[1].response)]
  {
    hide Inv, Process, Follows, Shell, Net.Number, Net.Possible, Net.After, Net.Handle;
    Net.ExactlyOnceInOrder(c, Server(start, 0), actions);
    forall i | 0 <= i < |s.calls|
      ensures var k := |Net.Handle(Shell(be, draws), Server(start, 0), s.calls[..i]).1|;
              k < 2 && s.calls[i] == if k == 0 then first else second
    {
      assert Net.Issued(|Net.Handle(c.handler, Server(start, 0), s.calls[..i]).1|, s.calls[i]) in s.issued;
    }
    CallsFollow(be, draws, start, first, second, s.calls);
  }

  /** The client got salt and B out of the first response and went on from there. */
  predicate GoesOn(p: Params, username: Bytes, password: Bytes, aa: Bytes, AA: Bytes, response: Bytes, client: Proofs) {
    match ParseP(response)
    case None => false
    case Some((salt, B)) => ClientChallenge(p, salt, aa, AA, B, username, password, true) == Ok(client)
  }

  /** An A message in ZERO: either the session goes to ALPHA with a verificator for
      this user and A, or its answer is not one a client goes on from. */
  lemma AfterA(be: Backend, s: State, d: Datagram, username: Bytes, AA: Bytes)
    requires Inv(s) && s.mode == Zero && d.request == MessageA(username, AA)
    requires 0 !in username && username != [] && |AA| >= 64
    ensures var step := Process(be, s, d);
            var t := step.state;
            if t.mode == Alpha then
              && t.username == username && t.A == AA && t.ver.Some?
              && GetVerificator(be, username, AA, d.b) == Ok(t.ver.value)
              && step.response == MessageP(t.ver.value.salt, t.ver.value.B)
              && (step.response.Some? ==> ParseP(step.response.value) == Some((t.ver.value.salt, t.ver.value.B)))
            else t.mode == Zero && (step.response.Some? ==> ParseP(step.response.value) == None)
  {
    ParseMessageA(username, AA);
    hide GetVerificator, MessageA, ParseA, ParseP, Failed;
    ParseMessageP([], [], USERNOTFOUND);
    ParseMessageP([], [], SRPERROR);
    var t := Process(be, s, d).state;
    if t.mode == Alpha {
      ParseMessageP(t.ver.value.salt, t.ver.value.B, 1);
    }
  }

  /** A B message in ALPHA: if the answer carries an M2 the session has accepted. */
  lemma AfterB(be: Backend, s: State, d: Datagram, M1: Bytes)
    requires Inv(s) && s.mode == Alpha && d.request == MessageB(M1)
    ensures var step := Process(be, s, d);
            var t := step.state;
            var proofs := s.ver.value.proofs;
            if t.mode == Beta then
              && proofs.M1 == M1 && t.K == proofs.K && t.ver == s.ver && t.username == s.username
              && step.response.Some? && ParseQ(step.response.value) == Some(proofs.M2)
            else step.response.Some? ==> ParseQ(step.response.value) == None
  {
    assert ParseB(MessageB(M1)).Some? ==> ParseB(MessageB(M1)).value == M1;
    hide MessageB, ParseB, ParseQ, Failed;
    ParseMessageQ(s.ver.value.proofs.M2, ENC_MSGTYPE_Q, PARSINGFAILED);
    ParseMessageQ(s.ver.value.proofs.M2, ENC_MSGTYPE_Q, AUTHENTICATIONFAILED);
  }

  /** In ZERO a B message gets an answer without an M2. */
  lemma BInZero(be: Backend, s: State, d: Datagram, M1: Bytes)
    requires s.mode == Zero && d.request == MessageB(M1)
    ensures Process(be, s, d).response.Some? && ParseQ(Process(be, s, d).response.value) == None
  {
    MalformedFirstMessage(be, s, d);
    hide Process;
  }

  /** M2 is bound to A, M1 and the key. */
  lemma M2Binds(p: Params, username: Bytes, salt: Bytes, AA: Bytes, BB: Bytes, S: nat, proofs: Proofs)
    requires Prove(p, username, salt, AA, BB, S, true) == Ok(proofs)
    ensures proofs.M2 == ServerProof(p.hash, AA, proofs.M1, proofs.K)
  {
    hide ServerProof, ClientProof, SessionKey;
  }

  lemma ServerBinds(be: Backend, username: Bytes, AA: Bytes, b: Bytes, ver: SrpVerificator)
    requires GetVerificator(be, username, AA, b) == Ok(ver)
    ensures ver.proofs.M2 == ServerProof(be.params.hash, AA, ver.proofs.M1, ver.proofs.K)
  {
    hide ServerProof, ClientProof, SessionKey, ServersU, ServerSecret, ServerPublic;
  }

  lemma ClientBinds(p: Params, username: Bytes, password: Bytes, aa: Bytes, AA: Bytes, response: Bytes, client: Proofs)
    requires GoesOn(p, username, password, aa, AA, response, client)
    ensures client.M2 == ServerProof(p.hash, AA, client.M1, client.K)
  {
    hide ServerProof, ClientProof, SessionKey, ClientsU, PrivateKey, ReducedClientSecret, ParseP;
  }

  /** Over the network, whatever it loses, repeats or reorders: a client that gets the
      M2 it expects knows that the server is in BETA for its user and its A, that the
      server has authenticated it, and that the server's key gives that M2 too, so the
      keys are the same unless the hash collides on them. */
  lemma AuthenticatedOverNetwork(be: Backend, draws: nat -> Bytes, start: State, c: Net.Config<Server>,
                                 actions: seq<Net.Action>, s: Net.System<Server>, username: Bytes, password: Bytes,
                                 aa: Bytes, AA: Bytes, client: Proofs)
    requires 0 !in username && username != [] && |AA| >= 64
    requires TwoCalls(be, draws, start, c, actions, MessageA(username, AA), MessageB(client.M1), s)
    requires GoesOn(be.params, username, password, aa, AA, s.returned[0].response, client)
    requires ParseQ(s.returned[1].response) == Some(client.M2)
    ensures var t := s.server.app.session;
            && t.mode == Beta && t.username == username && t.ver.Some? && t.K == t.ver.value.proofs.K
            && t.ver.value.proofs.M1 == client.M1
            && ServerProof(be.params.hash, AA, client.M1, t.K) == client.M2
               == ServerProof(be.params.hash, AA, client.M1, client.K)
  {
    SessionFollows(be, draws, start, c, actions, MessageA(username, AA), MessageB(client.M1), s);
    var e, left := s.processed, Made(be, draws, 0, s.processed[0]).state;
    var d := Datagram(Net.Number(1), e[1].request, draws(e[1].app.calls));
    ClientBinds(be.params, username, password, aa, AA, s.returned[0].response, client);
    AfterA(be, e[0].app.session, Datagram(Net.Number(0), e[0].request, draws(e[0].app.calls)), username, AA);
    if e[1].app.session.mode == Zero {
      BInZero(be, e[1].app.session, d, client.M1);
    } else {
      AfterB(be, left, d, client.M1);
      ServerBinds(be, username, AA, draws(e[0].app.calls), left.ver.value);
    }
    hide *;
  }

  /** A user registered with this password, under the parameters of the shell. */
  predicate RightPassword(be: Backend, username: Bytes, password: Bytes, aa: Bytes, AA: Bytes) {
    && be.params.Set() && be.params.hash.outputLen == 20 && be.params.group.N >= Pow(2, 1023)
    && username in be.users && password != [] && username != [] && 0 !in username
    && CalculateVerificator(be.params, username, password, be.users[username].salt)
        == Ok(be.users[username].verificator)
    && |aa| == 32 && CalculateA(be.params, aa) == Ok(AA) && 64 <= |AA| == |BytesOf(be.params.group.N)|
  }

  /** A client that goes on has found its u not to be 0, and the server's is the same. */
  lemma ServersUIsNotZero(be: Backend, username: Bytes, password: Bytes, aa: Bytes, AA: Bytes, b: Bytes,
                          ver: SrpVerificator, client: Proofs)
    requires RightPassword(be, username, password, aa, AA) && GetVerificator(be, username, AA, b) == Ok(ver)
    requires ClientChallenge(be.params, ver.salt, aa, AA, ver.B, username, password, true) == Ok(client)
    ensures ServersU(be.params, AA, ver.B) != 0
  {
    hide Pow, Prove, ReducedClientSecret, PrivateKey, ClientsU, ServersU, CalculateVerificator;
    SameU(be.params, AA, ver.B);
  }

  /** In ALPHA a B message with the right password's M1 is accepted. */
  lemma RightPasswordAccepted(be: Backend, s: State, d: Datagram, e: Datagram, username: Bytes, password: Bytes,
                              aa: Bytes, AA: Bytes, client: Proofs)
    requires RightPassword(be, username, password, aa, AA) && Inv(s) && s.mode == Zero
    requires d.request == MessageA(username, AA) && e.request == MessageB(client.M1)
    requires var step := Process(be, s, d);
             step.response.Some? && GoesOn(be.params, username, password, aa, AA, step.response.value, client)
    ensures var left := Process(be, s, d).state;
            var t := Process(be, left, e).state;
            && t.mode == Beta && t.K == client.K && t.username == username
            && Process(be, left, e).response.Some? && ParseQ(Process(be, left, e).response.value) == Some(client.M2)
  {
    var step := Process(be, s, d);
    AfterA(be, s, d, username, AA);
    ProcessKeepsInv(be, s, d);
    var ver := step.state.ver.value;
    assert ver.salt == be.users[username].salt;
    ServersUIsNotZero(be, username, password, aa, AA, d.b, ver, client);
    RightPasswordLogsIn(be, s, username, password, aa, AA, d, e, ver, Ok(client));
    OneStep(be, s, d);
    RunSplits(be, s, [d], [e]);
    assert [d] + [e] == [d, e];
    OneStep(be, step.state, e);
    AfterB(be, step.state, e, client.M1);
    hide *;
  }

  /** With the right password the second true return finds the server in BETA with the
      client's key, and it carries the M2 that the client expects. */
  lemma RightPasswordOverNetwork(be: Backend, draws: nat -> Bytes, start: State, c: Net.Config<Server>,
                                 actions: seq<Net.Action>, s: Net.System<Server>, username: Bytes, password: Bytes,
                                 aa: Bytes, AA: Bytes, client: Proofs)
    requires RightPassword(be, username, password, aa, AA)
    requires TwoCalls(be, draws, start, c, actions, MessageA(username, AA), MessageB(client.M1), s)
    requires GoesOn(be.params, username, password, aa, AA, s.returned[0].response, client)
    ensures var t := s.server.app.session;
            t.mode == Beta && t.username == username && t.K == client.K
    ensures ParseQ(s.returned[1].response) == Some(client.M2)
  {
    SessionFollows(be, draws, start, c, actions, MessageA(username, AA), MessageB(client.M1), s);
    var e, left := s.processed, Made(be, draws, 0, s.processed[0]).state;
    var d := Datagram(Net.Number(0), e[0].request, draws(e[0].app.calls));
    hide RightPassword, GoesOn, CalculateA, ParseQ;
    forall b: Bytes
      ensures var step := Process(be, left, Datagram(Net.Number(1), MessageB(client.M1), b));
              && step.state.mode == Beta && step.state.K == client.K && step.state.username == username
              && step.response.Some? && ParseQ(step.response.value) == Some(client.M2)
    {
      var f := Datagram(Net.Number(1), MessageB(client.M1), b);
      RightPasswordAccepted(be, e[0].app.session, d, f, username, password, aa, AA, client);
    }
    hide Process;
  }
}
