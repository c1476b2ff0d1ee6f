/** The login session of the shell server (shell/session.cpp) as a state machine,
    with the messages it parses and builds (shell/messageconstructor.cpp). */
module SessionSpec {
  import opened Octets
  import opened Wrappers
  import opened SrpArithmetic
  import opened SrpAgreement
  import opened SrpSpec
  import opened Srp

  // --------------------------------------------------------------- messages

  const ENC_PROTOCOL_ID: Byte := 0x45
  const ENC_MSGTYPE_A: Byte := 0x41
  const ENC_MSGTYPE_B: Byte := 0x42
  const ENC_MSGTYPE_C: Byte := 0x43
  const ENC_MSGTYPE_P: Byte := 0x50
  const ENC_MSGTYPE_Q: Byte := 0x51
  const ENC_MSGTYPE_R: Byte := 0x52

  const SRPERROR: Byte := 2
  const PARSINGFAILED: Byte := 3
  const USERNOTFOUND: Byte := 4
  const AUTHENTICATIONFAILED: Byte := 5

  predicate HasHeader(m: Bytes, kind: Byte, least: nat) {
    |m| >= 2 + least && m[0] == ENC_PROTOCOL_ID && m[1] == kind
  }

  /** The first zero byte of m from `from` on, or |m|. */
  function FirstZero(m: Bytes, from: nat): (z: nat)
    requires from <= |m|
    ensures from <= z <= |m|
    ensures z < |m| ==> m[z] == 0
    ensures forall i :: from <= i < z ==> m[i] != 0
    decreases |m| - from
  {
    if from == |m| || m[from] == 0 then from else FirstZero(m, from + 1)
  }

  /** User name and A. */
  function ParseA(m: Bytes): Option<(Bytes, Bytes)> {
    if !HasHeader(m, ENC_MSGTYPE_A, 1 + 64) then None
    else
      var z := FirstZero(m, 2);
      if z == |m| then None else Some((m[2..z], m[z + 1..]))
  }

  /** M1 */
  function ParseB(m: Bytes): Option<Bytes> {
    if !HasHeader(m, ENC_MSGTYPE_B, 16) || |m| - 2 > 512 then None else Some(m[2..])
  }

  function ParseC(m: Bytes): Option<Bytes> {
    if !HasHeader(m, ENC_MSGTYPE_C, 0) then None else Some(m[2..])
  }

  function Failed(kind: Byte, code: Byte): Bytes {
    [ENC_PROTOCOL_ID, kind, code]
  }

  function MessageP(salt: Bytes, B: Bytes): Option<Bytes> {
    if 16 <= |salt| <= 64 && 64 <= |B| <= 1024
    then Some([ENC_PROTOCOL_ID, ENC_MSGTYPE_P, 0, |salt|] + salt + B)
    else None
  }

  function MessageQ(M2: Bytes): Option<Bytes> {
    if 16 <= |M2| <= 512 then Some([ENC_PROTOCOL_ID, ENC_MSGTYPE_Q, 0] + M2) else None
  }

  function MessageR(response: Bytes): Bytes {
    [ENC_PROTOCOL_ID, ENC_MSGTYPE_R, 0] + response
  }

  /** The client's two messages. */
  function MessageA(username: Bytes, A: Bytes): Bytes {
    [ENC_PROTOCOL_ID, ENC_MSGTYPE_A] + username + [0] + A
  }

  function MessageB(M1: Bytes): Bytes {
    [ENC_PROTOCOL_ID, ENC_MSGTYPE_B] + M1
  }

  lemma ParseMessageA(username: Bytes, A: Bytes)
    requires 0 !in username && username != [] && |A| >= 64
    ensures ParseA(MessageA(username, A)) == Some((username, A))
  {
    var m := MessageA(username, A);
    assert m[2 + |username|] == 0;
    assert forall i :: 2 <= i < 2 + |username| ==> m[i] == username[i - 2];
    assert m[2..2 + |username|] == username;
    assert m[3 + |username|..] == A;
  }

  lemma ParseMessageB(M1: Bytes)
    requires 16 <= |M1| <= 512
    ensures ParseB(MessageB(M1)) == Some(M1)
  {
  }

  /** Salt and B as the client reads them, if the server reports no error. */
  function ParseP(m: Bytes): Option<(Bytes, Bytes)> {
    if !HasHeader(m, ENC_MSGTYPE_P, 1) || m[2] != 0 || |m| < 3 + 1 + 16 + 64 || !(16 <= m[3] <= 64) then None
    else if !(64 <= |m| - 4 - m[3] <= 1024) then None
    else Some((m[4..4 + m[3]], m[4 + m[3]..]))
  }

  /** M2 likewise. */
  function ParseQ(m: Bytes): Option<Bytes> {
    if !HasHeader(m, ENC_MSGTYPE_Q, 1) || m[2] != 0 || |m| < 3 + 16 then None else Some(m[3..])
  }

  /** What the client takes for salt and B is what the server put there. */
  lemma ParseMessageP(salt: Bytes, B: Bytes, code: Byte)
    ensures MessageP(salt, B).Some? ==> ParseP(MessageP(salt, B).value) == Some((salt, B))
    ensures code != 0 ==> ParseP(Failed(ENC_MSGTYPE_P, code)) == None
  {
    if MessageP(salt, B).Some? {
      var m := MessageP(salt, B).value;
      assert m[4..4 + |salt|] == salt && m[4 + |salt|..] == B;
    }
  }

  lemma ParseMessageQ(M2: Bytes, kind: Byte, code: Byte)
    ensures MessageQ(M2).Some? ==> ParseQ(MessageQ(M2).value) == Some(M2)
    ensures code != 0 ==> ParseQ(Failed(kind, code)) == None
  {
    if MessageQ(M2).Some? {
      assert MessageQ(M2).value[3..] == M2;
    }
  }

  // What the parsers accept, byte by byte, without the names of the parts.

  lemma ParseAExactly(m: Bytes, username: Bytes, A: Bytes)
    ensures ParseA(m) == Some((username, A))
       <==> |m| >= 67 && 0 !in username && m == [0x45, 0x41] + username + [0] + A
  {
    if |m| >= 67 && 0 !in username && m == [0x45, 0x41] + username + [0] + A {
      assert m[2 + |username|] == 0;
      assert forall i :: 2 <= i < 2 + |username| ==> m[i] == username[i - 2];
      assert m[2..2 + |username|] == username && m[3 + |username|..] == A;
    }
    if ParseA(m) == Some((username, A)) {
      assert m == [m[0], m[1]] + m[2..2 + |username|] + [m[2 + |username|]] + m[3 + |username|..];
    }
  }

  lemma ParseBExactly(m: Bytes, M1: Bytes)
    ensures ParseB(m) == Some(M1) <==> 16 <= |M1| <= 512 && m == [0x45, 0x42] + M1
  {
    if ParseB(m) == Some(M1) {
      assert m == [m[0], m[1]] + m[2..];
    }
  }

  lemma ParseCExactly(m: Bytes, c: Bytes)
    ensures ParseC(m) == Some(c) <==> m == [0x45, 0x43] + c
  {
    if ParseC(m) == Some(c) {
      assert m == [m[0], m[1]] + m[2..];
    }
  }

  lemma ParsePExactly(m: Bytes, salt: Bytes, B: Bytes)
    ensures ParseP(m) == Some((salt, B))
       <==> 16 <= |salt| <= 64 && 64 <= |B| <= 1024 && m == [0x45, 0x50, 0, |salt|] + salt + B
    ensures MessageP(salt, B) == (if 16 <= |salt| <= 64 && 64 <= |B| <= 1024
                                  then Some([0x45, 0x50, 0, |salt|] + salt + B) else None)
  {
    if MessageP(salt, B).Some? {
      ParseMessageP(salt, B, 1);
    }
    if ParseP(m) == Some((salt, B)) {
      assert m == [m[0], m[1], m[2], m[3]] + m[4..4 + |salt|] + m[4 + |salt|..];
    }
  }

  lemma ParseQExactly(m: Bytes, M2: Bytes)
    ensures ParseQ(m) == Some(M2) <==> 16 <= |M2| && m == [0x45, 0x51, 0] + M2
    ensures MessageQ(M2) == if 16 <= |M2| <= 512 then Some([0x45, 0x51, 0] + M2) else None
  {
    if ParseQ(m) == Some(M2) {
      assert m == [m[0], m[1], m[2]] + m[3..];
    }
  }

  // ------------------------------------------------------------------ state

  datatype Mode = Zero | Alpha | Beta | Fault

  /** What a key derivation yields for the two directions. */
  datatype Keys = Keys(enc: Bytes, dec: Bytes)

  datatype Handled = Answered(response: Bytes) | Declined | Threw

  /** What the session calls: SRP with a user table, key derivation, the two
      cipher constructors (which may throw) and the encrypted request handler. */
  datatype Backend = Backend(
    params: Params, users: map<Bytes, User>,
    derive: Bytes -> Option<Keys>, encryptor: Bytes -> bool, decryptor: Bytes -> bool,
    application: (Bytes, Bytes, nat, Bytes) -> Handled)

  datatype State = State(
    mode: Mode, username: Bytes, A: Bytes, K: Bytes, ver: Option<SrpVerificator>,
    enc: Option<Bytes>, dec: Option<Bytes>)

  const BEGIN := State(Zero, [], [], [], None, None, None)

  function Reset(s: State): State {
    State(Zero, [], [], [], s.ver, None, None)
  }

  /** A datagram with its number, and the random b drawn if one is needed. */
  datatype Datagram = Datagram(number: nat, request: Bytes, b: Bytes)

  /** The state after, and the response unless processDatagram returns false. */
  datatype Step = Step(state: State, response: Option<Bytes>)

  function GetVerificator(be: Backend, username: Bytes, A: Bytes, b: Bytes): SrpSpec.Result<SrpVerificator> {
    if username !in be.users then Err(UserNotFound)
    else
      var usr := be.users[username];
      match ServerChallenge(be.params, username, usr.salt, usr.verificator, A, b, true)
      case Err(e) => Err(e)
      case Ok(c) => Ok(SrpVerificator(username, usr.salt, c.B, c.proofs))
  }

  function InZero(be: Backend, s: State, d: Datagram): Step {
    var r := Reset(s);
    var t := match ParseA(d.request)
      case None => r
      case Some(p) => r.(username := p.0, A := p.1);
    match GetVerificator(be, t.username, t.A, d.b)
    case Err(e) =>
      Step(Reset(t), Some(Failed(ENC_MSGTYPE_P, if e == UserNotFound then USERNOTFOUND else SRPERROR)))
    case Ok(ver) =>
      match MessageP(ver.salt, ver.B)
      case None => Step(Reset(t.(ver := Some(ver))), None)
      case Some(m) => Step(t.(ver := Some(ver), mode := Alpha), Some(m))
  }

  function InAlpha(s: State, d: Datagram): Step {
    match ParseB(d.request)
    case None => Step(Reset(s), Some(Failed(ENC_MSGTYPE_Q, PARSINGFAILED)))
    case Some(M1) =>
      var proofs := if s.ver.Some? then Authenticate(s.ver.value.proofs, M1) else Err(ZeroParameter);
      match proofs
      case Err(_) => Step(Reset(s), Some(Failed(ENC_MSGTYPE_Q, AUTHENTICATIONFAILED)))
      case Ok(p) =>
        match MessageQ(p.M2)
        case None => Step(Reset(s), None)
        case Some(m) => Step(s.(K := p.K, mode := Beta), Some(m))
  }

  /** initCrypto: the state it leaves behind and whether it returned normally. */
  function InitCrypto(be: Backend, s: State): (State, bool) {
    if s.enc.Some? != s.dec.Some? then (s, false)
    else if s.enc.Some? then (s, true)
    else
      match be.derive(s.K)
      case None => (s, false)
      case Some(keys) =>
        if !be.encryptor(keys.enc) then (s, false)
        else
          var t := s.(enc := Some(keys.enc));
          if !be.decryptor(keys.dec) then (t, false) else (t.(dec := Some(keys.dec)), true)
  }

  function InBeta(be: Backend, s: State, d: Datagram): Step {
    match ParseC(d.request)
    case None => Step(Reset(s), None)
    case Some(message) =>
      var (t, ok) := InitCrypto(be, s);
      if !ok || t.enc.None? || t.dec.None? || message == [] then Step(Reset(t), None)
      else
        match be.application(t.enc.value, t.dec.value, d.number, message)
        case Answered(response) => Step(t, Some(MessageR(response)))
        case _ => Step(Reset(t), None)
  }

  /** processDatagram */
  function Process(be: Backend, s: State, d: Datagram): Step {
    match s.mode
    case Zero => InZero(be, s, d)
    case Alpha => InAlpha(s, d)
    case Beta => InBeta(be, s, d)
    case Fault => Step(s, Some([]))
  }

  // -------------------------------------------------------------- invariant

  /** Ciphers exist in pairs and only once authenticated; the key is the
      verificator's and there is none before. */
  predicate Inv(s: State) {
    && (s.enc.Some? <==> s.dec.Some?)
    && (s.enc.Some? ==> s.mode == Beta)
    && s.mode != Fault
    && (s.mode == Zero ==> s == Reset(s))
    && (s.mode == Alpha ==> s.ver.Some? && s.K == [])
    && (s.mode == Beta ==> s.ver.Some? && s.K == s.ver.value.proofs.K)
  }

  lemma ProcessKeepsInv(be: Backend, s: State, d: Datagram)
    requires Inv(s)
    ensures Inv(Process(be, s, d).state)
  {
  }

  /** A false return leaves no trace but the last verificator. */
  lemma FailureClears(be: Backend, s: State, d: Datagram)
    requires Inv(s) && Process(be, s, d).response == None
    ensures var t := Process(be, s, d).state; t == Reset(t)
  {
  }

  /** A first message that does not parse is reported as an unknown user, or as an
      SRP error when there is a user without a name; the parse error that was put
      into the response never gets out. */
  lemma MalformedFirstMessage(be: Backend, s: State, d: Datagram)
    requires s.mode == Zero && ParseA(d.request) == None
    ensures Process(be, s, d) == Step(Reset(s), Some([0x45, 0x50, if [] in be.users then 2 else 4]))
  {
  }

  /** A first message that parses: an unknown user is reported with code 4, a failure
      of SRP with code 2, and otherwise salt and B go out and the session waits for M1
      of this user, unless their sizes do not fit the message. */
  lemma AnswerInZero(be: Backend, s: State, d: Datagram, username: Bytes, A: Bytes)
    requires s.mode == Zero && ParseA(d.request) == Some((username, A))
    ensures var step := Process(be, s, d);
            if username !in be.users then step == Step(Reset(s), Some([0x45, 0x50, 4]))
            else
              var usr := be.users[username];
              match ServerChallenge(be.params, username, usr.salt, usr.verificator, A, d.b, true)
              case Err(e) => step == Step(Reset(s), Some([0x45, 0x50, 2]))
              case Ok(c) =>
                var ver := Some(SrpVerificator(username, usr.salt, c.B, c.proofs));
                if 16 <= |usr.salt| <= 64 && 64 <= |c.B| <= 1024
                then step == Step(State(Alpha, username, A, [], ver, None, None),
                                  Some([0x45, 0x50, 0, |usr.salt|] + usr.salt + c.B))
                else step == Step(State(Zero, [], [], [], ver, None, None), None)
  {
    hide ServerChallenge, ParseA;
    if username in be.users {
      var usr := be.users[username];
      SrpNeverMissesAUser(be.params, username, usr.salt, usr.verificator, A, d.b);
    }
  }

  lemma SrpNeverMissesAUser(p: Params, username: Bytes, salt: Bytes, verificator: Bytes, A: Bytes, b: Bytes)
    ensures ServerChallenge(p, username, salt, verificator, A, b, true) != Err(UserNotFound)
  {
    hide Digest, BytesOf, Value, ServersU, ServerSecret, ServerPublic, Alternate, Over, Mixed;
  }

  /** The second message: code 3 when it does not parse, code 5 when M1 is not the one
      expected, and otherwise M2 goes out and the session keeps the key. */
  lemma AnswerInAlpha(be: Backend, s: State, d: Datagram, ver: SrpVerificator)
    requires s.mode == Alpha && s.ver == Some(ver) && |ver.proofs.M1| > 0
    ensures var step := Process(be, s, d);
            match ParseB(d.request)
            case None => step == Step(Reset(s), Some([0x45, 0x51, 3]))
            case Some(M1) =>
              if M1 != ver.proofs.M1 then step == Step(Reset(s), Some([0x45, 0x51, 5]))
              else if 16 <= |ver.proofs.M2| <= 512
              then step == Step(s.(K := ver.proofs.K, mode := Beta), Some([0x45, 0x51, 0] + ver.proofs.M2))
              else step == Step(Reset(s), None)
  {
  }

  /** An encrypted request is answered exactly when it is a non-empty C message, the two
      ciphers are there or can be made from the derived keys, each from its own, and the
      application answers; the answer is then wrapped as it is. */
  lemma AnswerInBeta(be: Backend, s: State, d: Datagram, response: Bytes)
    requires Inv(s) && s.mode == Beta
    ensures Process(be, s, d).response == Some(response)
       <==> exists enc, dec, answer ::
              && Ciphers(be, s, enc, dec) && |d.request| > 2 && d.request[0] == 0x45 && d.request[1] == 0x43
              && be.application(enc, dec, d.number, d.request[2..]) == Answered(answer)
              && response == [0x45, 0x52, 0] + answer
    ensures Process(be, s, d).response == Some(response) ==>
              var t := Process(be, s, d).state;
              && t == s.(enc := t.enc, dec := t.dec) && t.enc.Some? && t.dec.Some?
              && Ciphers(be, s, t.enc.value, t.dec.value)
    ensures Process(be, s, d).response == None ==> Process(be, s, d).state == State(Zero, [], [], [], s.ver, None, None)
  {
    if Process(be, s, d).response == Some(response) {
      var t := Process(be, s, d).state;
      var answer := be.application(t.enc.value, t.dec.value, d.number, d.request[2..]).response;
      assert response == [0x45, 0x52, 0] + answer;
    }
  }

  /** The keys of the two ciphers of a session in BETA: those it has, or else those
      derived from its session key that both constructors accept. */
  predicate Ciphers(be: Backend, s: State, enc: Bytes, dec: Bytes) {
    if s.enc.Some? || s.dec.Some? then s.enc == Some(enc) && s.dec == Some(dec)
    else be.derive(s.K) == Some(Keys(enc, dec)) && be.encryptor(enc) && be.decryptor(dec)
  }

  /** A session with ciphers has those of the keys derived from its session key, the
      first for what it sends and the second for what it receives. */
  predicate Derived(be: Backend, s: State) {
    s.enc.Some? || s.dec.Some? ==>
      && be.derive(s.K).Some?
      && s.enc == Some(be.derive(s.K).value.enc) && s.dec == Some(be.derive(s.K).value.dec)
  }

  lemma ProcessKeepsDerived(be: Backend, s: State, d: Datagram)
    requires Inv(s) && Derived(be, s)
    ensures Derived(be, Process(be, s, d).state)
  {
  }

  // -------------------------------------------------------------------- runs

  function Run(be: Backend, s: State, ds: seq<Datagram>): State
    decreases |ds|
  {
    if ds == [] then s else Run(be, Process(be, s, ds[0]).state, ds[1..])
  }

  lemma {:induction false} RunKeepsInv(be: Backend, s: State, ds: seq<Datagram>)
    requires Inv(s)
    ensures Inv(Run(be, s, ds))
    decreases |ds|
  {
    if ds != [] {
      ProcessKeepsInv(be, s, ds[0]);
      RunKeepsInv(be, Process(be, s, ds[0]).state, ds[1..]);
    }
  }

  /** Over every sequence of datagrams. */
  lemma {:induction false} CiphersAreDerived(be: Backend, s: State, ds: seq<Datagram>)
    requires Inv(s) && Derived(be, s)
    ensures var t := Run(be, s, ds);
            t.enc.Some? || t.dec.Some? ==>
              && be.derive(t.K).Some?
              && t.enc == Some(be.derive(t.K).value.enc) && t.dec == Some(be.derive(t.K).value.dec)
    decreases |ds|
  {
    hide Process;
    if ds != [] {
      ProcessKeepsInv(be, s, ds[0]);
      ProcessKeepsDerived(be, s, ds[0]);
      CiphersAreDerived(be, Process(be, s, ds[0]).state, ds[1..]);
    }
  }

  lemma {:induction false} RunSplits(be: Backend, s: State, ds: seq<Datagram>, es: seq<Datagram>)
    ensures Run(be, s, ds + es) == Run(be, Run(be, s, ds), es)
    decreases |ds|
  {
    if ds == [] {
      assert ds + es == es;
    } else {
      assert (ds + es)[1..] == ds[1..] + es;
      RunSplits(be, Process(be, s, ds[0]).state, ds[1..], es);
    }
  }

  /** A login: d names a user and an A for which there is a verificator, and e
      carries the M1 that this verificator expects. */
  predicate Login(be: Backend, d: Datagram, e: Datagram, ver: SrpVerificator) {
    var a, M1 := ParseA(d.request), ParseB(e.request);
    && a.Some? && GetVerificator(be, a.value.0, a.value.1, d.b) == Ok(ver)
    && M1 == Some(ver.proofs.M1)
    && MessageP(ver.salt, ver.B).Some? && MessageQ(ver.proofs.M2).Some?
  }

  /** From ZERO two datagrams lead to BETA exactly when they are a login, and the
      session key is then the verificator's. */
  lemma TwoStepsToBeta(be: Backend, s: State, d: Datagram, e: Datagram)
    requires Inv(s) && s.mode == Zero
    ensures Run(be, s, [d, e]).mode == Beta <==> exists ver :: Login(be, d, e, ver)
    ensures forall ver :: Login(be, d, e, ver) ==>
              Run(be, s, [d, e]).K == ver.proofs.K && Run(be, s, [d, e]).ver == Some(ver)
  {
    var t := Process(be, s, d).state;
    var u := Process(be, t, e).state;
    assert [d, e][1..] == [e] && [e][1..] == [];
    assert Run(be, s, [d, e]) == Run(be, t, [e]) == Run(be, u, []) == u;
    if u.mode == Beta {
      assert t.mode == Alpha;
      assert Login(be, d, e, t.ver.value);
    }
  }

  /** The i-th datagram came in ZERO, it and the next are a login, and the session
      has been in BETA ever since. */
  ghost predicate Earned(be: Backend, ds: seq<Datagram>, i: nat, ver: SrpVerificator) {
    && i + 2 <= |ds|
    && Run(be, BEGIN, ds[..i]).mode == Zero
    && Login(be, ds[i], ds[i + 1], ver)
    && (forall j :: i + 2 <= j <= |ds| ==> Run(be, BEGIN, ds[..j]).mode == Beta)
  }

  /** Over every sequence of datagrams BETA is reached only through a login: the
      latest datagram taken in ZERO made the verificator and the next one
      authenticated against it. */
  lemma {:induction false} BetaIsEarned(be: Backend, ds: seq<Datagram>) returns (i: nat, ver: SrpVerificator)
    requires Run(be, BEGIN, ds).mode == Beta
    ensures Earned(be, ds, i, ver)
    ensures Run(be, BEGIN, ds).K == ver.proofs.K && Run(be, BEGIN, ds).ver == Some(ver)
    decreases |ds|
  {
    hide Process, Login;
    var n := |ds| - 1;
    var s := Run(be, BEGIN, ds[..n]);
    BetaNeedsDatagrams(be, ds);
    assert ds == ds[..n] + [ds[n]];
    RunSplits(be, BEGIN, ds[..n], [ds[n]]);
    RunKeepsInv(be, BEGIN, ds[..n]);
    OneStep(be, s, ds[n]);
    assert ds[..|ds|] == ds;
    if s.mode == Beta {
      i, ver := BetaIsEarned(be, ds[..n]);
      BetaKeepsKey(be, s, ds[n]);
      forall j | i + 2 <= j <= |ds|
        ensures Run(be, BEGIN, ds[..j]).mode == Beta
      {
        if j <= n {
          assert ds[..n][..j] == ds[..j];
        }
      }
      assert ds[..n][..i] == ds[..i];
    } else {
      EntersBeta(be, s, ds[n]);
      var m := n - 1;
      AlphaNeedsDatagrams(be, ds[..n]);
      assert ds[..n] == ds[..m] + [ds[m]] && ds[..n][..m] == ds[..m];
      RunSplits(be, BEGIN, ds[..m], [ds[m]]);
      RunKeepsInv(be, BEGIN, ds[..m]);
      OneStep(be, Run(be, BEGIN, ds[..m]), ds[m]);
      AlphaComesFromZero(be, Run(be, BEGIN, ds[..m]), ds[m]);
      assert ds == ds[..m] + [ds[m], ds[n]];
      RunSplits(be, BEGIN, ds[..m], [ds[m], ds[n]]);
      TwoStepsToBeta(be, Run(be, BEGIN, ds[..m]), ds[m], ds[n]);
      ver :| Login(be, ds[m], ds[n], ver);
      i := m;
    }
  }

  lemma OneStep(be: Backend, s: State, d: Datagram)
    ensures Run(be, s, [d]) == Process(be, s, d).state
  {
    assert [d][1..] == [];
    assert Run(be, s, [d]) == Run(be, Process(be, s, d).state, []);
  }

  lemma BetaNeedsDatagrams(be: Backend, ds: seq<Datagram>)
    requires Run(be, BEGIN, ds).mode == Beta
    ensures ds != []
  {
  }

  lemma AlphaNeedsDatagrams(be: Backend, ds: seq<Datagram>)
    requires Run(be, BEGIN, ds).mode == Alpha
    ensures ds != []
  {
  }

  lemma BetaKeepsKey(be: Backend, s: State, d: Datagram)
    requires Inv(s) && s.mode == Beta && Process(be, s, d).state.mode == Beta
    ensures Process(be, s, d).state.K == s.K && Process(be, s, d).state.ver == s.ver
  {
  }

  lemma EntersBeta(be: Backend, s: State, d: Datagram)
    requires Inv(s) && s.mode != Beta && Process(be, s, d).state.mode == Beta
    ensures s.mode == Alpha
  {
  }

  lemma AlphaComesFromZero(be: Backend, s: State, d: Datagram)
    requires Inv(s) && Process(be, s, d).state.mode == Alpha
    ensures s.mode == Zero
  {
  }

  // ------------------------------------------------------- the right password

  /** A registered user who answers with the client's half of SRP is logged in,
      and both ends hold the same session key. */
  lemma RightPasswordLogsIn(be: Backend, s: State, username: Bytes, password: Bytes, aa: Bytes, AA: Bytes,
                            d: Datagram, e: Datagram, ver: SrpVerificator, proofs: SrpSpec.Result<Proofs>)
    requires Inv(s) && s.mode == Zero
    requires be.params.Set() && be.params.hash.outputLen == 20 && be.params.group.N >= Pow(2, 1023)
    requires username in be.users && password != [] && 0 !in username
    requires CalculateVerificator(be.params, username, password, be.users[username].salt)
          == Ok(be.users[username].verificator)
    requires |aa| == 32 && CalculateA(be.params, aa) == Ok(AA) && 64 <= |AA| == |BytesOf(be.params.group.N)|
    requires d.request == MessageA(username, AA)
    requires GetVerificator(be, username, AA, d.b) == Ok(ver) && MessageP(ver.salt, ver.B).Some?
    requires ServersU(be.params, AA, ver.B) != 0
    requires proofs == ClientChallenge(be.params, ver.salt, aa, AA, ver.B, username, password, true)
    requires proofs.Ok? ==> e.request == MessageB(proofs.value.M1)
    ensures proofs == Ok(ver.proofs) && Run(be, s, [d, e]).mode == Beta && Run(be, s, [d, e]).K == ver.proofs.K
  {
    hide Pow, ClientChallenge, ServersU, Process, CalculateA;
    var usr := be.users[username];
    var c := Challenge(ver.B, ver.proofs);
    assert ServerChallenge(be.params, username, usr.salt, usr.verificator, AA, d.b, true) == Ok(c);
    Sha1HandshakeCompletes(be.params, username, password, usr.salt, usr.verificator, aa, AA, d.b, true, c);
    ProofLengths(be.params, username, usr.salt, usr.verificator, AA, d.b, c);
    hide ServerChallenge, CalculateVerificator;
    ParseMessageA(username, AA);
    ParseMessageB(ver.proofs.M1);
    assert Login(be, d, e, ver);
    TwoStepsToBeta(be, s, d, e);
  }

  lemma ProofLengths(p: Params, username: Bytes, salt: Bytes, verificator: Bytes, AA: Bytes, bb: Bytes, c: Challenge)
    requires ServerChallenge(p, username, salt, verificator, AA, bb, true) == Ok(c)
    ensures |c.proofs.M1| == p.hash.outputLen && |c.proofs.M2| == p.hash.outputLen && username != []
  {
    hide SessionKey, Digest, ServersU, ServerSecret, ServerPublic;
  }
}
