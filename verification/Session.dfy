/** shell/session.cpp: the object, proved against SessionSpec. */
module Session {
  import opened Octets
  import opened Wrappers
  import opened SrpSpec
  import opened Srp
  import opened SessionSpec

  /** enc_parse_A_message */
  method ParseAMessage(m: Bytes) returns (ok: bool, username: Bytes, A: Bytes)
    ensures ParseA(m) == if ok then Some((username, A)) else None
  {
    ok, username, A := false, [], [];
    if |m| < 2 + 1 + 64 {
      return;
    }
    if m[0] != ENC_PROTOCOL_ID {
      return;
    }
    if m[1] != ENC_MSGTYPE_A {
      return;
    }
    var iter := 2;
    while iter < |m|
      invariant 2 <= iter <= |m| && FirstZero(m, iter) == FirstZero(m, 2)
    {
      if m[iter] == 0 {
        break;
      }
      iter := iter + 1;
    }
    if iter == |m| {
      return;
    }
    return true, m[2..iter], m[iter + 1..];
  }

  class Session {
    const server: SrpServer
    const derive: Bytes -> Option<Keys>
    const encryptor: Bytes -> bool
    const decryptor: Bytes -> bool
    const application: (Bytes, Bytes, nat, Bytes) -> Handled
    var mode: Mode
    var srpUsername: Bytes
    var srpA: Bytes
    var sessionK: Bytes
    var ver: Option<SrpVerificator>
    var enc: Option<Bytes>
    var dec: Option<Bytes>

    ghost function Back(): Backend
      reads server
    {
      Backend(server.math.P(), server.users, derive, encryptor, decryptor, application)
    }

    ghost function Abstract(): State
      reads this
    {
      State(mode, srpUsername, srpA, sessionK, ver, enc, dec)
    }

    constructor (server: SrpServer, derive: Bytes -> Option<Keys>, encryptor: Bytes -> bool, decryptor: Bytes -> bool,
                 application: (Bytes, Bytes, nat, Bytes) -> Handled)
      ensures Abstract() == BEGIN && this.server == server
      ensures Back() == Backend(server.math.P(), server.users, derive, encryptor, decryptor, application)
    {
      this.server, this.derive, this.encryptor, this.decryptor, this.application :=
        server, derive, encryptor, decryptor, application;
      mode, srpUsername, srpA, sessionK, ver, enc, dec := Zero, [], [], [], None, None, None;
    }

    method ResetState()
      modifies this
      ensures Abstract() == Reset(old(Abstract()))
    {
      mode := Zero;
      srpUsername := [];
      srpA := [];
      sessionK := [];
      if enc.Some? {
        enc := None;
      }
      if dec.Some? {
        dec := None;
      }
    }

    /** `ok` is false when it throws. */
    method InitCrypto() returns (ok: bool)
      modifies this
      ensures (Abstract(), ok) == SessionSpec.InitCrypto(Back(), old(Abstract()))
      ensures ok && old(enc) == None ==>
                && derive(sessionK).Some?
                && enc == Some(derive(sessionK).value.enc) && dec == Some(derive(sessionK).value.dec)
    {
      if enc.Some? && dec.None? {
        return false;
      }
      if enc.None? && dec.Some? {
        return false;
      }
      if enc.Some? {
        return true;
      }
      var keys := derive(sessionK);
      if keys.None? || !encryptor(keys.value.enc) {
        return false;
      }
      enc := Some(keys.value.enc);
      if !decryptor(keys.value.dec) {
        return false;
      }
      dec := Some(keys.value.dec);
      return true;
    }

    method InZeroMode(d: Datagram) returns (ok: bool, response: Bytes)
      requires mode == Zero && server.interleave
      modifies this
      ensures Step(Abstract(), if ok then Some(response) else None) == InZero(Back(), old(Abstract()), d)
    {
      hide ServerChallenge, ParseA, MessageP;
      ResetState();
      response := [];
      var parsed, username, A := ParseAMessage(d.request);
      if parsed {
        srpUsername, srpA := username, A;
      } else {
        response := Failed(ENC_MSGTYPE_P, PARSINGFAILED);
      }
      var v := server.GetVerificator(srpUsername, srpA, d.b);
      if v.Err? {
        response := Failed(ENC_MSGTYPE_P, if v.failure == UserNotFound then USERNOTFOUND else SRPERROR);
        ResetState();
        return true, response;
      }
      ver := Some(v.value);
      var m := MessageP(v.value.salt, v.value.B);
      if m.None? {
        ResetState();
        return false, response;
      }
      response := m.value;
      mode := Alpha;
      return true, response;
    }

    method InAlphaMode(d: Datagram) returns (ok: bool, response: Bytes)
      requires mode == Alpha
      modifies this
      ensures Step(Abstract(), if ok then Some(response) else None) == InAlpha(old(Abstract()), d)
    {
      var M1 := ParseB(d.request);
      if M1.None? {
        ResetState();
        return true, Failed(ENC_MSGTYPE_Q, PARSINGFAILED);
      }
      var proofs: SrpSpec.Result<Proofs> := Err(ZeroParameter);
      if ver.Some? {
        proofs := AuthenticateClient(ver.value, M1.value);
      }
      if proofs.Err? {
        ResetState();
        return true, Failed(ENC_MSGTYPE_Q, AUTHENTICATIONFAILED);
      }
      sessionK := proofs.value.K;
      var m := MessageQ(proofs.value.M2);
      if m.None? {
        ResetState();
        return false, [];
      }
      mode := Beta;
      return true, m.value;
    }

    method InBetaMode(d: Datagram) returns (ok: bool, response: Bytes)
      requires mode == Beta
      modifies this
      ensures Step(Abstract(), if ok then Some(response) else None) == InBeta(Back(), old(Abstract()), d)
    {
      response := [];
      var message := ParseC(d.request);
      if message.None? {
        ResetState();
        return false, response;
      }
      ok := InitCrypto();
      if !ok || message.value == [] {
        ResetState();
        return false, response;
      }
      var handled := application(enc.value, dec.value, d.number, message.value);
      if !handled.Answered? {
        ResetState();
        return false, response;
      }
      return true, MessageR(handled.response);
    }

    method ProcessDatagram(d: Datagram) returns (ok: bool, response: Bytes)
      requires server.interleave
      modifies this
      ensures Step(Abstract(), if ok then Some(response) else None) == Process(Back(), old(Abstract()), d)
    {
      hide InZero, InAlpha, InBeta;
      match mode
      case Zero => ok, response := InZeroMode(d);
      case Alpha => ok, response := InAlphaMode(d);
      case Beta => ok, response := InBetaMode(d);
      case Fault => ok, response := true, [];
    }
  }
}
