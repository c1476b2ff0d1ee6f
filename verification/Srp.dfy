/** The SRP objects: crypto/ossl/osslmathimpl.cpp and the client, server and
    verificator of crypto/dsrp.  Random numbers are parameters. */
module Srp {
  import opened Octets
  import opened SrpArithmetic
  import opened SrpAgreement
  import opened SrpSpec

  /** Lines 179-184: S of the client from the reduced temporaries. */
  lemma ClientTemporaries(p: Group, B: nat, a: nat, u: nat, x: nat)
    requires p.Valid()
    ensures ModExp(B - p.k * ModExp(p.g, x, p.N) % p.N, (a + u * x % p.N) % p.N, p.N)
         == ReducedClientSecret(p, B, a, u, x)
  {
    var gx := Pow(p.g, x);
    SumReduces(a, u * x, p.N);
    ProductReduces(gx, p.k, p.N);
    assert gx % p.N * p.k == p.k * (gx % p.N) && gx * p.k == p.k * gx;
    var mask := p.k * (gx % p.N) % p.N;
    assert mask == p.k * gx % p.N;
    RemainderIsUnique(mask, 0, mask, p.N);
    DifferenceReduces(B, mask, p.N);
    DifferenceReduces(B, p.k * gx, p.N);
    CongruentPowers(B - mask, B - p.k * gx, (a + u * x) % p.N, p.N);
  }

  /** Lines 274-276 and 308-310: B and S of the server from theirs. */
  lemma ServerTemporaries(p: Group, A: nat, b: nat, u: nat, v: nat)
    requires p.Valid()
    ensures (p.k * v % p.N + ModExp(p.g, b, p.N)) % p.N == ServerPublic(p, v, b)
    ensures ModExp(A * ModExp(v, u, p.N) % p.N, b, p.N) == ServerSecret(p, A, b, u, v)
  {
    SumReduces(Pow(p.g, b), p.k * v, p.N);
    SumReduces(p.k * v % p.N, Pow(p.g, b), p.N);
    ProductReduces(Pow(v, u), A, p.N);
    assert Pow(v, u) % p.N * A == A * ModExp(v, u, p.N) && Pow(v, u) * A == A * Pow(v, u);
    var s := A * ModExp(v, u, p.N);
    RemainderIsUnique(s % p.N, 0, s % p.N, p.N);
    CongruentPowers(s % p.N, A * Pow(v, u), b, p.N);
  }

  class OsslMathImpl {
    const hash: Hash
    const N: nat
    const g: nat
    const k: nat

    ghost function P(): Params {
      Params(hash, Group(N, g, k))
    }

    /** NN grows or shrinks to what gg leaves of twice its length, and gg follows:
        for a g no longer than N that is PAD(g).  A gg of more than twice the
        length of NN makes the resize throw. */
    constructor (hash: Hash, NN: Bytes, gg: Bytes)
      requires |gg| <= 2 * |NN|
      ensures this.hash == hash && N == Value(NN) && g == Value(gg)
      ensures |gg| <= |NN| ==> k == Value(Digest(hash, NN + Pad(gg, |NN|)))
      ensures |gg| > |NN| ==> k == Value(Digest(hash, NN[..2 * |NN| - |gg|] + gg))
    {
      var both := Resize(NN + [0], 2 * |NN| - |gg|);
      assert |gg| < |NN| ==> both == NN + Zeros(|NN| - |gg|);
      assert |gg| < |NN| ==> both + gg == NN + (Zeros(|NN| - |gg|) + gg);
      assert |gg| == |NN| ==> both == NN;
      assert |gg| > |NN| ==> both == NN[..2 * |NN| - |gg|];
      both := both + gg;
      this.hash := hash;
      this.N := Value(NN);
      this.g := Value(gg);
      this.k := Value(Digest(hash, both));
    }

    method CheckNg() returns (ok: bool)
      ensures ok <==> P().Set()
    {
      ok := N != 0 && g != 0 && k != 0;
    }

    method CalculateA(aa: Bytes) returns (r: Result<Bytes>)
      ensures r == SrpSpec.CalculateA(P(), aa)
      ensures r == if aa == [] then Err(ZeroParameter)
                   else if N == 0 || g == 0 || k == 0 then Err(NotSet)
                   else Ok(BytesOf(Pow(g, Value(aa)) % N))
    {
      if aa == [] {
        return Err(ZeroParameter);
      }
      var ok := CheckNg();
      if !ok {
        return Err(NotSet);
      }
      var a := Value(aa);
      var A := ModExp(g, a, N);
      return Ok(BytesOf(A));
    }

    method ClientChallange(salt: Bytes, aa: Bytes, AA: Bytes, BB: Bytes, username: Bytes, password: Bytes,
                           interleave: bool)
      returns (r: Result<Proofs>)
      ensures r == ClientChallenge(P(), salt, aa, AA, BB, username, password, interleave)
    {
      hide Digest, Value, BytesOf, ModExp, ReducedClientSecret, Prove;
      if salt == [] || aa == [] || AA == [] || BB == [] || username == [] || password == [] {
        return Err(ZeroParameter);
      }
      var ok := CheckNg();
      if !ok {
        return Err(NotSet);
      }
      var cu := [];
      var lenN := |BytesOf(N)|;
      if |AA| < lenN {
        cu := Resize(cu + [0], lenN - |AA|);
      }
      cu := AA + cu;
      if |BB| < lenN {
        cu := Resize(cu + [0], lenN - |BB|);
      }
      cu := cu + BB;
      assert cu == ClientU(AA, BB, lenN);
      var u := Value(Digest(hash, cu));
      var B := Value(BB);
      var hashUcp := Digest(hash, username + [58] + password);
      var x := Value(Digest(hash, salt + hashUcp));
      if B == 0 || u == 0 {
        return Err(ZeroBOrU);
      }
      var a := Value(aa);
      var tmp1 := u * x % N;
      var tmp2 := (a + tmp1) % N;
      tmp1 := ModExp(g, x, N);
      var tmp3 := k * tmp1 % N;
      var difference := B - tmp3;
      var S := ModExp(difference, tmp2, N);
      ClientTemporaries(Group(N, g, k), B, a, u, x);
      r := Finish(username, salt, AA, BB, S, interleave);
    }

    method ServerChallange(username: Bytes, salt: Bytes, verificator: Bytes, AA: Bytes, bb: Bytes, interleave: bool)
      returns (r: Result<Challenge>)
      ensures r == ServerChallenge(P(), username, salt, verificator, AA, bb, interleave)
    {
      hide Digest, Value, BytesOf, ModExp, ServerSecret, ServerPublic, Prove;
      if username == [] || salt == [] || verificator == [] || AA == [] || bb == [] {
        return Err(ZeroParameter);
      }
      var ok := CheckNg();
      if !ok {
        return Err(NotSet);
      }
      var A, b, v := Value(AA), Value(bb), Value(verificator);
      var tmp1 := A % N;
      if tmp1 == 0 || v == 0 {
        return Err(InvalidParameters);
      }
      tmp1 := k * v % N;
      var tmp2 := ModExp(g, b, N);
      var B := (tmp1 + tmp2) % N;
      var BOut := BytesOf(B);
      var cu := [];
      var lenN := |BytesOf(N)|;
      if |AA| < lenN {
        cu := Resize(cu + [0], lenN - |AA|);
      }
      cu := cu + AA;
      if |BOut| < lenN {
        cu := Resize(cu + [0], lenN - |BOut|);
      }
      cu := cu + BOut;
      assert cu == ServerU(AA, BOut, lenN);
      var u := Value(Digest(hash, cu));
      tmp1 := ModExp(v, u, N);
      tmp2 := A * tmp1 % N;
      var S := ModExp(tmp2, b, N);
      ServerTemporaries(Group(N, g, k), A, b, u, v);
      var proofs := Finish(username, salt, AA, BOut, S, interleave);
      match proofs
      case Err(e) => r := Err(e);
      case Ok(p) => r := Ok(Challenge(BOut, p));
    }

    /** Lines 187-208 and 311-336: K, M1 and M2 from S. */
    method Finish(username: Bytes, salt: Bytes, AA: Bytes, BB: Bytes, S: nat, interleave: bool)
      returns (r: Result<Proofs>)
      ensures r == Prove(P(), username, salt, AA, BB, S, interleave)
    {
      hide Digest, BytesOf;
      var SS := BytesOf(S);
      var K: Bytes;
      if !interleave {
        K := Digest(hash, SS);
      } else {
        var mixed := InterleaveS(SS);
        if mixed.Err? {
          return Err(mixed.failure);
        }
        K := mixed.value;
      }
      var M1 := CalculateM1(username, salt, AA, BB, K);
      if M1.Err? {
        return Err(M1.failure);
      }
      var toHashM2 := AA;
      toHashM2 := toHashM2 + M1.value;
      toHashM2 := toHashM2 + K;
      return Ok(Proofs(M1.value, Digest(hash, toHashM2), K));
    }

    method CalculateM1(username: Bytes, s: Bytes, A: Bytes, B: Bytes, K: Bytes) returns (r: Result<Bytes>)
      ensures r == ClientProof(P(), username, s, A, B, K)
    {
      hide Digest, BytesOf, XorByte;
      if username == [] || s == [] || A == [] || B == [] || K == [] {
        return Err(ZeroParameter);
      }
      var HN, Hg := Digest(hash, BytesOf(N)), Digest(hash, BytesOf(g));
      var HUsername := Digest(hash, username);
      var HXor := new Byte[hash.outputLen](_ => 0);
      for i := 0 to hash.outputLen
        invariant HXor[..i] == XorBytes(HN, Hg)[..i]
      {
        HXor[i] := XorByte(HN[i], Hg[i]);
      }
      assert HXor[..] == XorBytes(HN, Hg);
      var toHash := HXor[..];
      toHash := toHash + HUsername;
      toHash := toHash + s;
      toHash := toHash + A;
      toHash := toHash + B;
      toHash := toHash + K;
      return Ok(Digest(hash, toHash));
    }

    /** With N = 0 BN_mod_exp fails and nobody looks: the verificator is `left`,
        whatever the BIGNUM then holds. */
    method CalculateVerificator(username: Bytes, password: Bytes, salt: Bytes, left: nat) returns (r: Result<Bytes>)
      ensures N != 0 ==> r == SrpSpec.CalculateVerificator(P(), username, password, salt)
      ensures r.Ok? && N != 0 ==> Value(r.value) == Pow(g, PrivateKey(hash, salt, username, password)) % N
      ensures N == 0 ==>
                r == if username == [] || password == [] || salt == [] then Err(ZeroParameter) else Ok(BytesOf(left))
    {
      if username == [] || password == [] || salt == [] {
        return Err(ZeroParameter);
      }
      var hashUcp := Digest(hash, username + [58] + password);
      var x := Value(Digest(hash, salt + hashUcp));
      var v := if N == 0 then left else ModExp(g, x, N);
      ValueOfBytes(v);
      return Ok(BytesOf(v));
    }

    /** Copies every second byte of S, starting at `from`, to the front of E. */
    method CopyAlternate(E: array<Byte>, S: Bytes, from: nat)
      requires |Alternate(S, from)| <= E.Length
      modifies E
      ensures E[..] == Over(Alternate(S, from), old(E[..]))
    {
      ghost var half, was := Alternate(S, from), E[..];
      var halfit, itE := from, 0;
      while halfit < |S|
        invariant halfit == from + 2 * itE && itE <= |half|
        invariant halfit >= |S| ==> itE == |half|
        invariant E[..itE] == half[..itE] && E[itE..] == was[itE..]
      {
        E[itE] := S[halfit];
        assert S[halfit] == half[itE];
        assert E[itE + 1..] == was[itE..][1..];
        halfit, itE := halfit + 2, itE + 1;
      }
      assert half[..itE] == half;
    }

    method InterleaveS(S: Bytes) returns (r: Result<Bytes>)
      ensures r == Interleave(hash, S)
    {
      hide Digest, Alternate, Mixed, Over;
      if S == [] {
        return Err(ZeroParameter);
      }
      var it := 0;
      while it < |S| && S[it] == 0
        invariant it <= LeadingZeros(S)
      {
        it := it + 1;
      }
      assert it == LeadingZeros(S);
      if |S| % 2 != 0 {
        it := it + 1;
      }
      if it == |S| {
        return Err(Interleaving);
      }
      HalvesFit(S);
      var E := new Byte[|S| / 2](_ => 0);
      assert E[..] == Zeros(|S| / 2);
      CopyAlternate(E, S, it);
      var G := Digest(hash, E[..]);
      it := it + 1;
      CopyAlternate(E, S, it);
      var H := Digest(hash, E[..]);
      var K := Mix(G, H);
      return Ok(K);
    }

    method Mix(G: Bytes, H: Bytes) returns (mixed: Bytes)
      requires |G| == hash.outputLen && |H| == hash.outputLen
      ensures mixed == Mixed(G, H)
    {
      var K := new Byte[2 * hash.outputLen](_ => 0);
      for i := 0 to hash.outputLen
        invariant K[..2 * i] == Mixed(G, H)[..2 * i]
      {
        K[2 * i] := G[i];
        K[2 * i + 1] := H[i];
        assert Mixed(G, H)[2 * i] == G[i] && Mixed(G, H)[2 * i + 1] == H[i];
      }
      assert K[..] == Mixed(G, H);
      return K[..];
    }
  }

  // ------------------------------------------------------ crypto/dsrp

  class SrpClientAuthenticator {
    const username: Bytes
    const password: Bytes
    const a: Bytes
    const A: Bytes
    var M2: Bytes
    var K: Bytes

    constructor (username: Bytes, password: Bytes, a: Bytes, A: Bytes)
      ensures this.username == username && this.password == password && this.a == a && this.A == A
      ensures M2 == [] && K == []
    {
      this.username, this.password, this.a, this.A := username, password, a, A;
      M2, K := [], [];
    }

    method GetSessionKey(M2FromServer: Bytes) returns (r: Result<Bytes>)
      ensures r.Ok? <==> M2FromServer != [] && M2FromServer == M2
      ensures r.Ok? ==> r.value == K
      ensures r.Err? ==> (r.failure == ZeroParameter <==> M2FromServer == [] || M2 == [])
      ensures r.Err? && r.failure != ZeroParameter ==> r.failure == WrongProof
    {
      if M2FromServer == [] || M2 == [] {
        return Err(ZeroParameter);
      }
      if M2FromServer != M2 {
        return Err(WrongProof);
      }
      return Ok(K);
    }
  }

  class SrpClient {
    const math: OsslMathImpl
    const interleave: bool

    constructor (math: OsslMathImpl, interleave: bool)
      ensures this.math == math && this.interleave == interleave
    {
      this.math, this.interleave := math, interleave;
    }

    method GetAuthenticator(username: Bytes, password: Bytes, a: Bytes) returns (r: Result<SrpClientAuthenticator>)
      ensures r.Ok? <==> SrpSpec.CalculateA(math.P(), a).Ok?
      ensures r.Ok? ==>
                && fresh(r.value) && r.value.username == username && r.value.password == password && r.value.a == a
                && Ok(r.value.A) == SrpSpec.CalculateA(math.P(), a)
      ensures r.Err? ==> Err(r.failure) == SrpSpec.CalculateA(math.P(), a)
    {
      var A := math.CalculateA(a);
      if A.Err? {
        return Err(A.failure);
      }
      var sca := new SrpClientAuthenticator(username, password, a, A.value);
      return Ok(sca);
    }

    method GetM1(salt: Bytes, B: Bytes, sca: SrpClientAuthenticator) returns (r: Result<Bytes>)
      modifies sca
      ensures var c := ClientChallenge(math.P(), salt, sca.a, sca.A, B, sca.username, sca.password, interleave);
              if c.Ok? then r == Ok(c.value.M1) && sca.M2 == c.value.M2 && sca.K == c.value.K
              else r == Err(c.failure) && sca.M2 == old(sca.M2) && sca.K == old(sca.K)
    {
      var c := math.ClientChallange(salt, sca.a, sca.A, B, sca.username, sca.password, interleave);
      if c.Err? {
        return Err(c.failure);
      }
      sca.M2 := c.value.M2;
      sca.K := c.value.K;
      return Ok(c.value.M1);
    }
  }

  datatype User = User(salt: Bytes, verificator: Bytes)

  datatype SrpVerificator = SrpVerificator(username: Bytes, salt: Bytes, B: Bytes, proofs: Proofs)

  /** srpverificator.cpp: authenticate fills M2 and K only when the proof is right. */
  method AuthenticateClient(v: SrpVerificator, M1: Bytes) returns (r: Result<Proofs>)
    ensures r == Authenticate(v.proofs, M1)
    ensures r.Ok? <==> M1 != [] && v.proofs.M1 == M1
  {
    if v.proofs.M1 == [] {
      return Err(ZeroParameter);
    }
    if M1 == [] {
      return Err(ZeroParameter);
    }
    if v.proofs.M1 != M1 {
      return Err(WrongProof);
    }
    return Ok(v.proofs);
  }

  class SrpServer {
    const math: OsslMathImpl
    const interleave: bool
    var users: map<Bytes, User>

    constructor (math: OsslMathImpl, interleave: bool)
      ensures this.math == math && this.interleave == interleave && users == map[]
    {
      this.math, this.interleave, users := math, interleave, map[];
    }

    /** MemoryLookup::userAdd keeps the user it has. */
    method UserAdd(username: Bytes, user: User) returns (added: bool)
      modifies this
      ensures added <==> username !in old(users)
      ensures users == if added then old(users)[username := user] else old(users)
    {
      added := username !in users;
      if added {
        users := users[username := user];
      }
    }

    method GetVerificator(username: Bytes, AA: Bytes, b: Bytes) returns (r: Result<SrpVerificator>)
      ensures username !in users ==> r == Err(UserNotFound)
      ensures username in users ==>
                var usr := users[username];
                var c := ServerChallenge(math.P(), username, usr.salt, usr.verificator, AA, b, interleave);
                r == if c.Ok? then Ok(SrpVerificator(username, usr.salt, c.value.B, c.value.proofs)) else Err(c.failure)
    {
      if username !in users {
        return Err(UserNotFound);
      }
      var usr := users[username];
      var c := math.ServerChallange(username, usr.salt, usr.verificator, AA, b, interleave);
      if c.Err? {
        return Err(c.failure);
      }
      return Ok(SrpVerificator(username, usr.salt, c.value.B, c.value.proofs));
    }
  }

  /** A registration and a login through the objects of both sides, as
      crypto/apps/qtest.cpp puts them together. */
  method LogIn(math: OsslMathImpl, interleave: bool, username: Bytes, password: Bytes, salt: Bytes, a: Bytes, b: Bytes)
    returns (r: Result<KeyPair>)
    requires math.N != 0
    ensures r == WholeLogin(math.P(), username, password, salt, a, b, interleave)
  {
    hide SrpSpec.CalculateVerificator, SrpSpec.CalculateA, ServerChallenge, ClientChallenge;
    var server := new SrpServer(math, interleave);
    var client := new SrpClient(math, interleave);
    var sca := client.GetAuthenticator(username, password, a);
    if sca.Err? {
      return Err(sca.failure);
    }
    var verificator := math.CalculateVerificator(username, password, salt, 0);
    if verificator.Err? {
      return Err(verificator.failure);
    }
    var added := server.UserAdd(username, User(salt, verificator.value));
    var ver := server.GetVerificator(username, sca.value.A, b);
    if ver.Err? {
      return Err(ver.failure);
    }
    var M1 := client.GetM1(salt, ver.value.B, sca.value);
    if M1.Err? {
      return Err(M1.failure);
    }
    var proofs := AuthenticateClient(ver.value, M1.value);
    if proofs.Err? {
      return Err(proofs.failure);
    }
    var K := sca.value.GetSessionKey(proofs.value.M2);
    if K.Err? {
      return Err(K.failure);
    }
    return Ok(KeyPair(proofs.value.K, K.value));
  }

  /** Both refused logins, on objects made by the constructor. */
  method RefusedLogins() returns (reduced: Result<KeyPair>, short: Result<KeyPair>)
    ensures reduced == Err(WrongProof) && short == Err(WrongProof)
  {
    ParametersAreConstructed();
    RefusedLogin();
    RefusedShortLogin();
    hide WholeLogin, Digest, Value, Pad;
    var tiny := new OsslMathImpl(TINY.hash, [7], [6]);
    assert tiny.P() == TINY;
    reduced := LogIn(tiny, false, [1], [2], [9], [3], [1]);
    var wide := new OsslMathImpl(SHORT.hash, [2, 3], [2, 2]);
    assert wide.P() == SHORT;
    short := LogIn(wide, false, [1], [0], [0], [2], [1]);
  }
}
