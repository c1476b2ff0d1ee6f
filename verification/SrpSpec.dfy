/** What each side of the handshake sends and keeps, as functions of its inputs
    (crypto/ossl/osslmathimpl.cpp).  Exceptions are `Err`. */
module SrpSpec {
  import opened Octets
  import opened SrpArithmetic
  import opened SrpAgreement

  datatype Failure =
    | ZeroParameter
    | NotSet
    | ZeroBOrU
    | InvalidParameters
    | Interleaving
    | UserNotFound
    | WrongProof

  datatype Result<T> = Ok(value: T) | Err(failure: Failure)

  /** Any function of fixed output length. */
  datatype Hash = Hash(f: Bytes -> Bytes, outputLen: nat)

  function Digest(h: Hash, m: Bytes): (d: Bytes)
    ensures |d| == h.outputLen
    ensures |h.f(m)| == h.outputLen ==> d == h.f(m)
  {
    var d := h.f(m);
    if |d| == h.outputLen then d else Zeros(h.outputLen)
  }

  function Zeros(n: nat): (s: Bytes)
    ensures |s| == n
  {
    seq(n, _ => 0)
  }

  /** A vector cut to n bytes, or filled up with zeros. */
  function Resize(s: Bytes, n: nat): (t: Bytes)
    ensures |t| == n
  {
    if n <= |s| then s[..n] else s + Zeros(n - |s|)
  }

  // -------------------------------------------------------------- padding

  /** PAD of RFC 5054: leading zeros up to n bytes. */
  function Pad(s: Bytes, n: nat): Bytes {
    if |s| < n then Zeros(n - |s|) + s else s
  }

  lemma PadLayout(s: Bytes, n: nat)
    ensures var t := Pad(s, n);
            && |t| == (if |s| < n then n else |s|) && t[|t| - |s|..] == s
            && forall i :: 0 <= i < |t| - |s| ==> t[i] == 0
  {
  }

  /** A zero byte is added before the vector is resized, which keeps it from being
      empty and is otherwise lost. */
  function PushResize(cu: Bytes, n: nat): Bytes {
    Resize(cu + [0], n)
  }

  /** What the client hashes to u: a short A gets its zeros behind it, and for a
      short B the string so far is cut to what B leaves of n bytes. */
  function ClientU(A: Bytes, B: Bytes, n: nat): Bytes {
    var cu := A + if |A| < n then PushResize([], n - |A|) else [];
    (if |B| < n then PushResize(cu, n - |B|) else cu) + B
  }

  /** What the server hashes to u: the zeros go before A. */
  function ServerU(A: Bytes, B: Bytes, n: nat): Bytes {
    var cu := (if |A| < n then PushResize([], n - |A|) else []) + A;
    (if |B| < n then PushResize(cu, n - |B|) else cu) + B
  }

  /** Byte by byte: B is at the end, and what there is room for of A before it. */
  lemma ClientULayout(A: Bytes, B: Bytes, n: nat)
    ensures var u := ClientU(A, B, n);
            && |u| == (if |B| < n then n else |B| + if |A| < n then n else |A|) && u[|u| - |B|..] == B
            && forall i :: 0 <= i < |u| - |B| ==> u[i] == if i < |A| then A[i] else 0
  {
  }

  lemma ServerULayout(A: Bytes, B: Bytes, n: nat)
    ensures var u := ServerU(A, B, n);
            var zeros := if |A| < n then n - |A| else 0;
            && |u| == (if |B| < n then n else |B| + |A| + zeros) && u[|u| - |B|..] == B
            && forall i :: 0 <= i < |u| - |B| ==> u[i] == if i < zeros then 0 else A[i - zeros]
  {
  }

  /** The two sides hash the same string exactly when A is not short. */
  lemma PaddingsAgree(A: Bytes, B: Bytes, n: nat)
    requires A != [] && A[0] != 0 && B != []
    ensures ClientU(A, B, n) == ServerU(A, B, n) <==> |A| >= n
  {
    if |A| < n {
      assert PushResize([], n - |A|)[0] == 0;
      assert ClientU(A, B, n)[0] == A[0];
      assert ServerU(A, B, n)[0] == 0;
    } else {
      assert A + [] == [] + A;
    }
  }

  /** And the server's string is RFC 5054's PAD(A) | PAD(B) exactly when B is not short. */
  lemma PaddingIsRfc(A: Bytes, B: Bytes, n: nat)
    requires A != [] && B != []
    ensures ServerU(A, B, n) == Pad(A, n) + Pad(B, n) <==> |B| >= n
  {
    if |A| < n {
      assert PushResize([], n - |A|) == Zeros(n - |A|);
      assert |Pad(A, n)| == n;
    }
    if |B| < n {
      assert |ServerU(A, B, n)| == n;
      assert |Pad(A, n) + Pad(B, n)| >= n + n;
    } else {
      assert [] + A == A;
    }
  }

  // ----------------------------------------------------------- session key

  function LeadingZeros(S: Bytes): (z: nat)
    ensures z <= |S|
    ensures forall i :: 0 <= i < z ==> S[i] == 0
    ensures z < |S| ==> S[z] != 0
  {
    if S == [] || S[0] != 0 then 0 else 1 + LeadingZeros(S[1..])
  }

  /** S[from], S[from + 2], ... */
  function Alternate(S: Bytes, from: nat): (t: Bytes)
    ensures |t| == if from >= |S| then 0 else (|S| - from + 1) / 2
    ensures forall i :: 0 <= i < |t| ==> t[i] == S[from + 2 * i]
    decreases |S| - from
  {
    if from >= |S| then [] else
      var rest := Alternate(S, from + 2);
      assert forall i :: 1 <= i < 1 + |rest| ==> ([S[from]] + rest)[i] == rest[i - 1];
      [S[from]] + rest
  }

  /** What is left in a buffer holding `was` after writing t at its front. */
  function Over(t: Bytes, was: Bytes): Bytes
    requires |t| <= |was|
  {
    t + was[|t|..]
  }

  function Mixed(G: Bytes, H: Bytes): (K: Bytes)
    requires |G| == |H|
    ensures |K| == 2 * |G|
  {
    seq(2 * |G|, i requires 0 <= i < 2 * |G| => if i % 2 == 0 then G[i / 2] else H[i / 2])
  }

  /** Where interleaveS starts to read. */
  function Start(S: Bytes): nat {
    LeadingZeros(S) + |S| % 2
  }

  lemma HalvesFit(S: Bytes)
    requires S != []
    ensures |Alternate(S, Start(S))| <= |S| / 2 && |Alternate(S, Start(S) + 1)| <= |S| / 2
  {
  }

  function Interleave(h: Hash, S: Bytes): Result<Bytes> {
    if S == [] then Err(ZeroParameter)
    else if Start(S) == |S| then Err(Interleaving)
    else
      HalvesFit(S);
      var first := Over(Alternate(S, Start(S)), Zeros(|S| / 2));
      var second := Over(Alternate(S, Start(S) + 1), first);
      Ok(Mixed(Digest(h, first), Digest(h, second)))
  }

  /** SHA_Interleave of RFC 2945 section 3.1, for strings of at least two bytes
      after the leading zeros. */
  function ShaInterleave(h: Hash, S: Bytes): Bytes {
    var stripped := S[LeadingZeros(S)..];
    var T := if |stripped| % 2 == 1 then stripped[1..] else stripped;
    var E := seq(|T| / 2, i requires 0 <= i < |T| / 2 => T[2 * i]);
    var F := seq(|T| / 2, i requires 0 <= i < |T| / 2 => T[2 * i + 1]);
    Mixed(Digest(h, E), Digest(h, F))
  }

  /** On the bytes of a number interleaveS is RFC 2945's, and it throws exactly
      when the number has fewer than two bytes. */
  lemma InterleaveIsRfc(h: Hash, n: nat)
    ensures Interleave(h, BytesOf(n)).Ok? <==> n >= 256
    ensures n >= 256 ==> Interleave(h, BytesOf(n)) == Ok(ShaInterleave(h, BytesOf(n)))
  {
    hide Digest, Mixed, Alternate, Over, BytesOf;
    TwoBytes(n);
    if n >= 256 {
      HalvesAreRfc(BytesOf(n));
    }
  }

  /** The same without the names of the parts: after an odd first byte is dropped, the
      bytes at even places and those at odd places are hashed, and the key takes its
      bytes from the two hashes by turns. */
  lemma InterleaveBytes(h: Hash, n: nat, even: Bytes, odd: Bytes)
    requires n >= 256
    requires var T := BytesOf(n)[|BytesOf(n)| % 2..];
             && |even| == |odd| == |T| / 2
             && forall i :: 0 <= i < |T| / 2 ==> even[i] == T[2 * i] && odd[i] == T[2 * i + 1]
    ensures var r := Interleave(h, BytesOf(n));
            && r.Ok? && |r.value| == 2 * h.outputLen
            && forall i :: 0 <= i < h.outputLen ==>
                 r.value[2 * i] == Digest(h, even)[i] && r.value[2 * i + 1] == Digest(h, odd)[i]
  {
    hide Digest, Alternate, Over, BytesOf, Interleave;
    TwoBytes(n);
    InterleaveIsRfc(h, n);
    var S := BytesOf(n);
    assert LeadingZeros(S) == 0 && S[0..] == S;
    var T := if |S| % 2 == 1 then S[1..] else S;
    assert T == S[|S| % 2..];
    assert even == seq(|T| / 2, i requires 0 <= i < |T| / 2 => T[2 * i]);
    assert odd == seq(|T| / 2, i requires 0 <= i < |T| / 2 => T[2 * i + 1]);
  }

  lemma HalvesAreRfc(S: Bytes)
    requires |S| >= 2 && S[0] != 0
    ensures S[LeadingZeros(S)..] == S && Start(S) == |S| % 2
    ensures |Alternate(S, Start(S))| <= |S| / 2 && |Alternate(S, Start(S) + 1)| <= |S| / 2
    ensures var T := if |S| % 2 == 1 then S[1..] else S;
            var first := Over(Alternate(S, Start(S)), Zeros(|S| / 2));
            && first == seq(|T| / 2, i requires 0 <= i < |T| / 2 => T[2 * i])
            && Over(Alternate(S, Start(S) + 1), first) == seq(|T| / 2, i requires 0 <= i < |T| / 2 => T[2 * i + 1])
  {
    hide Alternate;
    HalvesFit(S);
  }

  lemma TwoBytes(n: nat)
    ensures |BytesOf(n)| >= 2 <==> n >= 256
  {
    if n > 0 {
      assert BytesOf(n) == BytesOf(n / 256) + [n % 256];
    }
  }

  // ---------------------------------------------------------------- proofs

  function XorByte(a: Byte, b: Byte): Byte {
    ((a as bv8) ^ (b as bv8)) as int
  }

  function XorBytes(s: Bytes, t: Bytes): (r: Bytes)
    requires |s| == |t|
    ensures |r| == |s|
  {
    seq(|s|, i requires 0 <= i < |s| => XorByte(s[i], t[i]))
  }

  /** The parameters of a math object. */
  datatype Params = Params(hash: Hash, group: Group) {
    /** checkNg does not throw. */
    predicate Set() {
      group.N != 0 && group.g != 0 && group.k != 0
    }
  }

  /** M1 = H(H(N) xor H(g) | H(username) | s | A | B | K) */
  function ClientProof(p: Params, username: Bytes, s: Bytes, A: Bytes, B: Bytes, K: Bytes): Result<Bytes> {
    if username == [] || s == [] || A == [] || B == [] || K == [] then Err(ZeroParameter)
    else
      var HN, Hg := Digest(p.hash, BytesOf(p.group.N)), Digest(p.hash, BytesOf(p.group.g));
      Ok(Digest(p.hash, XorBytes(HN, Hg) + Digest(p.hash, username) + s + A + B + K))
  }

  /** M2 = H(A | M1 | K) */
  function ServerProof(h: Hash, A: Bytes, M1: Bytes, K: Bytes): Bytes {
    Digest(h, A + M1 + K)
  }

  /** x = H(salt | H(username | ":" | password)) */
  function PrivateKey(h: Hash, salt: Bytes, username: Bytes, password: Bytes): nat {
    Value(Digest(h, salt + Digest(h, username + [58] + password)))
  }

  function SessionKey(h: Hash, S: nat, interleave: bool): Result<Bytes> {
    if interleave then Interleave(h, BytesOf(S)) else Ok(Digest(h, BytesOf(S)))
  }

  // What goes into the hashes, by its place.

  lemma ClientProofHashes(p: Params, username: Bytes, s: Bytes, A: Bytes, B: Bytes, K: Bytes) returns (m: Bytes)
    requires username != [] && s != [] && A != [] && B != [] && K != []
    ensures ClientProof(p, username, s, A, B, K) == Ok(Digest(p.hash, m))
    ensures var l := p.hash.outputLen;
            && |m| == 2 * l + |s| + |A| + |B| + |K|
            && (var HN, Hg := Digest(p.hash, BytesOf(p.group.N)), Digest(p.hash, BytesOf(p.group.g));
                forall i :: 0 <= i < l ==> m[i] == ((HN[i] as bv8) ^ (Hg[i] as bv8)) as int)
            && m[l..2 * l] == Digest(p.hash, username)
            && m[2 * l..2 * l + |s|] == s
            && m[2 * l + |s|..2 * l + |s| + |A|] == A
            && m[2 * l + |s| + |A|..2 * l + |s| + |A| + |B|] == B
            && m[2 * l + |s| + |A| + |B|..] == K
  {
    hide Digest, BytesOf;
    var HN, Hg := Digest(p.hash, BytesOf(p.group.N)), Digest(p.hash, BytesOf(p.group.g));
    m := XorBytes(HN, Hg) + Digest(p.hash, username) + s + A + B + K;
  }

  lemma ServerProofHashes(h: Hash, A: Bytes, M1: Bytes, K: Bytes) returns (m: Bytes)
    ensures ServerProof(h, A, M1, K) == Digest(h, m)
    ensures |m| == |A| + |M1| + |K| && m[..|A|] == A && m[|A|..|A| + |M1|] == M1 && m[|A| + |M1|..] == K
  {
    hide Digest;
    m := A + M1 + K;
  }

  /** 58 is the colon. */
  lemma PrivateKeyHashes(h: Hash, salt: Bytes, username: Bytes, password: Bytes) returns (m: Bytes, inner: Bytes)
    ensures PrivateKey(h, salt, username, password) == Value(Digest(h, m))
    ensures |m| == |salt| + h.outputLen && m[..|salt|] == salt && m[|salt|..] == Digest(h, inner)
    ensures |inner| == |username| + 1 + |password| && inner[..|username|] == username && inner[|username|] == 58
    ensures inner[|username| + 1..] == password
  {
    hide Digest;
    inner := username + [58] + password;
    m := salt + Digest(h, inner);
  }

  // ---------------------------------------------------------- the two sides

  datatype Proofs = Proofs(M1: Bytes, M2: Bytes, K: Bytes)

  datatype Challenge = Challenge(B: Bytes, proofs: Proofs)

  function CalculateA(p: Params, aa: Bytes): Result<Bytes> {
    if aa == [] then Err(ZeroParameter)
    else if !p.Set() then Err(NotSet)
    else Ok(BytesOf(ClientPublic(p.group, Value(aa))))
  }

  function CalculateVerificator(p: Params, username: Bytes, password: Bytes, salt: Bytes): Result<Bytes>
    requires p.group.Valid()
  {
    if username == [] || password == [] || salt == [] then Err(ZeroParameter)
    else Ok(BytesOf(Verifier(p.group, PrivateKey(p.hash, salt, username, password))))
  }

  /** Both sides from their secret on. */
  function Prove(p: Params, username: Bytes, salt: Bytes, AA: Bytes, BB: Bytes, S: nat, interleave: bool):
    Result<Proofs>
  {
    match SessionKey(p.hash, S, interleave)
    case Err(e) => Err(e)
    case Ok(K) =>
      match ClientProof(p, username, salt, AA, BB, K)
      case Err(e) => Err(e)
      case Ok(M1) => Ok(Proofs(M1, ServerProof(p.hash, AA, M1, K), K))
  }

  /** u as the client and as the server take it. */
  function ClientsU(p: Params, AA: Bytes, BB: Bytes): nat {
    Value(Digest(p.hash, ClientU(AA, BB, |BytesOf(p.group.N)|)))
  }

  function ServersU(p: Params, AA: Bytes, BB: Bytes): nat {
    Value(Digest(p.hash, ServerU(AA, BB, |BytesOf(p.group.N)|)))
  }

  function ClientChallenge(p: Params, salt: Bytes, aa: Bytes, AA: Bytes, BB: Bytes, username: Bytes, password: Bytes,
                           interleave: bool): Result<Proofs>
  {
    if salt == [] || aa == [] || AA == [] || BB == [] || username == [] || password == [] then Err(ZeroParameter)
    else if !p.Set() then Err(NotSet)
    else
      var u, x := ClientsU(p, AA, BB), PrivateKey(p.hash, salt, username, password);
      if Value(BB) == 0 || u == 0 then Err(ZeroBOrU)
      else Prove(p, username, salt, AA, BB, ReducedClientSecret(p.group, Value(BB), Value(aa), u, x), interleave)
  }

  function ServerChallenge(p: Params, username: Bytes, salt: Bytes, verificator: Bytes, AA: Bytes, bb: Bytes,
                           interleave: bool): Result<Challenge>
  {
    if username == [] || salt == [] || verificator == [] || AA == [] || bb == [] then Err(ZeroParameter)
    else if !p.Set() then Err(NotSet)
    else
      var A, v := Value(AA), Value(verificator);
      if A % p.group.N == 0 || v == 0 then Err(InvalidParameters)
      else
        var BB := BytesOf(ServerPublic(p.group, v, Value(bb)));
        var S := ServerSecret(p.group, A, Value(bb), ServersU(p, AA, BB), v);
        match Prove(p, username, salt, AA, BB, S, interleave)
        case Err(e) => Err(e)
        case Ok(proofs) => Ok(Challenge(BB, proofs))
  }

  function Authenticate(proofs: Proofs, M1: Bytes): Result<Proofs> {
    if proofs.M1 == [] || M1 == [] then Err(ZeroParameter)
    else if proofs.M1 != M1 then Err(WrongProof)
    else Ok(proofs)
  }

  // What the two sides make of any input, honest or not.

  /** The server refuses an A that is a multiple of N and a verificator of value 0; its B
      and its secret are k*v + g^b and (A * v^u)^b modulo N. */
  lemma ServerAnswers(p: Params, username: Bytes, salt: Bytes, verificator: Bytes, AA: Bytes, bb: Bytes,
                      interleave: bool, A: nat, v: nat, b: nat, BB: Bytes)
    requires username != [] && salt != [] && verificator != [] && AA != [] && bb != [] && p.Set()
    requires A == Value(AA) && v == Value(verificator) && b == Value(bb)
    requires BB == BytesOf((p.group.k * v + Pow(p.group.g, b)) % p.group.N)
    ensures var r := ServerChallenge(p, username, salt, verificator, AA, bb, interleave);
            if A % p.group.N == 0 || v == 0 then r == Err(InvalidParameters)
            else
              var S := Pow(A * Pow(v, ServersU(p, AA, BB)), b) % p.group.N;
              match Prove(p, username, salt, AA, BB, S, interleave)
              case Err(e) => r == Err(e)
              case Ok(proofs) => r == Ok(Challenge(BB, proofs))
  {
    hide Prove, ServersU, Value, BytesOf, Pow;
  }

  /** The client refuses a B of value 0 and a u of 0; its secret is B - k*g^x to the
      exponent a + u*x, all modulo N. */
  lemma ClientAnswers(p: Params, salt: Bytes, aa: Bytes, AA: Bytes, BB: Bytes, username: Bytes, password: Bytes,
                      interleave: bool, a: nat, B: nat, u: nat, x: nat)
    requires salt != [] && aa != [] && AA != [] && BB != [] && username != [] && password != [] && p.Set()
    requires a == Value(aa) && B == Value(BB) && u == ClientsU(p, AA, BB)
    requires x == PrivateKey(p.hash, salt, username, password)
    ensures ClientChallenge(p, salt, aa, AA, BB, username, password, interleave)
         == if B == 0 || u == 0 then Err(ZeroBOrU)
            else var S := Pow(B - p.group.k * Pow(p.group.g, x), (a + u * x) % p.group.N) % p.group.N;
                 Prove(p, username, salt, AA, BB, S, interleave)
  {
    hide Prove, ClientsU, PrivateKey, Value, BytesOf, Pow;
  }

  /** From the secret on: its bytes are hashed, interleaved or not, to the key. */
  lemma ProofsOfSecret(p: Params, username: Bytes, salt: Bytes, AA: Bytes, BB: Bytes, S: nat, proofs: Proofs)
    requires username != [] && salt != [] && AA != [] && BB != [] && p.hash.outputLen > 0
    ensures Prove(p, username, salt, AA, BB, S, false) == Ok(proofs)
       <==> && proofs.K == Digest(p.hash, BytesOf(S))
            && ClientProof(p, username, salt, AA, BB, proofs.K) == Ok(proofs.M1)
            && proofs.M2 == ServerProof(p.hash, AA, proofs.M1, proofs.K)
    ensures Prove(p, username, salt, AA, BB, S, true) == Ok(proofs)
       <==> && Interleave(p.hash, BytesOf(S)) == Ok(proofs.K)
            && ClientProof(p, username, salt, AA, BB, proofs.K) == Ok(proofs.M1)
            && proofs.M2 == ServerProof(p.hash, AA, proofs.M1, proofs.K)
  {
    hide Digest, BytesOf, ClientProof, ServerProof, Interleave;
  }

  // -------------------------------------------------------------- handshake

  /** Both halves of a handshake come down to the proofs made from the two secrets,
      each side with the u it hashed itself. */
  lemma BothSidesProve(p: Params, username: Bytes, password: Bytes, salt: Bytes, verificator: Bytes,
                       aa: Bytes, AA: Bytes, bb: Bytes, interleave: bool, server: Challenge, uc: nat, us: nat, x: nat)
    requires p.Set() && password != [] && aa != [] && p.hash.outputLen > 0
    requires CalculateVerificator(p, username, password, salt) == Ok(verificator)
    requires CalculateA(p, aa) == Ok(AA)
    requires ServerChallenge(p, username, salt, verificator, AA, bb, interleave) == Ok(server)
    requires uc == ClientsU(p, AA, server.B) && us == ServersU(p, AA, server.B)
    requires x == PrivateKey(p.hash, salt, username, password)
    ensures var g := p.group;
            && AA != [] && AA[0] != 0 && server.B != []
            && Ok(server.proofs) == Prove(p, username, salt, AA, server.B,
                                          ServerPower(g, Value(aa), Value(bb), us, x), interleave)
            && ClientChallenge(p, salt, aa, AA, server.B, username, password, interleave)
               == if Value(server.B) == 0 || uc == 0 then Err(ZeroBOrU)
                  else Prove(p, username, salt, AA, server.B,
                             ClientPower(g, Value(aa), Value(bb), uc, x), interleave)
  {
    hide Prove, ClientsU, ServersU, PrivateKey, ReducedClientSecret, ServerSecret, ServerPublic, ClientPublic, Verifier,
         ClientPower, ServerPower, ServerChallenge, CalculateA, CalculateVerificator;
    PublicValues(p, username, password, salt, verificator, aa, AA, x);
    ServerProves(p, username, salt, verificator, AA, bb, interleave, server);
    SecretsArePowers(p.group, Value(aa), Value(bb), uc, us, x);
  }

  lemma PublicValues(p: Params, username: Bytes, password: Bytes, salt: Bytes, verificator: Bytes, aa: Bytes,
                     AA: Bytes, x: nat)
    requires p.Set() && x == PrivateKey(p.hash, salt, username, password)
    requires CalculateVerificator(p, username, password, salt) == Ok(verificator)
    requires CalculateA(p, aa) == Ok(AA)
    ensures Value(AA) == ClientPublic(p.group, Value(aa)) && Value(verificator) == Verifier(p.group, x)
    ensures AA != [] ==> AA[0] != 0
  {
    hide PrivateKey, ClientPublic, Verifier;
    ValueOfBytes(ClientPublic(p.group, Value(aa)));
    ValueOfBytes(Verifier(p.group, x));
  }

  lemma ServerProves(p: Params, username: Bytes, salt: Bytes, verificator: Bytes, AA: Bytes, bb: Bytes,
                     interleave: bool, server: Challenge)
    requires p.Set() && p.hash.outputLen > 0
    requires ServerChallenge(p, username, salt, verificator, AA, bb, interleave) == Ok(server)
    ensures username != [] && salt != [] && AA != [] && server.B != []
    ensures Value(server.B) == ServerPublic(p.group, Value(verificator), Value(bb))
    ensures Ok(server.proofs)
         == Prove(p, username, salt, AA, server.B,
                  ServerSecret(p.group, Value(AA), Value(bb), ServersU(p, AA, server.B), Value(verificator)),
                  interleave)
  {
    hide Prove, ServersU, ServerSecret, ServerPublic;
    ValueOfBytes(ServerPublic(p.group, Value(verificator), Value(bb)));
    ProofsAreWhole(p, username, salt, AA, server.B,
                   ServerSecret(p.group, Value(AA), Value(bb), ServersU(p, AA, server.B), Value(verificator)),
                   interleave);
  }

  /** For a user registered with the right password: when the server's half goes
      through, the client's does, with the same proofs and key, and the server
      accepts.  The hypotheses left are |A| = |N|, u not zero, and the exponent. */
  lemma HandshakeCompletes(p: Params, username: Bytes, password: Bytes, salt: Bytes, verificator: Bytes,
                           aa: Bytes, AA: Bytes, bb: Bytes, interleave: bool, server: Challenge)
    requires p.Set() && password != [] && aa != [] && p.hash.outputLen > 0
    requires CalculateVerificator(p, username, password, salt) == Ok(verificator)
    requires CalculateA(p, aa) == Ok(AA)
    requires ServerChallenge(p, username, salt, verificator, AA, bb, interleave) == Ok(server)
    requires |AA| == |BytesOf(p.group.N)|
    requires var u := ServersU(p, AA, server.B);
             u != 0 && Value(aa) + u * PrivateKey(p.hash, salt, username, password) < p.group.N
    ensures ClientChallenge(p, salt, aa, AA, server.B, username, password, interleave) == Ok(server.proofs)
    ensures Authenticate(server.proofs, server.proofs.M1) == Ok(server.proofs)
  {
    hide Prove, ClientChallenge, ServerChallenge, CalculateA, CalculateVerificator, ClientsU, ServersU, PrivateKey,
        ModExp;
    var u, x := ServersU(p, AA, server.B), PrivateKey(p.hash, salt, username, password);
    var uc := ClientsU(p, AA, server.B);
    BothSidesProve(p, username, password, salt, verificator, aa, AA, bb, interleave, server, uc, u, x);
    SameU(p, AA, server.B);
    RemainderIsUnique(Value(aa) + u * x, 0, Value(aa) + u * x, p.group.N);
    BIsNotZero(p, username, salt, verificator, AA, bb, interleave, server);
    ProofsAreWhole(p, username, salt, AA, server.B, ServerPower(p.group, Value(aa), Value(bb), u, x), interleave);
  }

  /** With a long enough A the two sides have the same u. */
  lemma SameU(p: Params, AA: Bytes, BB: Bytes)
    requires AA != [] && AA[0] != 0 && BB != [] && |AA| >= |BytesOf(p.group.N)|
    ensures ClientsU(p, AA, BB) == ServersU(p, AA, BB)
  {
    PaddingsAgree(AA, BB, |BytesOf(p.group.N)|);
  }

  /** The proofs tell the two secrets apart: neither the keys nor the first proofs
      collide. */
  predicate Distinguishes(client: Proofs, server: Proofs, clientSecret: nat, serverSecret: nat) {
    && (client.K == server.K ==> clientSecret == serverSecret)
    && (client.M1 == server.M1 ==> client.K == server.K)
  }

  /** With no bound on the exponent and for an A of any length: unless the hash
      collides on them, the server accepts the client exactly when the two secrets
      are the same power of g^b. */
  lemma HandshakeStandsOnAgreement(p: Params, username: Bytes, password: Bytes, salt: Bytes, verificator: Bytes,
                                   aa: Bytes, AA: Bytes, bb: Bytes, interleave: bool, server: Challenge,
                                   client: Proofs, uc: nat, us: nat, x: nat)
    requires p.Set() && p.hash.outputLen > 0
    requires CalculateVerificator(p, username, password, salt) == Ok(verificator)
    requires CalculateA(p, aa) == Ok(AA)
    requires ServerChallenge(p, username, salt, verificator, AA, bb, interleave) == Ok(server)
    requires ClientChallenge(p, salt, aa, AA, server.B, username, password, interleave) == Ok(client)
    requires uc == ClientsU(p, AA, server.B) && us == ServersU(p, AA, server.B)
    requires x == PrivateKey(p.hash, salt, username, password)
    requires Distinguishes(client, server.proofs, ClientPower(p.group, Value(aa), Value(bb), uc, x),
                           ServerPower(p.group, Value(aa), Value(bb), us, x))
    ensures Authenticate(server.proofs, client.M1).Ok?
            <==> ClientPower(p.group, Value(aa), Value(bb), uc, x) == ServerPower(p.group, Value(aa), Value(bb), us, x)
  {
    hide Prove, ClientChallenge, ServerChallenge, CalculateA, CalculateVerificator, ClientsU, ServersU, PrivateKey,
         ClientPower, ServerPower, Distinguishes, Authenticate;
    NonEmptyInputs(p, username, password, salt, aa, AA, server.B, interleave, client);
    BothSidesProve(p, username, password, salt, verificator, aa, AA, bb, interleave, server, uc, us, x);
    ProofsDecide(p, username, salt, AA, server.B, ClientPower(p.group, Value(aa), Value(bb), uc, x),
                 ServerPower(p.group, Value(aa), Value(bb), us, x), interleave, client, server.proofs);
  }

  lemma ProofsDecide(p: Params, username: Bytes, salt: Bytes, AA: Bytes, BB: Bytes,
                     clientSecret: nat, serverSecret: nat, interleave: bool, client: Proofs, server: Proofs)
    requires p.hash.outputLen > 0 && Distinguishes(client, server, clientSecret, serverSecret)
    requires Prove(p, username, salt, AA, BB, clientSecret, interleave) == Ok(client)
    requires Prove(p, username, salt, AA, BB, serverSecret, interleave) == Ok(server)
    ensures Authenticate(server, client.M1).Ok? <==> clientSecret == serverSecret
  {
    ProofsAreWhole(p, username, salt, AA, BB, clientSecret, interleave);
    ProofsAreWhole(p, username, salt, AA, BB, serverSecret, interleave);
    hide Prove;
  }

  lemma NonEmptyInputs(p: Params, username: Bytes, password: Bytes, salt: Bytes, aa: Bytes, AA: Bytes, B: Bytes,
                       interleave: bool, client: Proofs)
    requires ClientChallenge(p, salt, aa, AA, B, username, password, interleave) == Ok(client)
    ensures password != [] && aa != []
  {
    hide Prove;
  }

  /** So with g = N - 1 and an odd b the right password is refused exactly when the
      client's reduced exponent r and the server's e differ in parity, which a short A or
      a reduced exponent can bring about. */
  lemma RightPasswordRefused(p: Params, username: Bytes, password: Bytes, salt: Bytes, verificator: Bytes,
                             aa: Bytes, AA: Bytes, bb: Bytes, interleave: bool, server: Challenge,
                             client: Proofs, uc: nat, us: nat, x: nat, e: nat, q: nat, r: nat)
    requires p.Set() && p.hash.outputLen > 0
    requires CalculateVerificator(p, username, password, salt) == Ok(verificator)
    requires CalculateA(p, aa) == Ok(AA)
    requires ServerChallenge(p, username, salt, verificator, AA, bb, interleave) == Ok(server)
    requires ClientChallenge(p, salt, aa, AA, server.B, username, password, interleave) == Ok(client)
    requires uc == ClientsU(p, AA, server.B) && us == ServersU(p, AA, server.B)
    requires x == PrivateKey(p.hash, salt, username, password)
    requires Distinguishes(client, server.proofs, ClientPower(p.group, Value(aa), Value(bb), uc, x),
                           ServerPower(p.group, Value(aa), Value(bb), us, x))
    requires p.group.N >= 3 && p.group.g == p.group.N - 1 && Value(bb) % 2 == 1
    requires e == Value(aa) + us * x && Value(aa) + uc * x == q * p.group.N + r && r < p.group.N
    ensures Authenticate(server.proofs, client.M1).Err? <==> r % 2 != e % 2
    ensures uc == us && p.group.N % 2 == 1 && q % 2 == 1 ==> Authenticate(server.proofs, client.M1).Err?
  {
    hide *;
    HandshakeStandsOnAgreement(p, username, password, salt, verificator, aa, AA, bb, interleave, server, client,
                               uc, us, x);
    ParitiesDecide(p.group, Value(aa), Value(bb), uc, us, x, q, r);
    if uc == us && p.group.N % 2 == 1 && q % 2 == 1 {
      OddQuotientShows(e, p.group.N, q, r);
    }
  }

  /** The client's check of the server, which hands out its key. */
  function Confirm(client: Proofs, M2: Bytes): Result<Bytes> {
    if M2 == [] || client.M2 == [] then Err(ZeroParameter)
    else if M2 != client.M2 then Err(WrongProof)
    else Ok(client.K)
  }

  datatype KeyPair = KeyPair(server: Bytes, client: Bytes)

  /** A registration and a login with the same password, through all messages. */
  function WholeLogin(p: Params, username: Bytes, password: Bytes, salt: Bytes, aa: Bytes, bb: Bytes, interleave: bool):
    Result<KeyPair>
    requires p.group.Valid()
  {
    match CalculateA(p, aa)
    case Err(e) => Err(e)
    case Ok(AA) =>
      match CalculateVerificator(p, username, password, salt)
      case Err(e) => Err(e)
      case Ok(verificator) =>
        match ServerChallenge(p, username, salt, verificator, AA, bb, interleave)
        case Err(e) => Err(e)
        case Ok(server) =>
          match ClientChallenge(p, salt, aa, AA, server.B, username, password, interleave)
          case Err(e) => Err(e)
          case Ok(client) => Verdict(server.proofs, client)
  }

  /** The last two messages, M1 to the server and M2 back. */
  function Verdict(server: Proofs, client: Proofs): Result<KeyPair> {
    match Authenticate(server, client.M1)
    case Err(e) => Err(e)
    case Ok(proofs) =>
      match Confirm(client, proofs.M2)
      case Err(e) => Err(e)
      case Ok(K) => Ok(KeyPair(proofs.K, K))
  }

  /** So the whole exchange ends with the same key on both sides. */
  lemma LoginSucceeds(p: Params, username: Bytes, password: Bytes, salt: Bytes, verificator: Bytes,
                      aa: Bytes, AA: Bytes, bb: Bytes, interleave: bool, server: Challenge)
    requires p.Set() && password != [] && aa != [] && p.hash.outputLen > 0
    requires CalculateVerificator(p, username, password, salt) == Ok(verificator)
    requires CalculateA(p, aa) == Ok(AA)
    requires ServerChallenge(p, username, salt, verificator, AA, bb, interleave) == Ok(server)
    requires |AA| == |BytesOf(p.group.N)|
    requires var u := ServersU(p, AA, server.B);
             u != 0 && Value(aa) + u * PrivateKey(p.hash, salt, username, password) < p.group.N
    ensures WholeLogin(p, username, password, salt, aa, bb, interleave)
         == Ok(KeyPair(server.proofs.K, server.proofs.K))
  {
    hide Prove, ClientChallenge, ServerChallenge, CalculateA, CalculateVerificator, ServersU, PrivateKey, ServerSecret;
    HandshakeCompletes(p, username, password, salt, verificator, aa, AA, bb, interleave, server);
    ServerProves(p, username, salt, verificator, AA, bb, interleave, server);
    ProofsAreWhole(p, username, salt, AA, server.B,
                   ServerSecret(p.group, Value(AA), Value(bb), ServersU(p, AA, server.B), Value(verificator)),
                   interleave);
  }

  // ------------------------------------------------------- refused logins

  function LastByte(m: Bytes): Bytes {
    [if m == [] then 0 else m[|m| - 1]]
  }

  function FirstPlusLast(m: Bytes): Bytes {
    [if m == [] then 0 else (m[0] as int + m[|m| - 1] as int) % 256]
  }

  /** N = 7, g = 6, and the last byte of a string as its hash. */
  const TINY := Params(Hash(LastByte, 1), Group(7, 6, 6))

  /** N = 515, g = 514, and the sum of the first and the last byte as the hash. */
  const SHORT := Params(Hash(FirstPlusLast, 1), Group(515, 514, 4))

  /** Both k are the ones that the constructor computes from N and g. */
  lemma ParametersAreConstructed()
    ensures Value([7]) == TINY.group.N && Value([6]) == TINY.group.g
    ensures TINY.group.k == Value(Digest(TINY.hash, [7] + Pad([6], 1)))
    ensures Value([2, 3]) == SHORT.group.N && Value([2, 2]) == SHORT.group.g
    ensures SHORT.group.k == Value(Digest(SHORT.hash, [2, 3] + Pad([2, 2], 2)))
  {
    OneByte(4);
    OneByte(6);
    OneByte(7);
    TwoByte(2, 3);
    TwoByte(2, 2);
    TinyDigest([7] + [6]);
    ShortDigest([2, 3] + [2, 2]);
  }

  /** A right password refused for its exponent: a = 3, u = 5 and x = 2 make it 13,
      which the client reduces to 6. */
  lemma RefusedLogin()
    ensures CalculateVerificator(TINY, [1], [2], [9]) == Ok([1]) && CalculateA(TINY, [3]) == Ok([6])
    ensures ServerChallenge(TINY, [1], [9], [1], [6], [1], false) == Ok(Challenge([5], Proofs([6], [6], [6])))
    ensures ClientChallenge(TINY, [9], [3], [6], [5], [1], [2], false) == Ok(Proofs([1], [1], [1]))
    ensures WholeLogin(TINY, [1], [2], [9], [3], [1], false) == Err(WrongProof)
  {
    TinyNumbers();
    TinyServer();
    TinyClient();
    hide CalculateVerificator, CalculateA, ServerChallenge, ClientChallenge;
  }

  lemma TinyNumbers()
    ensures PrivateKey(TINY.hash, [9], [1], [2]) == 2
    ensures CalculateVerificator(TINY, [1], [2], [9]) == Ok([1]) && CalculateA(TINY, [3]) == Ok([6])
  {
    TinyDigest([1] + [58] + [2]);
    TinyDigest([9] + [2]);
    OneByte(1);
    OneByte(2);
    OneByte(3);
    OneByte(6);
    TinyPublic();
    hide Digest, BytesOf, Value, Pow, Verifier, ClientPublic;
  }

  lemma TinyPublic()
    ensures Verifier(TINY.group, 2) == 1 && ClientPublic(TINY.group, 3) == 6
    ensures ServerPublic(TINY.group, 1, 1) == 5
  {
    PowersOfLast(7, 2);
    PowersOfLast(7, 3);
    FirstPowers(6);
    hide Pow;
  }

  lemma TinySecrets()
    ensures ServerPublic(TINY.group, 1, 1) == 5
    ensures ServerSecret(TINY.group, 6, 1, 5, 1) == 6
    ensures ReducedClientSecret(TINY.group, 5, 3, 5, 2) == 1
  {
    hide Pow;
    TinyPublic();
    SecretsArePowers(TINY.group, 3, 1, 5, 5, 2);
    PowersOfLast(7, 6);
    PowersOfLast(7, 13);
    hide ServerPublic, ServerSecret, ReducedClientSecret, ClientPublic, Verifier;
  }

  lemma TinyServer()
    ensures ServerChallenge(TINY, [1], [9], [1], [6], [1], false) == Ok(Challenge([5], Proofs([6], [6], [6])))
  {
    hide Prove, BytesOf, Value, ServersU, ServerPublic, ServerSecret;
    TinyU();
    OneByte(1);
    OneByte(5);
    OneByte(6);
    TinyProve(6);
    TinySecrets();
  }

  lemma TinyClient()
    ensures ClientChallenge(TINY, [9], [3], [6], [5], [1], [2], false) == Ok(Proofs([1], [1], [1]))
  {
    hide Prove, BytesOf, Value, ClientsU, PrivateKey, ReducedClientSecret;
    TinyU();
    OneByte(3);
    OneByte(5);
    TinyProve(1);
    TinyNumbers();
    TinySecrets();
  }

  lemma TinyU()
    ensures ClientsU(TINY, [6], [5]) == 5 && ServersU(TINY, [6], [5]) == 5
  {
    OneByte(7);
    OneByte(5);
    assert [6] + [] == [6] && [] + [6] == [6];
    assert ServerU([6], [5], 1) == [6] + [5] && ClientU([6], [5], 1) == [6] + [5];
    TinyDigest([6] + [5]);
    hide Digest, BytesOf, Value, ServerU, ClientU;
  }

  lemma TinyProve(S: Byte)
    requires S > 0
    ensures Prove(TINY, [1], [9], [6], [5], S, false) == Ok(Proofs([S], [S], [S]))
  {
    OneByte(S);
    TinyDigest([S]);
    TinyProofs([S]);
    hide Digest, BytesOf, ClientProof, ServerProof;
  }

  lemma TinyProofs(K: Bytes)
    requires |K| == 1
    ensures ClientProof(TINY, [1], [9], [6], [5], K) == Ok(K)
    ensures ServerProof(TINY.hash, [6], K, K) == K
  {
    hide Digest, XorBytes, BytesOf;
    var h, g := TINY.hash, TINY.group;
    var m := XorBytes(Digest(h, BytesOf(g.N)), Digest(h, BytesOf(g.g))) + Digest(h, [1]) + [9] + [6] + [5] + K;
    TinyDigest(m);
    TinyDigest([6] + K + K);
    assert LastByte(m) == K && LastByte([6] + K + K) == K;
  }

  lemma TinyDigest(m: Bytes)
    ensures Digest(TINY.hash, m) == LastByte(m)
  {
  }

  /** A right password refused for a short A: a = 2 makes A the single byte 1, and
      the two paddings give u = 255 and u = 254. */
  lemma RefusedShortLogin()
    ensures CalculateVerificator(SHORT, [1], [0], [0]) == Ok([2, 2]) && CalculateA(SHORT, [2]) == Ok([1])
    ensures ServerChallenge(SHORT, [1], [0], [2, 2], [1], [1], false)
         == Ok(Challenge([1, 254], Proofs([3], [3], [2])))
    ensures ClientChallenge(SHORT, [0], [2], [1], [1, 254], [1], [0], false) == Ok(Proofs([5], [5], [4]))
    ensures WholeLogin(SHORT, [1], [0], [0], [2], [1], false) == Err(WrongProof)
  {
    ShortNumbers();
    ShortServer();
    ShortClient();
    hide CalculateVerificator, CalculateA, ServerChallenge, ClientChallenge;
  }

  lemma ShortNumbers()
    ensures PrivateKey(SHORT.hash, [0], [1], [0]) == 1
    ensures CalculateVerificator(SHORT, [1], [0], [0]) == Ok([2, 2]) && CalculateA(SHORT, [2]) == Ok([1])
  {
    ShortDigest([1] + [58] + [0]);
    ShortDigest([0] + [1]);
    OneByte(1);
    OneByte(2);
    TwoByte(2, 2);
    PowersOfLast(515, 1);
    PowersOfLast(515, 2);
    hide Digest, BytesOf, Value, Pow;
  }

  /** The exponents are 257 and 256, neither of them reduced. */
  lemma ShortSecrets()
    ensures ServerPublic(SHORT.group, 514, 1) == 510
    ensures ServerSecret(SHORT.group, 1, 1, 254, 514) == 1
    ensures ReducedClientSecret(SHORT.group, 510, 2, 255, 1) == 514
  {
    hide Pow;
    var g := SHORT.group;
    ShortPublic();
    SecretsArePowers(g, 2, 1, 255, 254, 1);
    PowersOfLast(515, 256);
    PowersOfLast(515, 257);
    hide ServerPublic, ServerSecret, ReducedClientSecret, ClientPublic, Verifier;
  }

  lemma ShortPublic()
    ensures Verifier(SHORT.group, 1) == 514 && ClientPublic(SHORT.group, 2) == 1
    ensures ServerPublic(SHORT.group, 514, 1) == 510
  {
    PowersOfLast(515, 1);
    PowersOfLast(515, 2);
    FirstPowers(514);
    hide Pow;
  }

  lemma ShortServer()
    ensures ServerChallenge(SHORT, [1], [0], [2, 2], [1], [1], false)
         == Ok(Challenge([1, 254], Proofs([3], [3], [2])))
  {
    hide Prove, BytesOf, Value, ServersU, ServerPublic, ServerSecret;
    ShortU();
    OneByte(1);
    TwoByte(1, 254);
    TwoByte(2, 2);
    ShortProve(1, [1], 2);
    ShortSecrets();
  }

  lemma ShortClient()
    ensures ClientChallenge(SHORT, [0], [2], [1], [1, 254], [1], [0], false) == Ok(Proofs([5], [5], [4]))
  {
    hide Prove, BytesOf, Value, ClientsU, PrivateKey, ReducedClientSecret;
    ShortU();
    OneByte(2);
    TwoByte(1, 254);
    TwoByte(2, 2);
    ShortProve(514, [2, 2], 4);
    ShortNumbers();
    ShortSecrets();
  }

  lemma ShortU()
    ensures ClientsU(SHORT, [1], [1, 254]) == 255 && ServersU(SHORT, [1], [1, 254]) == 254
  {
    TwoByte(2, 3);
    OneByte(255);
    OneByte(254);
    assert PushResize([], 1) == [0];
    assert ClientU([1], [1, 254], 2) == [1] + [0] + [1, 254] && ServerU([1], [1, 254], 2) == [0] + [1] + [1, 254];
    ShortDigest([1] + [0] + [1, 254]);
    ShortDigest([0] + [1] + [1, 254]);
    hide Digest, BytesOf, Value, ServerU, ClientU;
  }

  lemma ShortProve(S: nat, SS: Bytes, K: Byte)
    requires BytesOf(S) == SS && FirstPlusLast(SS) == [K] && K < 255
    ensures Prove(SHORT, [1], [0], [1], [1, 254], S, false) == Ok(Proofs([K + 1], [K + 1], [K]))
  {
    ShortDigest(SS);
    ShortProofs(K);
    hide Digest, BytesOf, ClientProof, ServerProof;
  }

  lemma ShortProofs(K: Byte)
    requires K < 255
    ensures ClientProof(SHORT, [1], [0], [1], [1, 254], [K]) == Ok([K + 1])
    ensures ServerProof(SHORT.hash, [1], [K + 1], [K]) == [K + 1]
  {
    TwoByte(2, 3);
    TwoByte(2, 2);
    ShortDigest([2, 3]);
    ShortDigest([2, 2]);
    assert XorByte(5, 4) == 1;
    assert XorBytes([5], [4]) == [1];
    hide Digest, BytesOf, XorBytes;
    var m := [1] + Digest(SHORT.hash, [1]) + [0] + [1] + [1, 254] + [K];
    ShortDigest(m);
    ShortDigest([1] + [K + 1] + [K]);
    assert FirstPlusLast(m) == [K + 1] && FirstPlusLast([1] + [K + 1] + [K]) == [K + 1];
  }

  lemma ShortDigest(m: Bytes)
    ensures Digest(SHORT.hash, m) == FirstPlusLast(m)
  {
  }

  lemma TwoByte(h: Byte, l: Byte)
    requires h > 0
    ensures Value([h, l]) == 256 * h + l && BytesOf(256 * h + l) == [h, l]
  {
    OneByte(h);
    assert [h, l][..1] == [h];
    assert BytesOf(256 * h + l) == BytesOf(h) + [l];
  }

  lemma OneByte(n: Byte)
    requires n > 0
    ensures Value([n]) == n && BytesOf(n) == [n]
  {
    assert [n][..0] == [];
    assert BytesOf(0) == [];
  }

  lemma FirstPowers(b: int)
    ensures Pow(b, 0) == 1 && Pow(b, 1) == b && Pow(b, 2) == b * b
  {
    assert Pow(b, 1) == b * Pow(b, 0);
    assert Pow(b, 2) == b * Pow(b, 1);
  }

  /** Deriving the key and the proofs fails only for an empty B or, when
      interleaving, a secret of fewer than two bytes. */
  lemma ProveSucceeds(p: Params, username: Bytes, salt: Bytes, AA: Bytes, BB: Bytes, S: nat, interleave: bool)
    requires p.hash.outputLen > 0 && username != [] && salt != [] && AA != []
    ensures Prove(p, username, salt, AA, BB, S, interleave).Ok? <==> BB != [] && (interleave ==> S >= 256)
  {
    hide Digest, Alternate, Over, ShaInterleave, BytesOf;
    InterleaveIsRfc(p.hash, S);
  }

  lemma BIsNotZero(p: Params, username: Bytes, salt: Bytes, verificator: Bytes, AA: Bytes, bb: Bytes, interleave: bool,
                   server: Challenge)
    requires p.Set() && p.hash.outputLen > 0
    requires ServerChallenge(p, username, salt, verificator, AA, bb, interleave) == Ok(server)
    ensures Value(server.B) != 0
  {
    hide Prove, ServersU, ServerSecret, ServerPublic;
    var B := ServerPublic(p.group, Value(verificator), Value(bb));
    ValueOfBytes(B);
    ServerProves(p, username, salt, verificator, AA, bb, interleave, server);
  }

  lemma ProofsAreWhole(p: Params, username: Bytes, salt: Bytes, AA: Bytes, BB: Bytes, S: nat, interleave: bool)
    requires p.hash.outputLen > 0
    ensures var r := Prove(p, username, salt, AA, BB, S, interleave);
            r.Ok? ==> BB != [] && |r.value.M1| == |r.value.M2| == p.hash.outputLen
  {
  }

  /** With SHA-1, a 32-byte a and a 1024-bit N the exponent needs no hypothesis. */
  lemma Sha1HandshakeCompletes(p: Params, username: Bytes, password: Bytes, salt: Bytes, verificator: Bytes,
                               aa: Bytes, AA: Bytes, bb: Bytes, interleave: bool, server: Challenge)
    requires p.Set() && password != [] && p.hash.outputLen == 20 && |aa| == 32 && p.group.N >= Pow(2, 1023)
    requires CalculateVerificator(p, username, password, salt) == Ok(verificator)
    requires CalculateA(p, aa) == Ok(AA)
    requires ServerChallenge(p, username, salt, verificator, AA, bb, interleave) == Ok(server)
    requires |AA| == |BytesOf(p.group.N)| && ServersU(p, AA, server.B) != 0
    ensures ClientChallenge(p, salt, aa, AA, server.B, username, password, interleave) == Ok(server.proofs)
    ensures Authenticate(server.proofs, server.proofs.M1) == Ok(server.proofs)
  {
    hide Pow, Prove, ClientU, ServerU, ClientChallenge, ServerChallenge, CalculateA, CalculateVerificator, Authenticate;
    BytesFit(aa);
    BytesFit(Digest(p.hash, ServerU(AA, server.B, |BytesOf(p.group.N)|)));
    BytesFit(Digest(p.hash, salt + Digest(p.hash, username + [58] + password)));
    ExponentFits(Value(aa), ServersU(p, AA, server.B), PrivateKey(p.hash, salt, username, password), p.group.N);
    HandshakeCompletes(p, username, password, salt, verificator, aa, AA, bb, interleave, server);
  }

  /** The server's half goes through exactly when none of its own checks fails. */
  lemma ServerGoesThrough(p: Params, username: Bytes, password: Bytes, salt: Bytes, verificator: Bytes,
                          aa: Bytes, AA: Bytes, bb: Bytes, interleave: bool)
    requires p.Set() && p.hash.outputLen > 0 && bb != []
    requires CalculateVerificator(p, username, password, salt) == Ok(verificator)
    requires CalculateA(p, aa) == Ok(AA)
    ensures var g := p.group;
            var v := Verifier(g, PrivateKey(p.hash, salt, username, password));
            var A, B := ClientPublic(g, Value(aa)), ServerPublic(g, v, Value(bb));
            ServerChallenge(p, username, salt, verificator, AA, bb, interleave).Ok?
            <==> A != 0 && v != 0 && B != 0
                 && (interleave ==> ServerSecret(g, A, Value(bb), ServersU(p, AA, BytesOf(B)), v) >= 256)
  {
    var g := p.group;
    var v := Verifier(g, PrivateKey(p.hash, salt, username, password));
    var A, B := ClientPublic(g, Value(aa)), ServerPublic(g, v, Value(bb));
    hide Prove, ServersU, ServerSecret, ServerPublic, BytesOf, PrivateKey;
    ValueOfBytes(A);
    ValueOfBytes(v);
    RemainderIsUnique(A, 0, A, g.N);
    if A != 0 && v != 0 {
      var S := ServerSecret(g, A, Value(bb), ServersU(p, AA, BytesOf(B)), v);
      ProveSucceeds(p, username, salt, AA, BytesOf(B), S, interleave);
    }
  }
}
