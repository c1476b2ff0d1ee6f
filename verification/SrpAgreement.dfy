/** The algebra of SRP-6a (RFC 5054 section 2.6): what the two sides compute from
    each other's public values, and when it is the same number. */
module SrpAgreement {
  import opened Octets
  import opened SrpArithmetic

  /** N, g and the multiplier k of both sides. */
  datatype Group = Group(N: nat, g: nat, k: nat) {
    predicate Valid() {
      N > 0
    }
  }

  /** A */
  function ClientPublic(p: Group, a: nat): nat
    requires p.Valid()
  {
    ModExp(p.g, a, p.N)
  }

  /** v */
  function Verifier(p: Group, x: nat): nat
    requires p.Valid()
  {
    ModExp(p.g, x, p.N)
  }

  /** B */
  function ServerPublic(p: Group, v: nat, b: nat): nat
    requires p.Valid()
  {
    (p.k * v + Pow(p.g, b)) % p.N
  }

  /** S of the client as RFC 5054 has it: the exponent is not reduced. */
  function ClientSecret(p: Group, B: nat, a: nat, u: nat, x: nat): nat
    requires p.Valid()
  {
    ModExp(B - p.k * Pow(p.g, x), a + u * x, p.N)
  }

  /** S of the client as lines 179-184 have it: the exponent is taken modulo N. */
  function ReducedClientSecret(p: Group, B: nat, a: nat, u: nat, x: nat): nat
    requires p.Valid()
  {
    ModExp(B - p.k * Pow(p.g, x), (a + u * x) % p.N, p.N)
  }

  /** S of the server */
  function ServerSecret(p: Group, A: nat, b: nat, u: nat, v: nat): nat
    requires p.Valid()
  {
    ModExp(A * Pow(v, u), b, p.N)
  }

  /** The two sides of the source hold the same secret. */
  predicate Agree(p: Group, a: nat, b: nat, u: nat, x: nat)
    requires p.Valid()
  {
    ReducedClientSecret(p, ServerPublic(p, Verifier(p, x), b), a, u, x)
    == ServerSecret(p, ClientPublic(p, a), b, u, Verifier(p, x))
  }

  /** B without k * g^x is g^b. */
  lemma MaskComesOff(p: Group, b: nat, x: nat)
    requires p.Valid()
    ensures (ServerPublic(p, Verifier(p, x), b) - p.k * Pow(p.g, x)) % p.N == Pow(p.g, b) % p.N
  {
    var v, gx, gb := Verifier(p, x), Pow(p.g, x), Pow(p.g, b);
    var B := ServerPublic(p, v, b);
    RemainderIsUnique(v, 0, v, p.N);
    ProductReduces(gx, p.k, p.N);
    assert v * p.k == p.k * v && gx * p.k == p.k * gx;
    SumReduces(gb, p.k * v, p.N);
    SumReduces(gb, p.k * gx, p.N);
    assert B == (gb + p.k * gx) % p.N;
    RemainderIsUnique(B, 0, B, p.N);
    DifferenceReduces(B, p.k * gx, p.N);
    DifferenceReduces(gb + p.k * gx, p.k * gx, p.N);
  }

  /** The server raises g^(a + u*x) to b. */
  lemma ServerRaisesToB(p: Group, a: nat, b: nat, u: nat, x: nat)
    requires p.Valid()
    ensures ServerSecret(p, ClientPublic(p, a), b, u, Verifier(p, x)) == ModExp(p.g, (a + u * x) * b, p.N)
  {
    var A, v := ClientPublic(p, a), Verifier(p, x);
    RemainderIsUnique(A, 0, A, p.N);
    PowReduces(Pow(p.g, x), u, p.N);
    PowOfPow(p.g, x, u);
    assert x * u == u * x;
    CongruentProducts(A, Pow(p.g, a), Pow(v, u), Pow(p.g, u * x), p.N);
    PowSum(p.g, a, u * x);
    CongruentPowers(A * Pow(v, u), Pow(p.g, a + u * x), b, p.N);
    PowOfPow(p.g, a + u * x, b);
  }

  /** Both sides of RFC 5054 section 2.6 hold the same premaster secret. */
  lemma SecretsAgree(p: Group, a: nat, b: nat, u: nat, x: nat)
    requires p.Valid()
    ensures ClientSecret(p, ServerPublic(p, Verifier(p, x), b), a, u, x)
         == ServerSecret(p, ClientPublic(p, a), b, u, Verifier(p, x))
  {
    var e := a + u * x;
    MaskComesOff(p, b, x);
    CongruentPowers(ServerPublic(p, Verifier(p, x), b) - p.k * Pow(p.g, x), Pow(p.g, b), e, p.N);
    PowOfPow(p.g, b, e);
    assert b * e == e * b;
    ServerRaisesToB(p, a, b, u, x);
  }

  /** The client of the source agrees too while its exponent stays below N. */
  lemma ReducedSecretsAgree(p: Group, a: nat, b: nat, u: nat, x: nat)
    requires p.Valid() && a + u * x < p.N
    ensures Agree(p, a, b, u, x)
  {
    RemainderIsUnique(a + u * x, 0, a + u * x, p.N);
    SecretsAgree(p, a, b, u, x);
  }

  /** g^b raised to the client's exponent, which it reduces modulo N. */
  function ClientPower(p: Group, a: nat, b: nat, u: nat, x: nat): nat
    requires p.Valid()
  {
    ModExp(p.g, b * ((a + u * x) % p.N), p.N)
  }

  /** g^b raised to the exponent that the server's formula stands for. */
  function ServerPower(p: Group, a: nat, b: nat, u: nat, x: nat): nat
    requires p.Valid()
  {
    ModExp(p.g, b * (a + u * x), p.N)
  }

  /** What the two sides hold, each with its own idea of u. */
  lemma SecretsArePowers(p: Group, a: nat, b: nat, uc: nat, us: nat, x: nat)
    requires p.Valid()
    ensures ReducedClientSecret(p, ServerPublic(p, Verifier(p, x), b), a, uc, x) == ClientPower(p, a, b, uc, x)
    ensures ServerSecret(p, ClientPublic(p, a), b, us, Verifier(p, x)) == ServerPower(p, a, b, us, x)
  {
    ClientHoldsPower(p, a, b, uc, x);
    ServerRaisesToB(p, a, b, us, x);
    assert b * (a + us * x) == (a + us * x) * b;
  }

  lemma ClientHoldsPower(p: Group, a: nat, b: nat, u: nat, x: nat)
    requires p.Valid()
    ensures ReducedClientSecret(p, ServerPublic(p, Verifier(p, x), b), a, u, x) == ClientPower(p, a, b, u, x)
  {
    var e := (a + u * x) % p.N;
    MaskComesOff(p, b, x);
    CongruentPowers(ServerPublic(p, Verifier(p, x), b) - p.k * Pow(p.g, x), Pow(p.g, b), e, p.N);
    PowOfPow(p.g, b, e);
  }

  lemma AgreeOnPowers(p: Group, a: nat, b: nat, u: nat, x: nat)
    requires p.Valid()
    ensures Agree(p, a, b, u, x) <==> ClientPower(p, a, b, u, x) == ServerPower(p, a, b, u, x)
  {
    hide ReducedClientSecret, ServerSecret, ServerPublic, ClientPublic, Verifier, ClientPower, ServerPower;
    SecretsArePowers(p, a, b, u, u, x);
  }

  /** Reducing the exponent is invisible exactly when g^b takes the same value
      at the reduced exponent. */
  lemma AgreesWhenPowersDo(p: Group, a: nat, b: nat, u: nat, x: nat, e: nat)
    requires p.Valid() && e == a + u * x
    ensures Agree(p, a, b, u, x) <==> ModExp(p.g, b * (e % p.N), p.N) == ModExp(p.g, b * e, p.N)
  {
    hide Agree, ModExp;
    AgreeOnPowers(p, a, b, u, x);
  }

  /** A client can tell beforehand: it agrees with every b of the server exactly
      when g takes the same value at the exponent and at the reduced one. */
  lemma AgreesForEveryB(p: Group, a: nat, u: nat, x: nat, e: nat)
    requires p.Valid() && e == a + u * x
    ensures (forall b: nat :: Agree(p, a, b, u, x)) <==> ModExp(p.g, e % p.N, p.N) == ModExp(p.g, e, p.N)
  {
    var r := e % p.N;
    if ModExp(p.g, r, p.N) == ModExp(p.g, e, p.N) {
      forall b: nat
        ensures Agree(p, a, b, u, x)
      {
        PowersStayCongruent(p, r, e, b);
        AgreesWhenPowersDo(p, a, b, u, x, e);
      }
    } else {
      AgreesWhenPowersDo(p, a, 1, u, x, e);
      hide Agree, ModExp;
      assert 1 * r == r && 1 * e == e;
      assert !Agree(p, a, 1, u, x);
    }
  }

  lemma PowersStayCongruent(p: Group, i: nat, j: nat, b: nat)
    requires p.Valid() && ModExp(p.g, i, p.N) == ModExp(p.g, j, p.N)
    ensures ModExp(p.g, b * i, p.N) == ModExp(p.g, b * j, p.N)
  {
    CongruentPowers(Pow(p.g, i), Pow(p.g, j), b, p.N);
    PowOfPow(p.g, i, b);
    PowOfPow(p.g, j, b);
    assert i * b == b * i && j * b == b * j;
  }

  lemma {:induction false} PowersOfMinusOne(e: nat)
    ensures Pow(-1, e) == if e % 2 == 0 then 1 else -1
  {
    if e > 0 {
      PowersOfMinusOne(e - 1);
    }
  }

  /** The bound a + u*x < N is tight: from N up to 2N, and wherever the quotient
      by N is odd, g = N - 1 and b = 1 make the two sides differ for every odd N. */
  lemma ReductionBreaksAgreement(N: nat, k: nat, a: nat, u: nat, x: nat, e: nat)
    requires N >= 3 && N % 2 == 1 && e == a + u * x && e / N % 2 == 1
    ensures !Agree(Group(N, N - 1, k), a, 1, u, x)
  {
    hide *;
    DivisionLaw(e, N);
    OddQuotientBreaks(Group(N, N - 1, k), a, u, x, e, e / N, e % N);
  }

  lemma OddQuotientBreaks(p: Group, a: nat, u: nat, x: nat, e: nat, q: nat, r: nat)
    requires p.N >= 3 && p.N % 2 == 1 && p.g == p.N - 1 && e == a + u * x
    requires e == q * p.N + r && r < p.N && q % 2 == 1
    ensures !Agree(p, a, 1, u, x)
  {
    ParitiesDecide(p, a, 1, u, u, x, q, r);
    OddQuotientShows(e, p.N, q, r);
    AgreeOnPowers(p, a, 1, u, x);
    hide *;
  }

  lemma PowersOfLast(N: nat, e: nat)
    requires N >= 3
    ensures Pow(N - 1, e) % N == if e % 2 == 0 then 1 else N - 1
  {
    hide Pow;
    MultiplesVanish(-1, 1, N);
    CongruentPowers(N - 1, -1, e, N);
    PowersOfMinusOne(e);
    RemainderIsUnique(-1, -1, N - 1, N);
    RemainderIsUnique(1, 0, 1, N);
  }

  /** With g = N - 1 and an odd b only the parities of the two exponents count, of
      which the client's is the remainder r. */
  lemma ParitiesDecide(p: Group, a: nat, b: nat, uc: nat, us: nat, x: nat, q: nat, r: nat)
    requires p.N >= 3 && p.g == p.N - 1 && b % 2 == 1
    requires a + uc * x == q * p.N + r && r < p.N
    ensures ClientPower(p, a, b, uc, x) == ServerPower(p, a, b, us, x) <==> r % 2 == (a + us * x) % 2
  {
    RemainderIsUnique(a + uc * x, q, r, p.N);
    ParitiesOfPowers(p.N, b, r, a + us * x);
    hide Pow;
  }

  lemma ParitiesOfPowers(N: nat, b: nat, r: nat, e: nat)
    requires N >= 3 && b % 2 == 1
    ensures ModExp(N - 1, b * r, N) == ModExp(N - 1, b * e, N) <==> r % 2 == e % 2
  {
    hide Pow;
    PowersOfLast(N, b * r);
    PowersOfLast(N, b * e);
    OddFactor(b, r);
    OddFactor(b, e);
  }

  lemma OddFactor(b: nat, n: nat)
    requires b % 2 == 1
    ensures b * n % 2 == n % 2
  {
    RemainderIsUnique(b * n, b / 2 * n + n / 2, n % 2, 2) by {
      assert b * n == (2 * (b / 2) + 1) * n == 2 * (b / 2 * n) + n;
    }
  }

  /** Taking the remainder changes the parity when divisor and quotient are odd. */
  lemma OddQuotientShows(e: nat, N: nat, q: nat, r: nat)
    requires N % 2 == 1 && q % 2 == 1 && e == q * N + r
    ensures r % 2 != e % 2
  {
    OddFactor(q, N);
    SumWithOdd(q * N, r);
  }

  lemma SumWithOdd(m: nat, r: nat)
    requires m % 2 == 1
    ensures (m + r) % 2 != r % 2
  {
  }

  /** With SHA-1's u and x, a 32-byte a and N of 1024 bits the exponent is below N. */
  lemma ExponentFits(a: nat, u: nat, x: nat, N: nat)
    requires u < Pow(2, 160) && x < Pow(2, 160) && a < Pow(2, 256) && N >= Pow(2, 1023)
    ensures a + u * x < N
  {
    hide Pow;
    MulStrictlyMonotone(u, Pow(2, 160), x, Pow(2, 160));
    PowSum(2, 160, 160);
    PowMonotone(2, 256, 320);
    PowMonotone(2, 321, 1023);
    PowSum(2, 1, 320);
    TwoToTheOne();
  }

  lemma TwoToTheOne()
    ensures Pow(2, 1) == 2
  {
    assert Pow(2, 1) == 2 * Pow(2, 0);
  }

  /** n bytes hold eight times n bits. */
  lemma BytesFit(s: Bytes)
    ensures Value(s) < Pow(2, 8 * |s|)
  {
    ValueBound(s);
    assert Pow(2, 8) == 256 by {
      assert Pow(2, 4) == 2 * Pow(2, 3) == 4 * Pow(2, 2) == 8 * Pow(2, 1) == 16;
      PowSum(2, 4, 4);
    }
    PowOfPow(2, 8, |s|);
  }
}
