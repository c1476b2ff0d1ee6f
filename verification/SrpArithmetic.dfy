/** The integers under SRP: powers, remainders, and the minimal bytes that
    BN_bn2bin writes (crypto/ossl/osslconversion.cpp). */
module SrpArithmetic {
  import opened Octets

  function Pow(b: int, e: nat): int {
    if e == 0 then 1 else b * Pow(b, e - 1)
  }

  /** Modular exponentiation, as BN_mod_exp does it. */
  function ModExp(b: int, e: nat, m: nat): (r: nat)
    requires m > 0
    ensures r < m
  {
    Pow(b, e) % m
  }

  // --------------------------------------------------------------- powers

  lemma {:induction false} PowSum(b: int, i: nat, j: nat)
    ensures Pow(b, i + j) == Pow(b, i) * Pow(b, j)
  {
    if i > 0 {
      PowSum(b, i - 1, j);
      MulAssoc(b, Pow(b, i - 1), Pow(b, j));
    }
  }

  lemma {:induction false} PowOfPow(b: int, i: nat, j: nat)
    ensures Pow(Pow(b, i), j) == Pow(b, i * j)
  {
    if j > 0 {
      PowOfPow(b, i, j - 1);
      PowSum(b, i, i * (j - 1));
      assert i + i * (j - 1) == i * j;
    } else {
      assert i * 0 == 0;
    }
  }

  lemma {:induction false} PowPositive(b: nat, e: nat)
    requires b > 0
    ensures Pow(b, e) >= 1
  {
    if e > 0 {
      PowPositive(b, e - 1);
      MulMonotone(1, b, 1, Pow(b, e - 1));
    }
  }

  lemma {:induction false} PowMonotone(b: nat, i: nat, j: nat)
    requires b > 0 && i <= j
    ensures Pow(b, i) <= Pow(b, j)
  {
    PowSum(b, i, j - i);
    PowPositive(b, i);
    PowPositive(b, j - i);
    MulMonotone(Pow(b, i), Pow(b, i), 1, Pow(b, j - i));
  }

  lemma MulAssoc(a: int, b: int, c: int)
    ensures a * (b * c) == a * b * c
  {
  }

  lemma MulMonotone(a: nat, b: nat, c: nat, d: nat)
    requires a <= b && c <= d
    ensures a * c <= b * d
  {
    assert a * c <= b * c;
    assert b * c <= b * d;
  }

  lemma MulStrictlyMonotone(a: nat, b: nat, c: nat, d: nat)
    requires a < b && c < d
    ensures a * c < b * d
  {
    MulMonotone(a, b - 1, c, d - 1);
    assert (b - 1) * (d - 1) == b * d - b - d + 1;
  }

  // ----------------------------------------------------------- remainders

  lemma OnlyZeroMultipleIsSmall(d: int, m: int)
    requires m > 0 && -m < d * m < m
    ensures d == 0
  {
    if d >= 1 {
      MulMonotone(1, d, m, m);
    }
  }

  lemma DivisionLaw(x: int, m: nat)
    requires m > 0
    ensures x == x / m * m + x % m && 0 <= x % m < m
  {
  }

  lemma RemainderIsUnique(x: int, q: int, r: int, m: nat)
    requires 0 <= r < m && x == q * m + r
    ensures x % m == r && x / m == q
  {
    DivisionLaw(x, m);
    var p, s := x / m, x % m;
    assert (p - q) * m == p * m - q * m;
    OnlyZeroMultipleIsSmall(p - q, m);
  }

  lemma MultiplesVanish(x: int, q: int, m: nat)
    requires m > 0
    ensures (x + q * m) % m == x % m
  {
    RemainderIsUnique(x + q * m, x / m + q, x % m, m);
  }

  /** A sum, difference or product may be reduced term by term. */
  lemma SumReduces(a: int, b: int, m: nat)
    requires m > 0
    ensures (a + b % m) % m == (a + b) % m
  {
    MultiplesVanish(a + b % m, b / m, m);
  }

  lemma DifferenceReduces(a: int, b: int, m: nat)
    requires m > 0
    ensures (a % m - b % m) % m == (a - b) % m
  {
    MultiplesVanish(a % m - b % m, a / m - b / m, m);
    assert a - b == a % m - b % m + (a / m - b / m) * m;
  }

  lemma ProductReduces(a: int, b: int, m: nat)
    requires m > 0
    ensures (a % m * b) % m == (a * b) % m
  {
    MultiplesVanish(a % m * b, a / m * b, m);
    assert a * b == (a / m * m + a % m) * b == a / m * m * b + a % m * b;
    assert a / m * m * b == a / m * b * m;
  }

  lemma CongruentProducts(a: int, b: int, c: int, d: int, m: nat)
    requires m > 0 && a % m == b % m && c % m == d % m
    ensures (a * c) % m == (b * d) % m
  {
    ProductReduces(a, c, m);
    ProductReduces(b, c, m);
    ProductReduces(c, b, m);
    ProductReduces(d, b, m);
    assert c * b == b * c && d * b == b * d;
  }

  lemma {:induction false} CongruentPowers(a: int, b: int, e: nat, m: nat)
    requires m > 0 && a % m == b % m
    ensures Pow(a, e) % m == Pow(b, e) % m
  {
    if e > 0 {
      CongruentPowers(a, b, e - 1, m);
      CongruentProducts(a, b, Pow(a, e - 1), Pow(b, e - 1), m);
    }
  }

  lemma PowReduces(b: int, e: nat, m: nat)
    requires m > 0
    ensures Pow(b % m, e) % m == Pow(b, e) % m
  {
    RemainderIsUnique(b % m, 0, b % m, m);
    CongruentPowers(b % m, b, e, m);
  }

  // ---------------------------------------------------------------- bytes

  /** BN_bn2bin into BN_num_bytes bytes: no leading zero, nothing for zero. */
  function BytesOf(n: nat): (s: Bytes)
    ensures s == [] <==> n == 0
    ensures s != [] ==> s[0] != 0
  {
    if n == 0 then [] else
      var rest := BytesOf(n / 256);
      var s := rest + [n % 256];
      assert rest != [] ==> s[0] == rest[0];
      s
  }

  lemma {:induction false} ValueOfBytes(n: nat)
    ensures Value(BytesOf(n)) == n
  {
    if n > 0 {
      ValueOfBytes(n / 256);
      var s := BytesOf(n);
      assert s[..|s| - 1] == BytesOf(n / 256);
    }
  }

  lemma {:induction false} BytesOfValue(s: Bytes)
    requires s != [] ==> s[0] != 0
    ensures BytesOf(Value(s)) == s
    decreases |s|
  {
    if s != [] {
      var init := s[..|s| - 1];
      if init != [] {
        assert init[0] == s[0];
      }
      BytesOfValue(init);
      RemainderIsUnique(Value(s), Value(init), s[|s| - 1], 256);
      assert s == init + [s[|s| - 1]];
      assert Value(s) != 0;
    }
  }

  lemma {:induction false} ValueBound(s: Bytes)
    ensures Value(s) < Pow(256, |s|)
    decreases |s|
  {
    if s != [] {
      ValueBound(s[..|s| - 1]);
    }
  }

  /** BN_num_bytes is the base-256 logarithm. */
  lemma {:induction false} LengthIsLogarithm(n: nat)
    requires n > 0
    ensures |BytesOf(n)| > 0 && Pow(256, |BytesOf(n)| - 1) <= n < Pow(256, |BytesOf(n)|)
  {
    if n >= 256 {
      LengthIsLogarithm(n / 256);
      var l := |BytesOf(n / 256)|;
      assert |BytesOf(n)| == l + 1;
      assert Pow(256, l) == 256 * Pow(256, l - 1);
      assert Pow(256, l + 1) == 256 * Pow(256, l);
    } else {
      assert BytesOf(n / 256) == [];
      assert Pow(256, 1) == 256 * Pow(256, 0);
    }
  }
}
