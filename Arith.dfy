/**
 * Integer and prime-field arithmetic that the secret-sharing core takes from
 * its big-integer library: powers of two, reduction modulo p, primality, the
 * next prime above a bound, and the modular inverse by extended Euclid.
 */
module Arith {

  /** 2^k, the value of the shift `1 << k` on unbounded integers. */
  function Pow2(k: nat): (r: nat)
    ensures r >= 1
  {
    if k == 0 then 1 else 2 * Pow2(k - 1)
  }

  /** 256^k: the number of distinct k-byte strings. */
  function Pow256(k: nat): (r: nat)
    ensures r >= 1
  {
    if k == 0 then 1 else 256 * Pow256(k - 1)
  }

  /** Shifting by eight bits per byte gives the byte-count power. */
  lemma {:induction false} Pow2Bytes(k: nat)
    ensures Pow2(8 * k) == Pow256(k)
  {
    if k > 0 {
      Pow2Bytes(k - 1);
      assert Pow2(8 * k) == 256 * Pow2(8 * (k - 1)) by {
        Pow2Add(8 * (k - 1), 8);
      }
    }
  }

  lemma {:induction false} Pow2Add(a: nat, b: nat)
    ensures Pow2(a + b) == Pow2(b) * Pow2(a)
  {
    if b > 0 {
      Pow2Add(a, b - 1);
      assert Pow2(a + b) == 2 * Pow2(a + b - 1);
    }
  }

  // ---------------------------------------------------------------------
  // Reduction modulo a positive integer
  // ---------------------------------------------------------------------

  /** Quotient and remainder are unique. */
  lemma DivModUnique(x: int, q: int, r: int, m: int)
    requires m > 0 && 0 <= r < m && x == q * m + r
    ensures x / m == q && x % m == r
  {
    var q0, r0 := x / m, x % m;
    assert x == q0 * m + r0;
    assert (q - q0) * m == r0 - r by {
      assert (q - q0) * m == q * m - q0 * m;
    }
    if q0 < q {
      MulAtLeast(q - q0, m);
    } else if q0 > q {
      MulAtLeast(q0 - q, m);
    }
  }

  /** Multiplication distributes over the difference z - r. */
  lemma SubDistrib(z: int, r: int, e: int)
    ensures 0 + z * e + -r * e == (z - r) * e
  {
  }

  /**
   * One Horner step of the factor theorem: if t(z) = t(a) + (z - a) q(z),
   * then c0 + z t(z) = (c0 + a t(a)) + (z - a)(t(a) + z q(z)).
   */
  lemma HornerFactorStep(c0: int, z: int, a: int, ta: int, tz: int, qz: int)
    requires tz == ta + (z - a) * qz
    ensures c0 + z * tz == (c0 + a * ta) + (z - a) * (ta + z * qz)
  {
    assert z * tz == z * ta + z * ((z - a) * qz);
    assert (z - a) * (ta + z * qz) == (z - a) * ta + (z - a) * (z * qz);
    assert z * ((z - a) * qz) == (z - a) * (z * qz);
  }

  lemma ModSelf(m: int)
    requires m > 0
    ensures m % m == 0
  {
    DivModUnique(m, 1, 0, m);
  }

  lemma ZeroFactor(a: int, b: int)
    requires b == 0
    ensures a * b == 0
  {
  }

  /** A value already in [0, m) is its own remainder. */
  lemma SmallMod(x: int, m: int)
    requires 0 <= x < m
    ensures x % m == x
  {
    DivModUnique(x, 0, x, m);
  }

  lemma MulAtLeast(a: int, m: int)
    requires a >= 1 && m > 0
    ensures a * m >= m
  {
    assert a * m == (a - 1) * m + m;
  }

  lemma ModMultiple(k: int, x: int, m: int)
    requires m > 0
    ensures (k * m + x) % m == x % m
  {
    var q := x / m;
    assert k * m + x == (k + q) * m + x % m;
    DivModUnique(k * m + x, k + q, x % m, m);
  }

  lemma ModAddLeft(a: int, b: int, m: int)
    requires m > 0
    ensures (a % m + b) % m == (a + b) % m
  {
    ModMultiple(a / m, a % m + b, m);
  }

  lemma ModAdd(a: int, b: int, m: int)
    requires m > 0
    ensures (a % m + b % m) % m == (a + b) % m
  {
    ModAddLeft(a, b % m, m);
    ModAddLeft(b, a, m);
  }

  lemma ModMulLeft(a: int, b: int, m: int)
    requires m > 0
    ensures (a % m * b) % m == (a * b) % m
  {
    var q := a / m;
    assert a * b == (q * b) * m + a % m * b;
    ModMultiple(q * b, a % m * b, m);
  }

  lemma ModMul(a: int, b: int, m: int)
    requires m > 0
    ensures (a % m * (b % m)) % m == (a * b) % m
  {
    ModMulLeft(a, b % m, m);
    ModMulLeft(b, a, m);
    assert a * (b % m) == b % m * a;
    assert a * b == b * a;
  }

  /** Two integers are congruent modulo m exactly when m divides their difference. */
  lemma CongruentIffDifference(u: int, v: int, m: int)
    requires m > 0
    ensures (u - v) % m == 0 <==> u % m == v % m
  {
    var a, b := u % m, v % m;
    assert u - v == (u / m - v / m) * m + (a - b);
    ModMultiple(u / m - v / m, a - b, m);
    if a < b {
      DivModUnique(a - b, -1, a - b + m, m);
    } else {
      DivModUnique(a - b, 0, a - b, m);
    }
  }

  /** A multiple of a multiple of m is a multiple of m. */
  lemma MulDivisible(k: int, x: int, m: int)
    requires m > 0 && x % m == 0
    ensures (k * x) % m == 0
  {
    ModMulLeft(x, k, m);
    assert x * k == k * x;
  }

  /** Divisibility is preserved by integer linear combinations. */
  lemma LinearDivisible(k: int, x: int, y: int, m: int)
    requires m > 0 && x % m == 0 && y % m == 0
    ensures (k * x + y) % m == 0
  {
    MulDivisible(k, x, m);
    ModAdd(k * x, y, m);
  }

  lemma DivisibleTrans(n: int, q: int, e: int)
    requires q > 0 && e > 0 && n % q == 0 && q % e == 0
    ensures n % e == 0
  {
    assert n == (n / q) * q;
    MulDivisible(n / q, q, e);
  }

  // ---------------------------------------------------------------------
  // Primes
  // ---------------------------------------------------------------------

  /** n is prime: at least 2 and without a divisor strictly between 1 and n. */
  predicate IsPrime(n: nat)
  {
    n >= 2 && forall d :: 2 <= d < n ==> n % d != 0
  }

  function Factorial(n: nat): (r: nat)
    ensures r >= 1
  {
    if n == 0 then 1 else n * Factorial(n - 1)
  }

  lemma {:induction false} FactorialDivisible(n: nat, d: nat)
    requires 1 <= d <= n
    ensures Factorial(n) % d == 0
  {
    if d == n {
      ModMultiple(Factorial(n - 1), 0, n);
      assert Factorial(n) == Factorial(n - 1) * n;
    } else {
      FactorialDivisible(n - 1, d);
      MulDivisible(n, Factorial(n - 1), d);
    }
  }

  /** The least divisor of n that is at least d, given that none lies in [2, d). */
  ghost function LeastDivisorFrom(n: nat, d: nat): (q: nat)
    requires 2 <= d <= n
    requires forall e :: 2 <= e < d ==> n % e != 0
    ensures d <= q <= n && n % q == 0
    ensures forall e :: 2 <= e < q ==> n % e != 0
    decreases n - d
  {
    if n % d == 0 then d
    else
      ModSelf(n);
      LeastDivisorFrom(n, d + 1)
  }

  /** The least divisor above 1 of any n >= 2 is prime. */
  lemma LeastDivisorIsPrime(n: nat)
    requires n >= 2
    ensures IsPrime(LeastDivisorFrom(n, 2))
  {
    var q := LeastDivisorFrom(n, 2);
    forall e | 2 <= e < q
      ensures q % e != 0
    {
      if q % e == 0 {
        DivisibleTrans(n, q, e);
      }
    }
  }

  /** Euclid: some prime lies above every bound (a prime factor of lb! + 1). */
  lemma PrimeAboveExists(lb: nat)
    ensures exists q :: IsPrime(q) && lb < q
  {
    var q := LeastDivisorFrom(Factorial(lb) + 1, 2);
    LeastDivisorIsPrime(Factorial(lb) + 1);
    EuclidFactor(lb);
    assert IsPrime(q) && lb < q;
  }

  /** Some prime above lb. */
  ghost function PrimeAbove(lb: nat): (q: nat)
    ensures IsPrime(q) && lb < q
  {
    PrimeAboveExists(lb);
    var q :| IsPrime(q) && lb < q; q
  }

  /** No d >= 2 divides both f and f + 1. */
  lemma SuccessorNotDivisible(f: int, d: int)
    requires d >= 2 && f % d == 0
    ensures (f + 1) % d != 0
  {
    var k := f / d;
    assert f == k * d;
    DivModUnique(f + 1, k, 1, d);
  }

  lemma EuclidFactor(lb: nat)
    ensures LeastDivisorFrom(Factorial(lb) + 1, 2) > lb
  {
    var f := Factorial(lb);
    var q := LeastDivisorFrom(f + 1, 2);
    if q <= lb {
      FactorialDivisible(lb, q);
      SuccessorNotDivisible(f, q);
      assert false;
    }
  }

  /** Linear search for the least prime in [k, q], q a known prime. */
  function NextPrimeFrom(k: nat, ghost q: nat): (p: nat)
    requires k <= q && IsPrime(q)
    ensures IsPrime(p) && k <= p <= q
    decreases q - k
  {
    if IsPrime(k) then k else NextPrimeFrom(k + 1, q)
  }

  /** The search stops at the first prime: nothing it passes over is prime. */
  lemma {:induction false} NextPrimeFromIsLeast(k: nat, q: nat)
    requires k <= q && IsPrime(q)
    ensures forall j :: k <= j < NextPrimeFrom(k, q) ==> !IsPrime(j)
    decreases q - k
  {
    if !IsPrime(k) {
      NextPrimeFromIsLeast(k + 1, q);
    }
  }

  /**
   * NTL's NextPrime(lb): the least prime that is at least lb. The library
   * finds it with a probabilistic primality test; here it is defined by the
   * primality predicate itself.
   */
  function NextPrime(lb: nat): (p: nat)
    ensures IsPrime(p) && lb <= p
  {
    NextPrimeFrom(lb, PrimeAbove(lb))
  }

  /** NextPrime(lb) is the least prime at or above lb. */
  lemma NextPrimeIsLeast(lb: nat)
    ensures forall j :: lb <= j < NextPrime(lb) ==> !IsPrime(j)
  {
    NextPrimeFromIsLeast(lb, PrimeAbove(lb));
  }

  // ---------------------------------------------------------------------
  // Extended Euclid and the modular inverse
  // ---------------------------------------------------------------------

  /** Bezout coefficients: s * a + t * b == g, where g is the gcd. */
  datatype Bezout = Bezout(g: nat, s: int, t: int)

  /** One step of extended Euclid: coefficients for (b, a mod b) give coefficients for (a, b). */
  lemma BezoutStep(a: int, b: int, s: int, t: int, g: int)
    requires b > 0 && s * b + t * (a % b) == g
    ensures t * a + (s - (a / b) * t) * b == g
  {
    var q := a / b;
    assert a == q * b + a % b;
    assert t * a == t * (q * b) + t * (a % b);
    assert (s - q * t) * b == s * b - t * (q * b);
  }

  /** A common divisor of b and a mod b divides a. */
  lemma DivisorStep(a: int, b: int, g: int)
    requires b > 0 && g > 0 && b % g == 0 && (a % b) % g == 0
    ensures a % g == 0
  {
    assert a == (a / b) * b + a % b;
    LinearDivisible(a / b, b, a % b, g);
  }

  function ExtGcd(a: nat, b: nat): (r: Bezout)
    ensures r.s * a + r.t * b == r.g
    ensures r.g > 0 ==> a % r.g == 0 && b % r.g == 0
    ensures a > 0 || b > 0 ==> r.g > 0
    decreases b
  {
    if b == 0 then Bezout(a, 1, 0)
    else
      var r := ExtGcd(b, a % b);
      BezoutStep(a, b, r.s, r.t, r.g);
      DivisorStep(a, b, r.g);
      Bezout(r.g, r.t, r.s - (a / b) * r.t)
  }

  /** The multiplicative inverse of a modulo m, defined when gcd(a mod m, m) = 1. */
  function Inverse(a: int, m: nat): (r: nat)
    requires m >= 2 && ExtGcd(a % m, m).g == 1
    ensures r < m && (a * r) % m == 1
  {
    InverseCorrect(a, m);
    ExtGcd(a % m, m).s % m
  }

  lemma InverseCorrect(a: int, m: nat)
    requires m >= 2 && ExtGcd(a % m, m).g == 1
    ensures (a * (ExtGcd(a % m, m).s % m)) % m == 1
  {
    var e := ExtGcd(a % m, m);
    InverseFromBezout(a, e.s, e.t, m);
  }

  lemma InverseFromBezout(a: int, s: int, t: int, m: nat)
    requires m >= 2 && s * (a % m) + t * m == 1
    ensures (a * (s % m)) % m == 1
  {
    ResidueTimes(a, s, t, m);
    ModMulLeft(a, s, m);
    MulRightReduced(a, s, m);
  }

  lemma ResidueTimes(a: int, s: int, t: int, m: nat)
    requires m >= 2 && s * (a % m) + t * m == 1
    ensures (a % m * s) % m == 1
  {
    assert a % m * s == (-t) * m + 1;
    ModMultiple(-t, 1, m);
  }

  lemma MulRightReduced(a: int, b: int, m: int)
    requires m > 0
    ensures (a * (b % m)) % m == (a * b) % m
  {
    ModMulLeft(b, a, m);
    assert b % m * a == a * (b % m);
    assert b * a == a * b;
  }

  /** Every non-zero residue modulo a prime is coprime to it. */
  lemma PrimeCoprime(a: int, p: nat)
    requires IsPrime(p) && a % p != 0
    ensures ExtGcd(a % p, p).g == 1
  {
    var r := a % p;
    var g := ExtGcd(r, p).g;
    assert g > 0 && r % g == 0 && p % g == 0;
    if g > r {
      DivModUnique(r, 0, r, g);
      assert false;
    } else if g >= 2 {
      assert false;
    }
  }

  /** Modulo a prime a product is zero only when a factor is. */
  lemma NoZeroDivisors(a: int, b: int, p: nat)
    requires IsPrime(p) && (a * b) % p == 0 && a % p != 0
    ensures b % p == 0
  {
    PrimeCoprime(a, p);
    var i := Inverse(a, p);
    CancelFactor(a, b, i, p);
  }

  lemma CancelFactor(a: int, b: int, i: int, m: int)
    requires m > 0 && (a * i) % m == 1 && (a * b) % m == 0
    ensures b % m == 0
  {
    var u, v := a * i, a * b;
    MulRightReduced(b, u, m);
    assert b * (u % m) == b;
    assert b * u == v * i;
    ModMulLeft(v, i, m);
    assert v % m * i == 0;
  }
}
