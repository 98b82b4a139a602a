/**
 * Polynomials over the integers and over GF(p), given by their coefficient
 * sequences lowest degree first (NTL's ZZ_pX stores them the same way):
 * Horner evaluation, the arithmetic that building an interpolant needs, and
 * the root-counting fact that makes interpolation unique.
 */
module Polynomial {
  import opened Arith

  /** The exact integer value of the polynomial c at z, by Horner's rule. */
  function EvalZ(c: seq<int>, z: int): int
  {
    if c == [] then 0 else c[0] + z * EvalZ(c[1..], z)
  }

  /**
   * NTL's eval(f, x) in GF(p): Horner's rule with every step reduced modulo p.
   * It is the integer value of the polynomial, reduced once at the end.
   */
  function Eval(c: seq<int>, x: int, p: nat): (y: nat)
    requires p > 0
    ensures y < p && y == EvalZ(c, x) % p
  {
    if c == [] then 0
    else
      var rest := Eval(c[1..], x, p);
      ModMul(x, EvalZ(c[1..], x), p);
      MulRightReduced(x, EvalZ(c[1..], x), p);
      ModAdd(c[0], x * rest, p);
      ModAdd(c[0], x * EvalZ(c[1..], x), p);
      (c[0] + x * rest) % p
  }

  function Power(z: int, k: nat): int
  {
    if k == 0 then 1 else z * Power(z, k - 1)
  }

  /** The textbook definition: the sum of c[i] * z^i over all coefficients. */
  function SumOfTerms(c: seq<int>, z: int): int
  {
    if c == [] then 0 else SumOfTerms(c[..|c| - 1], z) + c[|c| - 1] * Power(z, |c| - 1)
  }

  lemma {:induction false} EvalZAppend(c: seq<int>, a: int, z: int)
    ensures EvalZ(c + [a], z) == EvalZ(c, z) + a * Power(z, |c|)
  {
    if c != [] {
      assert (c + [a])[1..] == c[1..] + [a];
      EvalZAppend(c[1..], a, z);
      var e := EvalZ(c[1..], z);
      var w := Power(z, |c| - 1);
      assert z * (e + a * w) == z * e + a * (z * w);
    }
  }

  /** Horner's rule computes the sum of the terms c[i] * z^i. */
  lemma {:induction false} HornerIsSumOfTerms(c: seq<int>, z: int)
    ensures EvalZ(c, z) == SumOfTerms(c, z)
  {
    if c != [] {
      var init := c[..|c| - 1];
      assert c == init + [c[|c| - 1]];
      HornerIsSumOfTerms(init, z);
      EvalZAppend(init, c[|c| - 1], z);
    }
  }

  /** A polynomial's value at 0 is its constant coefficient. */
  lemma EvalAtZero(c: seq<int>, p: nat)
    requires p > 0 && c != []
    ensures Eval(c, 0, p) == c[0] % p
  {
  }

  /** In GF(p) the point p is the point 0: the value there is the constant term. */
  lemma EvalAtModulus(c: seq<int>, x: int, p: nat)
    requires p > 0 && c != [] && x == p
    ensures Eval(c, x, p) == c[0] % p
  {
    ModSelf(p);
    EvalReducedPoint(c, p, p);
    EvalAtZero(c, p);
  }

  /** A constant polynomial takes its one value at every point. */
  lemma EvalConstant(s: int, x: int, p: nat)
    requires p > 0
    ensures Eval([s], x, p) == s % p
  {
    assert [s][1..] == [];
  }

  /** The value at x depends only on x modulo p. */
  lemma {:induction false} EvalReducedPoint(c: seq<int>, x: int, p: nat)
    requires p > 0
    ensures Eval(c, x % p, p) == Eval(c, x, p)
  {
    if c != [] {
      EvalReducedPoint(c[1..], x, p);
      var r := Eval(c[1..], x, p);
      ModMulLeft(x, r, p);
      ModAddLeft(x % p * r, c[0], p);
      ModAddLeft(x * r, c[0], p);
      assert c[0] + x % p * r == x % p * r + c[0];
      assert c[0] + x * r == x * r + c[0];
    }
  }

  // ---------------------------------------------------------------------
  // Arithmetic on coefficient sequences
  // ---------------------------------------------------------------------

  function Add(a: seq<int>, b: seq<int>): (r: seq<int>)
    ensures |r| == if |a| < |b| then |b| else |a|
  {
    if a == [] then b
    else if b == [] then a
    else [a[0] + b[0]] + Add(a[1..], b[1..])
  }

  lemma {:induction false} EvalAdd(a: seq<int>, b: seq<int>, z: int)
    ensures EvalZ(Add(a, b), z) == EvalZ(a, z) + EvalZ(b, z)
  {
    if a != [] && b != [] {
      EvalAdd(a[1..], b[1..], z);
      assert Add(a, b)[1..] == Add(a[1..], b[1..]);
      assert z * (EvalZ(a[1..], z) + EvalZ(b[1..], z)) == z * EvalZ(a[1..], z) + z * EvalZ(b[1..], z);
    }
  }

  function Scale(k: int, a: seq<int>): (r: seq<int>)
    ensures |r| == |a|
  {
    if a == [] then [] else [k * a[0]] + Scale(k, a[1..])
  }

  lemma {:induction false} EvalScale(k: int, a: seq<int>, z: int)
    ensures EvalZ(Scale(k, a), z) == k * EvalZ(a, z)
  {
    if a != [] {
      EvalScale(k, a[1..], z);
      assert Scale(k, a)[1..] == Scale(k, a[1..]);
      assert z * (k * EvalZ(a[1..], z)) == k * (z * EvalZ(a[1..], z));
    }
  }

  /** The product of a with the linear factor (X - r). */
  function MulLinear(a: seq<int>, r: int): (m: seq<int>)
    ensures |m| == |a| + 1
  {
    Add([0] + a, Scale(-r, a))
  }

  lemma EvalMulLinear(a: seq<int>, r: int, z: int)
    ensures EvalZ(MulLinear(a, r), z) == (z - r) * EvalZ(a, z)
  {
    EvalAdd([0] + a, Scale(-r, a), z);
    EvalScale(-r, a, z);
    assert ([0] + a)[1..] == a;
    SubDistrib(z, r, EvalZ(a, z));
  }

  // ---------------------------------------------------------------------
  // Roots
  // ---------------------------------------------------------------------

  /** Synthetic division by (X - a). */
  function Quotient(c: seq<int>, a: int): (q: seq<int>)
    ensures |q| == if c == [] then 0 else |c| - 1
  {
    if |c| <= 1 then [] else [EvalZ(c[1..], a)] + Quotient(c[1..], a)
  }

  /** The factor theorem: c(z) = c(a) + (z - a) * q(z) for q the quotient by (X - a). */
  lemma {:induction false} FactorTheorem(c: seq<int>, a: int, z: int)
    ensures EvalZ(c, z) == EvalZ(c, a) + (z - a) * EvalZ(Quotient(c, a), z)
  {
    if |c| == 1 {
      assert c[1..] == [];
    } else if |c| > 1 {
      var t := c[1..];
      FactorTheorem(t, a, z);
      var q := Quotient(c, a);
      assert q[1..] == Quotient(t, a);
      var ta, tz, qz := EvalZ(t, a), EvalZ(t, z), EvalZ(Quotient(t, a), z);
      assert EvalZ(q, z) == ta + z * qz;
      HornerFactorStep(c[0], z, a, ta, tz, qz);
    }
  }

  /** The points of xs are pairwise distinct modulo p. */
  predicate DistinctMod(xs: seq<int>, p: nat)
    requires p > 0
  {
    forall i, j :: 0 <= i < |xs| && 0 <= j < |xs| && i != j ==> (xs[i] - xs[j]) % p != 0
  }

  /**
   * Over GF(p), a polynomial with at most m coefficients that vanishes at m
   * distinct points vanishes everywhere.
   */
  lemma {:induction false} Vanishing(c: seq<int>, xs: seq<int>, p: nat, z: int)
    requires IsPrime(p) && |c| <= |xs| && DistinctMod(xs, p)
    requires forall i :: 0 <= i < |xs| ==> EvalZ(c, xs[i]) % p == 0
    ensures EvalZ(c, z) % p == 0
    decreases |xs|
  {
    if xs == [] {
      assert c == [];
    } else {
      var last := |xs| - 1;
      var a := xs[last];
      var rest := xs[..last];
      var q := Quotient(c, a);
      forall i | 0 <= i < |rest|
        ensures EvalZ(q, rest[i]) % p == 0
      {
        var x := rest[i];
        assert x == xs[i];
        FactorTheorem(c, a, x);
        LinearDivisible(-1, EvalZ(c, a), EvalZ(c, x), p);
        NoZeroDivisors(x - a, EvalZ(q, x), p);
      }
      Vanishing(q, rest, p, z);
      FactorTheorem(c, a, z);
      LinearDivisible(z - a, EvalZ(q, z), EvalZ(c, a), p);
    }
  }
}
