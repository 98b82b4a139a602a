/**
 * Reconstruction's arithmetic: the value at 0 of the polynomial that
 * interpolates the points (xs[i], ys[i]) over GF(p). NTL's interpolate builds
 * the whole interpolating polynomial and the program keeps its constant
 * coefficient; here that coefficient is given directly by Lagrange's formula
 *
 *   f(0) = sum over i of ys[i] * prod over j != i of (0 - xs[j]) / (xs[i] - xs[j])
 *
 * and proved equal to the constant term of every polynomial with at most
 * |xs| coefficients that passes through the points.
 */
module Lagrange {
  import opened Arith
  import opened Polynomial

  /** xs with position i removed. */
  function Without(xs: seq<int>, i: nat): (r: seq<int>)
    requires i < |xs|
    ensures |r| == |xs| - 1
    ensures forall k :: 0 <= k < |r| ==> r[k] == xs[if k < i then k else k + 1]
  {
    xs[..i] + xs[i + 1..]
  }

  /** The product of the factors (z - r) over r in rs. */
  function ProdZ(rs: seq<int>, z: int): int
  {
    if rs == [] then 1 else (z - rs[0]) * ProdZ(rs[1..], z)
  }

  lemma {:induction false} ProdZAtRoot(rs: seq<int>, k: nat)
    requires k < |rs|
    ensures ProdZ(rs, rs[k]) == 0
  {
    if k > 0 {
      ProdZAtRoot(rs[1..], k - 1);
    }
  }

  /** The same product as a polynomial, with |rs| + 1 coefficients. */
  function ProdPoly(rs: seq<int>): (c: seq<int>)
    ensures |c| == |rs| + 1
  {
    if rs == [] then [1] else MulLinear(ProdPoly(rs[1..]), rs[0])
  }

  lemma {:induction false} EvalProdPoly(rs: seq<int>, z: int)
    ensures EvalZ(ProdPoly(rs), z) == ProdZ(rs, z)
  {
    if rs == [] {
      assert [1][1..] == [];
    } else {
      EvalProdPoly(rs[1..], z);
      EvalMulLinear(ProdPoly(rs[1..]), rs[0], z);
    }
  }

  /** No factor (xi - r), r in rs, is zero modulo p. */
  predicate Separated(xi: int, rs: seq<int>, p: nat)
    requires p > 0
  {
    forall k :: 0 <= k < |rs| ==> (xi - rs[k]) % p != 0
  }

  /** The product of the inverses of (xi - r) over r in rs, in GF(p). */
  function InvProd(xi: int, rs: seq<int>, p: nat): (w: nat)
    requires IsPrime(p) && Separated(xi, rs, p)
    ensures w < p
  {
    if rs == [] then 1
    else
      PrimeCoprime(xi - rs[0], p);
      assert Separated(xi, rs[1..], p);
      (Inverse(xi - rs[0], p) * InvProd(xi, rs[1..], p)) % p
  }

  /** InvProd(xi, rs) is the inverse of the product of the differences. */
  lemma {:induction false} InvProdCancels(xi: int, rs: seq<int>, p: nat)
    requires IsPrime(p) && Separated(xi, rs, p)
    ensures (InvProd(xi, rs, p) * ProdZ(rs, xi)) % p == 1
  {
    if rs != [] {
      assert Separated(xi, rs[1..], p);
      InvProdCancels(xi, rs[1..], p);
      InvProdCons(xi, rs, p);
    }
  }

  lemma InvProdCons(xi: int, rs: seq<int>, p: nat)
    requires IsPrime(p) && Separated(xi, rs, p) && rs != [] && Separated(xi, rs[1..], p)
    requires (InvProd(xi, rs[1..], p) * ProdZ(rs[1..], xi)) % p == 1
    ensures (InvProd(xi, rs, p) * ProdZ(rs, xi)) % p == 1
  {
    PrimeCoprime(xi - rs[0], p);
    var a := Inverse(xi - rs[0], p);
    var b := InvProd(xi, rs[1..], p);
    var d := xi - rs[0];
    var c := ProdZ(rs[1..], xi);
    var inv, prod := InvProd(xi, rs, p), ProdZ(rs, xi);
    assert inv == (a * b) % p;
    assert prod == d * c;
    assert ((a * b) % p * (d * c)) % p == 1 by {
      ProductOfInverses(a, b, d, c, p);
    }
    assert (inv * prod) % p == ((a * b) % p * (d * c)) % p;
  }

  lemma ProductOfInverses(a: int, b: int, d: int, c: int, p: nat)
    requires p >= 2 && (d * a) % p == 1 && (b * c) % p == 1
    ensures ((a * b) % p * (d * c)) % p == 1
  {
    Swap4(a, b, d, c);
    MulOnes(d * a, b * c, p);
    ModMulLeft(a * b, d * c, p);
  }

  lemma Swap4(a: int, b: int, d: int, c: int)
    ensures (a * b) * (d * c) == (d * a) * (b * c)
  {
  }

  lemma MulOnes(x: int, y: int, m: int)
    requires m >= 2 && x % m == 1 && y % m == 1
    ensures (x * y) % m == 1
  {
    ModMul(x, y, m);
  }

  /** The points of xs, with xi among them, are distinct modulo p. */
  lemma SeparatedWithout(xs: seq<int>, i: nat, p: nat)
    requires p > 0 && i < |xs| && DistinctMod(xs, p)
    ensures Separated(xs[i], Without(xs, i), p)
  {
  }

  /** The weight of ys[i] in the value at 0: prod over j != i of (0 - xs[j]) / (xs[i] - xs[j]). */
  function Weight0(xs: seq<int>, i: nat, p: nat): (w: nat)
    requires IsPrime(p) && i < |xs| && DistinctMod(xs, p)
    ensures w < p
  {
    SeparatedWithout(xs, i, p);
    (ProdZ(Without(xs, i), 0) % p * InvProd(xs[i], Without(xs, i), p)) % p
  }

  /** The sum of the first k terms ys[i] * Weight0(xs, i) in GF(p). */
  function LagrangeSum(xs: seq<int>, ys: seq<int>, p: nat, k: nat): (s: nat)
    requires IsPrime(p) && |xs| == |ys| && k <= |xs| && DistinctMod(xs, p)
    ensures s < p
  {
    if k == 0 then 0
    else (LagrangeSum(xs, ys, p, k - 1) + ys[k - 1] * Weight0(xs, k - 1, p)) % p
  }

  /** interpolate(f, xs, ys) followed by f[0]: the interpolant's constant term. */
  function LagrangeAt0(xs: seq<int>, ys: seq<int>, p: nat): (s: nat)
    requires IsPrime(p) && |xs| == |ys| && DistinctMod(xs, p)
    ensures s < p
  {
    LagrangeSum(xs, ys, p, |xs|)
  }

  /**
   * When every value is 0 the interpolant is the zero polynomial, and the
   * constant term taken for it is 0.
   */
  lemma ZeroValuesGiveZero(xs: seq<int>, ys: seq<int>, p: nat)
    requires IsPrime(p) && |xs| == |ys| && DistinctMod(xs, p)
    requires forall i :: 0 <= i < |ys| ==> ys[i] == 0
    ensures LagrangeAt0(xs, ys, p) == 0
  {
    ZeroValuesSum(xs, ys, p, |xs|);
  }

  /** The partial sums of the Lagrange terms for all-zero values stay 0. */
  lemma {:induction false} ZeroValuesSum(xs: seq<int>, ys: seq<int>, p: nat, k: nat)
    requires IsPrime(p) && |xs| == |ys| && k <= |xs| && DistinctMod(xs, p)
    requires forall i :: 0 <= i < |ys| ==> ys[i] == 0
    ensures LagrangeSum(xs, ys, p, k) == 0
    decreases k
  {
    if k > 0 {
      ZeroValuesSum(xs, ys, p, k - 1);
      var w := Weight0(xs, k - 1, p);
      assert ys[k - 1] * w == 0 by {
        assert ys[k - 1] == 0;
      }
      assert LagrangeSum(xs, ys, p, k) == (0 + ys[k - 1] * w) % p;
    }
  }

  // ---------------------------------------------------------------------
  // The interpolating polynomial, as coefficients
  // ---------------------------------------------------------------------

  /** ys[i] * prod over j != i of (X - xs[j]) / (xs[i] - xs[j]). */
  function Term(xs: seq<int>, ys: seq<int>, p: nat, i: nat): (c: seq<int>)
    requires IsPrime(p) && |xs| == |ys| && i < |xs| && DistinctMod(xs, p)
    ensures |c| == |xs|
  {
    SeparatedWithout(xs, i, p);
    Scale(ys[i] * InvProd(xs[i], Without(xs, i), p), ProdPoly(Without(xs, i)))
  }

  lemma EvalTerm(xs: seq<int>, ys: seq<int>, p: nat, i: nat, z: int)
    requires IsPrime(p) && |xs| == |ys| && i < |xs| && DistinctMod(xs, p)
    requires Separated(xs[i], Without(xs, i), p)
    ensures EvalZ(Term(xs, ys, p, i), z)
      == ys[i] * InvProd(xs[i], Without(xs, i), p) * ProdZ(Without(xs, i), z)
  {
    SeparatedWithout(xs, i, p);
    var rs := Without(xs, i);
    EvalScale(ys[i] * InvProd(xs[i], rs, p), ProdPoly(rs), z);
    EvalProdPoly(rs, z);
  }

  /** The sum of the first k terms. */
  function Interpolant(xs: seq<int>, ys: seq<int>, p: nat, k: nat): (c: seq<int>)
    requires IsPrime(p) && |xs| == |ys| && k <= |xs| && DistinctMod(xs, p)
    ensures |c| <= |xs|
  {
    if k == 0 then [] else Add(Interpolant(xs, ys, p, k - 1), Term(xs, ys, p, k - 1))
  }

  /** At the point xs[m] only term m of the sum is non-zero. */
  lemma {:induction false} InterpolantAtPoint(xs: seq<int>, ys: seq<int>, p: nat, k: nat, m: nat)
    requires IsPrime(p) && |xs| == |ys| && k <= |xs| && m < |xs| && DistinctMod(xs, p)
    ensures EvalZ(Interpolant(xs, ys, p, k), xs[m])
         == if m < k then EvalZ(Term(xs, ys, p, m), xs[m]) else 0
  {
    if k > 0 {
      var i := k - 1;
      var prev, t := Interpolant(xs, ys, p, i), Term(xs, ys, p, i);
      assert Interpolant(xs, ys, p, k) == Add(prev, t);
      InterpolantAtPoint(xs, ys, p, i, m);
      EvalAdd(prev, t, xs[m]);
      if i != m {
        TermVanishesElsewhere(xs, ys, p, i, m);
      }
    }
  }

  /** Term i vanishes at every other point xs[m]. */
  lemma TermVanishesElsewhere(xs: seq<int>, ys: seq<int>, p: nat, i: nat, m: nat)
    requires IsPrime(p) && |xs| == |ys| && i < |xs| && m < |xs| && i != m && DistinctMod(xs, p)
    ensures EvalZ(Term(xs, ys, p, i), xs[m]) == 0
  {
    SeparatedWithout(xs, i, p);
    var rs := Without(xs, i);
    EvalTerm(xs, ys, p, i, xs[m]);
    var k := if m < i then m else m - 1;
    assert rs[k] == xs[m];
    ProdZAtRoot(rs, k);
    ZeroFactor(ys[i] * InvProd(xs[i], rs, p), ProdZ(rs, xs[m]));
  }

  /** Term i takes the value ys[i] at xs[i], modulo p. */
  lemma TermAtOwnPoint(xs: seq<int>, ys: seq<int>, p: nat, i: nat)
    requires IsPrime(p) && |xs| == |ys| && i < |xs| && DistinctMod(xs, p)
    ensures EvalZ(Term(xs, ys, p, i), xs[i]) % p == ys[i] % p
  {
    SeparatedWithout(xs, i, p);
    var rs := Without(xs, i);
    var w := InvProd(xs[i], rs, p);
    var d := ProdZ(rs, xs[i]);
    assert EvalZ(Term(xs, ys, p, i), xs[i]) == ys[i] * w * d by {
      EvalTerm(xs, ys, p, i, xs[i]);
    }
    assert (w * d) % p == 1 by {
      InvProdCancels(xs[i], rs, p);
    }
    TimesUnit(ys[i], w, d, p);
  }

  lemma TimesUnit(y: int, w: int, d: int, p: nat)
    requires p > 0 && (w * d) % p == 1
    ensures (y * w * d) % p == y % p
  {
    assert y * w * d == y * (w * d);
    MulRightReduced(y, w * d, p);
  }

  /** The interpolant's value at 0, reduced, is the Lagrange sum. */
  lemma {:induction false} InterpolantAtZero(xs: seq<int>, ys: seq<int>, p: nat, k: nat)
    requires IsPrime(p) && |xs| == |ys| && k <= |xs| && DistinctMod(xs, p)
    ensures EvalZ(Interpolant(xs, ys, p, k), 0) % p == LagrangeSum(xs, ys, p, k)
  {
    if k > 0 {
      InterpolantAtZero(xs, ys, p, k - 1);
      InterpolantAtZeroStep(xs, ys, p, k);
    }
  }

  lemma InterpolantAtZeroStep(xs: seq<int>, ys: seq<int>, p: nat, k: nat)
    requires IsPrime(p) && |xs| == |ys| && 0 < k <= |xs| && DistinctMod(xs, p)
    requires EvalZ(Interpolant(xs, ys, p, k - 1), 0) % p == LagrangeSum(xs, ys, p, k - 1)
    ensures EvalZ(Interpolant(xs, ys, p, k), 0) % p == LagrangeSum(xs, ys, p, k)
  {
    var i := k - 1;
    var prev, t := Interpolant(xs, ys, p, i), Term(xs, ys, p, i);
    SeparatedWithout(xs, i, p);
    var rs := Without(xs, i);
    var e, w, d := EvalZ(prev, 0), InvProd(xs[i], rs, p), ProdZ(rs, 0);
    var s := LagrangeSum(xs, ys, p, i);
    assert EvalZ(Interpolant(xs, ys, p, k), 0) == e + ys[i] * w * d by {
      assert Interpolant(xs, ys, p, k) == Add(prev, t);
      EvalAdd(prev, t, 0);
      EvalTerm(xs, ys, p, i, 0);
    }
    assert LagrangeSum(xs, ys, p, k) == (s + ys[i] * ((d % p * w) % p)) % p;
    assert (e + ys[i] * w * d) % p == (s + ys[i] * ((d % p * w) % p)) % p by {
      SumStep(e, ys[i], w, d, s, p);
    }
  }

  /** One step of the sum: adding y * w * d, or adding y times the reduced weight, agree mod p. */
  lemma SumStep(e: int, y: int, w: int, d: int, s: int, p: nat)
    requires p > 0 && e % p == s
    ensures (e + y * w * d) % p == (s + y * ((d % p * w) % p)) % p
  {
    calc {
      (e + y * w * d) % p;
      { ModAdd(e, y * w * d, p); }
      (s + (y * w * d) % p) % p;
      { assert y * w * d == y * (d * w); }
      (s + (y * (d * w)) % p) % p;
      { WeightReduced(y, d, w, p); }
      (s + (y * ((d % p * w) % p)) % p) % p;
      { ModAddLeft(y * ((d % p * w) % p), s, p); }
      (s + y * ((d % p * w) % p)) % p;
    }
  }

  lemma WeightReduced(y: int, d: int, w: int, p: nat)
    requires p > 0
    ensures (y * (d * w)) % p == (y * ((d % p * w) % p)) % p
  {
    ModMulLeft(d, w, p);
    MulRightReduced(y, d % p * w, p);
    MulRightReduced(y, d * w, p);
  }

  /**
   * Interpolation recovers the constant term: for every polynomial c with at
   * most |xs| coefficients whose values at the distinct points xs are ys
   * (modulo p), the Lagrange value at 0 is c's constant coefficient mod p.
   */
  lemma LagrangeRecoversConstant(c: seq<int>, xs: seq<int>, ys: seq<int>, p: nat)
    requires IsPrime(p) && |xs| == |ys| && DistinctMod(xs, p) && |c| <= |xs|
    requires forall i :: 0 <= i < |xs| ==> ys[i] % p == Eval(c, xs[i], p)
    ensures LagrangeAt0(xs, ys, p) == Eval(c, 0, p)
  {
    var l := Interpolant(xs, ys, p, |xs|);
    var d := Add(c, Scale(-1, l));
    forall i | 0 <= i < |xs|
      ensures EvalZ(d, xs[i]) % p == 0
    {
      DifferenceVanishesAtPoint(c, xs, ys, p, i);
    }
    Vanishing(d, xs, p, 0);
    EvalDifference(c, l, 0);
    CongruentIffDifference(EvalZ(c, 0), EvalZ(l, 0), p);
    InterpolantAtZero(xs, ys, p, |xs|);
  }

  lemma EvalDifference(c: seq<int>, l: seq<int>, z: int)
    ensures EvalZ(Add(c, Scale(-1, l)), z) == EvalZ(c, z) - EvalZ(l, z)
  {
    EvalAdd(c, Scale(-1, l), z);
    EvalScale(-1, l, z);
  }

  lemma DifferenceVanishesAtPoint(c: seq<int>, xs: seq<int>, ys: seq<int>, p: nat, i: nat)
    requires IsPrime(p) && |xs| == |ys| && DistinctMod(xs, p) && i < |xs|
    requires ys[i] % p == Eval(c, xs[i], p)
    ensures EvalZ(Add(c, Scale(-1, Interpolant(xs, ys, p, |xs|))), xs[i]) % p == 0
  {
    var l := Interpolant(xs, ys, p, |xs|);
    EvalDifference(c, l, xs[i]);
    InterpolantAtPoint(xs, ys, p, |xs|, i);
    TermAtOwnPoint(xs, ys, p, i);
    CongruentIffDifference(EvalZ(c, xs[i]), EvalZ(l, xs[i]), p);
  }
}
