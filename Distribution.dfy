/**
 * Distribution: the field modulus chosen from the secret's length, the
 * polynomial whose constant term is the secret, and its values at the
 * share indices 1..n (function `distribute`).
 */
module Distribution {
  import opened Arith
  import opened ByteCodec
  import opened Polynomial
  import opened ShareFile

  /**
   * The modulus for a secret of len bytes: NextPrime(1 << 8*len). It is
   * re-derived the same way, from the value width, on reconstruction.
   */
  function Modulus(len: nat): (p: nat)
    ensures IsPrime(p) && Pow256(len) <= p
  {
    Pow2Bytes(len);
    NextPrime(Pow2(8 * len))
  }

  /** The modulus lies strictly above 2^(8 len) once the secret has a byte. */
  lemma ModulusAboveBound(len: nat)
    requires len >= 1
    ensures Modulus(len) > Pow256(len)
  {
    var b := Pow256(len);
    var k := 128 * Pow256(len - 1);
    assert b == k * 2 + 0;
    assert !IsPrime(b) by {
      ModMultiple(k, 0, 2);
    }
    var p := Modulus(len);
    assert p != b;
  }

  /** For the empty secret the bound is 1 and the modulus is 2. */
  lemma ModulusOfEmpty()
    ensures Modulus(0) == 2
  {
    assert Pow256(0) == 1;
    assert IsPrime(2);
  }

  /** Every secret integer fits below the modulus, so reducing it loses nothing. */
  lemma SecretBelowModulus(secret: seq<byte>)
    ensures BytesToNat(secret) < Modulus(|secret|)
    ensures BytesToNat(secret) % Modulus(|secret|) == BytesToNat(secret)
  {
    var p := Modulus(|secret|);
    var s := BytesToNat(secret);
    assert s < Pow256(|secret|) <= p;
    SmallMod(s, p);
  }

  /**
   * How many coefficients random_ZZ_pX(t) contributes besides the constant
   * term: t - 1, and none for t = 0 (the zero polynomial, which setting
   * coefficient 0 turns into the constant secret).
   */
  function RandomCount(t: nat): nat
  {
    if t == 0 then 0 else t - 1
  }

  /** The coefficients of f: the secret reduced mod p, then the random ones. */
  function Coefficients(secret: seq<byte>, rand: seq<nat>, p: nat): (c: seq<int>)
    requires p > 0
    ensures |c| == |rand| + 1 && c[0] == BytesToNat(secret) % p
    ensures forall i :: 1 <= i < |c| ==> c[i] == rand[i - 1]
  {
    [BytesToNat(secret) % p] + rand
  }

  /** Random coefficients drawn from GF(p), one per degree 1..t-1. */
  predicate ValidRandom(rand: seq<nat>, t: nat, p: nat)
  {
    |rand| == RandomCount(t) && forall r :: r in rand ==> r < p
  }

  /** The share values: f evaluated at 1..n, each an element of GF(p). */
  function ShareValues(secret: seq<byte>, rand: seq<nat>, n: nat): (ys: seq<nat>)
    ensures |ys| == n
    ensures forall i :: 0 <= i < n ==> ys[i] < Modulus(|secret|)
  {
    var p := Modulus(|secret|);
    seq(n, i => Eval(Coefficients(secret, rand, p), i + 1, p))
  }

  /**
   * distribute(n, t, data, len, shares): choose p, build f with f(0) the
   * secret, and append f(i + 1) for i = 0 .. n - 1. The random coefficients
   * are a parameter.
   */
  method Distribute(n: nat, t: nat, data: seq<byte>, rand: seq<nat>) returns (p: nat, shares: seq<nat>)
    requires ValidRandom(rand, t, Modulus(|data|))
    ensures p == Modulus(|data|)
    ensures |shares| == n
    ensures forall i :: 0 <= i < n ==> shares[i] == Eval(Coefficients(data, rand, p), i + 1, p)
    ensures shares == ShareValues(data, rand, n)
  {
    var lb := Pow2(8 * |data|);
    p := NextPrime(lb);
    var s := BytesToNat(data);
    var f := [s % p] + rand;
    shares := [];
    var i := 0;
    while i < n
      invariant 0 <= i <= n
      invariant |shares| == i
      invariant forall k :: 0 <= k < i ==> shares[k] == Eval(f, k + 1, p)
    {
      EvalReducedPoint(f, i + 1, p);
      shares := shares + [Eval(f, SharePoint(i, p), p)];
      i := i + 1;
    }
  }

  /** Share i + 1 is f evaluated at i + 1. */
  lemma ShareValueAt(secret: seq<byte>, rand: seq<nat>, n: nat, i: nat)
    requires i < n
    ensures ShareValues(secret, rand, n)[i]
            == Eval(Coefficients(secret, rand, Modulus(|secret|)), i + 1, Modulus(|secret|))
  {
  }

  /** With threshold at most 1 the polynomial is constant: every share is the secret. */
  lemma DegenerateThreshold(secret: seq<byte>, t: nat, rand: seq<nat>, n: nat)
    requires t <= 1 && ValidRandom(rand, t, Modulus(|secret|))
    ensures forall i :: 0 <= i < n ==> ShareValues(secret, rand, n)[i] == BytesToNat(secret)
  {
    var p := Modulus(|secret|);
    var s := BytesToNat(secret);
    assert Coefficients(secret, rand, p) == [s] by {
      SecretBelowModulus(secret);
    }
    forall i | 0 <= i < n
      ensures ShareValues(secret, rand, n)[i] == s
    {
      ShareValueAt(secret, rand, n, i);
      EvalConstant(s, i + 1, p);
    }
  }

  /**
   * The index is not reduced below p: share number p (index x = p) is f(0),
   * the secret itself, whenever n reaches p.
   */
  lemma ShareAtModulusIsSecret(secret: seq<byte>, rand: seq<nat>, n: nat)
    requires Modulus(|secret|) <= n
    ensures ShareValues(secret, rand, n)[Modulus(|secret|) - 1] == BytesToNat(secret)
  {
    var p := Modulus(|secret|);
    assert 2 <= p by {
      assert IsPrime(p);
    }
    ShareAtSecretIndex(secret, rand, n, p - 1);
  }

  /** The share at index x = i + 1 = p is f(0) = the secret, since p is 0 in GF(p). */
  lemma ShareAtSecretIndex(secret: seq<byte>, rand: seq<nat>, n: nat, i: nat)
    requires i < n && i + 1 == Modulus(|secret|)
    ensures ShareValues(secret, rand, n)[i] == BytesToNat(secret)
  {
    var p := Modulus(|secret|);
    var c := Coefficients(secret, rand, p);
    SecretBelowModulus(secret);
    ShareValueAt(secret, rand, n, i);
    EvalAtModulus(c, i + 1, p);
  }

  /** The field point ZZ_p(i + 1) at which share i + 1 is evaluated. */
  function SharePoint(i: nat, p: nat): (x: nat)
    requires p > 0
    ensures x < p && (x - (i + 1)) % p == 0
  {
    var q := (i + 1) / p;
    assert (i + 1) % p - (i + 1) == -q * p + 0;
    ModMultiple(-q, 0, p);
    (i + 1) % p
  }

  /**
   * The share counts for which every share is a distinct nonzero point of
   * GF(p) and its index fits the uint32_t field: n below both p and 2^32.
   */
  predicate Accepted(n: nat, len: nat)
  {
    n < Modulus(len) && n < Uint32Modulus
  }

  /**
   * distribute with the guard the share indices need: share counts that
   * Accepted refuses give no shares at all.
   */
  method DistributeChecked(n: nat, t: nat, data: seq<byte>, rand: seq<nat>) returns (r: Option<seq<nat>>)
    requires ValidRandom(rand, t, Modulus(|data|))
    ensures r.Some? <==> Accepted(n, |data|)
    ensures r.Some? ==> r.value == ShareValues(data, rand, n)
    ensures r.Some? ==> forall i :: 0 <= i < n ==> SharePoint(i, Modulus(|data|)) == i + 1
  {
    if n >= Modulus(|data|) || n >= Uint32Modulus {
      return None;
    }
    AcceptedPointsDistinct(n, |data|);
    var _, shares := Distribute(n, t, data, rand);
    return Some(shares);
  }

  /**
   * Under the guard, share i + 1 sits at the point i + 1 itself: no share is
   * at 0, where f holds the secret, and no two shares share a point.
   */
  lemma AcceptedPointsDistinct(n: nat, len: nat)
    requires Accepted(n, len)
    ensures forall i :: 0 <= i < n ==> SharePoint(i, Modulus(len)) == i + 1
    ensures forall i, j :: 0 <= i < n && 0 <= j < n && i != j ==>
      SharePoint(i, Modulus(len)) != SharePoint(j, Modulus(len))
  {
    var p := Modulus(len);
    forall i | 0 <= i < n
      ensures SharePoint(i, p) == i + 1
    {
      SmallMod(i + 1, p);
    }
  }
}
