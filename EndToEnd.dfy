/**
 * What distribution, share writing and reconstruction promise together:
 * any two or more shares at distinct points of GF(p), at least as many as
 * the threshold, give back the secret, and two shares whose indices agree
 * modulo p do not.
 */
module EndToEnd {
  import opened Arith
  import opened ByteCodec
  import opened Polynomial
  import opened Lagrange
  import opened Distribution
  import opened ShareFile
  import opened Reconstruction

  /**
   * The elements at the positions sel: the files named on the reconstruction
   * command line, or the share values they hold.
   */
  function Select<T>(items: seq<T>, sel: seq<nat>): (chosen: seq<T>)
    requires forall k :: 0 <= k < |sel| ==> sel[k] < |items|
    ensures |chosen| == |sel|
    ensures forall k :: 0 <= k < |sel| ==> chosen[k] == items[sel[k]]
  {
    seq(|sel|, k requires 0 <= k < |sel| => items[sel[k]])
  }

  /** The files that distribution and writing produce for a secret. */
  function Issued(secret: seq<byte>, rand: seq<nat>, n: nat): (files: seq<seq<byte>>)
    ensures |files| == n
  {
    ShareFiles(ShareValues(secret, rand, n), |secret|)
  }

  /** Distinct residues below p differ by a non-multiple of p. */
  lemma DistinctResidues(a: int, b: int, p: nat)
    requires 0 <= a < p && 0 <= b < p && a != b
    ensures (a - b) % p != 0
  {
    SmallMod(a, p);
    SmallMod(b, p);
    CongruentIffDifference(a, b, p);
  }

  /** The share files for the given points and values, all at value width w. */
  function Encoded(pts: seq<nat>, vals: seq<nat>, w: nat): (files: seq<seq<byte>>)
    requires |pts| == |vals|
    ensures |files| == |pts|
    ensures forall k :: 0 <= k < |pts| ==> files[k] == EncodeShare(pts[k], vals[k], w)
  {
    seq(|pts|, k requires 0 <= k < |pts| => EncodeShare(pts[k], vals[k], w))
  }

  /**
   * Reading share files written at one width gives back their points
   * reduced mod p, when each index fits 32 bits, and their values truncated
   * to the width and reduced mod p.
   */
  lemma ReadEncoded(pts: seq<nat>, vals: seq<nat>, w: nat, p: nat)
    requires p > 0 && w >= 1 && |pts| == |vals| >= 1
    requires forall k :: 0 <= k < |pts| ==> pts[k] < Uint32Modulus
    ensures var rd := ReadFiles(Encoded(pts, vals, w), w, p);
      forall k :: 0 <= k < |pts| ==>
        rd.xs[k] == pts[k] % p && rd.ys[k] == vals[k] % Pow256(w) % p
  {
    var files := Encoded(pts, vals, w);
    ReadDecoded(files, w, p);
    forall k | 0 <= k < |pts|
      ensures DecodeShare(files[k]) == Some(Share(pts[k], vals[k] % Pow256(w)))
    {
      IndexWraps(pts[k], vals[k], w);
      SmallMod(pts[k], Uint32Modulus);
    }
  }

  /** The points alone: each file's index reduced mod p. */
  lemma ReadEncodedPoints(pts: seq<nat>, vals: seq<nat>, w: nat, p: nat)
    requires p > 0 && w >= 1 && |pts| == |vals| >= 1
    requires forall k :: 0 <= k < |pts| ==> pts[k] < Uint32Modulus
    ensures forall k :: 0 <= k < |pts| ==> ReadFiles(Encoded(pts, vals, w), w, p).xs[k] == pts[k] % p
  {
    ReadEncoded(pts, vals, w, p);
  }

  /** The share indices of the picked files: position sel[k] holds share sel[k] + 1. */
  function Points(sel: seq<nat>): (pts: seq<nat>)
    ensures |pts| == |sel|
    ensures forall k :: 0 <= k < |sel| ==> pts[k] == sel[k] + 1
  {
    seq(|sel|, k requires 0 <= k < |sel| => sel[k] + 1)
  }

  /** Distinct positions below n give distinct share indices in 1..n. */
  lemma PointsInRange(sel: seq<nat>, n: nat)
    requires forall k :: 0 <= k < |sel| ==> sel[k] < n
    requires forall k, l :: 0 <= k < |sel| && 0 <= l < |sel| && k != l ==> sel[k] != sel[l]
    ensures forall k :: 0 <= k < |sel| ==> 1 <= Points(sel)[k] <= n
    ensures forall k, l :: 0 <= k < |sel| && 0 <= l < |sel| && k != l ==> Points(sel)[k] != Points(sel)[l]
  {
  }

  /** The issued share files picked by sel are the encodings of their points and values. */
  lemma SelectedEncoded(secret: seq<byte>, rand: seq<nat>, n: nat, sel: seq<nat>)
    requires forall k :: 0 <= k < |sel| ==> sel[k] < n
    ensures Select(Issued(secret, rand, n), sel)
      == Encoded(Points(sel), Select(ShareValues(secret, rand, n), sel), |secret| + 1)
  {
  }

  /** The picked values are the sharing polynomial at the picked points. */
  lemma PickedValues(secret: seq<byte>, rand: seq<nat>, n: nat, sel: seq<nat>)
    requires forall k :: 0 <= k < |sel| ==> sel[k] < n
    ensures var p := Modulus(|secret|);
      var vals := Select(ShareValues(secret, rand, n), sel);
      forall k :: 0 <= k < |sel| ==>
        vals[k] == Eval(Coefficients(secret, rand, p), Points(sel)[k], p)
  {
    forall k | 0 <= k < |sel|
    {
      ShareValueAt(secret, rand, n, sel[k]);
    }
  }

  /** The points as reconstruction sees them: each reduced into GF(p). */
  function Reduced(pts: seq<nat>, p: nat): (xs: seq<int>)
    requires p > 0
    ensures |xs| == |pts|
    ensures forall k :: 0 <= k < |pts| ==> xs[k] == pts[k] % p
  {
    seq(|pts|, k requires 0 <= k < |pts| => pts[k] % p)
  }

  /** Reducing points into GF(p) keeps points that are distinct there distinct. */
  lemma ReducedDistinct(pts: seq<nat>, p: nat)
    requires p > 0 && DistinctMod(pts, p)
    ensures DistinctMod(Reduced(pts, p), p)
  {
    var xs := Reduced(pts, p);
    forall k, l | 0 <= k < |xs| && 0 <= l < |xs| && k != l
      ensures (xs[k] - xs[l]) % p != 0
    {
      SameResidue(pts[k], pts[l], p);
    }
  }

  /** Two residues are congruent exactly when the numbers they come from are. */
  lemma SameResidue(a: nat, b: nat, p: nat)
    requires p > 0
    ensures (a % p - b % p) % p == 0 <==> (a - b) % p == 0
  {
    SmallMod(a % p, p);
    SmallMod(b % p, p);
    CongruentIffDifference(a % p, b % p, p);
    CongruentIffDifference(a, b, p);
  }

  /**
   * Reading files whose indices fit 32 bits and whose values lie below p and
   * fit the width gives back the indices reduced mod p and the values themselves.
   */
  lemma ReadEncodedReduced(pts: seq<nat>, vals: seq<nat>, w: nat, p: nat)
    requires p > 0 && w >= 1 && |pts| == |vals| >= 1
    requires forall k :: 0 <= k < |pts| ==> pts[k] < Uint32Modulus
    requires forall k :: 0 <= k < |vals| ==> vals[k] < Pow256(w) && vals[k] < p
    ensures ReadFiles(Encoded(pts, vals, w), w, p).xs == Reduced(pts, p)
    ensures ReadFiles(Encoded(pts, vals, w), w, p).ys == vals
  {
    ReadEncoded(pts, vals, w, p);
    var rd := ReadFiles(Encoded(pts, vals, w), w, p);
    forall k | 0 <= k < |pts|
      ensures rd.ys[k] == vals[k]
    {
      SmallMod(vals[k], Pow256(w));
      SmallMod(vals[k], p);
    }
  }

  /** Distinct points below p are distinct in GF(p). */
  lemma DistinctPoints(pts: seq<nat>, p: nat)
    requires p > 0
    requires forall k :: 0 <= k < |pts| ==> pts[k] < p
    requires forall k, l :: 0 <= k < |pts| && 0 <= l < |pts| && k != l ==> pts[k] != pts[l]
    ensures DistinctMod(pts, p)
  {
    forall k, l | 0 <= k < |pts| && 0 <= l < |pts| && k != l
      ensures (pts[k] - pts[l]) % p != 0
    {
      DistinctResidues(pts[k], pts[l], p);
    }
  }

  /**
   * Reconstruction succeeds with the secret once the points and values read
   * are points distinct in GF(p) and the sharing polynomial's values there,
   * at least as many as its coefficients.
   */
  lemma RecoverFromPoints(files: seq<seq<byte>>, secret: seq<byte>, rand: seq<nat>, xs: seq<int>, ys: seq<int>)
    requires |files| >= 2 && |files[0]| == IndexWidth + |secret| + 1
    requires |xs| == |ys| && |rand| + 1 <= |xs|
    requires var rd := ReadFiles(files, |secret| + 1, Modulus(|secret|));
      rd.xs == xs && rd.ys == ys
    requires DistinctMod(xs, Modulus(|secret|))
    requires var p := Modulus(|secret|);
      forall k :: 0 <= k < |xs| ==> ys[k] == Eval(Coefficients(secret, rand, p), xs[k], p)
    ensures RecoverSecret(files) == Ok(secret)
  {
    InterpolationGivesSecret(secret, rand, xs, ys);
    var s := BytesToNat(secret);
    var len := |secret|;
    assert NatToBytes(s, len + 1)[..len] == secret by {
      NatToBytesPrefix(s, len + 1, len);
      BytesToNatRoundTrip(secret);
    }
    RecoverSecretUnfold(files, len + 1, xs, ys);
  }

  /**
   * Reconstruction from share files whose indices fit 32 bits and are
   * distinct in GF(p), holding the values there of a polynomial with
   * constant term the secret and with no more coefficients than files,
   * returns the secret.
   */
  lemma RecoverEncoded(files: seq<seq<byte>>, secret: seq<byte>, rand: seq<nat>, pts: seq<nat>, vals: seq<nat>)
    requires Modulus(|secret|) <= Pow256(|secret| + 1)
    requires |pts| == |vals| >= 2 && |rand| + 1 <= |pts|
    requires files == Encoded(pts, vals, |secret| + 1)
    requires forall k :: 0 <= k < |pts| ==> pts[k] < Uint32Modulus
    requires DistinctMod(pts, Modulus(|secret|))
    requires var p := Modulus(|secret|);
      forall k :: 0 <= k < |pts| ==> vals[k] == Eval(Coefficients(secret, rand, p), pts[k], p)
    ensures RecoverSecret(files) == Ok(secret)
  {
    var p := Modulus(|secret|);
    ValuesFit(secret, rand, pts, vals);
    ReadEncodedReduced(pts, vals, |secret| + 1, p);
    ReducedDistinct(pts, p);
    ReducedValues(secret, rand, pts, vals);
    RecoverFromPoints(files, secret, rand, Reduced(pts, p), vals);
  }

  /** The values of the sharing polynomial at the points are its values at their residues. */
  lemma ReducedValues(secret: seq<byte>, rand: seq<nat>, pts: seq<nat>, vals: seq<nat>)
    requires |pts| == |vals|
    requires var p := Modulus(|secret|);
      forall k :: 0 <= k < |pts| ==> vals[k] == Eval(Coefficients(secret, rand, p), pts[k], p)
    ensures var p := Modulus(|secret|); var xs := Reduced(pts, p);
      forall k :: 0 <= k < |pts| ==> vals[k] == Eval(Coefficients(secret, rand, p), xs[k], p)
  {
    var p := Modulus(|secret|);
    forall k | 0 <= k < |pts|
      ensures vals[k] == Eval(Coefficients(secret, rand, p), pts[k] % p, p)
    {
      EvalReducedPoint(Coefficients(secret, rand, p), pts[k], p);
    }
  }

  /** Values of the sharing polynomial lie below p, hence below 2^(8(len + 1)). */
  lemma ValuesFit(secret: seq<byte>, rand: seq<nat>, pts: seq<nat>, vals: seq<nat>)
    requires Modulus(|secret|) <= Pow256(|secret| + 1)
    requires |pts| == |vals|
    requires var p := Modulus(|secret|);
      forall k :: 0 <= k < |pts| ==> vals[k] == Eval(Coefficients(secret, rand, p), pts[k], p)
    ensures forall k :: 0 <= k < |vals| ==>
      vals[k] < Pow256(|secret| + 1) && vals[k] < Modulus(|secret|)
  {
  }

  /**
   * Interpolating enough values of the sharing polynomial at distinct
   * points gives back the secret integer.
   */
  lemma InterpolationGivesSecret(secret: seq<byte>, rand: seq<nat>, xs: seq<int>, ys: seq<int>)
    requires |xs| == |ys| && |rand| + 1 <= |xs|
    requires DistinctMod(xs, Modulus(|secret|))
    requires var p := Modulus(|secret|);
      forall k :: 0 <= k < |xs| ==> ys[k] == Eval(Coefficients(secret, rand, p), xs[k], p)
    ensures LagrangeAt0(xs, ys, Modulus(|secret|)) == BytesToNat(secret)
  {
    var p := Modulus(|secret|);
    var c := Coefficients(secret, rand, p);
    forall k | 0 <= k < |xs|
      ensures ys[k] % p == Eval(c, xs[k], p)
    {
      SmallMod(ys[k], p);
    }
    LagrangeRecoversConstant(c, xs, ys, p);
    EvalAtZero(c, p);
    SecretBelowModulus(secret);
    SmallMod(BytesToNat(secret), p);
  }

  /**
   * Correctness of the scheme: reconstruction from at least max(t, 2)
   * issued shares returns the secret when their indices fit the 32-bit
   * field and are distinct points of GF(p). Shares past p count as long as
   * their indices differ mod p. The modulus is required to stay below
   * 2^(8(len + 1)), so that every value fits the byte the format adds.
   */
  lemma SecretRecovered(secret: seq<byte>, t: nat, rand: seq<nat>, n: nat, sel: seq<nat>)
    requires ValidRandom(rand, t, Modulus(|secret|))
    requires Modulus(|secret|) <= Pow256(|secret| + 1)
    requires |sel| >= 2 && |sel| >= t
    requires forall k :: 0 <= k < |sel| ==> sel[k] < n && sel[k] + 1 < Uint32Modulus
    requires DistinctMod(Points(sel), Modulus(|secret|))
    ensures RecoverSecret(Select(Issued(secret, rand, n), sel)) == Ok(secret)
  {
    SelectedEncoded(secret, rand, n, sel);
    RecoverPicked(Select(Issued(secret, rand, n), sel), secret, t, rand, n, sel);
  }

  /** SecretRecovered, once the picked files are known as the encodings of their shares. */
  lemma RecoverPicked(files: seq<seq<byte>>, secret: seq<byte>, t: nat, rand: seq<nat>, n: nat, sel: seq<nat>)
    requires ValidRandom(rand, t, Modulus(|secret|))
    requires Modulus(|secret|) <= Pow256(|secret| + 1)
    requires |sel| >= 2 && |sel| >= t
    requires forall k :: 0 <= k < |sel| ==> sel[k] < n && sel[k] + 1 < Uint32Modulus
    requires DistinctMod(Points(sel), Modulus(|secret|))
    requires files == Encoded(Points(sel), Select(ShareValues(secret, rand, n), sel), |secret| + 1)
    ensures RecoverSecret(files) == Ok(secret)
  {
    PickedValues(secret, rand, n, sel);
    RecoverEncoded(files, secret, rand, Points(sel), Select(ShareValues(secret, rand, n), sel));
  }

  /**
   * SecretRecovered for the share counts the guarded distribute accepts:
   * there any two or more distinct shares, at least t of them, reconstruct.
   */
  lemma AcceptedSecretRecovered(secret: seq<byte>, t: nat, rand: seq<nat>, n: nat, sel: seq<nat>)
    requires ValidRandom(rand, t, Modulus(|secret|))
    requires Modulus(|secret|) <= Pow256(|secret| + 1)
    requires Accepted(n, |secret|)
    requires |sel| >= 2 && |sel| >= t
    requires forall k :: 0 <= k < |sel| ==> sel[k] < n
    requires forall k, l :: 0 <= k < |sel| && 0 <= l < |sel| && k != l ==> sel[k] != sel[l]
    ensures RecoverSecret(Select(Issued(secret, rand, n), sel)) == Ok(secret)
  {
    PointsInRange(sel, n);
    DistinctPoints(Points(sel), Modulus(|secret|));
    SecretRecovered(secret, t, rand, n, sel);
  }

  /**
   * The empty secret (p = 2) is recovered from shares 1 and 2 whatever the
   * share count: they are the points 1 and 0 of GF(2).
   */
  lemma EmptySecretRecovered(t: nat, rand: seq<nat>, n: nat)
    requires ValidRandom(rand, t, Modulus(0)) && t <= 2 && 2 <= n
    ensures RecoverSecret(Select(Issued([], rand, n), [0, 1])) == Ok([])
  {
    ModulusOfEmpty();
    ModulusFitsEmpty();
    var sel: seq<nat> := [0, 1];
    assert Points(sel) == [1, 2];
    assert DistinctMod(Points(sel), 2);
    SecretRecovered([], t, rand, n, sel);
  }

  /**
   * The byte that reconstruction drops is zero for a recovered secret: the
   * value written is below 2^(8 len).
   */
  lemma DroppedByteIsZero(secret: seq<byte>)
    ensures NatToBytes(BytesToNat(secret), |secret| + 1)[|secret|] == 0
  {
    NatToBytesHighZero(BytesToNat(secret), |secret| + 1, |secret|);
  }

  /** For the empty secret the hypothesis on the modulus holds: p = 2 <= 256. */
  lemma ModulusFitsEmpty()
    ensures Modulus(0) <= Pow256(1)
  {
    ModulusOfEmpty();
  }

  /**
   * Shares i + 1 and i + 1 + p are the same point of GF(p): reconstruction
   * from that pair fails, although the pair are distinct shares.
   */
  lemma IndexCollision(secret: seq<byte>, rand: seq<nat>, n: nat, i: nat)
    requires i + Modulus(|secret|) < n && n < Uint32Modulus
    ensures RecoverSecret(Select(Issued(secret, rand, n), [i, i + Modulus(|secret|)]))
      == Err(RepeatedPoints)
  {
    var sel := [i, i + Modulus(|secret|)];
    SelectedEncoded(secret, rand, n, sel);
    CollidingPair(Select(Issued(secret, rand, n), sel),
                  Points(sel), Select(ShareValues(secret, rand, n), sel), |secret|);
  }

  /** Two share files whose indices differ by p do not reconstruct. */
  lemma CollidingPair(files: seq<seq<byte>>, pts: seq<nat>, vals: seq<nat>, len: nat)
    requires |pts| == |vals| == 2 && pts[1] == pts[0] + Modulus(len) < Uint32Modulus
    requires files == Encoded(pts, vals, len + 1)
    ensures RecoverSecret(files) == Err(RepeatedPoints)
  {
    CollidingRead(files, pts, vals, len);
    RepeatedPointsFail(files, len + 1);
  }

  /** Reading two files whose indices differ by p gives the same point twice. */
  lemma CollidingRead(files: seq<seq<byte>>, pts: seq<nat>, vals: seq<nat>, len: nat)
    requires |pts| == |vals| == 2 && pts[1] == pts[0] + Modulus(len) < Uint32Modulus
    requires files == Encoded(pts, vals, len + 1)
    ensures |files[0]| == IndexWidth + len + 1
    ensures !DistinctMod(ReadFiles(files, len + 1, Modulus(len)).xs, Modulus(len))
  {
    var p := Modulus(len);
    var rd := ReadFiles(files, len + 1, p);
    assert pts[0] < Uint32Modulus && pts[1] < Uint32Modulus;
    ReadEncodedPoints(pts, vals, len + 1, p);
    CollidingPoints(rd.xs, pts, p);
  }

  /** Points read as indices that differ by p are not distinct in GF(p). */
  lemma CollidingPoints(xs: seq<int>, pts: seq<nat>, p: nat)
    requires p > 0 && |xs| == |pts| == 2 && pts[1] == pts[0] + p
    requires forall k :: 0 <= k < |pts| ==> xs[k] == pts[k] % p
    ensures !DistinctMod(xs, p)
  {
    ShiftedResidue(pts[0], p);
    RepeatedPoint(xs, p);
  }

  /** Adding p does not change the residue. */
  lemma ShiftedResidue(a: int, p: nat)
    requires p > 0
    ensures (a + p) % p == a % p
  {
    ModMultiple(1, a, p);
  }

  /** Two equal leading points are not distinct in GF(p). */
  lemma RepeatedPoint(xs: seq<int>, p: nat)
    requires p > 0 && |xs| >= 2 && xs[0] == xs[1]
    ensures !DistinctMod(xs, p)
  {
    assert (xs[1] - xs[0]) % p == 0;
  }

  /**
   * The empty secret has p = 2, so already shares 1 and 3 of three collide:
   * the default 2-of-3 sharing of an empty input cannot be reconstructed
   * from that pair.
   */
  lemma EmptySecretCollision(secret: seq<byte>, rand: seq<nat>, n: nat)
    requires secret == [] && 3 <= n < Uint32Modulus
    ensures RecoverSecret(Select(Issued(secret, rand, n), [0, 2])) == Err(RepeatedPoints)
  {
    ModulusOfEmpty();
    var sel: seq<nat> := [0, 0 + Modulus(|secret|)];
    assert sel == [0, 2];
    IndexCollision(secret, rand, n, 0);
  }
}
