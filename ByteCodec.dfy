/**
 * Conversion between unsigned byte strings and non-negative integers,
 * least-significant byte first, as NTL's ZZFromBytes and BytesFromZZ do it.
 * The secret, the share values and the 4-byte share index all use it.
 */
module ByteCodec {
  import opened Arith

  /** An unsigned char. */
  type byte = b: int | 0 <= b < 256

  /** ZZFromBytes: the integer whose base-256 digits, lowest first, are bs. */
  function BytesToNat(bs: seq<byte>): (n: nat)
    ensures n < Pow256(|bs|)
  {
    if bs == [] then 0 else bs[0] + 256 * BytesToNat(bs[1..])
  }

  /**
   * BytesFromZZ with an output width of w bytes: the low w base-256 digits
   * of x, lowest first. Digits above the width are dropped; a value with
   * fewer digits is padded with zero bytes on the high end.
   */
  function NatToBytes(x: nat, w: nat): (bs: seq<byte>)
    ensures |bs| == w
  {
    if w == 0 then [] else [x % 256] + NatToBytes(x / 256, w - 1)
  }

  /** x modulo 256 p is its low byte plus 256 times the rest modulo p. */
  lemma LowDigitSplit(x: nat, p: nat)
    requires p > 0
    ensures x % (256 * p) == 256 * ((x / 256) % p) + x % 256
  {
    var q, k := x / 256, (x / 256) / p;
    assert x == 256 * q + x % 256;
    assert q == k * p + q % p;
    assert x == k * (256 * p) + (256 * (q % p) + x % 256);
    DivModUnique(x, k, 256 * (q % p) + x % 256, 256 * p);
  }

  /** Writing w bytes and reading them back keeps x modulo 256^w. */
  lemma {:induction false} NatToBytesToNat(x: nat, w: nat)
    ensures BytesToNat(NatToBytes(x, w)) == x % Pow256(w)
  {
    if w > 0 {
      var bs := NatToBytes(x, w);
      assert bs[1..] == NatToBytes(x / 256, w - 1);
      NatToBytesToNat(x / 256, w - 1);
      LowDigitSplit(x, Pow256(w - 1));
    }
  }

  /** Every value below 256^w survives the w-byte round trip exactly. */
  lemma NatToBytesRoundTrip(x: nat, w: nat)
    requires x < Pow256(w)
    ensures BytesToNat(NatToBytes(x, w)) == x
  {
    NatToBytesToNat(x, w);
  }

  /** Reading a byte string and writing it back at its own width restores it. */
  lemma {:induction false} BytesToNatRoundTrip(bs: seq<byte>)
    ensures NatToBytes(BytesToNat(bs), |bs|) == bs
  {
    if bs != [] {
      var n := BytesToNat(bs);
      var r := BytesToNat(bs[1..]);
      DivModUnique(n, r, bs[0], 256);
      BytesToNatRoundTrip(bs[1..]);
      assert NatToBytes(n, |bs|) == [bs[0]] + bs[1..];
    }
  }

  /** Two byte strings of one width that read as the same integer are equal. */
  lemma BytesToNatInjective(a: seq<byte>, b: seq<byte>)
    requires |a| == |b| && BytesToNat(a) == BytesToNat(b)
    ensures a == b
  {
    BytesToNatRoundTrip(a);
    BytesToNatRoundTrip(b);
  }

  /** The first k bytes of a w-byte encoding are the k-byte encoding. */
  lemma {:induction false} NatToBytesPrefix(x: nat, w: nat, k: nat)
    requires k <= w
    ensures NatToBytes(x, w)[..k] == NatToBytes(x, k)
  {
    if k > 0 {
      NatToBytesPrefix(x / 256, w - 1, k - 1);
      assert NatToBytes(x, w)[..k] == [x % 256] + NatToBytes(x / 256, w - 1)[..k - 1];
    }
  }

  /** A value below 256^k has only zero bytes beyond its first k. */
  lemma {:induction false} NatToBytesHighZero(x: nat, w: nat, k: nat)
    requires k <= w && x < Pow256(k)
    ensures forall i :: k <= i < w ==> NatToBytes(x, w)[i] == 0
  {
    if k > 0 {
      NatToBytesHighZero(x / 256, w - 1, k - 1);
    } else if w > 0 {
      assert x == 0;
      NatToBytesHighZero(0, w - 1, 0);
    }
  }

  /** Only x modulo 256^w shows in its w-byte encoding. */
  lemma NatToBytesMod(x: nat, w: nat)
    ensures NatToBytes(x % Pow256(w), w) == NatToBytes(x, w)
  {
    var m := Pow256(w);
    NatToBytesToNat(x, w);
    NatToBytesToNat(x % m, w);
    SmallMod(x % m, m);
    BytesToNatInjective(NatToBytes(x % m, w), NatToBytes(x, w));
  }

  /**
   * BytesFromZZ(a, x, a.Length) into a caller's buffer: the low digits of x,
   * one per cell, lowest first.
   */
  method StoreBytes(a: array<byte>, x: nat)
    modifies a
    ensures a[..] == NatToBytes(x, a.Length)
  {
    var v := x;
    var k := 0;
    while k < a.Length
      invariant 0 <= k <= a.Length
      invariant a[..k] + NatToBytes(v, a.Length - k) == NatToBytes(x, a.Length)
    {
      assert NatToBytes(v, a.Length - k) == [v % 256] + NatToBytes(v / 256, a.Length - k - 1);
      a[k] := v % 256;
      assert a[..k + 1] == a[..k] + [v % 256];
      v := v / 256;
      k := k + 1;
    }
    assert a[..] == a[..k];
  }
}
