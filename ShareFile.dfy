/**
 * The share file format [x || f(x)]: the share index x as a 4-byte
 * uint32_t, then the share value f(x) as BytesFromZZ at one byte more than
 * the secret. The index is written in the machine's byte order, taken here
 * to be little-endian on both the writing and the reading side.
 */
module ShareFile {
  import opened Arith
  import opened ByteCodec

  /** sizeof(uint32_t). */
  const IndexWidth: nat := 4

  /** 2^32: a uint32_t holds its value modulo this. */
  const Uint32Modulus: nat := 0x1_0000_0000

  /** The bytes of the share file with index x and value y written at width w. */
  function EncodeShare(x: nat, y: nat, w: nat): (rec: seq<byte>)
    ensures |rec| == IndexWidth + w
  {
    NatToBytes(x, IndexWidth) + NatToBytes(y, w)
  }

  datatype Share = Share(x: nat, y: nat)

  datatype Option<T> = None | Some(value: T)

  /**
   * One complete share file read back: the index from the first four bytes,
   * the value from the rest. A file without a value byte is not a share.
   */
  function DecodeShare(rec: seq<byte>): (r: Option<Share>)
    ensures r.Some? <==> |rec| > IndexWidth
    ensures r.Some? ==> r.value.x < Uint32Modulus && r.value.y < Pow256(|rec| - IndexWidth)
  {
    if |rec| <= IndexWidth then None
    else Some(Share(BytesToNat(rec[..IndexWidth]), BytesToNat(rec[IndexWidth..])))
  }

  /**
   * The index field keeps i + 1 modulo 2^32, as the assignment to a uint32_t
   * does, and the value field keeps the value modulo 256^w.
   */
  lemma IndexWraps(x: nat, y: nat, w: nat)
    requires w >= 1
    ensures DecodeShare(EncodeShare(x, y, w)) == Some(Share(x % Uint32Modulus, y % Pow256(w)))
  {
    var rec := EncodeShare(x, y, w);
    assert rec[..IndexWidth] == NatToBytes(x, IndexWidth);
    assert rec[IndexWidth..] == NatToBytes(y, w);
    NatToBytesToNat(x, IndexWidth);
    NatToBytesToNat(y, w);
    assert Pow256(IndexWidth) == Uint32Modulus;
  }

  /** Writing a share and reading it back gives the same index and value. */
  lemma ShareRoundTrip(x: nat, y: nat, w: nat)
    requires w >= 1 && x < Uint32Modulus && y < Pow256(w)
    ensures DecodeShare(EncodeShare(x, y, w)) == Some(Share(x, y))
  {
    var rec := EncodeShare(x, y, w);
    assert rec[..IndexWidth] == NatToBytes(x, IndexWidth);
    assert rec[IndexWidth..] == NatToBytes(y, w);
    assert Pow256(IndexWidth) == Uint32Modulus;
    NatToBytesRoundTrip(x, IndexWidth);
    NatToBytesRoundTrip(y, w);
  }

  /** Every file with a value byte is the encoding of what it decodes to. */
  lemma DecodeEncode(rec: seq<byte>)
    requires |rec| > IndexWidth
    ensures var s := DecodeShare(rec).value; EncodeShare(s.x, s.y, |rec| - IndexWidth) == rec
  {
    BytesToNatRoundTrip(rec[..IndexWidth]);
    BytesToNatRoundTrip(rec[IndexWidth..]);
    assert rec == rec[..IndexWidth] + rec[IndexWidth..];
  }

  /**
   * The files written for share values ys of a len-byte secret: file i + 1
   * holds ys[i], and every file has the same size, 4 + len + 1 bytes.
   */
  function ShareFiles(ys: seq<nat>, len: nat): (files: seq<seq<byte>>)
    ensures |files| == |ys|
    ensures forall i :: 0 <= i < |ys| ==> |files[i]| == IndexWidth + len + 1
  {
    seq(|ys|, i requires 0 <= i < |ys| => EncodeShare(i + 1, ys[i], len + 1))
  }

  /**
   * Every written file is a share that reads back as the index i + 1 modulo
   * 2^32 and the value ys[i] modulo 256^(len + 1).
   */
  lemma ShareFilesDecode(ys: seq<nat>, len: nat)
    ensures forall i :: 0 <= i < |ys| ==>
      DecodeShare(ShareFiles(ys, len)[i]) == Some(Share((i + 1) % Uint32Modulus, ys[i] % Pow256(len + 1)))
  {
    forall i | 0 <= i < |ys|
      ensures DecodeShare(ShareFiles(ys, len)[i]) == Some(Share((i + 1) % Uint32Modulus, ys[i] % Pow256(len + 1)))
    {
      ShareFileDecodes(ys, len, i);
    }
  }

  /** File i + 1 alone. */
  lemma ShareFileDecodes(ys: seq<nat>, len: nat, i: nat)
    requires i < |ys|
    ensures DecodeShare(ShareFiles(ys, len)[i]) == Some(Share((i + 1) % Uint32Modulus, ys[i] % Pow256(len + 1)))
  {
    var rec := ShareFiles(ys, len)[i];
    assert rec == EncodeShare(i + 1, ys[i], len + 1);
    IndexWraps(i + 1, ys[i], len + 1);
  }

  /**
   * The writing loop: one buffer of inSize + 1 bytes, refilled with each
   * share value by BytesFromZZ, written after the index i + 1 cast to
   * uint32_t. The file system is left out; the result lists each file's bytes.
   */
  method WriteShares(ys: seq<nat>, inSize: nat) returns (files: seq<seq<byte>>)
    ensures files == ShareFiles(ys, inSize)
  {
    var sbuf := new byte[inSize + 1];
    files := [];
    for i := 0 to |ys|
      invariant files == ShareFiles(ys[..i], inSize)
    {
      StoreBytes(sbuf, ys[i]);
      var x: nat := (i + 1) % Uint32Modulus;
      assert Pow256(IndexWidth) == Uint32Modulus;
      NatToBytesMod(i + 1, IndexWidth);
      files := files + [NatToBytes(x, IndexWidth) + sbuf[..]];
      assert ys[..i + 1][..i] == ys[..i];
    }
    assert ys[..|ys|] == ys;
  }
}
