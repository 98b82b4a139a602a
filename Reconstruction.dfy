/**
 * Reconstruction, the branch of `main` taken when two or more files are
 * given: the value width comes from the first file's size, the modulus is
 * re-derived from it, every file is read into the same index variable and
 * value buffer, and the interpolant's constant term is written back without
 * its top byte.
 */
module Reconstruction {
  import opened Arith
  import opened ByteCodec
  import opened Polynomial
  import opened Lagrange
  import opened Distribution
  import opened ShareFile

  datatype Failure =
    | Malformed       // the first file has no value byte: the width computation underflows
    | RepeatedPoints  // two share indices agree modulo p: interpolation has no unique answer

  datatype Result<T> = Ok(value: T) | Err(failure: Failure)

  /**
   * fread(dst, 1, |dst|, f) from a file holding data: the first
   * min(|dst|, |data|) cells are overwritten and the rest keep what they held.
   */
  function Overlay(dst: seq<byte>, data: seq<byte>): (r: seq<byte>)
    ensures |r| == |dst|
  {
    if |data| >= |dst| then data[..|dst|] else data + dst[|data|..]
  }

  /** Cell by cell: the data where it reaches, the old contents past its end. */
  lemma OverlayAt(dst: seq<byte>, data: seq<byte>)
    ensures forall k :: 0 <= k < |dst| ==>
      Overlay(dst, data)[k] == if k < |data| then data[k] else dst[k]
  {
  }

  /** The bytes that follow the index field: a file's tail after the first fread. */
  function AfterIndex(f: seq<byte>): (rest: seq<byte>)
    ensures |f| >= IndexWidth ==> rest == f[IndexWidth..]
    ensures |f| < IndexWidth ==> rest == []
  {
    if |f| >= IndexWidth then f[IndexWidth..] else []
  }

  /**
   * The reading loop's state: the bytes of the uint32_t x, the contents of
   * sbuf, and the points and values appended so far.
   */
  datatype Reading = Reading(xb: seq<byte>, sb: seq<byte>, xs: seq<int>, ys: seq<int>)

  /** Reading one more file into the state. */
  function ReadOne(st: Reading, f: seq<byte>, p: nat): (r: Reading)
    requires p > 0
    ensures |r.xb| == |st.xb| && |r.sb| == |st.sb|
    ensures r.xs == st.xs + [BytesToNat(r.xb) % p] && r.ys == st.ys + [BytesToNat(r.sb) % p]
  {
    var xb := Overlay(st.xb, f);
    var sb := Overlay(st.sb, AfterIndex(f));
    Reading(xb, sb, st.xs + [BytesToNat(xb) % p], st.ys + [BytesToNat(sb) % p])
  }

  /**
   * The state after reading files in order. The first file, IndexWidth + slen
   * bytes long by the choice of slen, fills x and sbuf completely; later files
   * overwrite as much as they hold.
   */
  function ReadFiles(files: seq<seq<byte>>, slen: nat, p: nat): (r: Reading)
    requires p > 0 && |files| >= 1 && |files[0]| == IndexWidth + slen
    ensures |r.xb| == IndexWidth && |r.sb| == slen
    ensures |r.xs| == |files| && |r.ys| == |files|
    decreases |files|
  {
    if |files| == 1 then
      var f := files[0];
      Reading(f[..IndexWidth], f[IndexWidth..],
              [BytesToNat(f[..IndexWidth]) % p], [BytesToNat(f[IndexWidth..]) % p])
    else
      ReadOne(ReadFiles(files[..|files| - 1], slen, p), files[|files| - 1], p)
  }

  /**
   * When every file has the width of the first, each point is the file's
   * index field and each value its value field, both reduced mod p: nothing
   * stale from an earlier file shows.
   */
  lemma {:induction false} ReadWellFormed(files: seq<seq<byte>>, slen: nat, p: nat)
    requires p > 0 && |files| >= 1
    requires forall k :: 0 <= k < |files| ==> |files[k]| == IndexWidth + slen
    ensures var rd := ReadFiles(files, slen, p);
      forall k :: 0 <= k < |files| ==>
        rd.xs[k] == BytesToNat(files[k][..IndexWidth]) % p &&
        rd.ys[k] == BytesToNat(files[k][IndexWidth..]) % p
    decreases |files|
  {
    if |files| > 1 {
      var init := files[..|files| - 1];
      ReadWellFormed(init, slen, p);
      var f := files[|files| - 1];
      var st := ReadFiles(init, slen, p);
      assert Overlay(st.xb, f) == f[..IndexWidth];
      assert Overlay(st.sb, AfterIndex(f)) == f[IndexWidth..];
    }
  }

  /**
   * The same in terms of the share file format: every file of the first
   * one's width is a share, and reading gives its index and value mod p.
   */
  lemma ReadDecoded(files: seq<seq<byte>>, slen: nat, p: nat)
    requires p > 0 && |files| >= 1 && slen >= 1
    requires forall k :: 0 <= k < |files| ==> |files[k]| == IndexWidth + slen
    ensures var rd := ReadFiles(files, slen, p);
      forall k :: 0 <= k < |files| ==>
        DecodeShare(files[k]).Some? &&
        rd.xs[k] == DecodeShare(files[k]).value.x % p &&
        rd.ys[k] == DecodeShare(files[k]).value.y % p
  {
    ReadWellFormed(files, slen, p);
  }

  /**
   * A later file shorter than the first fills only the front of sbuf: the
   * rest of the value read for it is left over from the file before.
   */
  lemma ShortFileKeepsStaleBytes(files: seq<seq<byte>>, slen: nat, p: nat)
    requires p > 0 && |files| >= 2 && |files[0]| == IndexWidth + slen
    requires IndexWidth <= |files[|files| - 1]| < IndexWidth + slen
    ensures var f := files[|files| - 1];
      var before := ReadFiles(files[..|files| - 1], slen, p);
      var m := |f| - IndexWidth;
      ReadFiles(files, slen, p).ys[|files| - 1]
        == BytesToNat(f[IndexWidth..] + before.sb[m..]) % p
  {
    var f := files[|files| - 1];
    var before := ReadFiles(files[..|files| - 1], slen, p);
    var data := f[IndexWidth..];
    assert AfterIndex(f) == data;
    assert Overlay(before.sb, data) == data + before.sb[|data|..];
  }

  /**
   * The outcome of reconstruction from the given files: the secret's bytes,
   * or the failure that stops it.
   */
  function RecoverSecret(files: seq<seq<byte>>): (r: Result<seq<byte>>)
    requires |files| >= 2
    ensures r == Err(Malformed) <==> |files[0]| <= IndexWidth
    ensures r.Ok? ==> |r.value| == |files[0]| - IndexWidth - 1
  {
    if |files[0]| <= IndexWidth then Err(Malformed)
    else RecoverAtWidth(files, |files[0]| - IndexWidth)
  }

  /** Reconstruction once the value width slen is known to be at least one byte. */
  function RecoverAtWidth(files: seq<seq<byte>>, slen: nat): (r: Result<seq<byte>>)
    requires |files| >= 2 && slen >= 1 && |files[0]| == IndexWidth + slen
    ensures r != Err(Malformed)
    ensures r.Ok? ==> |r.value| == slen - 1
  {
    var p := Modulus(slen - 1);
    var rd := ReadFiles(files, slen, p);
    if !DistinctMod(rd.xs, p) then Err(RepeatedPoints)
    else Ok(NatToBytes(LagrangeAt0(rd.xs, rd.ys, p), slen)[..slen - 1])
  }

  /** RecoverSecret past the width check, in terms of what the reading loop returns. */
  lemma RecoverSecretUnfold(files: seq<seq<byte>>, slen: nat, inputs: seq<int>, shares: seq<int>)
    requires |files| >= 2 && slen >= 1 && |files[0]| == IndexWidth + slen
    requires var rd := ReadFiles(files, slen, Modulus(slen - 1));
      inputs == rd.xs && shares == rd.ys
    ensures var p := Modulus(slen - 1);
      RecoverSecret(files)
        == if !DistinctMod(inputs, p) then Err(RepeatedPoints)
           else Ok(NatToBytes(LagrangeAt0(inputs, shares, p), slen)[..slen - 1])
  {
  }

  /** Points that repeat modulo p make reconstruction fail. */
  lemma RepeatedPointsFail(files: seq<seq<byte>>, slen: nat)
    requires |files| >= 2 && slen >= 1 && |files[0]| == IndexWidth + slen
    requires !DistinctMod(ReadFiles(files, slen, Modulus(slen - 1)).xs, Modulus(slen - 1))
    ensures RecoverSecret(files) == Err(RepeatedPoints)
  {
  }

  /**
   * Reading one more file extends the reading of the files before it; the
   * first file, which fills x and sbuf, may be read into any state.
   */
  lemma ReadFilesPrefix(files: seq<seq<byte>>, i: nat, slen: nat, p: nat, st: Reading)
    requires p > 0 && i < |files| && |files[0]| == IndexWidth + slen
    requires |st.xb| == IndexWidth && |st.sb| == slen
    requires i == 0 ==> st.xs == [] && st.ys == []
    requires i > 0 ==> st == ReadFiles(files[..i], slen, p)
    ensures ReadFiles(files[..i + 1], slen, p) == ReadOne(st, files[i], p)
  {
    assert files[..i + 1][..i] == files[..i];
    if i == 0 {
      var f := files[0];
      assert Overlay(st.xb, f) == f[..IndexWidth];
      assert Overlay(st.sb, AfterIndex(f)) == f[IndexWidth..];
    }
  }

  /** fread into a buffer: as many bytes as the data holds, up to the buffer's length. */
  method ReadInto(a: array<byte>, data: seq<byte>)
    modifies a
    ensures a[..] == Overlay(old(a[..]), data)
  {
    var n := if |data| < a.Length then |data| else a.Length;
    for k := 0 to n
      invariant forall j :: 0 <= j < a.Length ==> a[j] == if j < k then data[j] else old(a[j])
    {
      a[k] := data[k];
    }
    OverlayAt(old(a[..]), data);
  }

  /**
   * One turn of the reading loop: fread the index into x and the value into
   * sbuf, and convert both, the index reduced mod p as conv<ZZ_p> does.
   */
  method ReadNext(ghost st: Reading, x: seq<byte>, sbuf: array<byte>, f: seq<byte>, p: nat)
      returns (x': seq<byte>, input: int, share: int)
    requires p > 0 && x == st.xb && sbuf[..] == st.sb
    modifies sbuf
    ensures ReadOne(st, f, p) == Reading(x', sbuf[..], st.xs + [input], st.ys + [share])
  {
    x' := Overlay(x, f);
    input := BytesToNat(x') % p;
    ReadInto(sbuf, AfterIndex(f));
    share := BytesToNat(sbuf[..]) % p;
  }

  /**
   * The reading loop: every file in turn is read into the index variable x
   * and into sbuf, and the point and value appended.
   */
  method ReadShares(files: seq<seq<byte>>, sbuf: array<byte>, p: nat)
      returns (inputs: seq<int>, shares: seq<int>)
    requires p > 0 && |files| >= 1 && |files[0]| == IndexWidth + sbuf.Length
    modifies sbuf
    ensures var rd := ReadFiles(files, sbuf.Length, p);
      inputs == rd.xs && shares == rd.ys && sbuf[..] == rd.sb
  {
    var x: seq<byte> := [0, 0, 0, 0];
    inputs, shares := [], [];
    for i := 0 to |files|
      invariant |x| == IndexWidth
      invariant i == 0 ==> inputs == [] && shares == []
      invariant i > 0 ==> ReadFiles(files[..i], sbuf.Length, p) == Reading(x, sbuf[..], inputs, shares)
    {
      ghost var before := Reading(x, sbuf[..], inputs, shares);
      ReadFilesPrefix(files, i, sbuf.Length, p, before);
      var input, share;
      x, input, share := ReadNext(before, x, sbuf, files[i], p);
      inputs := inputs + [input];
      shares := shares + [share];
    }
    assert files[..|files|] == files;
  }

  /**
   * The reconstruction branch, run on the contents of the files named on the
   * command line. The file system is left out.
   */
  method Reconstruct(files: seq<seq<byte>>) returns (r: Result<seq<byte>>)
    requires |files| >= 2
    ensures r == RecoverSecret(files)
  {
    if |files[0]| <= IndexWidth {
      return Err(Malformed);
    }
    var slen := |files[0]| - IndexWidth;
    var p := Modulus(slen - 1);
    var sbuf := new byte[slen];
    var inputs, shares := ReadShares(files, sbuf, p);
    RecoverSecretUnfold(files, slen, inputs, shares);
    if !DistinctMod(inputs, p) {
      return Err(RepeatedPoints);
    }
    var f0 := LagrangeAt0(inputs, shares, p);
    StoreBytes(sbuf, f0);
    r := Ok(sbuf[..slen - 1]);
  }
}
