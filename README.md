# sshare in Dafny

`sshare` is a command-line Shamir secret-sharing tool built on NTL. Given
one input it reads the secret, picks the prime field GF(p) with p the least
prime at or above 2^(8·len), draws a random polynomial f of degree below the
threshold t with f(0) the secret, and writes n share files, file i + 1
holding the 4-byte index i + 1 followed by f(i + 1) in len + 1 bytes. Given
two or more share files it re-derives p from the first file's size, reads
every file into one index variable and one value buffer, interpolates the
points and writes f(0) back without its top byte.

This project models that core and proves what it promises:

- `Arith`: powers of two, modular arithmetic, primality, a least-prime
  search (`NextPrime`, with Euclid's argument for termination), extended
  gcd and modular inverses.
- `ByteCodec`: NTL's `ZZFromBytes` / `BytesFromZZ`, least significant byte
  first, with their round trips.
- `Polynomial`: Horner evaluation over GF(p), polynomial algebra over the
  integers, the factor theorem, and the vanishing theorem (a polynomial with
  at most m coefficients that is zero at m distinct points of GF(p) is zero
  everywhere).
- `Lagrange`: interpolation at 0, proved to return f(0) for every polynomial
  with no more coefficients than points.
- `Distribution`: `distribute` (the modulus, the coefficients and the
  evaluation loop), plus the guarded variant described under Findings.
- `ShareFile`: the share file format and the writing loop.
- `Reconstruction`: the reconstruction branch of `main`, including `fread`'s
  habit of leaving a buffer's tail untouched when a file is short.
- `EndToEnd`: correctness of the whole scheme, and the index collisions.
- `ReadAll`: `readall`'s doubling buffer over a trace of `read(2)` answers.

The model follows the code where the code and its design notes differ:

- Later share files of another width are not rejected. A shorter file
  leaves the previous value's tail in the buffer, and a longer one is
  truncated.
- `readall` retries reads that fail with EINTR or EWOULDBLOCK.
- Share indices are not checked against p.
- Reconstruction needs at least two files: one file selects the
  distribution branch.
- `main` ignores the status `readall` returns, so on a failed read the bytes
  received so far are shared. `ReadAll.ReadAll` states that `nBytes` counts
  them in both outcomes.

## Model

| member | source | states |
|---|---|---|
| Arith.NextPrime | sshare.cpp:196-197 | the result is prime and at least the bound |
| Arith.NextPrimeIsLeast | sshare.cpp:196-197 | no number from the bound up to NextPrime(lb) is prime: the search returns the least prime at or above lb |
| Arith.Inverse | sshare.cpp:171 | r < m and a·r ≡ 1 (mod m): the division in GF(p) that interpolation performs |
| Arith.NoZeroDivisors | sshare.cpp:171 | modulo a prime, a·b ≡ 0 with a ≢ 0 forces b ≡ 0 |
| ByteCodec.BytesToNat | sshare.cpp:207 | ZZFromBytes of k bytes is below 256^k |
| ByteCodec.NatToBytesToNat | sshare.cpp:122 | reading back BytesFromZZ(x, w) gives x mod 256^w: only the low w bytes are kept |
| ByteCodec.NatToBytesRoundTrip | sshare.cpp:172 | a value below 256^w survives writing at width w and reading back |
| ByteCodec.BytesToNatRoundTrip | sshare.cpp:164 | every byte string is the encoding, at its own length, of the integer it reads as |
| ByteCodec.BytesToNatInjective | sshare.cpp:207 | distinct byte strings of one length read as distinct integers |
| ByteCodec.NatToBytesPrefix | sshare.cpp:175 | the first k bytes of the width-w encoding are the width-k encoding |
| ByteCodec.NatToBytesHighZero | sshare.cpp:173-174 | for x below 256^k every byte of the encoding from position k on is zero |
| ByteCodec.NatToBytesMod | sshare.cpp:129 | the width-w encoding depends only on x mod 256^w |
| ByteCodec.StoreBytes | sshare.cpp:122 | the buffer holds BytesFromZZ(x) at the buffer's length |
| Polynomial.Eval | sshare.cpp:212 | eval(f, x) is below p and is the exact polynomial value reduced mod p |
| Polynomial.HornerIsSumOfTerms | sshare.cpp:212 | Horner's rule equals the sum of c_i·z^i |
| Polynomial.EvalAtZero | sshare.cpp:209 | f(0) is the constant coefficient reduced mod p |
| Polynomial.EvalAtModulus | sshare.cpp:212 | f(p) is also the constant coefficient: p is 0 in GF(p) |
| Polynomial.EvalReducedPoint | sshare.cpp:212 | evaluating at ZZ_p(x) = x mod p gives the same value as at x |
| Polynomial.FactorTheorem | sshare.cpp:171 | f(z) = f(a) + (z − a)·q(z) for the synthetic quotient q |
| Polynomial.Vanishing | sshare.cpp:171 | at most m coefficients and zero at m distinct points of GF(p) means zero everywhere mod p |
| Lagrange.InvProdCancels | sshare.cpp:171 | the inverse of Π(x_i − x_j) really is its inverse mod p |
| Lagrange.TermAtOwnPoint | sshare.cpp:171 | the i-th Lagrange term is y_i at x_i |
| Lagrange.TermVanishesElsewhere | sshare.cpp:171 | the i-th Lagrange term is 0 at every other point |
| Lagrange.InterpolantAtPoint | sshare.cpp:171 | the sum of the first k terms at x_m is term m's value there, or 0 if m ≥ k |
| Lagrange.InterpolantAtZero | sshare.cpp:171-172 | the closed-form sum computed at 0 is the interpolating polynomial's constant term mod p |
| Lagrange.DifferenceVanishesAtPoint | sshare.cpp:171 | f minus the interpolant vanishes at every point where f agrees with the values |
| Lagrange.LagrangeRecoversConstant | sshare.cpp:171-172 | interpolate(...)[0] is f(0) mod p for every f with at most as many coefficients as distinct points |
| Lagrange.LagrangeAt0 | sshare.cpp:171-172 | interpolate followed by f[0] yields an element of GF(p), below p; LagrangeRecoversConstant states that it is f(0) |
| Lagrange.ZeroValuesGiveZero | sshare.cpp:171-172 | when every value is 0 the constant term taken is 0 |
| Distribution.Modulus | sshare.cpp:196-197 | the modulus is prime and at least 256^len |
| Distribution.ModulusAboveBound | sshare.cpp:192-197 | for len ≥ 1 the modulus is strictly above 256^len |
| Distribution.ModulusOfEmpty | sshare.cpp:196-197 | for the empty secret the modulus is 2 |
| Distribution.SecretBelowModulus | sshare.cpp:207-209 | the secret integer is below p, so conv<ZZ_p> leaves it unchanged |
| Distribution.Coefficients | sshare.cpp:205-209 | f has t − 1 random coefficients after its constant term, which is the secret reduced mod p |
| Distribution.ShareValues | sshare.cpp:211-212 | n share values, each an element of GF(p) below p |
| Distribution.Distribute | sshare.cpp:196-212 | p is Modulus(len), and share i is f at ZZ_p(i + 1), where f(0) is the secret and the other coefficients are the random ones |
| Distribution.DegenerateThreshold | sshare.cpp:205-209 | with t ≤ 1 the polynomial is constant and every share equals the secret |
| Distribution.ShareAtModulusIsSecret | sshare.cpp:211-212 | when n ≥ p, share number p is the secret itself |
| Distribution.ShareAtSecretIndex | sshare.cpp:211-212 | the share whose index is p holds f(0) |
| Distribution.SharePoint | sshare.cpp:212 | ZZ_p(i + 1) is the residue of i + 1 below p |
| Distribution.DistributeChecked | sshare.cpp:190-212 | the guarded distribute yields shares exactly when n < p and n < 2^32, and then the same shares, evaluated at the points 1..n themselves |
| Distribution.AcceptedPointsDistinct | sshare.cpp:211-212 | under that guard share i + 1 sits at the point i + 1, so no share is at 0 and no two share a point |
| ShareFile.EncodeShare | sshare.cpp:128-131 | a share file is 4 + w bytes |
| ShareFile.DecodeShare | sshare.cpp:160-164 | a file decodes exactly when it is longer than 4 bytes, with index below 2^32 and value below 256^(size − 4) |
| ShareFile.IndexWraps | sshare.cpp:128-131 | a written file reads back as the index mod 2^32, as the uint32_t keeps it, and the value mod 256^w |
| ShareFile.ShareRoundTrip | sshare.cpp:128-131 | an index below 2^32 and a value below 256^w read back unchanged |
| ShareFile.DecodeEncode | sshare.cpp:160-164 | every file with a value byte is the encoding of what it decodes to |
| ShareFile.ShareFiles | sshare.cpp:121-133 | one file per share, every one of them 4 + len + 1 bytes |
| ShareFile.ShareFilesDecode | sshare.cpp:121-133 | file i + 1 reads back as the index (i + 1) mod 2^32 and the value share i mod 256^(len + 1) |
| ShareFile.WriteShares | sshare.cpp:120-133 | file i + 1 is the index i + 1 as uint32_t, then BytesFromZZ(share i, len + 1) |
| Reconstruction.OverlayAt | sshare.cpp:160-162 | fread overwrites the first min(size, file) cells and leaves the rest as they were |
| Reconstruction.ReadFiles | sshare.cpp:157-166 | one point and one value per file, with x and sbuf keeping their widths |
| Reconstruction.ReadWellFormed | sshare.cpp:157-166 | when all files have the first one's width, each point is that file's index mod p and each value its value mod p |
| Reconstruction.ReadDecoded | sshare.cpp:157-166 | when all files have the first one's width, each is a share and reading gives its decoded index and value mod p |
| Reconstruction.ShortFileKeepsStaleBytes | sshare.cpp:162-164 | a later, shorter file's value is its own bytes followed by the previous file's leftover bytes |
| Reconstruction.ReadOne | sshare.cpp:159-165 | reading one more file keeps the widths of x and sbuf and appends x and sbuf, converted and reduced mod p |
| Reconstruction.RecoverSecret | sshare.cpp:136-175 | fails as Malformed exactly when the first file has no value byte; otherwise the output is slen − 1 bytes |
| Reconstruction.RecoverAtWidth | sshare.cpp:148-175 | past the width check the result is never Malformed and has slen − 1 bytes |
| Reconstruction.RepeatedPointsFail | sshare.cpp:171 | points that repeat modulo p give RepeatedPoints |
| Reconstruction.ReadInto | sshare.cpp:162 | the buffer after fread is the overlay of the data on its old contents |
| Reconstruction.ReadNext | sshare.cpp:159-165 | one turn of the reading loop is one ReadOne step |
| Reconstruction.ReadShares | sshare.cpp:157-166 | the reading loop yields exactly the points, values and final sbuf of ReadFiles |
| Reconstruction.Reconstruct | sshare.cpp:136-176 | the reconstruction branch returns RecoverSecret of the files |
| EndToEnd.ReadEncoded | sshare.cpp:157-166 | reading written files gives each index mod p, and each value truncated to the width and reduced mod p |
| EndToEnd.InterpolationGivesSecret | sshare.cpp:171-172 | interpolating enough values of the sharing polynomial at distinct points gives the secret integer |
| EndToEnd.RecoverEncoded | sshare.cpp:157-175 | share files whose indices fit 32 bits and are distinct mod p, carrying the polynomial's values, reconstruct to the secret |
| EndToEnd.SecretRecovered | sshare.cpp:121-175 | any two or more issued shares, at least t of them, whose indices fit 32 bits and are distinct points of GF(p), reconstruct to the secret, whatever n is |
| EndToEnd.AcceptedSecretRecovered | sshare.cpp:121-175 | when n is below p and 2^32, any two or more distinct issued shares, at least t of them, reconstruct to the secret |
| EndToEnd.EmptySecretRecovered | sshare.cpp:62 | for the empty secret, shares 1 and 2 reconstruct it with the default n = 3 or any other n ≥ 2 |
| EndToEnd.DroppedByteIsZero | sshare.cpp:173-175 | the byte that reconstruction drops is zero for a recovered secret |
| EndToEnd.ModulusFitsEmpty | sshare.cpp:151-152 | for the empty secret p fits the one-byte value field |
| EndToEnd.IndexCollision | sshare.cpp:129 | shares i + 1 and i + 1 + p are the same point and do not reconstruct |
| EndToEnd.CollidingPair | sshare.cpp:160-171 | two files whose indices differ by p give RepeatedPoints |
| EndToEnd.EmptySecretCollision | sshare.cpp:62 | with the default n = 3, shares 1 and 3 of the empty secret do not reconstruct |
| ReadAll.Received | sshare.cpp:42-46 | the bytes received, in order, number exactly the byte count readall keeps |
| ReadAll.TotalRead | sshare.cpp:42-46 | nBytes, the sum of the non-negative read counts, is never negative |
| ReadAll.TotalReadBound | sshare.cpp:42 | when no read answers more than the chunk it asks for, nBytes grows by at most 1024 per read |
| ReadAll.ReceivedAppend | sshare.cpp:36-47 | reading a trace in two pieces receives the concatenation of what each piece delivers |
| ReadAll.ReceivedIgnoresErrors | sshare.cpp:42-43 | retried and failed reads deliver no bytes |
| ReadAll.Grow | sshare.cpp:38-40 | realloc gives a buffer of the new size that starts with the old contents |
| ReadAll.Store | sshare.cpp:42 | read places its bytes right after the nBytes already held and keeps those |
| ReadAll.Reserve | sshare.cpp:37-41 | bsize doubles exactly when a full chunk would not fit, leaving room for one, and the bytes read so far are kept |
| ReadAll.Turn | sshare.cpp:36-47 | one turn makes room for a chunk and appends what read delivered |
| ReadAll.ReadAll | sshare.cpp:29-49 | the status is −1 exactly when the last read failed with an error other than EINTR or EWOULDBLOCK, and 0 exactly when it reached end of file; on success the buffer holds the bytes received. nBytes is the sum of the read counts. bsize is 1024·2^k, has room for a chunk, and is at most 2·(nBytes + 1024) |

## Left out

- Command-line parsing, the usage text and the n ≥ t check (sshare.cpp:51-92). This is glue around the core.
- The file system. Opening, stat'ing, naming, permissions and closing files, and the temporary directory (sshare.cpp:94-117, 126-127, 132, 142-149, 159, 163) are left out. Share files are byte sequences. The first file's size is its length, and the output is the returned bytes.
- Randomness. The /dev/urandom seed and NTL's generator (sshare.cpp:199-205) are replaced by the random coefficients, which are a parameter. Any values below p are allowed, so a leading coefficient of zero is covered.
- NTL's NextPrime is probabilistic. It is modelled as the exact least prime at or above the bound.
- NTL's interpolate aborts on repeated points. This is modelled as the failure RepeatedPoints.
- Reconstruction.RecoverSecret: a first file of at most 4 bytes makes the source's unsigned subtraction wrap, and the source goes on with a nonsense width. The model reports Malformed instead.
- The index field's byte order is taken to be little-endian on both sides.
- A failed realloc in readall (sshare.cpp:39-40) is left out, because allocation cannot fail in the model. Overflow of size_t is left out too.
- Secrecy, that is what fewer than t shares reveal, is not modelled.
- EndToEnd.SecretRecovered: it takes as a hypothesis that p ≤ 2^(8(len + 1)), so that every share value fits its len + 1 bytes. This follows from Bertrand's postulate, which is not proved here. ModulusFitsEmpty proves it for the empty secret, where EmptySecretRecovered uses it. It also needs the picked indices below 2^32: a wrapped index is read as another point, which the theorem does not cover.
- EndToEnd.RecoverEncoded: it takes the same Bertrand hypothesis, p ≤ 2^(8(len + 1)), for the same reason.
- EndToEnd.AcceptedSecretRecovered: it covers only n below p and 2^32. For the empty secret (p = 2) that allows one share, so with two shares picked it says nothing there; SecretRecovered and EmptySecretRecovered cover those cases.
- Reconstruction.RecoverAtWidth: when every value read is 0 (a zero secret with t ≤ 1, say), NTL's interpolate yields the zero polynomial, which has no coefficients, and f[0] at sshare.cpp:172 indexes past its end; NTL does not check that index. The model takes the constant term to be 0, as Lagrange.ZeroValuesGiveZero states, and does not model the out-of-range access.

## Findings

| source | as written | input that shows it | evidently intended | confidence | as-written member | corrected member |
|---|---|---|---|---|---|---|
| sshare.cpp:211-212 | share indices run from 1 to n with no check against p, and share i + 1 is evaluated at ZZ_p(i + 1) | a 1-byte secret 0x41 with n = 257: p = 257, so share 257 is f(0) = 0x41 in clear | every share at a nonzero point, so n < p | not executed | Distribution.ShareAtModulusIsSecret | Distribution.DistributeChecked |
| sshare.cpp:129 | the file keeps the index i + 1 unreduced, but reconstruction reduces it mod p | the empty secret with the default n = 3: p = 2, and shares 1 and 3 are both the point 1, so that pair does not reconstruct | pairwise distinct points of GF(p) for all n shares, so n < p and n < 2^32 | not executed | EndToEnd.IndexCollision | Distribution.AcceptedPointsDistinct |
