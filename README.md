# Shamir secret sharing over a prime field, in Dafny

This project models `ss.py`, a Python implementation of Shamir's (t, n)
threshold secret sharing, and proves properties of the model.

- **Splitting.** A secret string is decoded to an integer with the sharer's
  secret charset. The integer becomes the intercept of a polynomial with
  t coefficients, whose other coefficients are drawn at random below a prime.
  The polynomial is sampled at x = 1 .. n modulo that prime. Each point
  (x, y) is written as the share string "x-y" in the share charset.
- **Recovery.** The share strings are decoded back to points. The prime is
  inferred from the y values. Lagrange interpolation modulo that prime,
  evaluated at x = 0, gives the secret integer, which is encoded with the
  secret charset.
- **The prime.** It comes from a fixed table: 15 Mersenne primes 2^e - 1,
  built by repeated doubling, plus three fixed primes of 257, 321 and
  385 bits, sorted. A linear scan returns the first entry that covers a
  batch of numbers. As written the scan accepts an entry equal to the
  largest number; the split and recovery of this model use the corrected
  scan, which demands an entry strictly greater (see "## Findings").

Modules, one per part of the program:

| file | module | what it holds |
|---|---|---|
| results.dfy | `Results` | `Option`, `Result` and one `Error` per exception the program raises |
| mod_arith.dfy | `ModArith` | congruence facts about `%` used by the proofs |
| field_arithmetic.dfy | `FieldArithmetic` | `egcd`, `mod_inverse`, primality and Euclid's lemma |
| polynomials.dfy | `Polynomials` | points, polynomials as coefficient lists, Horner evaluation, root counting |
| prime_registry.dfy | `PrimeRegistry` | the Mersenne primes, the sorted prime table, `get_large_enough_prime` |
| polynomial_splitter.dfy | `PolynomialSplitter` | `random_polynomial`, `get_polynomial_points`, `secret_int_to_points` |
| reconstructor.dfy | `Reconstructor` | `modular_lagrange_interpolation`, `points_to_secret_int`, the interpolation theorem |
| codec.dfy | `Codec` | the positional charset codec and the share-string format |
| charsets.dfy | `Charsets` | the charsets of the sharer classes |
| secret_sharer.dfy | `SecretSharer` | the sharer classes, `split_secret`, `recover_secret`, end-to-end recovery |

How the program's features are modelled:

- **Loops** are methods with loop invariants:
  - the nested loops of `get_polynomial_points` and `modular_lagrange_interpolation`;
  - the doubling loop of `calculate_mersenne_primes`;
  - the early-return scan of `get_large_enough_prime`;
  - the append loops of `split_secret` and `recover_secret`.

  Some methods (the scans of `get_large_enough_prime`, the interpolation,
  `points_to_secret_int`, the append loops of `split_secret` and
  `recover_secret`) are proved equal to a specification function, and the
  properties the program promises are proved about that function as lemmas.
  The others (`calculate_mersenne_primes`, `random_polynomial`, the
  evaluation loop, `get_polynomial_points`, `secret_int_to_points`,
  `split_secret`) state their results directly in their postconditions.
- **Exceptions** become `Failure` values, carrying the error that the program
  would raise.
- **The random source** `secure_randint` is a nondeterministic choice in the
  requested range.
- **The sharer classes** only differ in their two class-level charsets, so a
  sharer is a value of the datatype `Sharer`.

The headline result is `Reconstructor.InterpolationRecoversIntercept`. Suppose
some points:
- sample a polynomial c modulo a prime p;
- have pairwise distinct x values modulo p;
- number at least as many as c has coefficients.

Then `modular_lagrange_interpolation(0, points, p)` returns c[0] mod p.

The proof counts roots. The interpolation polynomial minus c has no more
coefficients than there are points, and it vanishes modulo p at every
point, so it vanishes everywhere.
`SecretSharer.RecoverFromEnoughShares` carries this through the share
strings to `recover_secret`, given that recovery infers the same prime
that was used to split.

## Model

| member | source | states |
|---|---|---|
| FieldArithmetic.Egcd | ss.py:7-12 | for non-negative a and b, the result (g, x, y) has a·x + b·y == g with g >= 0; g is 0 exactly when a and b are both 0, and otherwise g divides both |
| FieldArithmetic.CommonDivisorDividesGcd | ss.py:7-12 | every common divisor of a and b divides the g that egcd returns, so g is their greatest common divisor |
| FieldArithmetic.ModInverse | ss.py:15-21 | the result lies in [0, prime); when k mod prime is coprime to prime, k times the result is 1 modulo prime; the k < 0 branch cannot run after k % prime |
| Polynomials.EvalSnoc | ss.py:43-48 | appending a coefficient a to c adds a·z^&#124;c&#124; to the Horner value, linking Horner evaluation to the sum of terms the loop adds up |
| Polynomials.RootsVanish | ss.py:54-73 | modulo a prime, a polynomial with no more coefficients than it has pairwise distinct roots vanishes everywhere |
| PrimeRegistry.Pow2Succ | ss.py:90-91 | doubling steps the power: 2^(e+1) == 2·2^e |
| PrimeRegistry.CalculateMersennePrimes | ss.py:74-94 | the result has one entry per listed exponent, in order, and entry k is 2^e_k - 1, so it equals MersennePrimes() |
| PrimeRegistry.MersennePrimes | ss.py:84-94 | the list calculate_mersenne_primes returns, entry k being 2^e_k - 1 for the k-th listed exponent; CalculateMersennePrimes is proved to compute it |
| PrimeRegistry.StandardPrimes | ss.py:96-102 | STANDARD_PRIMES after `.sort()`, the three fixed primes placed between 2^127 - 1 and 2^521 - 1; StandardPrimesSorted and StandardPrimesIsSortedTable prove that this is the sorted table |
| PrimeRegistry.StandardPrimesSorted | ss.py:96-102 | the sorted table has 18 entries, starts with 3 and 7, ends with 2^1279 - 1, is strictly ascending, and is a permutation of the Mersenne primes followed by the three fixed primes |
| PrimeRegistry.StandardPrimesIsSortedTable | ss.py:99-102 | every non-decreasing permutation of the unsorted table is the table the model uses, so that table is what `.sort()` produces |
| PrimeRegistry.FirstCoverIsLeast | ss.py:111-115 | over an ascending table the scan returns the least entry that is at least every batch element, and None exactly when some element exceeds the last entry |
| PrimeRegistry.LargeEnoughPrimeIsLeast | ss.py:105-115 | get_large_enough_prime returns the least table prime p with every batch element <= p (equality accepted); it returns None exactly when some element exceeds 2^1279 - 1 |
| PrimeRegistry.LargeEnoughPrime | ss.py:105-115 | any prime get_large_enough_prime returns is a table entry at least every element of the batch |
| PrimeRegistry.GetLargeEnoughPrime | ss.py:105-115 | the linear scan with early return computes the least covering table prime, as characterised by LargeEnoughPrimeIsLeast |
| PrimeRegistry.LargeEnoughPrimeAtLeastThree | ss.py:105-115 | any prime the scan returns is at least 3 |
| PrimeRegistry.LargeEnoughPrimeAcceptsEqual | ss.py:111-114 | the batch [7, 3] gets the prime 7 itself, and so does the batch [2, 4] |
| PrimeRegistry.FirstAboveIsLeast | ss.py:105-115 | over an ascending table the corrected scan returns the least entry strictly greater than every batch element, and None exactly when some element is at least the last entry |
| PrimeRegistry.LargerPrime | ss.py:105-115 | any prime the corrected selection returns is a table entry strictly greater than every element of the batch |
| PrimeRegistry.LargerPrimeIsLeast | ss.py:105-115 | the corrected selection returns the least table prime p with every batch element < p; it returns None exactly when some element is at least 2^1279 - 1 |
| PrimeRegistry.GetLargerPrime | ss.py:108-115 | the linear scan with early return and the test `i >= prime` computes the corrected selection |
| PrimeRegistry.LargerPrimeAtLeastThree | ss.py:105-115 | any prime the corrected scan returns is at least 3 |
| PrimeRegistry.LargerPrimeOfTwoFour | ss.py:105-115 | the corrected selection gives the batch [2, 4] the prime 7 |
| PrimeRegistry.LargerPrimeOfSevenThree | ss.py:105-115 | the corrected selection gives the batch [7, 3] the prime 31, passing over 7 |
| PolynomialSplitter.RandomPolynomial | ss.py:24-33 | a negative degree fails; a positive degree with an empty random range fails; otherwise the result has degree + 1 coefficients, the first is the intercept, and the others lie in [0, upper_bound) |
| PolynomialSplitter.PointStep | ss.py:46-48 | adding the next term modulo the prime turns the value of the first i coefficients into the value of the first i + 1 |
| PolynomialSplitter.EvaluateAt | ss.py:43-48 | with at least two coefficients y is f(x) mod prime; with one coefficient y is that coefficient, unreduced |
| PolynomialSplitter.GetPolynomialPoints | ss.py:36-51 | returns max(num_points, 0) points at x = 1, 2, …, in order; each y is f(x) mod prime, or the single coefficient when there is only one |
| PolynomialSplitter.ChosenPrime | ss.py:128-129 | a non-zero caller prime is used as is; otherwise the result is a table prime strictly greater than both the secret and the point count, and None exactly when one of them is at least 2^1279 - 1 |
| PolynomialSplitter.SecretIntToPoints | ss.py:118-134 | fails on a threshold below 2, on a threshold above the point count, and when no prime is found (a prime of 0 counts as absent, and then the prime is the least table prime strictly above the secret and the point count); on success returns num_points samples (x, f(x) mod p) of a polynomial with threshold-many coefficients, intercept the secret, other coefficients in [0, p) |
| Reconstructor.BasisPolyEval | ss.py:61-68 | the coefficient form of the product of (z - x_j) over j != i evaluates to that product |
| Reconstructor.ProdExceptVanishes | ss.py:61-68 | the basis product for node i vanishes at every other node |
| Reconstructor.ProdExceptNonzero | ss.py:68-70 | with x values distinct modulo a prime, the denominator of a Lagrange term is not a multiple of the prime |
| Reconstructor.ProdExceptModCong | ss.py:61-68 | reducing the numerator and denominator modulo the prime at each inner step keeps them congruent to the exact products |
| Reconstructor.LagrangePolyStep | ss.py:59-72 | each node adds its weight times its basis product to the Lagrange form |
| Reconstructor.LagrangePolyAtNode | ss.py:59-72 | at node x_k only the k-th term of the Lagrange form survives |
| Reconstructor.LagrangeSumAtNode | ss.py:59-72 | modulo the prime, the Lagrange form takes the value y_k at x_k |
| Reconstructor.LagrangeSumInterpolates | ss.py:54-73 | modulo the prime, the Lagrange form agrees everywhere with any polynomial through the same points that has at most as many coefficients as there are points |
| Reconstructor.LagrangeAt | ss.py:54-73 | what modular_lagrange_interpolation returns for a non-empty list: the outer-loop accumulator over all points, in [0, prime) |
| Reconstructor.LagrangeAccCong | ss.py:58-72 | after i outer iterations f_x is congruent modulo the prime to the Lagrange form over the first i points |
| Reconstructor.ModularLagrangeInterpolation | ss.py:54-73 | an empty point list fails (it cannot be unzipped); otherwise the result is the outer-loop accumulator of all points and lies in [0, prime) |
| Reconstructor.InterpolationRecoversPolynomial | ss.py:54-73 | for samples modulo a prime p of a polynomial c with at most as many coefficients as points, and x values distinct modulo p, interpolating at z gives c(z) mod p |
| Reconstructor.InterpolationRecoversIntercept | ss.py:153 | under the same conditions, interpolating at 0 gives c[0] mod p |
| Reconstructor.InferredPrime | ss.py:151-152 | a non-zero given prime is used as is; otherwise the result is a table prime strictly greater than every y value, and None exactly when some y value is at least 2^1279 - 1 |
| Reconstructor.PointsToSecretInt | ss.py:137-155 | the result is the interpolation at 0 with the inferred prime, a failure for an empty point list, or a failure when no prime is inferred |
| Reconstructor.SecretOfPoints | ss.py:137-155 | what points_to_secret_int returns: an empty list fails first, then a missing prime; a result lies in [0, p) for the prime in use |
| Reconstructor.SecretOfPointsRecoversIntercept | ss.py:137-155 | when the inferred prime p is prime and the points sample c modulo p at distinct x, points_to_secret_int returns c[0] mod p |
| Codec.IndexOf | ss.py:6 | the position of the first occurrence of a symbol, and None exactly when the symbol is absent |
| Codec.IntToCharset | ss.py:6 | a negative value is an error; otherwise the result is non-empty and uses only charset symbols |
| Codec.CharsetToInt | ss.py:6 | decoding succeeds exactly when every symbol is in the charset |
| Codec.DecodeEncode | ss.py:6 | over a charset of distinct symbols, decoding the encoding of a non-negative integer gives it back |
| Codec.EncodeDecode | ss.py:6 | encoding the decoded value of a non-empty string gives the string back when the string has no leading zero symbol (or is that symbol alone) |
| Codec.LeadingZeroLost | ss.py:6 | "00" decodes to 0, which encodes as "0" |
| Codec.PointToShareString | ss.py:158-175 | a charset containing '-' fails; a negative coordinate fails; otherwise the share holds exactly one '-' |
| Codec.ShareStringToPoint | ss.py:178-192 | a charset containing '-' fails; a share without exactly one '-' fails; success exactly when every other symbol is in the charset, giving non-negative coordinates |
| Codec.ShareStringRoundTrip | ss.py:158-192 | over a charset of distinct symbols without '-', decoding the share string of a point with non-negative coordinates gives the point back |
| Charsets.HexDigitsUsable | ss.py:201-202 | string.hexdigits[0:16] has 16 distinct symbols and no '-' |
| Charsets.Base58Usable | ss.py:244-245 | base58_chars has 58 distinct symbols and no '-' |
| Charsets.Base32Usable | ss.py:253 | base32_chars has 32 distinct symbols and no '-' |
| Charsets.ZBase32Usable | ss.py:261 | zbase32_chars has 32 distinct symbols and no '-' |
| Charsets.PrintableFacts | ss.py:236 | string.printable has 100 symbols, '-' among them; the plaintext sharer uses it only as its secret charset, where '-' is allowed |
| SecretSharer.PresetsUsable | ss.py:195-261 | each of the six sharer classes has a secret charset of at least two symbols and a share charset of at least two distinct symbols without '-' |
| SecretSharer.SplitSecret | ss.py:207-214 | a secret outside the secret charset fails; the threshold and prime failures of secret_int_to_points propagate; a share charset holding '-' fails; on success the shares are, in order, the share strings of the samples at x = 1 .. n of a polynomial whose intercept is the secret integer, modulo a prime of at least 3 |
| SecretSharer.EncodePoints | ss.py:211-213 | the shares succeed exactly when every point encodes; then there is one share per point, in order; a failure is the error of some point |
| SecretSharer.EncodeShares | ss.py:211-213 | the append loop computes EncodePoints, stopping at the first point that fails |
| SecretSharer.DecodeShares | ss.py:218-220 | decoding succeeds exactly when every share decodes; then there is one point per share, in order |
| SecretSharer.RecoverSecret | ss.py:216-223 | the loop decodes every share, stopping at the first failure, then recovers and encodes the secret integer, as RecoveredSecret composes them |
| SecretSharer.RecoveredSecret | ss.py:216-223 | what recover_secret returns: a share that does not decode gives its error; the result succeeds exactly when every share decodes and points_to_secret_int succeeds, and is then a non-empty string over the secret charset |
| SecretSharer.DecodeEncodedShares | ss.py:218-220 | the share strings of points decode to those points, in order |
| SecretSharer.SamplesRecoverIntercept | ss.py:150-155 | samples at distinct x in [0, p) of c modulo p, whose inferred prime is p, give back c[0] mod p |
| SecretSharer.RecoverFromEnoughShares | ss.py:216-223 | share strings of samples modulo a prime p of a polynomial c, at distinct x in [0, p), at least as many as c has coefficients, recover the encoding of c[0] mod p when recovery infers p |
| SecretSharer.SplitOfSevenRecoversZero | ss.py:111-114 | as written, the secret "7" with the hex sharer and three shares gets the prime 7 (the y values [2, 4] get 7 too); with the line 7 + 2x the shares are "1-2", "2-4" and "3-6"; the first two recover "0" |
| SecretSharer.SevenGetsThirtyOne | ss.py:129 | with the corrected selection the secret 7 and three shares are split modulo 31 |
| SecretSharer.CorrectedPrimeRecoversSecret | ss.py:207-223 | with the prime p chosen strictly above the secret and the share count, p prime, and recovery inferring p from the y values, enough share strings (at distinct x in [1, n]) of a non-empty secret string without a leading zero symbol recover that string exactly |

## Left out

- benchmark.py: console input and output, wall-clock timing and memory probing; nothing in it computes shares.
- `main` (ss.py:264-268): prints around one fixed split and recovery.
- The random source `secure_randint` (ss.py:31) is a nondeterministic choice in its range; uniformity and unpredictability are not modelled.
- The security claim (fewer than t shares reveal nothing) is information-theoretic and is not stated.
- The utilitybelt codec (`int_to_charset`, `charset_to_int`, ss.py:6) is not part of this model. It is modelled as a big-endian positional numeral system: base |charset|, digit value = symbol index, and 0 written as the zero symbol. Its round trips are proved for that assumed model.
- The utilitybelt alphabets (base58, base32, z-base-32) are written out as the standard alphabets of those names; the library source is not part of this model.
- The `isinstance` checks (ss.py:142-149, ss.py:166-170, ss.py:185) are replaced by Dafny's types. The checks at ss.py:145 and ss.py:185 are also mis-parenthesised: they reject only values of the wrong type that have the right shape (a list of length two, a non-string with one '-'), and let through values of the right type with the wrong shape (a tuple of another length, a string without exactly one '-').
- Codec.IntToCharset: requires a charset of at least two symbols; a one-symbol charset has no positional meaning and its behaviour in the assumed codec is not modelled.
- Reconstructor.ModularLagrangeInterpolation: requires prime > 0. The program only passes table primes or the caller's non-zero prime. Python's `%` with a negative modulus is not modelled.
- PolynomialSplitter.GetPolynomialPoints: requires prime > 0, for the same reason. secret_int_to_points fails before sampling when the prime is below 1, because the random range is then empty.
- Reconstructor.PointsToSecretInt: requires a given prime to be non-negative, for the same reason.
- Reconstructor.PointsToSecretInt: when no table prime covers the y values, the program reduces modulo None and fails with a TypeError at ss.py:67, or at ss.py:16 for a single point; the model reports NoPrimeForPoints instead.
- PolynomialSplitter.ChosenPrime, PolynomialSplitter.SecretIntToPoints and Reconstructor.InferredPrime: where ss.py:129 and ss.py:152 call get_large_enough_prime, they use the corrected selection PrimeRegistry.LargerPrime (strictly greater); the as-written selection is PrimeRegistry.LargeEnoughPrime, kept for the finding below.
- Primality of the table constants is not proved. The recovery lemmas take `IsPrime(p)` as a hypothesis, and it is proved only for 7.
- SecretSharer.RecoverFromEnoughShares: the end-to-end round trip is stated only when recovery infers the same prime as splitting. Recovery picks its prime from the y values, which can be smaller than the splitting prime.
- SecretSharer.CorrectedPrimeRecoversSecret: the secret string must be non-empty and have no leading zero symbol: the empty secret decodes to 0 and recovers as the zero symbol ("0" for the hex sharer), and the codec drops leading zero symbols (Codec.LeadingZeroLost). It also takes the primality of p and recovery inferring p as hypotheses, as RecoverFromEnoughShares does.
- Charsets.PrintableFacts: distinctness of string.printable is not proved; it is only ever a secret charset, which the decoding does not require to be distinct.

## Findings

| source | as written | input that shows it | evidently intended | confidence | as-written member | corrected member |
|---|---|---|---|---|---|---|
| ss.py:111-114 | the scan accepts a table prime equal to the largest number in the batch (`i > prime` is the rejection test), so split_secret can work modulo a prime equal to the secret integer | hex sharer, secret "7", threshold 2, 3 shares: the prime is 7; with random coefficient 2 the shares are "1-2", "2-4", "3-6", and any two of them recover "0" instead of "7" | a prime strictly greater than every number in the batch, as the docstring at ss.py:106 says, so that the secret is below the prime and survives reduction | not executed | SecretSharer.SplitOfSevenRecoversZero | SecretSharer.CorrectedPrimeRecoversSecret |
