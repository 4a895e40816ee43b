# Verified model of the cryptanalysis tools

This project models the cryptographic core of the repository and proves what
it is meant to compute: arithmetic in GF(2^128) with SSE registers, polynomials
over that field and root finding by Cantor and Zassenhaus, streaming GHASH and
the GCM encryptor, recovery of authentication tags from messages that share a
nonce, the Bytenigma rotor machine, the padding-oracle protocol between client
and server, and the base64 codec. `dafny verify dfyconfig.toml` checks all of it.

## How the model is organised

* `Sse`, `Gf128`, `GcmMultiply`, `GcmSquare`, `GcmCertificate`, `GcmField`,
  `GcmBytes`, `GcmPolynomial`: the field. The register operations are bit-vector
  functions; the reference product is Algorithm 1 of NIST SP 800-38D. That the
  ring is a field is proved from two facts: squaring 128 times is the identity,
  and only zero and one are their own squares.
* `Fields`, `PolynomialRing`, `PolynomialDivision`, `PolynomialPowers`, `Roots`:
  K[X] over any field K of characteristic two, as normal-form coefficient
  sequences. These are the specifications.
* `CoefficientVectors`, `CzPolynomial`, `Factorize`, `RootSearch`,
  `RootSearchProgress`, `GcmCubes`, `SplittingDraws`: the class that updates
  coefficient vectors in place, Euclid's algorithm, one splitting attempt, the
  worklist, when it can end, and what every single draw splits.
  Random polynomials are arguments: a run consumes a finite tape of draws.
* `ByteManipulation`, `GhashFunction`, `GhashStream`, `Encryptor`, `Recover`:
  hashing and encryption in pieces, over an arbitrary function from blocks to
  blocks in place of the cipher, and the recovery that ties them to the roots.
* `RotorMachine`, `RotorPeriod`, `RotorWeaknesses`, `Bytenigma`: the rotor
  machine, how it moves, and what its documentation says about its weaknesses.
* `PaddingOracleServer`, `PaddingOracleAttack`: two byte streams between client
  and server. The server may move at any time; the client sees what has arrived.
* `Base64`: the codec with the RFC 4648 alphabet.

Assertions and exceptions of the program are part of the behaviour (its
Makefile does not define NDEBUG). Those of the division, the gcd, the factor
search, the hash, the encryptor, the tag recovery, the rotor machine, the
padding oracle and the decoder are results that say exactly when they occur, or
are proved never to occur. Checks of the shape of a single argument are
preconditions or types: 16 bytes for a field element or a tag, exponents below
128, equal lengths for exclusive or, and a normal non-zero modulus for a power.
The length assertion of from_bytes is not modelled: integers are read from byte
strings of any length, and the one caller passes the four it asks for.

Values passed by copy or by const reference are plain sequences; an object that
a method changes is a class with the program's fields. Bytes are 8-bit vectors
where they are combined bitwise and integers from 0 to 255 in the rotor machine
and the codec, whose arithmetic is modular.

## Where code and documentation part

The model follows the code.

* `docs/bytenigma/security.md:16` says that the rotor at position n turns every
  2^n bytes on average. By the code each rotor turns once per 256 turns of the
  one before it, so rotor i turns exactly k times in 256^i * k bytes
  (RotorPeriod.TurnRate), and the documented rate is right for i = 0 only
  (RotorPeriod.DocumentedRate).
* `docs/bytenigma/security.md:100` says that the countdown of the output breaks
  if and only if the second rotor turns. It breaks only there, but not always:
  RotorWeaknesses.CountdownBreaks has the exact condition and
  RotorWeaknesses.CountdownMayGoOn an input.
* The division asserts that quotient and remainder give the dividend back, but
  compares vectors: a dividend with leading zeros that is long enough to be
  divided by a normal divisor always fails it. An empty divisor makes the
  division throw, and one with a leading zero can make it go on for ever
  (CzPolynomial.Polynomial.DivMod, CzPolynomial.DivisionExamples).
* The decoder stops at a NUL character and ignores what follows; it also ignores
  the unused bits of the last symbol (Base64.AcceptsIffWellFormed,
  Base64.ReencodesIffZeroTailBits).

## Model

| member | source | states |
|---|---|---|
| `GcmPolynomial.Polynomial.MulAssign` | src/gcm/polynomial.cpp:68-117 | the four carry-less products, the lane shifts and the folding give, for all 128-bit operands, the product of Algorithm 1 of NIST SP 800-38D |
| `GcmMultiply.ReducedIsMul` | src/gcm/polynomial.cpp:68-117 | the carry-less product of the two registers, shifted once and reduced, is the bit-serial product of section 6.3 of NIST SP 800-38D, for all operands |
| `GcmMultiply.ReductionIsProduct` | src/gcm/polynomial.cpp:85-113 | joining the partial products across lanes and folding twice by shifts of 1, 2 and 7 is reduction modulo the field polynomial |
| `Gf128.MulComm` | src/gcm/polynomial.cpp:68-117 | the product is commutative |
| `Gf128.MulAssoc` | src/gcm/polynomial.cpp:68-117 | the product is associative |
| `Gf128.MulAdd` | include/gcm/polynomial.hpp:94-112 | the product distributes over `+=` |
| `Gf128.MulOne` | include/gcm/polynomial.hpp:34 | `one()` is the identity of the product |
| `GcmPolynomial.Polynomial.AddAssign` | src/gcm/polynomial.cpp:63-66 | addition is bitwise exclusive or |
| `Gf128.AddLaws` | src/gcm/polynomial.cpp:63-66 | addition is commutative, associative, has `zero()` as identity and undoes itself |
| `Sse.NextExponentIsShift` | src/gcm/polynomial.cpp:132-135 | the four lane shifts with the carry moved down are one shift of the 128-bit exponent |
| `Sse.WidthBound` | src/gcm/polynomial.cpp:128-137 | at most 128 such shifts bring any exponent to zero |
| `GcmPolynomial.Polynomial.Pow` | src/gcm/polynomial.cpp:124-139 | square and multiply computes the power by the number in the four lanes, in at most 128 rounds |
| `GcmField.PowBitsIsPower` | src/gcm/polynomial.cpp:124-139 | the value of the loop is repeated multiplication, Val(exponent) times |
| `GcmField.FrobeniusIsIdentity` | src/gcm/polynomial.cpp:119-139 | a^(2^128) = a for every element |
| `GcmField.IdempotentIsZeroOrOne` | include/gcm/polynomial.hpp:71-74 | only zero and one are their own squares: the ring has no proper factor |
| `GcmField.InverseLaw` | include/gcm/polynomial.hpp:71-74 | a * a^(2^128 - 2) = one for every non-zero a |
| `GcmField.GcmIsField` | include/gcm/polynomial.hpp:20-121 | addition, product and inverse satisfy the laws of a field of characteristic two, so that everything below applies to GF(2^128) |
| `GcmPolynomial.Polynomial.ModularInverse` | include/gcm/polynomial.hpp:71-74 | the inverse of a non-zero element; zero for zero |
| `GcmPolynomial.Polynomial.DivAssign` | src/gcm/polynomial.cpp:119-122 | (a / b) * b = a for every non-zero b; division by zero gives zero |
| `GcmBytes.GcmBytesRoundTrip` | src/gcm/polynomial.cpp:20-40 | from_gcm_bytes and to_gcm_bytes are inverse to each other |
| `GcmBytes.GcmBytesConvention` | include/gcm/polynomial.hpp:38-44 | bit j of byte k, from the most significant, is the coefficient of x^(8k+j) |
| `Sse.FromIndexIsShift` | include/sse.h:15-23 | the two-lane construction is a single bit at the index |
| `GcmPolynomial.Polynomial.FromExponents` | src/gcm/polynomial.cpp:42-51 | the coefficient of x^i is set exactly when i is in the list, whatever the order or repetitions |
| `GcmPolynomial.Polynomial.ToExponents` | src/gcm/polynomial.cpp:53-61 | exactly the exponents with a set coefficient, strictly increasing |
| `GcmPolynomial.ExponentsThenElement` | src/gcm/polynomial.cpp:42-61 | listing the exponents and reading them back gives the same element |
| `GcmPolynomial.ElementThenExponents` | src/gcm/polynomial.cpp:42-61 | reading a list and listing again keeps the elements, and returns a strictly increasing list unchanged |
| `CzPolynomial.Polynomial.EnsureNormalized` | src/gcm/cantor_zassenhaus/polynomial.cpp:98-103 | drops leading zeros and nothing else |
| `CzPolynomial.Polynomial.AddAssign` | src/gcm/cantor_zassenhaus/polynomial.cpp:12-28 | the sum, in normal form, for vectors of any two lengths with or without leading zeros |
| `CzPolynomial.Polynomial.SubAssign` | include/gcm/cantor_zassenhaus/polynomial.hpp:31-34 | subtraction is addition |
| `CzPolynomial.Polynomial.Times` | src/gcm/cantor_zassenhaus/polynomial.cpp:30-43 | the nested loops compute the product of K[X], in normal form, including empty factors |
| `CzPolynomial.Polynomial.TimesAssign` | include/gcm/cantor_zassenhaus/polynomial.hpp:58-61 | the product replaces the left operand, also when both operands are one object |
| `CzPolynomial.Polynomial.Equals` | include/gcm/cantor_zassenhaus/polynomial.hpp:63-72 | equality of coefficient vectors, so leading zeros count |
| `CzPolynomial.Polynomial.ShiftLeft` | include/gcm/cantor_zassenhaus/polynomial.hpp:84-89 | the amount is the number of zeros put in front |
| `CzPolynomial.Polynomial.EnsureMonic` | src/gcm/cantor_zassenhaus/polynomial.cpp:91-96 | the normal form divided by its leading coefficient, although that coefficient is read from the vector being changed |
| `CzPolynomial.Polynomial.DivMod` | src/gcm/cantor_zassenhaus/polynomial.cpp:45-68 | for every dividend and every divisor, also the empty one and those with leading zeros: whether the division returns, fails its assertion, throws at an empty divisor or goes on for ever; for a normal non-zero divisor quotient and remainder |
| `CzPolynomial.NormalDivisor` | src/gcm/cantor_zassenhaus/polynomial.cpp:45-68 | for a normal non-zero divisor the assertion at line 64 holds if and only if the dividend has no leading zeros or is shorter than the divisor |
| `CzPolynomial.DivisionExamples` | src/gcm/cantor_zassenhaus/polynomial.cpp:45-68 | one input for each way of not returning: [0] by [1] fails the assertion, [1] by [0] goes on for ever, [1] by [] throws |
| `CzPolynomial.DividingRound` | src/gcm/cantor_zassenhaus/polynomial.cpp:55-63 | a round shortens the remainder or changes nothing at all, and changes nothing only where the divisor has a leading zero and the dividend without its leading zeros is not shorter than it |
| `CzPolynomial.DivisionRound` | src/gcm/cantor_zassenhaus/polynomial.cpp:55-63 | each round of long division keeps q * divisor + r and strictly shortens r |
| `PolynomialDivision.DivMod` | src/gcm/cantor_zassenhaus/polynomial.cpp:45-68 | q * b + r = a with r shorter than b and both normal |
| `PolynomialDivision.DivModUnique` | src/gcm/cantor_zassenhaus/polynomial.cpp:45-68 | no other pair has these properties, for every non-zero divisor including constants |
| `CzPolynomial.Polynomial.RemAssign` | include/gcm/cantor_zassenhaus/polynomial.hpp:98-102 | the remainder replaces a normal dividend for a normal non-zero modulus; otherwise the outcome of the division decides |
| `CzPolynomial.Polynomial.Pow` | src/gcm/cantor_zassenhaus/polynomial.cpp:70-89 | for every 128-bit exponent e >= 1 the result is the remainder of base^e modulo m, fully reduced; for 0 it is one; no division inside can fail its assertion, even for a base with leading zeros |
| `PolynomialPowers.SquareStep` | src/gcm/cantor_zassenhaus/polynomial.cpp:75-87 | a round keeps out * base^exponent modulo m |
| `PolynomialRing.MulComm` | src/gcm/cantor_zassenhaus/polynomial.cpp:30-43 | the product of K[X] is commutative |
| `PolynomialRing.MulAssoc` | src/gcm/cantor_zassenhaus/polynomial.cpp:30-43 | the product of K[X] is associative |
| `PolynomialRing.MulAddLeft` | src/gcm/cantor_zassenhaus/polynomial.cpp:30-43 | the product distributes over the sum |
| `PolynomialRing.MulLead` | src/gcm/cantor_zassenhaus/polynomial.cpp:30-43 | degrees add and leading coefficients multiply: no zero divisors |
| `PolynomialRing.EvalMul` | src/gcm/cantor_zassenhaus/polynomial.cpp:30-43 | the product evaluates to the product of the values at every point |
| `Factorize.GreatestCommonDivisor` | src/gcm/cantor_zassenhaus/factorize.cpp:77-86 | for any two vectors Euclid's loop ends as the division of the longer one by the shorter one does; for normal ones it returns their Gcd and no division inside fails its assertion |
| `Factorize.GcdRound` | src/gcm/cantor_zassenhaus/factorize.cpp:79-85 | a round changes neither the outcome nor the value, and shortens the second vector |
| `PolynomialDivision.GcdDividesBoth` | src/gcm/cantor_zassenhaus/factorize.cpp:77-86 | the result divides both inputs |
| `PolynomialDivision.Bezout` | src/gcm/cantor_zassenhaus/factorize.cpp:77-86 | the result is a combination u a + v b |
| `PolynomialDivision.GcdIsGreatest` | src/gcm/cantor_zassenhaus/factorize.cpp:77-86 | every common divisor divides the result |
| `PolynomialDivision.MonicGcdUnique` | src/gcm/cantor_zassenhaus/factorize.cpp:55-56 | after ensure_monic the result is the only monic common divisor with that property |
| `Factorize.CantorZassenhaus` | src/gcm/cantor_zassenhaus/factorize.cpp:40-75 | for every random polynomial the attempt returns the split of p by the common part of p and h^e - 1, or nothing when that part is trivial; neither assertion at lines 65-67 can fire |
| `Factorize.SplitIsFactorisation` | src/gcm/cantor_zassenhaus/factorize.cpp:60-72 | for every draw: two returned factors multiply to monic p, both are monic, and both have degree at least 1 and below deg p |
| `GcmCubes.ThreeThirds` | src/gcm/cantor_zassenhaus/factorize.cpp:46-52 | three times the exponent of the attempt is 2^128 - 1 |
| `GcmCubes.CubeLaw` | src/gcm/cantor_zassenhaus/factorize.cpp:46-55 | raising an element of GF(2^128) to the exponent gives one if and only if the element is a non-zero cube |
| `SplittingDraws.ResidueAtRoot` | src/gcm/cantor_zassenhaus/factorize.cpp:46-55 | at a root of f, h^e - 1 modulo f vanishes if and only if h is a non-zero cube there |
| `SplittingDraws.SplitByCubes` | src/gcm/cantor_zassenhaus/factorize.cpp:40-75 | for every draw and every product p of distinct linear factors of f: the two returned factors are the products over the roots of p at which h is a non-zero cube and over the others, and nothing is returned if and only if one of these parts is empty |
| `SplittingDraws.SplitBetweenRoots` | src/gcm/cantor_zassenhaus/factorize.cpp:40-75 | whatever else p has for factors, a draw that is a non-zero cube at one root of p and not at another splits p |
| `SplittingDraws.CommonPartIs` | src/gcm/cantor_zassenhaus/factorize.cpp:54-58 | over any field, the common part has exactly the roots of p at which the residue vanishes |
| `RootSearch.Zeros` | src/gcm/cantor_zassenhaus/factorize.cpp:8-38 | for every tape of draws the loops compute the run of the worklist; when they return, the product of the X + z over the output is monic x; whether or not they return, there are at most deg x rounds; the assertion at line 33 holds |
| `RootSearch.RunKeepsTotal` | src/gcm/cantor_zassenhaus/factorize.cpp:15-29 | pending factors, factors of the next round and final factors always multiply to the same polynomial |
| `RootSearch.FactorisationGivesRoots` | include/gcm/cantor_zassenhaus/factorize.hpp:7-10 | any list of values whose X + z multiply to monic x contains every z as often as X + z divides x: exactly the roots, with multiplicity, deg x in all |
| `RootSearch.RunFindsRoots` | src/gcm/cantor_zassenhaus/factorize.cpp:8-38 | whenever the search returns, its output is exactly the multiset of roots: each z as often as X + z divides x, every root and nothing else, deg x values in all |
| `RootSearchProgress.ReturnsIffSplits` | include/gcm/cantor_zassenhaus/factorize.hpp:7-10 | some tape of draws makes the search return if and only if x is a product of linear factors |
| `RootSearchProgress.SplittingDraw` | src/gcm/cantor_zassenhaus/factorize.cpp:40-75 | every divisor of degree two or more of a split polynomial is split by some draw, whether it has two distinct roots or one repeated root |
| `RootSearchProgress.SeparatedRootsSplit` | src/gcm/cantor_zassenhaus/factorize.cpp:45-62 | a draw whose residue vanishes at one root of p and not at another splits p |
| `RootSearchProgress.DistinctRootsSplit` | src/gcm/cantor_zassenhaus/factorize.cpp:45-62 | for any two distinct roots, the draw that is 1 at one and 0 at the other splits p |
| `RootSearchProgress.RepeatedRootSplits` | src/gcm/cantor_zassenhaus/factorize.cpp:45-62 | X + a + 1 splits off one factor of (X + a)^2, because the exponent is odd |
| `Roots.RootIffFactor` | include/gcm/cantor_zassenhaus/factorize.hpp:7-10 | z is a root exactly when X + z divides the polynomial |
| `Roots.Multiplicity` | include/gcm/cantor_zassenhaus/factorize.hpp:7-10 | z occurs in the list of roots exactly as often as X + z divides the product |
| `Roots.RootMultisetUnique` | include/gcm/cantor_zassenhaus/factorize.hpp:7-10 | a polynomial determines the multiset of its roots |
| `GhashStream.Ghash.constructor` | src/gcm/ghash.cpp:11-25 | the padded associated data is absorbed and not counted as ciphertext |
| `GhashStream.Ghash.Update` | src/gcm/ghash.cpp:27-44 | absorbs the data whatever its length: the buffer stays below 16 bytes and the 64-bit count with the buffer accounts for every byte; after finalize it fails and changes nothing |
| `GhashStream.Ghash.PadCurrentBlock` | src/gcm/ghash.cpp:61-68 | completes the last block with zeros and takes the padding out of the count again |
| `GhashStream.Ghash.Finalize` | src/gcm/ghash.cpp:46-59 | the tag of everything fed since construction, a function of the concatenation alone and so independent of chunking; a second call fails |
| `GhashStream.HashMessage` | src/gcm/ghash.cpp:70-76 | the one-shot hash is the value of section 6.4 of NIST SP 800-38D on the blocks of section 7.1 |
| `GhashStream.TakeNext` | src/gcm/ghash.cpp:33-43 | hashing one block from the front of the buffer extends the one-shot value by that block |
| `GhashStream.FinalLength` | src/gcm/ghash.cpp:46-56 | the length written is the length of the whole ciphertext modulo 2^64, although padding was counted and uncounted |
| `GhashFunction.MessageBlocksAre` | src/gcm/ghash.cpp:46-59 | pad(A), pad(C) and the two lengths, as blocks |
| `GhashFunction.MessageLayout` | src/gcm/ghash.cpp:11-25 | the hashed message byte by byte: the associated data, zeros up to a block, the ciphertext, zeros up to a block, and the two lengths, which read back as the numbers of bits modulo 2^64 |
| `Encryptor.Encryptor.constructor` | src/gcm/encryptor.cpp:15-30 | Y0 is the nonce and a 32-bit counter at one for 12-byte nonces, and otherwise the hash of the nonce, zeros and its length in bits under the encryption of the zero block |
| `Encryptor.PreCounterIs` | src/gcm/encryptor.cpp:23-29 | the pre-counter block written out for both kinds of nonce |
| `Encryptor.NonceMessage` | src/gcm/encryptor.cpp:27-29 | hashing the nonce as ciphertext hashes IV, 0^(s+64) and the 64-bit length, as step 2 of section 7.1 of NIST SP 800-38D requires |
| `Encryptor.Encryptor.H` | src/gcm/encryptor.cpp:34-38 | the hash key is the cipher of sixteen zero bytes |
| `Encryptor.Encryptor.YBlock` | src/gcm/encryptor.cpp:40-48 | inc32 of section 6.2 of NIST SP 800-38D applied offset times to Y0 |
| `Encryptor.CounterIsIncTimes` | src/gcm/encryptor.cpp:40-48 | adding the offset to the last four bytes at once is applying inc32 offset times, wrapping in these four bytes only |
| `Encryptor.GctrIsBlockwise` | src/gcm/encryptor.cpp:50-64 | masking every byte by its position is GCTR of section 6.5 of NIST SP 800-38D, block after block from inc32(J0), with a cut last block |
| `Encryptor.Encryptor.Update` | src/gcm/encryptor.cpp:50-64 | GCTR from inc32(J0) for the first chunk, and for every later chunk GCTR continued at the number of bytes encrypted before, so the ciphertext does not depend on how the plaintext was cut |
| `Encryptor.Encryptor.Finalize` | src/gcm/encryptor.cpp:66-75 | the tag is the hash, under the encryption of the zero block, of the message bytes for the blockwise GCTR encryption of the whole plaintext, masked by the encryption of Y0, whatever the chunks; a second call fails |
| `Encryptor.GctrTwice` | src/gcm/encryptor.cpp:50-64 | update is its own inverse |
| `Encryptor.GctrSplit` | src/gcm/encryptor.cpp:50-64 | encrypting a concatenation is encrypting the parts one after the other |
| `Encryptor.CounterBlocksDistinct` | src/gcm/encryptor.cpp:40-48 | the first 2^32 - 1 keystream blocks and Y0 come from pairwise distinct counter blocks |
| `Encryptor.CounterBlockZero` | src/gcm/encryptor.cpp:40-48 | counter 0 is Y0 itself |
| `Encryptor.CounterBlockWraps` | src/gcm/encryptor.cpp:53-58 | the 32-bit counter of the object may wrap without changing any block |
| `ByteManipulation.XorInto` | src/gcm/recover.cpp:117-118 | bytewise exclusive or, written over one of the operands |
| `ByteManipulation.ReadWritten` | include/bytemanipulation.hpp:43-63 | reading what was written big-endian, for every value that fits |
| `ByteManipulation.WrittenRead` | include/bytemanipulation.hpp:43-63 | writing what was read, for every byte string |
| `ByteManipulation.BigEndianDigit` | include/bytemanipulation.hpp:43-49 | byte i from the left is the digit of 256^(n - 1 - i) |
| `ByteManipulation.XorByteBit` | src/gcm/recover.cpp:117-118 | bit by bit, one exactly where the operands differ |
| `Recover.AsGhashPolys` | src/gcm/recover.cpp:33-59 | exactly the blocks that GHASH hashes for the same message |
| `Recover.GenPoly` | src/gcm/recover.cpp:61-90 | the tag polynomial, not normalised, for messages of different lengths |
| `Recover.TagPolyEval` | src/gcm/recover.cpp:61-90 | its value at every h is tag1 + tag2 + GHASH_h(msg1) + GHASH_h(msg2) |
| `Recover.HashIsEval` | src/gcm/ghash.cpp:27-44 | the running hash is the value at h of the polynomial with the last block at h^1 |
| `Recover.KeyIsRoot` | src/gcm/recover.cpp:61-90 | equal masks cancel: the hash key is a root |
| `Recover.GenAuthTagMask` | src/gcm/recover.cpp:112-120 | the tag with the hash taken off |
| `Recover.GenAuthTag` | src/gcm/recover.cpp:92-110 | the tag of a message under a candidate key and the mask of msg1 |
| `Recover.SharedMask` | src/gcm/recover.cpp:92-120 | under the true key it is the true tag of every message with the same mask |
| `Recover.RecoverAuthTag` | src/gcm/recover.cpp:13-31 | the last candidate consistent with msg3 gives the result; without one the assertion fails; the search may still be waiting for a draw |
| `Recover.OnlyInconsistentDiscarded` | src/gcm/recover.cpp:22-27 | the pop loop never discards a candidate that reproduces the tag of msg3, and fails only if there is none |
| `Recover.KeyIsCandidate` | src/gcm/recover.cpp:13-31 | for messages tagged under one cipher and nonce the hash key survives among the candidates, so the assertion at line 27 holds |
| `Recover.RecoveryIsCorrect` | src/gcm/recover.cpp:13-31 | if moreover no other root reproduces the tag of msg3, the result is the true tag of msg4 |
| `BytenigmaMachine.Bytenigma.constructor` | src/bytenigma.cpp:7-12 | all rotors at position 0 and the inverse tables filled |
| `BytenigmaMachine.Bytenigma.CalculateInverseRotors` | src/bytenigma.cpp:71-80 | each table is built entry by entry, later entries winning |
| `RotorMachine.InverseUndoes` | include/bytenigma.hpp:77-79 | for a rotor without repetitions the table is its inverse on both sides |
| `BytenigmaMachine.Bytenigma.ForwardPass` | src/bytenigma.cpp:31-38 | first rotor to last, each shifted by its position |
| `BytenigmaMachine.Bytenigma.BackwardPass` | src/bytenigma.cpp:40-55 | last rotor to first through the inverse tables, with wrap-around |
| `BytenigmaMachine.Bytenigma.TurnRotor` | src/bytenigma.cpp:57-69 | the recursive carry turns exactly a prefix of the rotors from index on |
| `BytenigmaMachine.Bytenigma.ProcessByte` | src/bytenigma.cpp:14-20 | one byte at the old positions, then one turn; a machine without rotors throws and stays as it is |
| `BytenigmaMachine.Bytenigma.ProcessBytes` | src/bytenigma.cpp:22-29 | byte k of a message meets the positions after k turns, whatever the bytes before it |
| `RotorMachine.PassesInverse` | src/bytenigma.cpp:31-55 | the passes are inverse to each other at every position vector |
| `RotorMachine.CryptIsInvolution` | docs/bytenigma/security.md:20-25 | encrypting twice gives the byte back, and no byte encrypts to itself |
| `RotorMachine.MessageRoundTrip` | src/bytenigma.cpp:22-29 | two machines in equal states undo each other on messages of any length, and no byte of a message encrypts to itself |
| `RotorPeriod.TurnCountsOne` | src/bytenigma.cpp:57-69 | every turn adds one to an odometer in base 256 whose digits are offset by where each rotor carries |
| `RotorPeriod.PeriodIsExact` | src/bytenigma.cpp:57-69 | from every position vector, two times show the same positions exactly when they agree modulo 256^n |
| `RotorPeriod.AllVisited` | src/bytenigma.cpp:57-69 | every position vector is visited within one period |
| `RotorPeriod.PositionsAre` | src/bytenigma.cpp:57-69 | the position of rotor i is the number of its turns modulo 256 |
| `RotorPeriod.TurnRate` | src/bytenigma.cpp:57-69 | in 256^i * k bytes rotor i moves exactly k times |
| `RotorPeriod.DocumentedRate` | docs/bytenigma/security.md:16 | one turn in 2^i bytes is the rate of rotor i if and only if i = 0 |
| `RotorWeaknesses.LastRotorComplement` | docs/bytenigma/security.md:9 | complementing the last rotor changes no byte at any position vector |
| `RotorWeaknesses.EquivalentKeys` | docs/bytenigma/security.md:9 | so two different keys give one machine, on every message |
| `RotorWeaknesses.TurnedRotorsSuffice` | docs/bytenigma/security.md:16 | while the rotors behind some rotor stand still, a machine without them, that rotor taking in their mapping, encrypts the message alike |
| `RotorWeaknesses.LinearMachine` | docs/bytenigma/security.md:56-88 | linear rotors, however many, reflect the byte: 255 - x minus twice the sum of offsets and positions |
| `RotorWeaknesses.LinearPattern` | docs/bytenigma/security.md:56-88 | the same byte comes out two lower after the first rotor alone has turned |
| `RotorWeaknesses.CountdownBreaks` | docs/bytenigma/security.md:94-100 | for input bytes counting down the output counts down too, and breaks off exactly where the second rotor turns and the machine behind the first rotor then treats its constant input differently |
| `RotorWeaknesses.BreakFindsZero` | docs/bytenigma/security.md:100-121 | in a fresh machine a break within 256 bytes is at the index of the 0 of the first rotor |
| `RotorWeaknesses.CountdownMayGoOn` | docs/bytenigma/security.md:100 | two concrete rotors where the second one turns and the countdown goes on |
| `PaddingOracleServer.Decrypt` | src/padding_oracle/server.cpp:31-39 | bytewise q, ciphertext and key |
| `PaddingOracleServer.DecryptedByte` | src/padding_oracle/server.cpp:31-39 | byte i is the exclusive or of the bytes i of query, ciphertext and key |
| `PaddingOracleServer.ValidatePadding` | src/padding_oracle/server.cpp:41-51 | true if and only if for some n from 1 to 16 the block ends in n copies of the byte n |
| `PaddingOracleServer.Conversation` | src/padding_oracle/server.cpp:6-29 | after a block, a little-endian count and that many queries the server has answered every query, by 1 exactly where the decrypted query ends in n copies of the byte n for some n from 1 to 16, and waits for the next count |
| `PaddingOracleServer.HandleClient` | src/padding_oracle/server.cpp:6-29 | the loop answers exactly the queries counted and stops in the read it cannot satisfy or at the count 0, on every byte stream |
| `PaddingOracleServer.DrainMore` | src/padding_oracle/server.cpp:6-29 | input that arrives later never changes what was done with the input before |
| `PaddingOracleAttack.Connection.ServerMoves` | src/padding_oracle/server.cpp:6-29 | whenever and however far the server moves, the conversation is the same |
| `PaddingOracleAttack.Connection.Write` | include/tcp/communicator.hpp:68-82 | the conversation is extended by exactly what the server makes of the new bytes |
| `PaddingOracleAttack.Connection.Read` | include/tcp/communicator.hpp:46-61 | the replies in order; it waits for ever exactly when the server will never send as many |
| `PaddingOracleAttack.OneCandidate` | src/padding_oracle/attack.cpp:64-85 | before the last byte exactly one of the 256 candidates pads correctly |
| `PaddingOracleAttack.LastByte` | src/padding_oracle/attack.cpp:84-97 | for the last byte the right candidate passes both checks, and a second one that pads correctly is rejected by the 0xff query |
| `PaddingOracleAttack.OnlyTheAnswerPasses` | src/padding_oracle/attack.cpp:82-101 | a candidate is returned exactly when it is the right one |
| `PaddingOracleAttack.Attack.RecoverByte` | src/padding_oracle/attack.cpp:57-102 | returns the byte of D(C), never throws, and leaves client and server in step |
| `PaddingOracleAttack.Attack.RecoverRawBlock` | src/padding_oracle/attack.cpp:43-55 | returns ciphertext xor key for every key and block; at the end the server has closed with nothing unread on either side |
| `PaddingOracleAttack.Attack.RecoverBlock` | src/padding_oracle/attack.cpp:32-41 | D(C) xor the previous block |
| `PaddingOracleAttack.Attack.RecoverPlaintext` | src/padding_oracle/attack.cpp:9-30 | CBC decryption for every IV and every non-empty ciphertext of whole blocks; an error otherwise |
| `PaddingOracleAttack.CbcRoundTrip` | src/padding_oracle/attack.cpp:9-41 | CBC decryption gives back what was encrypted |
| `PaddingOracleAttack.CbcDecryptedByte` | src/padding_oracle/attack.cpp:9-41 | every byte of the result is the byte of the ciphertext, the byte of the key and the byte one block earlier, or of the IV, combined |
| `Base64.LookupCases` | external/cppcodec/detail/stream_codec.hpp:264-314 | the lookup inverts the alphabet and maps NUL, the padding character and everything else to three stop marks |
| `Base64.AlphabetIs` | external/cppcodec/base64_rfc4648.hpp:34-40 | index i stands for character i of table 1 of RFC 4648, and the lookup of that character is i |
| `Base64.InAlphabetIs` | external/cppcodec/detail/stream_codec.hpp:264-314 | a character has an index exactly when it is in that table |
| `Base64.Encode` | external/cppcodec/detail/stream_codec.hpp:116-150 | blocks of three bytes, then a padded tail; the length is encoded_size |
| `Base64.EncodedDigits` | external/cppcodec/detail/base64.hpp:57-105 | character j of the result is the character of table 1 for the six bits from bit 6j of the input on, zero bits following the last byte, and padding behind the last bit |
| `Base64.EncodedLength` | external/cppcodec/detail/stream_codec.hpp:406-422 | encoded_size is the exact length of every encoding, a multiple of four |
| `Base64.Decode` | external/cppcodec/detail/stream_codec.hpp:320-404 | the state machine over a four-slot buffer computes the block-wise reading of the input, with its three errors, and never leaves the buffer on any input |
| `Base64.DecodedDigits` | external/cppcodec/detail/base64.hpp:70-127 | byte i of the result is the eight bits from bit 8i on in the characters' places in table 1 |
| `Base64.DecodedCount` | external/cppcodec/detail/stream_codec.hpp:320-404 | three bytes for every four characters before the end, less one for each padding character |
| `Base64.DecodedErrors` | external/cppcodec/detail/stream_codec.hpp:352-404 | which error it is: the first foreign character, a lone padded symbol, or wrong padding |
| `Base64.ReadBlocks` | external/cppcodec/detail/stream_codec.hpp:337-353 | full blocks are decoded as they complete; what is left is at most three symbols and the end or a stop character |
| `Base64.ReadPadding` | external/cppcodec/detail/stream_codec.hpp:371-386 | counting padding past the buffer's end is detected before any access |
| `Base64.BlockRoundTrip` | external/cppcodec/detail/base64.hpp:57-107 | four six-bit indices give the three bytes back |
| `Base64.TailRoundTrip` | external/cppcodec/detail/base64.hpp:70-127 | one or two bytes left over come back from two or three symbols |
| `Base64.DecodeEncoded` | external/cppcodec/detail/stream_codec.hpp:116-404 | decode(encode(x)) = x for every byte string |
| `Base64.DecodedFits` | external/cppcodec/detail/stream_codec.hpp:424-434 | decoded_max_size bounds every successful decoding |
| `Base64.MaxSizeReached` | external/cppcodec/detail/stream_codec.hpp:424-434 | for every multiple of four some input reaches that bound |
| `Base64.AcceptsIffWellFormed` | external/cppcodec/detail/stream_codec.hpp:320-404 | decoding succeeds if and only if the input, up to a NUL if there is one, consists of blocks of four symbols with the last one possibly padded (section 4 of RFC 4648) |
| `Base64.ReencodesIffZeroTailBits` | external/cppcodec/detail/base64.hpp:109-127 | encoding what was decoded gives the input back if and only if the unused bits of its last symbol are zero |
| `Base64.DecodingIsNotInjective` | external/cppcodec/detail/base64.hpp:109-127 | two inputs with one result, so the condition is needed |

## Left out

- RootSearch.Zeros: does not state how likely a draw is to split a factor, or that the retry loop ends; a run on a finite tape of draws returns or is still waiting, and RootSearchProgress.ReturnsIffSplits says when some tape suffices.
- CzPolynomial.Polynomial.Pow: requires a normal non-zero modulus, as every caller has; other moduli end as the divisions inside do.
- RootSearch.Run: requires degree at least 1; for a constant the program asks for a random polynomial of degree 0 - 1 in unsigned arithmetic and does not come back.
- PaddingOracleServer.ValidatePadding: a count above 16 makes the program read in front of the block; the model calls such blocks invalid.
- BytenigmaMachine.Bytenigma.constructor: rotors have 256 entries, as the class documentation demands; other sizes are not modelled.
- Encryptor.Encryptor.Update: the cipher is an arbitrary function on 16-byte blocks; AES itself and the check of the block size are not modelled.
- GhashStream.Ghash.Update: the tag is a value of GF(2^128) updated with the operations proved for GcmPolynomial.Polynomial, not a nested object of that class.
- PaddingOracleAttack.Connection.Read: sockets, forking and partial reads are replaced by two byte queues with an arbitrary schedule of the server.
- Base64.Symbol: the alphabet table and the compile-time lookup table are given by character ranges and by the search that fills the table; the other alphabets and codecs of the library are not modelled.
- Copying of polynomials behind const references and the memory layout of registers are modelled by values only.
- JSON parsing, actions, command line, logging to standard error and the endianness helpers are plumbing without a property of their own.
- The quality of the random generators is not modelled; every property holds for every draw.
