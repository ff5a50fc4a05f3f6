# Ed301-EdDSA: a verified model

A Dafny model of the Ed301-EdDSA signature stack: the prime field, the scalars modulo the subgroup order L, the
inversion-free twisted Edwards arithmetic on `a*x^2 + y^2 = 1 + d*x^2*y^2`, the 38-byte point codec, key derivation,
deterministic signing and cofactored verification. `dafny verify dfyconfig.toml` checks all of it.

| file | contents |
|---|---|
| `Modular.dfy`, `Fermat.dfy`, `Bytes.dfy` | congruence and inverses modulo a prime; Fermat's little theorem; little-endian integers, words and bits |
| `Field.dfy`, `Scalar.dfy` | `field.rs` and `scalar.rs` |
| `EdwardsAlgebra.dfy`, `EdwardsCurve.dfy`, `EdwardsGroup.dfy`, `Multiples.dfy` | the affine curve as a reference: completeness, the group laws, integer multiples, points of small and of prime order |
| `Edwards.dfy`, `ScalarMul.dfy`, `PointCodec.dfy` | `edwards.rs`: extended points refine affine points, the multiplier refines `[n]P`, the codec is a bijection |
| `Signature.dfy`, `Signing.dfy` | `signature.rs` and the transcripts of `signature_hash.rs` |
| `Ed301.dfy` | the published constants |

The code is pure arithmetic in most places and a loop over a buffer in a few. The loops and the in-place patches are
methods (`ScalarMulWith`, `EncodeInner`, `DecodePoint`, `ReduceWords`, `ReducePrunedLe`, `ReduceHashLe`,
`WriteCanonicalBytes`, `Derive`, `SignExpanded`, `SignWithKey`, `VerifyingKeyOfSeed`, `Sign`), each proved equal to a specification function; everything
else is a function. A point `(X:Y:Z:T)` means the affine point `(X/Z, Y/Z)`; `Denotes` says so without division.

The theorems are stated for any prime p, any square `a`, any nonsquare `d`, any odd prime order of 300 bits and any
base point of that order, and `Ed301.SuiteSound` instantiates them. SHAKE256 is an arbitrary total function from byte
strings to 76 bytes. Three facts cannot be read off the constants and are hypotheses, gathered in `Ed301.Certified`: p is
prime, L is prime, and `[L]B` is the identity. That `d` is a nonsquare, that the base point lies on the curve, and
associativity of the group law are proved.

Field and scalar elements are integers below their modulus, with exact arithmetic. A product in a definition is written
`Product(x, y)`, which is `x * y` defined by repeated addition (`Modular.ProductIsMul`), and a residue `Reduce(m, a)`,
which is `a % m` (`Modular.ReduceIsMod`), so that proofs choose when to reason about multiplication and remainders.

## Model

| member | source | states |
|---|---|---|
| EdwardsCurve.DeltaNotUnit | crates/ed301-eddsa/src/edwards.rs:1-5 | `d*x1*x2*y1*y2` is never 1 or -1 for two solutions of the curve equation, when `a` is a square and `d` is not: the reason why the formulas have no exceptional cases |
| EdwardsCurve.DenominatorsInvertible | crates/ed301-eddsa/src/edwards.rs:3-5 | both denominators of the affine law are invertible for every pair of solutions |
| EdwardsGroup.WrittenLaw | crates/ed301-eddsa/src/edwards.rs:1-5 | curve equation and affine sum written out as equations modulo p, which tie the reference definitions to a*x^2 + y^2 = 1 + d*x^2*y^2 |
| EdwardsGroup.Closure | crates/ed301-eddsa/src/edwards.rs:95-112 | the affine sum of two curve points is a curve point |
| EdwardsGroup.Commutative | crates/ed301-eddsa/src/edwards.rs:95-112 | the affine sum does not depend on the order of its operands |
| EdwardsGroup.NeutralRight | crates/ed301-eddsa/src/edwards.rs:52-58 | (0, 1) is neutral |
| EdwardsGroup.InverseRight | crates/ed301-eddsa/src/edwards.rs:133-141 | (-x, y) is the inverse of (x, y) |
| EdwardsGroup.SubtractAdd | crates/ed301-eddsa/src/edwards.rs:133-141 | adding a point and then its negation gives the other operand back |
| EdwardsGroup.DifferenceInvariant | crates/ed301-eddsa/src/edwards.rs:95-112 | translating two points by a third leaves their difference unchanged (the polynomial identity from which associativity follows) |
| EdwardsGroup.Associative | crates/ed301-eddsa/src/edwards.rs:95-112 | the affine law is associative, proved and not assumed, so the curve points form a group |
| Edwards.AddRefines | crates/ed301-eddsa/src/edwards.rs:95-112 | the inversion-free addition of two representatives represents the affine sum |
| Edwards.AddComplete | crates/ed301-eddsa/src/edwards.rs:95-112 | for any two valid points, equal, opposite and identity included, `add` returns a valid point whose affine value is the sum of theirs |
| Edwards.DoubleRefines | crates/ed301-eddsa/src/edwards.rs:114-131 | the dedicated doubling, from X, Y and Z only, represents the affine sum of the point with itself |
| Edwards.DoubleAgreesWithAdd | crates/ed301-eddsa/src/edwards.rs:114-131 | on every valid point doubling keeps validity, is `ct_eq` to `add(P, P)`, and does not depend on T |
| Edwards.NegateRefines | crates/ed301-eddsa/src/edwards.rs:133-141 | `negate` represents the affine inverse |
| Edwards.CtEqDecides | crates/ed301-eddsa/src/edwards.rs:289-295 | `ct_eq` holds exactly when the affine points are equal, whatever the two Z are |
| Edwards.IsIdentityDecides | crates/ed301-eddsa/src/edwards.rs:269-272 | `is_identity` holds exactly for representatives of (0, 1), so not for (0, -1) |
| Edwards.ValidDenotes | crates/ed301-eddsa/src/edwards.rs:297-310 | `is_valid` accepts exactly the quadruples with Z nonzero and XY = ZT that represent a curve point |
| Edwards.GroupLawsOnValidPoints | crates/ed301-eddsa/src/edwards.rs:95-141 | identity, inverse and commutativity on all valid points, as `ct_eq` and `is_identity` report them |
| Multiples.TimesAdd | crates/ed301-eddsa/src/edwards.rs:163-176 | [m + n]P = [m]P + [n]P |
| Multiples.TimesTimes | crates/ed301-eddsa/src/edwards.rs:284-287 | [m*n]P = [m]([n]P) |
| Multiples.TimesSum | crates/ed301-eddsa/src/edwards.rs:284-287 | [n](P + Q) = [n]P + [n]Q |
| Multiples.TimesReduced | crates/ed301-eddsa/src/edwards.rs:154-161 | multiples of a point with [L]P = O depend on the multiplier modulo L only |
| Multiples.ExactOrder | crates/ed301-eddsa/src/edwards.rs:274-282 | a nonidentity point with [L]P = O, L prime, has [n]P = O exactly when L divides n |
| Multiples.TimesInjective | crates/ed301-eddsa/src/edwards.rs:274-282 | for such a point [m]P = [n]P exactly when m and n are congruent modulo L |
| Multiples.TwoTorsion | crates/ed301-eddsa/src/edwards.rs:269-272 | P + P = O exactly when x = 0 |
| Multiples.FourTorsion | crates/ed301-eddsa/src/edwards.rs:284-287 | [4]P = O exactly when a coordinate of P is zero: what multiplication by the cofactor removes |
| Multiples.AxisPoints | crates/ed301-eddsa/src/edwards.rs:284-287 | these points are four distinct ones: (0, 1), (0, -1) and two points (b, 0), (-b, 0) |
| ScalarMul.LadderDenotes | crates/ed301-eddsa/src/edwards.rs:163-176 | for any round count and any bit source, the accumulator after each round represents [n >> i]P, with n the integer of the supplied bits |
| ScalarMul.ScalarMulWith | crates/ed301-eddsa/src/edwards.rs:163-176 | the 301-round loop ends with the accumulator of that recursion, hence with [n]P |
| ScalarMul.ScalarMulDenotes | crates/ed301-eddsa/src/edwards.rs:143-146 | multiplying by a scalar below 2^301 through its bits gives [s]P |
| ScalarMul.ScalarMulEncodedDenotes | crates/ed301-eddsa/src/edwards.rs:148-161 | multiplying by 38 bytes read bit by bit gives [s]P for their little-endian integer s, not reduced modulo L |
| Bytes.BitOfLeInt | crates/ed301-eddsa/src/edwards.rs:148-152 | bit i of the little-endian integer is bit i mod 8 of byte i div 8 |
| Bytes.TopBitsOfInt | crates/ed301-eddsa/src/scalar.rs:142-146 | reading the bits of an integer from the top down rebuilds the integer |
| ScalarMul.CofactorDenotes | crates/ed301-eddsa/src/edwards.rs:284-287 | two doublings give [4]P |
| ScalarMul.SubgroupDecides | crates/ed301-eddsa/src/edwards.rs:274-282 | `is_prime_subgroup` holds exactly when [L]P = O, and the nonidentity form exactly when moreover P is not O |
| PointCodec.EncodeInner | crates/ed301-eddsa/src/edwards.rs:190-216 | encoding succeeds exactly on valid points, and returns the bytes of y with the parity of x in the top bit |
| PointCodec.DecodePoint | crates/ed301-eddsa/src/edwards.rs:223-256 | the decoder with its masked local copy computes the specification function `Decode` |
| PointCodec.DecodeOfEncode | crates/ed301-eddsa/src/edwards.rs:223-256 | the encoding of every curve point decodes to the extended form of that point |
| PointCodec.EncodeOfDecode | crates/ed301-eddsa/src/edwards.rs:223-256 | whatever decodes is valid, lies on the curve, and encodes to the input bytes |
| PointCodec.DecodeAccepts | crates/ed301-eddsa/src/edwards.rs:218-256 | decoding accepts exactly the encodings of curve points |
| PointCodec.DecodeRejects | crates/ed301-eddsa/src/edwards.rs:223-256 | the rejections are exactly: a reserved bit, y at least p, no x for this y, negative zero; the zero denominator and the last validity check never reject |
| PointCodec.DenominatorNonzero | crates/ed301-eddsa/src/edwards.rs:235-239 | a - d*y^2 is never zero |
| PointCodec.RecoveredSquareCorrect | crates/ed301-eddsa/src/edwards.rs:234-240 | (x, y) satisfies the curve equation exactly when x^2 is the recovered square |
| PointCodec.EncodeInjective | crates/ed301-eddsa/src/edwards.rs:178-216 | different curve points have different encodings |
| PointCodec.EncodeIsCanonical | crates/ed301-eddsa/src/edwards.rs:190-216 | valid points encode to the same bytes exactly when `ct_eq` holds, whatever their Z; decoding the encoding of P gives a point `ct_eq` to P |
| Fermat.FermatLittle | crates/ed301-eddsa/src/field.rs:14-23 | a^(p-1) = 1 for a not divisible by the prime p |
| Fermat.FixedExponentRoot | crates/ed301-eddsa/src/field.rs:14-23 | for a prime p = 3 (mod 4), n^((p+1)/4) squares to n exactly when n is a square |
| Field.SqrtCorrect | crates/ed301-eddsa/src/field.rs:120-131 | `sqrt` is present exactly for the squares, and its value squares back to the input |
| Field.SqrtPrincipal | crates/ed301-eddsa/src/field.rs:120-131 | of the two roots `sqrt` returns the one that is itself a square, and no other |
| Field.InvertCorrect | crates/ed301-eddsa/src/field.rs:115-118 | `invert` is absent exactly for zero, and otherwise the product with the input is one |
| Field.CodecRoundTrip | crates/ed301-eddsa/src/field.rs:52-63 | parsing accepts exactly the integers below p, and writing an accepted element gives the input bytes |
| Field.EncodeRoundTrip | crates/ed301-eddsa/src/field.rs:81-87 | writing an element and parsing it gives the element |
| Field.FirstByteParity | crates/ed301-eddsa/src/field.rs:133-140 | the low bit of the first byte is the parity of the canonical representative |
| Field.NegFlipsParity | crates/ed301-eddsa/src/field.rs:99-103 | negation flips the parity of a nonzero element |
| Field.RootsAreNegatives | crates/ed301-eddsa/src/field.rs:14-15 | a square has no roots besides r and -r |
| Scalar.ReduceWords | crates/ed301-eddsa/src/scalar.rs:88-100 | word-wise Horner reduction of any number of words returns their integer modulo L |
| Scalar.ReducePrunedLe | crates/ed301-eddsa/src/scalar.rs:50-65 | 38 bytes are reduced as their little-endian integer; the top word holds six bytes |
| Scalar.ReduceHashLe | crates/ed301-eddsa/src/scalar.rs:67-86 | 76 bytes likewise; the top word holds four bytes |
| Scalar.WordsOfBytesInt | crates/ed301-eddsa/src/scalar.rs:54-64 | packing bytes into 64-bit words keeps the integer, also with a short last word |
| Scalar.WriteCanonicalBytes | crates/ed301-eddsa/src/scalar.rs:110-127 | the chunked writer fills the caller's buffer with the 38 little-endian bytes of the scalar, the last chunk cut |
| Scalar.ParseThenWrite | crates/ed301-eddsa/src/scalar.rs:44-48 | parsing accepts exactly the integers below L, and writing an accepted scalar gives the input bytes |
| Scalar.WriteThenParse | crates/ed301-eddsa/src/scalar.rs:161-167 | writing a scalar below L and parsing it returns it |
| Signature.KeyParsing | crates/ed301-eddsa/src/signature.rs:69-79 | key parsing accepts exactly the encodings of nonidentity curve points with [L]A = O, and returns that point; every other string, of any length, gives InvalidPublicKey |
| Signature.SignatureParsing | crates/ed301-eddsa/src/signature.rs:118-139 | whatever parses is the encoding of a curve point followed by the bytes of a scalar below L |
| Signature.SignatureOfParts | crates/ed301-eddsa/src/signature.rs:118-139 | every such string parses, to these parts |
| Signature.SignatureRejection | crates/ed301-eddsa/src/signature.rs:118-139 | every string that is not an encoded curve point followed by a scalar below L gives InvalidSignature |
| Signature.ParsedSignatureFaithful | crates/ed301-eddsa/src/signature.rs:118-139 | re-encoding the parsed commitment and response gives the 76 input bytes |
| Signature.VerifyParsedDecides | crates/ed301-eddsa/src/signature.rs:89-100 | the verdict is [4S]B = [4]R + [4k]A with k the unreduced 608-bit integer of H(R followed by A followed by M) |
| Signature.ChallengeReduced | crates/ed301-eddsa/src/signature.rs:90-91 | that equation holds for k exactly when it holds for k mod L |
| Signature.VerifyAccepts | crates/ed301-eddsa/src/signature.rs:160-172 | from bytes to verdict: the accepted triples are exactly those of a nonidentity curve point A with [L]A = O, a curve point R and S below L with [4S]B = [4]R + [4k]A, k being the integer of H(R, A, M) |
| Signature.TorsionInvariance | crates/ed301-eddsa/src/signature.rs:92-99 | for a fixed challenge the verdict is the same for R and R + T with [4]T = O |
| Signature.AcceptedCommitments | crates/ed301-eddsa/src/signature.rs:92-99 | for fixed S, k and A the commitments that satisfy the equation are exactly [S]B - [k]A + T, with T one of the four points on the axes |
| Signature.ResponseDetermined | crates/ed301-eddsa/src/signature.rs:92-99 | for fixed R, k and A at most one S below L satisfies the equation |
| Signature.ResponseUnique | crates/ed301-eddsa/src/signature.rs:89-100 | two accepted signatures with the same commitment bytes, for one key and message, are the same 76 bytes |
| Signing.PrunedBits | crates/ed301-eddsa/src/signature.rs:230-232 | pruning clears bits 0, 1 and everything above 300, sets bit 300 and keeps bits 2 to 299 |
| Signing.PrunedInteger | crates/ed301-eddsa/src/signature.rs:230-232 | as an integer the pruned bytes are 2^300 + 4*((m / 4) mod 2^298), m being the integer of the 38 input bytes |
| Signing.SecretRange | crates/ed301-eddsa/src/signature.rs:230-232 | 2^300 <= s < 2^301 and 4 divides s |
| Signing.NotMultipleOfOrder | crates/ed301-eddsa/src/signature.rs:239-244 | no such integer is a multiple of an odd L between 2^299 and 2^300 |
| Signing.PublicPointValid | crates/ed301-eddsa/src/signature.rs:239-244 | the derived public point is never the identity and lies in the prime subgroup |
| Signing.SecretPathsAgree | crates/ed301-eddsa/src/signature.rs:236-239 | [s]B from the unreduced bytes equals [s mod L]B |
| Signing.Derive | crates/ed301-eddsa/src/signature.rs:227-257 | derivation never fails; with n the pruned integer of the first 38 bytes of H(seed) it returns n mod L, the last 38 bytes of H(seed) as prefix, and the encoding of [n]B |
| Signing.CommitmentChecks | crates/ed301-eddsa/src/signature.rs:177-188 | the commitment computed from the nonce passes its self-check and encodes |
| Signing.SerializedChecks | crates/ed301-eddsa/src/signature.rs:205-216 | the assembled bytes pass parsing, the second subgroup check, key parsing and verification |
| Signing.ResponseAgrees | crates/ed301-eddsa/src/signature.rs:193-194 | the response from reduced scalars is (r + k*s) mod L for the unreduced k and s |
| Signing.WrittenRule | crates/ed301-eddsa/src/signature.rs:174-200 | key and signature bytes written out over the hash alone: n from H(seed), r the unreduced integer of H(prefix, M), R = [r]B, k the integer of H(R, A, M), S = (r + k*n) mod L |
| Signing.EquationHolds | crates/ed301-eddsa/src/signature.rs:92-99 | R = [r]B, A = [n]B and S = (r + k*n) mod L satisfy the cofactored equation |
| Signing.SignatureVerifies | crates/ed301-eddsa/src/signature.rs:162-172 | `verify` accepts the signature bytes of every seed, message and hash function under the derived key |
| Signing.SignExpanded | crates/ed301-eddsa/src/signature.rs:174-218 | no self-check fails; from the expanded secret alone, with r the unreduced integer of H(prefix, M), the bytes are the encoding of [r]B and then (r + k*s) mod L, and the key parsed from the public key bytes accepts the result |
| Signing.VerifyingKeyOfSeed | crates/ed301-eddsa/src/signature.rs:36-51 | a 38-byte seed always yields the key of [n]B: its encoding and its point, which is nonidentity, has [L]A = O and is what parsing the encoding returns; any other length is InvalidSeedLength |
| Signing.DerivedKeyParses | crates/ed301-eddsa/src/signature.rs:49-50 | the encoding of [n]B passes full key validation and parses to that very point |
| Signing.SignWithKey | crates/ed301-eddsa/src/signature.rs:53-57 | signing with a key never fails, its result is the parsed form of its own bytes, and the verifying key of the same seed accepts it |
| Signing.Sign | crates/ed301-eddsa/src/signature.rs:148-152 | signing fails for a wrong seed length only; the 76 bytes are spelled out over H(seed), H(prefix, M) and H(R, A, M), and `verify` accepts them under the encoding of [n]B |
| Ed301.FieldConstants | crates/ed301-eddsa/src/field.rs:14-39 | p = 2^301 - 2^99 + 947 = 3 (mod 4), the exponent is (p+1)/4, a = 45677^2 and d = 301, as placed in the suite |
| Ed301.OrderConstants | crates/ed301-eddsa/src/edwards.rs:32-36 | L is 2^299 plus the published 129-bit number, odd, and the integer of the byte constant, as placed in the suite |
| Ed301.CurveComplete | crates/ed301-eddsa/src/edwards.rs:3-5 | a is a square and d = 301 is not, given that p is prime: a root of -301 is exhibited |
| Ed301.BaseOnCurve | crates/ed301-eddsa/src/edwards.rs:60-84 | the base point words satisfy the curve equation, differ from the identity, and T = X*Y |
| Ed301.BasePointCodec | crates/ed301-eddsa/src/edwards.rs:25-30 | the base point of the suite encodes to the 38 published bytes, and these decode to it |
| Ed301.SuiteSound | crates/ed301-eddsa/src/edwards.rs:60-84 | the published constants meet every condition of the theorems above, given the three certificates, and the base point is the one of the published encoding |
| Ed301.SignThenVerify | crates/ed301-eddsa/src/signature.rs:148-172 | sign-then-verify for the published constants |

## Left out

- The Montgomery form, `add_mod`, the inversion algorithm and bounded exponentiation of `crypto-bigint`: library code, modelled as exact arithmetic modulo p or L (`invert` is the least q with q*x = 1, `sqrt` is a power).
- The Keccak permutation and the sponge of SHAKE256: any function from the concatenated inputs to 76 bytes takes their place.
- Primality of p and of L, and `[L]B` being the identity: external certificates, hypotheses of `Ed301.SuiteSound` and `Ed301.SignThenVerify`. The number of points of the curve is not needed.
- Constant-time selection, zeroization, the `Secret` wrappers, `declassify` and the test failpoints: not functional. `declassify` changes no value, so the two encoding entry points are one method.
- In-place update of points: the accumulator of the multiplier is a local variable and points are copied values in the code, so points are a datatype and the selectors are functions. Byte buffers are arrays, but none is shared with a caller except the output of `WriteCanonicalBytes`.
- `to_bytes`, `SigningKey::from_seed` apart from the length check, `conditional_swap` and `Default`: accessors and wrappers without a property of their own.
- Vector tests, JSON fixtures, the Valgrind client, build scripts and the C interface: finite checks and foreign calls.
- Unforgeability and every other computational claim: not a property of the functions.
