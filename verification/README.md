# X301 and Ed301 verified core

This project models the core of X301 and Ed301 in Dafny and proves what that core is for.

- **Field.** Five 64-bit limbs modulo p = 2^301 - 2^99 + 947: exact products and squares, the two-fold reduction, the
  lazy [0, 2p) and loose [0, 4p) domains, byte encodings (`Words`, `LimbArithmetic`, `Reduction`, `FieldElements`,
  `Canonicalization`).
- **Ladder.** The optimized Montgomery ladder, with its peeled top bit, its scaled doublings and its two final
  doublings, refines the 301-round reference ladder, and the byte-level functions agree (`LadderSpec`, `X301Core`,
  `ReferenceImplementation`).
- **Group.** Signed radix-16, wNAF, Straus interleaving, the fixed-base table, the two prime-order schedules, and
  signing and verification, in any abelian group (`Groups`, `Recoding`, `FixedBase`, `Straus`, `Schedules`,
  `ScalarField`, `Signature`).
- **Curve.** The complete Edwards formulas as identities modulo p, their completeness, batch normalization, the map to
  the Montgomery line, the curve as one of those groups, and the fixed-base public key and the verifier on limb points
  (`EdwardsFormulas`, `EdwardsComplete`, `EdwardsPoints`, `MontgomeryMap`, `CurveGroup`, `ProjectivePoints`,
  `LadderOnCurve`, `PublicKeys`, `PublicKeyDerivation`, `CurveBackend`, `StrausPoints`, `CurveSignature`).
- **State machines.** The TLS KeyShare rewriter, the provider's key and exchange objects, and the hybrid KEM
  (`KeyShare`, `ClientHello`, `KeyObjects`, `HybridKem`).

`dafny verify dfyconfig.toml` checks all of it.

## Hypotheses

No result assumes anything globally. What a result takes from outside the code it states as a precondition, or in front
of an implication:

- `PrimeField()`: every nonzero residue modulo p is invertible, that is, p is prime.
- `NonSquare(EDWARDS_D)`: 301 is not a square modulo p.
- `CurveFacts()`: both of these, and that the addition of curve points associates. Commutativity, the identity and
  inverses are proved. The rows below call it "the curve facts".
- `IsAbelianGroup(g)` and `HasOrder(g, base, L)`: the group the scalar-multiplication results are about and the order of
  its base. Z_L x Z_4 is proved to meet both, and the curve meets the first given the curve facts. L need not be prime.
- `ValidSuite(s)`: an abelian group, a base of order L, and a point decoder that inverts the encoder. The hash is an
  arbitrary function to 76 bytes. Z_L x Z_4 with a concrete encoding is proved to meet it.
- `DerivesCanonical(backend)`: derived public keys are canonical; `Commutes(backend)`: both sides of an exchange derive
  the same secret. X301 on the curve is proved to meet both, the second given the curve facts.
- `KemCorrect(kem, public, private)`: ML-KEM decapsulation inverts encapsulation for that key pair.

Limbs and bytes are bounded integers. The element types carry their ranges: a `Fe301` is below p, a `Fe301Lazy` below 2p
and a `Fe301LazyLinear` below 4p, so that a member returning one promises the bound. A few definitions (`Residue`,
`SquareOf`, `SquaresToOne`, `OnQuadrics`, `OnAffine`, `CachesAffine`, `SumOf`) speak of their argument through `Named`,
to keep polynomials away from the solver; a lemma beside each gives the plain meaning.

## Model

| member | source | states |
|---|---|---|
| `LadderSpec.LadderRefinesReference` | crates/ed301-eddsa/src/x301.rs:185-243 | For every clamped scalar and every canonical u: the scaled, peeled ladder and the 301-round reference ladder end at the same projective point up to an invertible factor when u is invertible, both end at z = 0 when u = 0, and for p prime there is no other case |
| `LadderSpec.UnitInputRefines` | crates/ed301-eddsa/src/x301.rs:185-243 | The invertible case on its own, for any integer u with an inverse modulo p; no primality |
| `LadderSpec.SameRun` | crates/ed301-eddsa/src/x301.rs:214-235 | Loop invariant: from the peeled top bit on, both rungs of the two ladders agree up to invertible factors after every round, with equal pending swaps |
| `LadderSpec.DoubleScales` | crates/ed301-eddsa/src/x301.rs:187-198 | A doubling scaled by q = a - d is the textbook doubling times q s^4 on inputs scaled by s, because q times A24 is 301 modulo p |
| `LadderSpec.DiffAddScales` | crates/ed301-eddsa/src/x301.rs:219-230 | Differential addition of points scaled by s and t is scaled by (s t)^2 |
| `LadderSpec.DenominatorIsUnit` | crates/ed301-eddsa/src/x301.rs:49-53 | q has an inverse modulo p, shown from an explicit inverse of 301 and without primality |
| `LadderSpec.ZeroInputVanishes` | crates/ed301-eddsa/src/x301.rs:185-243 | For u = 0 both ladders end with z = 0, for every scalar, clamped or not |
| `LadderSpec.OrderFourRun` | crates/ed301-eddsa/src/x301.rs:214-235 | Loop invariant for u^2 = 1: after every round the first rung has x z = 0 and the second has x^2 = z^2 modulo p |
| `LadderSpec.OrderFourInputVanishes` | crates/ed301-eddsa/src/x301.rs:237-242 | For u^2 = 1 the two final doublings send z to 0, for every scalar and without primality |
| `LadderSpec.OrderFourReferenceVanishes` | reference/x301/x301_reference.py:292-321 | For u^2 = 1 the reference ladder ends with z = 0 for every clamped scalar |
| `X301Core.LadderState.ConditionalSwap` | crates/ed301-eddsa/src/x301.rs:156-159 | The two rungs are exchanged exactly when the choice says so and x1 is unchanged |
| `X301Core.LadderState.Round` | crates/ed301-eddsa/src/x301.rs:214-235 | One round on limbs: the two new rungs are congruent to the scaled doubling and the differential addition of the old ones; the element types carry the [0, 2p) and [0, 4p) bounds |
| `X301Core.Ladder` | crates/ed301-eddsa/src/x301.rs:185-243 | For every 38-byte scalar and every canonical u the limb ladder returns lazy elements congruent to the scaled ladder polynomial |
| `X301Core.Finalize` | crates/ed301-eddsa/src/x301.rs:245-262 | A zero z is refused as all-zero; for z zero or invertible the result is the affine x as canonical bytes, or the all-zero error |
| `X301Core.OutputIgnoresScale` | crates/ed301-eddsa/src/x301.rs:245-262 | Projective points that differ by an invertible factor give the same bytes or the same error |
| `X301Core.ClampScalar` | crates/ed301-eddsa/src/x301.rs:139-144 | Bit 300 is set, bits 2 to 299 are kept and every other bit is clear |
| `Scalars.ClampBits` | crates/ed301-eddsa/src/x301.rs:139-144 | The integer clamp, bit by bit |
| `X301Core.SmallOrderVanishes` | crates/ed301-eddsa/src/x301.rs:185-243 | u = 0, 1 and p - 1 all end the optimized ladder at z = 0 modulo p |
| `X301Core.X301` | crates/ed301-eddsa/src/x301.rs:91-99 | Secret length is checked before public length; every encoding whose u is 0, 1 or p - 1 is refused as all-zero for every secret, without primality; for p prime the result equals the reference function on every input |
| `X301Core.SameOutput` | crates/ed301-eddsa/src/x301.rs:185-262 | For p prime the optimized and the reference ladder give equal bytes or both refuse |
| `ReferenceImplementation.MontgomeryLadder` | reference/x301/x301_reference.py:292-321 | The 301-round loop computes the reference ladder polynomial, with every coordinate in [0, p) |
| `ReferenceImplementation.DecodeU` | reference/x301/x301_reference.py:272-280 | The decoded coordinate is (value mod 2^301) mod p |
| `ReferenceImplementation.X301` | reference/x301/x301_reference.py:324-334 | The reference returns the reference function on all inputs, errors included |
| `LimbArithmetic.AddLimbs` | crates/ed301-eddsa/src/field_5x64.rs:463-474 | Five-limb sum plus carry is the exact integer sum |
| `LimbArithmetic.SubtractLimbs` | crates/ed301-eddsa/src/field_5x64.rs:534-551 | Five-limb difference less borrow is the exact integer difference, and the borrow is set exactly when the left value is smaller |
| `LimbArithmetic.MultiplyWide` | crates/ed301-eddsa/src/field_5x64.rs:554-573 | The schoolbook product is the exact integer product of any two five-limb values |
| `LimbArithmetic.SquareWide` | crates/ed301-eddsa/src/field_5x64.rs:642-679 | Cross products, one-bit doubling over ten limbs and diagonals give the exact integer square, with no bit lost |
| `LimbArithmetic.SquareBound` | crates/ed301-eddsa/src/field_5x64.rs:642-679 | The square is twice the cross products plus the diagonals, and fits ten limbs |
| `Reduction.AccumulateFold` | crates/ed301-eddsa/src/field_5x64.rs:747-789 | The accumulator ends as low + high * (2^99 - 947) exactly whenever that fits, so no carry is lost |
| `Reduction.SplitWide` | crates/ed301-eddsa/src/field_5x64.rs:702-734 | Splitting ten limbs at bit 301 keeps the value when the top limb is below 2^45 |
| `Reduction.ReduceWideUnreduced` | crates/ed301-eddsa/src/field_5x64.rs:702-734 | Every ten-limb value below 16 p^2 folds twice to five limbs below 2p congruent to it |
| `Reduction.MultiplyFiveByU32` | crates/ed301-eddsa/src/field_5x64.rs:576-588 | Exact product of five limbs with a 32-bit constant |
| `Reduction.ReduceSmallProductUnreduced` | crates/ed301-eddsa/src/field_5x64.rs:596-639 | One fold brings every six-limb value below 4p 2^32 to five limbs below 2p congruent to it |
| `FieldElements.ConditionalSubtractModulus` | crates/ed301-eddsa/src/field_5x64.rs:519-524 | p is subtracted exactly when the value reaches it |
| `FieldElements.Fe301.Add` | crates/ed301-eddsa/src/field_5x64.rs:112-115 | Canonical sum modulo p |
| `FieldElements.Fe301.Sub` | crates/ed301-eddsa/src/field_5x64.rs:118-124 | Canonical difference modulo p, the wrapped borrow included |
| `FieldElements.Fe301.Neg` | crates/ed301-eddsa/src/field_5x64.rs:127-129 | Canonical negative modulo p |
| `FieldElements.Fe301.Mul` | crates/ed301-eddsa/src/field_5x64.rs:132-134 | Canonical product modulo p |
| `FieldElements.Fe301.MulSmall` | crates/ed301-eddsa/src/field_5x64.rs:144-148 | Canonical product with a 32-bit constant |
| `FieldElements.Fe301.Square` | crates/ed301-eddsa/src/field_5x64.rs:151-153 | Canonical square modulo p |
| `FieldElements.Fe301.CtEq` | crates/ed301-eddsa/src/field_5x64.rs:290-298 | Limb equality holds exactly when the residues are equal |
| `FieldElements.Fe301Lazy.Canonical` | crates/ed301-eddsa/src/field_5x64.rs:344-346 | One conditional subtraction turns any lazy element into its residue |
| `FieldElements.Fe301Lazy.AddLoose` | crates/ed301-eddsa/src/field_5x64.rs:350-354 | The sum of lazy elements is exact and below 4p: no carry leaves the limbs |
| `FieldElements.Fe301Lazy.SubLoose` | crates/ed301-eddsa/src/field_5x64.rs:358-364 | left + 2p - right is exact, not negative and below 4p |
| `FieldElements.Fe301Lazy.Mul` | crates/ed301-eddsa/src/field_5x64.rs:368-370 | A product congruent to the exact one and below 2p |
| `FieldElements.Fe301Lazy.Square` | crates/ed301-eddsa/src/field_5x64.rs:373-375 | A square congruent to the exact one and below 2p |
| `FieldElements.Fe301Lazy.MulSmall` | crates/ed301-eddsa/src/field_5x64.rs:379-383 | A product with a 32-bit constant, congruent and below 2p |
| `FieldElements.Fe301Lazy.IsZero` | crates/ed301-eddsa/src/field_5x64.rs:393-395 | Holds exactly when p divides the lazy value |
| `FieldElements.Fe301LazyLinear.Mul` | crates/ed301-eddsa/src/field_5x64.rs:415-417 | Two values below 4p multiply to a congruent one below 2p |
| `FieldElements.Fe301LazyLinear.Square` | crates/ed301-eddsa/src/field_5x64.rs:421-423 | A value below 4p squares to a congruent one below 2p |
| `FieldElements.Fe301LazyLinear.MulTight` | crates/ed301-eddsa/src/field_5x64.rs:427-429 | A value below 4p times one below 2p gives a congruent one below 2p |
| `FieldElements.Fe301LazyLinear.MulSmall` | crates/ed301-eddsa/src/field_5x64.rs:434-438 | A value below 4p times a 32-bit constant gives a congruent one below 2p |
| `FieldElements.Fe301LazyLinear.Tighten` | crates/ed301-eddsa/src/field_5x64.rs:441-446 | 2p is subtracted exactly when it is reached, so the result is below 2p |
| `FieldElements.DecodeLimbs` | crates/ed301-eddsa/src/field_5x64.rs:311-324 | 38 little-endian bytes become limbs of the same value |
| `FieldElements.ToCanonicalBytes` | crates/ed301-eddsa/src/field_5x64.rs:100-109 | The 38-byte little-endian encoding of the residue |
| `FieldElements.FromCanonicalBytes` | crates/ed301-eddsa/src/field_5x64.rs:79-83 | Present exactly when the encoded value is below p, and then with that value |
| `FieldElements.FromX301Bytes` | crates/ed301-eddsa/src/field_5x64.rs:86-90 | The residue of the value modulo 2^301 |
| `FieldElements.Invert` | crates/ed301-eddsa/src/field_5x64.rs:193-202 | Returns an inverse when there is one, and reports absence only when there is none |
| `Canonicalization.CanonicalizePublicEncoding` | crates/ed301-eddsa/src/x301.rs:128-130 | Wrong lengths are refused; otherwise the canonical encoding of (value mod 2^301) mod p |
| `Canonicalization.CanonicalIdempotent` | crates/ed301-eddsa/src/field_5x64.rs:86-109 | Canonicalizing twice is canonicalizing once |
| `Canonicalization.CanonicalExactlyBelowP` | crates/ed301-eddsa/src/field_5x64.rs:86-109 | An encoding is its own canonical form exactly when its value is below p |
| `Canonicalization.CanonicalDecidesCongruence` | crates/ed301-eddsa/src/field_5x64.rs:86-109 | Two encodings share a canonical form exactly when their masked values are congruent modulo p |
| `Canonicalization.AtLeastModulus` | provider-tests/x301/provider_x301_fuzz.c:94-99 | The scan from the top byte decides value >= p |
| `Canonicalization.SubtractModulusBytes` | provider-tests/x301/provider_x301_fuzz.c:102-108 | The running borrow subtracts p exactly and ends clear |
| `Canonicalization.CanonicalizePublic` | provider-tests/x301/provider_x301_fuzz.c:84-109 | The byte-wise canonicalizer leaves the same bytes as the limb version on every 38-byte input |
| `Recoding.VartimeWnaf` | crates/ed301-eddsa/src/scalar.rs:130-162 | For every scalar below L and width 2..8: the 302 digits sum to the scalar, each nonzero digit is odd, below 2^(w-1) in magnitude, and followed by w - 1 zeros; digits are 8-bit and the residue stays below 2^320 |
| `Recoding.OddResidue` | crates/ed301-eddsa/src/scalar.rs:130-162 | The residue stays at most 2^(300-i) after an odd step, which is why 302 digits suffice |
| `Recoding.WnafComplete` | crates/ed301-eddsa/src/scalar.rs:130-162 | After the last digit nothing is left of the residue |
| `Recoding.SignedRadix16` | crates/ed301-eddsa/src/edwards.rs:923-939 | For every 38-byte scalar the digits keep the value, all but the last are in [-8, 8), and the last is the top nibble or one more; every intermediate value is an 8-bit integer, so nothing wraps |
| `Straus.VartimeAddSigned` | crates/ed301-eddsa/src/edwards.rs:906-921 | In any abelian group, adds the signed odd multiple that magnitude >> 1 indexes; zero adds nothing |
| `Straus.BuildOddTable` | crates/ed301-eddsa/src/edwards.rs:835-862 | In any abelian group, entry j is the (2j + 1)-fold of the point |
| `Straus.VartimeDoubleScalarMulBasepoint` | crates/ed301-eddsa/src/edwards.rs:567-591 | [s]B - [k]P for all scalars below L in any abelian group, the leading-zero skip included |
| `Straus.ScalarMulEncoded` | crates/ed301-eddsa/src/edwards.rs:440-444 | The 301-round double-and-select loop gives [k mod 2^301]P in any abelian group |
| `FixedBase.BuildBasepointTable` | crates/ed301-eddsa/src/edwards.rs:809-830 | In any abelian group, row r, entry e is [(e + 1) 256^r]B |
| `FixedBase.SelectBasepoint` | crates/ed301-eddsa/src/edwards.rs:941-958 | In any abelian group, the eight-entry scan gives [digit 256^row]B for every digit in [-8, 8] |
| `FixedBase.HalvesJoin` | crates/ed301-eddsa/src/edwards.rs:473-490 | Odd digits, four doublings and even digits add up to the radix-16 value |
| `FixedBase.ScalarMulBaseEncoded` | crates/ed301-eddsa/src/edwards.rs:473-490 | [k]B for every encoded k below 2^303, in any abelian group |
| `FixedBase.ClampedNotMultiple` | crates/ed301-eddsa/src/x301.rs:139-144 | No clamped scalar is a multiple of L |
| `FixedBase.ClampedMultipleNotIdentity` | crates/ed301-eddsa/src/x301.rs:102-114 | A clamped multiple of a point of order L is never the identity |
| `Schedules.WnafScheduleIsOrder` | crates/ed301-eddsa/src/edwards.rs:60-79 | The 18 signed entries evaluate to L |
| `Schedules.SetBitsScheduleIsOrder` | crates/ed301-eddsa/src/edwards.rs:85-89 | The 64 set-bit entries evaluate to L |
| `Schedules.IsPrimeSubgroupWithTable` | crates/ed301-eddsa/src/edwards.rs:516-533 | In any abelian group, the signed schedule accepts exactly the points killed by L |
| `Schedules.ScalarMulPrimeOrderSparse` | crates/ed301-eddsa/src/edwards.rs:542-557 | In any abelian group, the set-bit schedule computes [L]P |
| `Schedules.IsPrimeSubgroup` | crates/ed301-eddsa/src/edwards.rs:762-769 | In any abelian group, the sparse test accepts exactly the points killed by L, so the two tests agree |
| `Schedules.SubgroupTestExact` | crates/ed301-eddsa/src/edwards.rs:516-557 | On Z_L x Z_4 the test accepts exactly the elements without torsion |
| `ScalarField.FromCanonicalBytes` | crates/ed301-eddsa/src/scalar.rs:46-49 | Present exactly below L, and then the encoding is the only one |
| `ScalarField.ReduceHashIsMod` | crates/ed301-eddsa/src/scalar.rs:64-77 | Two 304-bit chunks recombined give the whole 608-bit value modulo L |
| `ScalarField.WriteCanonicalBytes` | crates/ed301-eddsa/src/scalar.rs:88-104 | The word-by-word loop writes the 38-byte little-endian encoding |
| `Signature.Derive` | crates/ed301-eddsa/src/signature.rs:304-358 | In any abelian group, with k the clamped first half of the hash of the seed: the public point is [k]B, the public key its encoding, the scalar k mod L, and the prefix the second half; an internal failure exactly when [k]B is the identity |
| `Signature.SignExpanded` | crates/ed301-eddsa/src/signature.rs:207-255 | In a valid suite, with n the hash of prefix and message modulo L: the first half is the encoding of [n]B and the second half is n + c * scalar modulo L, where c is the hash of first half, public key and message modulo L |
| `Signature.Verify` | crates/ed301-eddsa/src/signature.rs:195-205 | In a valid suite, accepts exactly: 38 and 76 bytes, both points decode, A is not the identity and is killed by L, s below L, and 4([s]B - [c]A - R) = O with c the hash of R bytes, key bytes and message modulo L |
| `Signature.VerifyParsed` | crates/ed301-eddsa/src/signature.rs:115-126 | In a valid suite: the same cofactored equation with the hashed challenge, decided through Straus and two doublings |
| `Signature.AcceptsExactly` | crates/ed301-eddsa/src/signature.rs:195-205 | Acceptance spelled out on the bytes, with the challenge as the hash of commitment, key and message modulo L |
| `Signature.SignatureIs` | crates/ed301-eddsa/src/signature.rs:207-255 | Both halves of a signature spelled out in terms of the hash, with any shift of the commitment |
| `Signature.VerifyingKeyFromBytes` | crates/ed301-eddsa/src/signature.rs:76-99 | In a valid suite: accepts exactly the decodable non-identity points killed by L |
| `Signature.SignatureFromBytes` | crates/ed301-eddsa/src/signature.rs:151-172 | Accepts exactly 76 bytes with a decodable commitment and a response below L |
| `Signature.ShiftedCommitmentVerifies` | crates/ed301-eddsa/src/signature.rs:115-126 | In any abelian group whose base is killed by L, the equation holds for a commitment shifted by any T with 4T = O, for every challenge |
| `Signature.SignaturesAccepted` | crates/ed301-eddsa/src/signature.rs:207-255 | In any abelian group with a base of order L and a decoder that inverts the encoder: every signature of every seed and message is accepted, and still is when T with 4T = O is added to the commitment and challenge and response are recomputed |
| `Signature.ResponseUnique` | crates/ed301-eddsa/src/signature.rs:115-126 | In any abelian group with a base of order L, one key, challenge and commitment have one accepted response |
| `Signature.SeedKeyStrict` | crates/ed301-eddsa/src/signature.rs:325-337 | In a valid suite: a derived public point is killed by L and is not the identity |
| `Signature.Sign` | crates/ed301-eddsa/src/signature.rs:182-185 | In a valid suite: wrong seed lengths are refused; otherwise both halves of the signature are what the hash of the seed and the message determine, and it is accepted |
| `Signature.ProductSuiteIsValid` | crates/ed301-eddsa/src/signature.rs:207-255 | Z_L x Z_4 with a concrete encoding meets every hypothesis, whatever the hash |
| `EdwardsFormulas.AddCloses` | crates/ed301-eddsa/src/edwards.rs:289-320 | The complete addition maps two points of aX^2 + Y^2 = Z^2 + dT^2, XY = ZT to a point of them; no division and no primality |
| `EdwardsFormulas.DualRelation` | crates/ed301-eddsa/src/edwards.rs:289-320 | The closure identity H (x1 y2 - y1 x2) = F (t1 z2 - t2 z1) modulo p on those quadrics |
| `EdwardsFormulas.DoubleIsNegatedSum` | crates/ed301-eddsa/src/edwards.rs:350-375 | On the quadrics double(P) is -1 times add(P, P), coordinate by coordinate |
| `EdwardsFormulas.AddCachedIsAdd` | crates/ed301-eddsa/src/edwards.rs:323-347 | Adding a cached entry is adding the affine point it caches |
| `EdwardsFormulas.AddScaled` | crates/ed301-eddsa/src/edwards.rs:289-320 | Scaling a summand by s scales the sum by s^2, so the addition is one on projective points |
| `EdwardsFormulas.AddIdentity` | crates/ed301-eddsa/src/edwards.rs:1084-1100 | On the quadrics, adding the identity scales the point by its Z |
| `EdwardsFormulas.AddNegative` | crates/ed301-eddsa/src/edwards.rs:1084-1100 | On the quadrics, a point plus its negative has X = 0, T = 0 and Y = Z |
| `EdwardsComplete.NeverCollapses` | crates/ed301-eddsa/src/edwards.rs:289-320 | For p prime and 301 not a square, neither Z1 Z2 - d T1 T2 nor Z1 Z2 + d T1 T2 vanishes for points with invertible Z |
| `EdwardsComplete.AddComplete` | crates/ed301-eddsa/src/edwards.rs:289-320 | Under the same hypotheses the sum again lies on the curve and has an invertible Z: the formulas have no exceptions |
| `EdwardsComplete.ValidityIsMembership` | crates/ed301-eddsa/src/edwards.rs:784-797 | With an invertible Z the cleared projective equation holds exactly on the two quadrics |
| `EdwardsPoints.EdwardsPoint.Add` | crates/ed301-eddsa/src/edwards.rs:289-320 | The limb addition is congruent to the complete addition in every coordinate |
| `EdwardsPoints.EdwardsPoint.AddAffine` | crates/ed301-eddsa/src/edwards.rs:323-347 | The limb mixed addition is congruent to the cached addition |
| `EdwardsPoints.EdwardsPoint.Double` | crates/ed301-eddsa/src/edwards.rs:350-375 | The limb doubling is congruent to the doubling formula |
| `EdwardsPoints.EdwardsPoint.Negate` | crates/ed301-eddsa/src/edwards.rs:425-432 | X and T change sign modulo p |
| `EdwardsPoints.EdwardsPoint.IsIdentity` | crates/ed301-eddsa/src/edwards.rs:757-759 | Holds exactly when X = 0 and Y = Z |
| `EdwardsPoints.EdwardsPoint.CtEq` | crates/ed301-eddsa/src/edwards.rs:777-782 | Holds exactly when both cross-products agree modulo p |
| `EdwardsPoints.EdwardsPoint.IsValid` | crates/ed301-eddsa/src/edwards.rs:784-797 | Holds exactly when Z is nonzero, XY = ZT and the cleared curve equation holds |
| `EdwardsPoints.AffineNielsPoint.Negate` | crates/ed301-eddsa/src/edwards.rs:224-232 | The negated entry still caches its point, with X negated |
| `EdwardsPoints.FromProjective` | crates/ed301-eddsa/src/edwards.rs:202-211 | The entry through a given inverse of Z |
| `EdwardsPoints.EntryUnique` | crates/ed301-eddsa/src/edwards.rs:202-211 | Every inverse of Z gives the same entry |
| `EdwardsPoints.BatchNormalize` | crates/ed301-eddsa/src/edwards.rs:885-904 | For every list of points with invertible Z, one inversion gives each point the entry that any inverse of its own Z gives |
| `CurveGroup.SumInverse` | crates/ed301-eddsa/src/edwards.rs:1084-1100 | For p prime and 301 not a square, a curve point plus its negative is the identity |
| `CurveGroup.CurveIsAbelian` | crates/ed301-eddsa/src/edwards.rs:289-320 | With associativity as the third hypothesis the affine curve points are an abelian group, so the scalar-multiplication results apply to them |
| `ProjectivePoints.SumOfForms` | crates/ed301-eddsa/src/edwards.rs:289-320 | For p prime and 301 not a square, the complete addition of any projective forms of two curve points is a form of their sum |
| `ProjectivePoints.DoubleOfForm` | crates/ed301-eddsa/src/edwards.rs:350-375 | For p prime and 301 not a square, the dedicated doubling of any form is a form of the double |
| `ProjectivePoints.MixedSumOfForms` | crates/ed301-eddsa/src/edwards.rs:323-347 | For p prime and 301 not a square, the mixed addition of a form and a cached point is a form of the sum |
| `PublicKeyDerivation.BuildBasepointPoints` | crates/ed301-eddsa/src/edwards.rs:809-830 | Given the curve facts, the limb table built from the base point and normalized once holds [(e + 1) 256^r]B in row r, entry e |
| `PublicKeyDerivation.SelectEntry` | crates/ed301-eddsa/src/edwards.rs:941-958 | Given the curve facts, the scanned and signed limb entry caches [digit 256^row]B |
| `PublicKeyDerivation.ScalarMulBasePoint` | crates/ed301-eddsa/src/edwards.rs:473-490 | Given the curve facts, the limb result is a projective form of [k]B for every encoded k below 2^303 |
| `PublicKeyDerivation.PublicFromSecret` | crates/ed301-eddsa/src/x301.rs:102-114 | Wrong lengths are refused; over a table with that content and given the curve facts, the bytes are the coordinate of the clamped multiple of the base point, which is also what the reference function gives on any encoding of the base coordinate |
| `PublicKeys.MontgomeryUPublicArtifact` | crates/ed301-eddsa/src/edwards.rs:644-672 | An invalid point is refused; for p prime a valid one gives (Z + Y) / (Z - Y) encoded, a missing or zero quotient being refused |
| `StrausPoints.BuildOddPoints` | crates/ed301-eddsa/src/edwards.rs:852-862 | Given the curve facts, the 64 limb entries of a form of a cache the odd multiples of a, normalized with one inversion |
| `StrausPoints.AddSignedEntry` | crates/ed301-eddsa/src/edwards.rs:906-921 | Given the curve facts, the limb result stands for the sum with the signed odd multiple |
| `StrausPoints.DoubleScalarMulPoints` | crates/ed301-eddsa/src/edwards.rs:567-591 | Given the curve facts, the limb result is a form of [s]B - [k]P for all scalars below L |
| `StrausPoints.IsPrimeSubgroupPoints` | crates/ed301-eddsa/src/edwards.rs:516-533 | Given the curve facts, the limb test accepts exactly the forms of points killed by L |
| `StrausPoints.PrimeOrderMultiplePoint` | crates/ed301-eddsa/src/edwards.rs:542-557 | Given the curve facts, the limb result is a form of [L]a |
| `StrausPoints.IdentityAt` | crates/ed301-eddsa/src/edwards.rs:757-759 | Given the curve facts, the limb test for the identity decides whether the point stands for it |
| `CurveSignature.CurveSuiteIsValid` | crates/ed301-eddsa/src/signature.rs:207-255 | Given the curve facts, a base point of order L and a decoder that inverts the encoder, the curve with any hash is a valid suite |
| `CurveSignature.CurveSignaturesAccepted` | crates/ed301-eddsa/src/signature.rs:207-255 | Under the same hypotheses every signature made on the curve is accepted, four-torsion shifts of the commitment included |
| `CurveSignature.VerifyPoints` | crates/ed301-eddsa/src/signature.rs:115-126 | Given the curve facts, verification on limb points decides [4]([s]B - [c]A - R) = O for the points they stand for |
| `CurveSignature.ImportPoint` | crates/ed301-eddsa/src/signature.rs:76-99 | Given the curve facts, a decoded limb point is imported exactly when it stands for a non-identity point killed by L, with the table verification needs |
| `PublicKeys.BaseOnCurve` | crates/ed301-eddsa/src/x301.rs:32-36 | The base point is on the curve and its u is the published base coordinate |
| `PublicKeys.PublicKeysAgree` | crates/ed301-eddsa/src/x301.rs:275-282 | Given the curve facts, the ladder on any encoding of the base coordinate gives the same public key or refusal as the clamped multiple of the base point |
| `PublicKeys.SharedSecretsAgree` | fuzz/fuzz_targets/x301_core.rs:39-49 | Given the curve facts, two parties with public keys derive the same secret or both refuse |
| `PublicKeys.PublicKeyExists` | crates/ed301-eddsa/src/x301.rs:102-114 | If moreover the base point has order L, every 38-byte secret has a public key |
| `MontgomeryMap.DoubleOnLine` | reference/x301/x301_reference.py:166-182 | On the quadrics, under u = (Z + Y) / (Z - Y) the Montgomery doubling is the Edwards doubling, up to explicit factors and without division |
| `MontgomeryMap.DiffAddOnLine` | reference/x301/x301_reference.py:292-321 | For curve points whose difference has an invertible Z - Y, differential addition with u of the difference gives u of the Edwards sum, cross-multiplied |
| `LadderOnCurve.RoundOnCurve` | reference/x301/x301_reference.py:299-317 | Given the curve facts, one round takes the lines of [m]P and [m + 1]P to those of [2m + b]P and [2m + b + 1]P |
| `LadderOnCurve.LadderIsMultiple` | reference/x301/x301_reference.py:292-321 | Given the curve facts, the reference ladder on u(P) outputs u([k]P) for every k below 2^301, every point that has a u, and its canonical u; at u = 0 both sides are the all-zero refusal |
| `CurveBackend.BackendDerivesCanonical` | crates/ed301-eddsa/src/x301.rs:102-114 | The derived public keys are canonical, as the key objects ask of their backend |
| `CurveBackend.BackendCommutes` | fuzz/fuzz_targets/x301_core.rs:39-49 | Given the curve facts, X301 meets the commutativity hypothesis of the hybrid KEM |
| `KeyShare.VectorBounds` | provider-tests/x301/mutate_x301_tls_keyshare.py:61-68 | Start and end of a length-prefixed vector, inside the message, or the truncation error |
| `KeyShare.ReadIntIsBigEndian` | provider-tests/x301/mutate_x301_tls_keyshare.py:61-68 | A length field is read most significant byte first |
| `KeyShare.ToBEIsBigEndian` | provider-tests/x301/mutate_x301_tls_keyshare.py:193-196 | A length field is written most significant byte first |
| `KeyShare.FindClientShare` | provider-tests/x301/mutate_x301_tls_keyshare.py:80-138 | The nested loops compute the recursive parse, errors included, and accept exactly one matching share |
| `KeyShare.FoundIsLocated` | provider-tests/x301/mutate_x301_tls_keyshare.py:80-138 | An accepted share is properly nested: entry in shares in extension in extensions in handshake, with every length field matching |
| `ClientHello.SerializedIsLocated` | provider-tests/x301/mutate_x301_tls_keyshare.py:80-138 | The serialization of every well-formed ClientHello is located at the offset of its one matching share, or refused with the number of matching shares |
| `ClientHello.LocatedIsSerialized` | provider-tests/x301/mutate_x301_tls_keyshare.py:80-138 | Every accepted message is the serialization of a well-formed ClientHello whose one matching share is the one found |
| `ClientHello.AcceptedExactly` | provider-tests/x301/mutate_x301_tls_keyshare.py:80-138 | The locator accepts exactly the serializations of well-formed values with one matching share |
| `KeyShare.MessageBuffer.DeleteRange` | provider-tests/x301/mutate_x301_tls_keyshare.py:244-267 | The range is cut and the rest is kept in order |
| `KeyShare.MessageBuffer.SetLength` | provider-tests/x301/mutate_x301_tls_keyshare.py:193-196 | Out-of-range values are refused without change; otherwise the field reads back and every other byte is kept |
| `KeyShare.ReplaceWithForeignSize` | provider-tests/x301/mutate_x301_tls_keyshare.py:244-267 | Fails exactly when no single share is found or it is not 1606 bytes; otherwise the share is cut to its first 1216 bytes, its length is 1216, the four enclosing lengths drop by 390, and every other byte is kept |
| `KeyShare.ReparsesToSameOffsets` | provider-tests/x301/mutate_x301_tls_keyshare.py:244-267 | Every shrunk message parses again: the same offsets, the share ending 390 bytes earlier and holding the first 1216 bytes of the old one, all lengths consistent |
| `KeyObjects.ImportConsistent` | provider/crates/x301-provider/src/x301_ffi.rs:210-256 | When the backend derives canonical keys, a successful import has a canonical public key that matches its private key |
| `KeyObjects.TakenConsistent` | provider/crates/x301-provider/src/x301_ffi.rs:258-289 | Setting a public key on a consistent key keeps it consistent |
| `KeyObjects.AliasesImportAlike` | provider/crates/x301-provider/src/x301_ffi.rs:590-604 | Public encodings with congruent masked values import alike |
| `KeyObjects.X301Key.Import` | provider/crates/x301-provider/src/x301_ffi.rs:210-256 | A 38-byte secret succeeds exactly when it derives, and beside a 38-byte public buffer exactly when it derives its canonical form; then the secret and its derived key are stored. A public buffer alone is stored in canonical form. Nothing and any other length are refused without change |
| `KeyObjects.X301Key.SetEncodedPublic` | provider/crates/x301-provider/src/x301_ffi.rs:258-289 | Succeeds exactly for 38 bytes whose canonical form is what the private key derives and what the public key already is, where there is one; then that form is stored, otherwise nothing changes |
| `KeyObjects.Generate` | provider/crates/x301-provider/src/x301_ffi.rs:291-318 | A key appears exactly when randomness and derivation succeed, with both parts |
| `KeyObjects.X301Key.Duplicate` | provider/crates/x301-provider/src/x301_ffi.rs:320-338 | A fresh key with the selected parts |
| `KeyObjects.X301Key.Validate` | provider/crates/x301-provider/src/x301_ffi.rs:357-394 | On a reachable key validation is exactly presence of the selected parts |
| `KeyObjects.X301Key.Matches` | provider/crates/x301-provider/src/x301_ffi.rs:396-429 | Selected parts must be present and equal |
| `KeyObjects.X301Key.GetPrivate` | provider/crates/x301-provider/src/x301_ffi.rs:431-447 | Writes the 38 bytes exactly when present and the buffer is large enough; otherwise the buffer is untouched |
| `KeyObjects.X301Key.GetPublic` | provider/crates/x301-provider/src/x301_ffi.rs:449-467 | The same for the public key |
| `KeyObjects.WriteExact` | provider/crates/x301-provider/src/x301_ffi.rs:621-628 | 38 bytes at the front and the tail kept, or nothing written |
| `KeyObjects.X301Exchange.Init` | provider/crates/x301-provider/src/x301_ffi.rs:498-517 | Snapshots the private key and drops the peer, or changes nothing |
| `KeyObjects.X301Exchange.SetPeer` | provider/crates/x301-provider/src/x301_ffi.rs:519-541 | Snapshots the peer once a private key is there, or changes nothing |
| `KeyObjects.X301Exchange.Derive` | provider/crates/x301-provider/src/x301_ffi.rs:543-565 | Writes the shared secret of the two snapshots, or leaves the buffer untouched; succeeds exactly when both are there, the derivation does, and the buffer is large enough |
| `KeyObjects.X301Exchange.Duplicate` | provider/crates/x301-provider/src/x301_ffi.rs:486-496 | A fresh exchange with the same history |
| `KeyObjects.StateIsSnapshot` | provider/crates/x301-provider/src/x301_ffi.rs:498-565 | Over every sequence of calls: the private key is that of the last successful init, the peer that of the last successful set-peer after it, and a peer implies a private key |
| `HybridKem.Ledger.Release` | provider/crates/x301-provider/c/hybrid_kem.c:82-89 | Only an object that is held can be released, and then it is held no more |
| `HybridKem.HybridKey.SetParams` | provider/crates/x301-provider/c/hybrid_kem.c:245-293 | Only an empty key changes: an encoded key makes it PUBLIC with both parts, an absent parameter succeeds and leaves it EMPTY; on failure nothing changes and every temporary is released |
| `HybridKem.HybridKey.EncodedPublic` | provider/crates/x301-provider/c/hybrid_kem.c:197-237 | Present exactly for a non-empty key: ML-KEM first, 1606 bytes |
| `HybridKem.Gen` | provider/crates/x301-provider/c/hybrid_kem.c:331-357 | PRIVATE with both parts when a key pair was asked for and every step succeeded, EMPTY when none was asked for; on failure everything is released |
| `HybridKem.FreeKey` | provider/crates/x301-provider/c/hybrid_kem.c:162-174 | Releases the key and whatever it owns, once each |
| `HybridKem.KemContext.Init` | provider/crates/x301-provider/c/hybrid_kem.c:420-443 | Succeeds exactly for a key of the same provider in a fitting state and without parameters; a failure changes nothing |
| `HybridKem.Encapsulate` | provider/crates/x301-provider/c/hybrid_kem.c:463-572 | Exact success condition in terms of the two schemes; on success bytes 0..1568 and 0..32 are the ML-KEM ciphertext and secret, bytes 1568..1606 the ephemeral public key and 32..70 its shared secret with the peer, and the lengths are set; on failure both buffers are untouched, and the two lengths are too, except that both sizes are reported when all outputs are given and a buffer is too small; every temporary is released on every path |
| `HybridKem.SentIs` | provider/crates/x301-provider/c/hybrid_kem.c:463-572 | Both outputs of an encapsulation by offset: ML-KEM first, X301 last |
| `HybridKem.ReceivedIs` | provider/crates/x301-provider/c/hybrid_kem.c:574-669 | The secret of a decapsulation by offset: ML-KEM first, X301 last |
| `HybridKem.Decapsulate` | provider/crates/x301-provider/c/hybrid_kem.c:574-669 | Exact success condition in terms of the two schemes; on success bytes 0..32 are the ML-KEM secret and 32..70 the X301 secret with the canonical form of the last 38 ciphertext bytes; on failure the buffer is untouched and so is the length, except that 70 is reported for a well-sized ciphertext and a buffer that is too small; every temporary is released on every path |
| `HybridKem.DecapsulateInverts` | provider/crates/x301-provider/c/hybrid_kem.c:463-669 | Given ML-KEM correctness for the key pair, X301 commutativity and canonical derivation, decapsulation of an encapsulated value returns its secret |
| `HybridKem.SentIsReceived` | provider/crates/x301-provider/c/hybrid_kem.c:463-669 | The same for any two contexts whose keys belong together, as reached through init |

## Left out

- Point compression and decompression, `sqrt_ratio`, the Legendre symbol and Fermat inversion: the signature results take a decoder that inverts the encoder as a hypothesis.
- The const-evaluation arithmetic (`add_const`, `mul_const`, `batch_normalize_const` and the like) and `sub_with_borrow`'s bit identity: they repeat the run-time arithmetic that is modelled. The published tables are parameters with a stated content, and the methods that build them are modelled.
- FieldElements.Invert: extended Euclid stands for the big-integer library's inversion; Montgomery form and the library's algorithm are not modelled.
- SHAKE256, ML-KEM-1024, the EVP calls, the DRBG and allocation are parameters: an arbitrary hash, arbitrary key-encapsulation functions, and flags that say which call fails.
- Primality of p, that 301 is not a square, associativity of the curve addition and the order of the base point are hypotheses, not results.
- Signature.SignExpanded, Signature.Derive: proved in any abelian group with group elements in place of limb points. On limb points the fixed-base path (`PublicKeyDerivation`), Straus, the subgroup tests (`StrausPoints`) and the verification equation (`CurveSignature`) are proved; signing there would only add the point encoding, which is not modelled.
- MontgomeryMap.DiffAddOnLine: says nothing when the difference has no invertible Z - Y; the ladder meets that case only for u = 0, which is treated apart.
- Recoding.VartimeWnaf: widths outside 2..8, which the code rejects by assertion.
- Constant-time behaviour, zeroization, taint marks, panic catching, raw pointers and failpoints: select is a conditional, a swap an assignment.
- KeyShare.ReplaceWithForeignSize: Python's bytearray is a field of a buffer object, and error texts are constructors that keep the truncated part's name.
- The server share, the bit-flip, swap and low-order mutations, the socket proxy and its threads.
- KeyObjects.X301Key.Import: allocation failure, error raising and selection-flag parsing.
- HybridKem.HybridKey.SetParams, HybridKem.Encapsulate: OSSL_PARAM parsing is an input datatype, and temporary buffers are sequences.
- The `sign-self-verify` build feature, test vectors, benchmarks, the timing harness and build scripts.
