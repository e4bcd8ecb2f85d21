// Ed301 on the curve: the suite of the curve operations is valid, and the limb verifier decides its equation.
module CurveSignature {
  import opened Wrappers
  import opened Words
  import opened Bytes
  import opened Modular
  import opened Groups
  import opened FixedBase
  import opened EdwardsFormulas
  import opened EdwardsComplete
  import opened EdwardsPoints
  import opened CurveGroup
  import opened LadderOnCurve
  import opened PublicKeys
  import opened ProjectivePoints
  import opened StrausPoints
  import opened ScalarField
  import opened Signature

  type Encoder = CurvePoint -> PointEncoding
  type Decoder = PointEncoding -> Option<CurvePoint>

  /** Decoding inverts encoding. */
  ghost predicate Inverts(decode: Decoder, encode: Encoder) {
    forall p: CurvePoint :: decode(encode(p)) == Some(p)
  }

  /** The Ed301 suite on the curve, for a point encoding and a hash. */
  ghost function CurveSuite(encode: Encoder, decode: Decoder, hash: seq<Byte> -> Digest): Suite<CurvePoint> {
    Suite<CurvePoint>.Suite(CurveOperations(), Base(), encode, decode, hash)
  }

  lemma CurveSuiteIsValid(encode: Encoder, decode: Decoder, hash: seq<Byte> -> Digest)
    requires CurveFacts() && HasOrder(CurveOperations(), Base(), L) && Inverts(decode, encode)
    ensures ValidSuite(CurveSuite(encode, decode, hash))
  {
    hide CurveFacts, HasOrder, IsAbelianGroup, CurveOperations, Base;
    CurveIsAbelian();
  }

  /** Every signature made on the curve is accepted, and so is one with a four-torsion commitment shift. */
  lemma CurveSignaturesAccepted(encode: Encoder, decode: Decoder, hash: seq<Byte> -> Digest, seed: PointEncoding,
                                message: seq<Byte>, torsion: CurvePoint)
    requires CurveFacts() && HasOrder(CurveOperations(), Base(), L) && Inverts(decode, encode)
    requires Multiple(4, torsion) == Affine(0, 1)
    ensures var s := CurveSuite(encode, decode, hash);
      Accepts(s, KeyOfSeed(s, seed).publicKey, message, SignatureOf(s, KeyOfSeed(s, seed), message, torsion).encoded)
  {
    hide CurveFacts, HasOrder, Inverts, Base, Accepts, KeyOfSeed, SignatureOf, ValidSuite, Mul;
    CurveSuiteIsValid(encode, decode, hash);
    SignaturesAccepted(CurveSuite(encode, decode, hash), seed, message, torsion);
  }

  /** `4([response]B - [challenge]key - commitment)` on limb points, tested for the identity. */
  method VerifyPoints(baseTable: seq<AffineNielsPoint>, keyTable: seq<AffineNielsPoint>, commitment: EdwardsPoint,
                      response: Scalar, challenge: Scalar, ghost s: Suite<CurvePoint>, ghost key: CurvePoint,
                      ghost r: CurvePoint) returns (ok: bool)
    requires s.g == CurveOperations() && s.base == Base()
    requires IsOddPoints(baseTable, Base()) && IsOddPoints(keyTable, key) && PointAt(commitment, r)
    ensures CurveFacts() ==> (ok <==> Equation(s, key, challenge, r, response))
    ensures CurveFacts() ==>
      (ok <==> Multiple(4, SumOf(SumOf(Multiple(response, Base()), NegativeOf(Multiple(challenge, key))),
                                 NegativeOf(r))) == Affine(0, 1))
  {
    hide Val, PointAt, IsOddPoints, CongExtended, CurveFacts, SumOf, NegativeOf, Base, Multiple, CurveOperations;
    hide Equation, AddPoints, DoublePoint;
    ghost var difference := CurveOperations().Sub(Multiple(response, Base()), Multiple(challenge, key));
    var combined := DoubleScalarMulPoints(response, challenge, baseTable, keyTable, Base(), key);
    var negated := commitment.Negate();
    NegatedAt(commitment, r, negated);
    var sum := combined.Add(negated);
    ghost var total := SumOf(difference, NegativeOf(r));
    SumAt(combined, difference, negated, NegativeOf(r), sum);
    var doubled := sum.Double();
    DoubleAt(sum, total, doubled);
    var equation := doubled.Double();
    DoubleAt(doubled, SumOf(total, total), equation);
    ok := equation.IsIdentity();
    IdentityAt(equation, SumOf(SumOf(total, total), SumOf(total, total)));
    if CurveFacts() {
      EquationIsQuadruple(s, key, challenge, r, response);
      EquationOnCurve(s, key, challenge, r, response);
    }
  }

  /** The equation in terms of the curve operations. */
  lemma EquationOnCurve(s: Suite<CurvePoint>, key: CurvePoint, challenge: nat, r: CurvePoint, response: nat)
    requires s.g == CurveOperations() && s.base == Base()
    ensures Equation(s, key, challenge, r, response)
      <==> Multiple(4, SumOf(SumOf(Multiple(response, Base()), NegativeOf(Multiple(challenge, key))), NegativeOf(r)))
           == Affine(0, 1)
  {
    hide SumOf, NegativeOf, Mul, Base;
    var g := CurveOperations();
    OperationsAre(Multiple(challenge, key), r);
    OperationsAre(Multiple(response, Base()), NegativeOf(Multiple(challenge, key)));
    OperationsAre(r, r);
    OperationsAre(SumOf(Multiple(response, Base()), NegativeOf(Multiple(challenge, key))), NegativeOf(r));
  }

  /** The equation on the curve, in the order the code evaluates it. */
  lemma EquationIsQuadruple(s: Suite<CurvePoint>, key: CurvePoint, challenge: nat, r: CurvePoint, response: nat)
    requires CurveFacts() && s.g == CurveOperations() && s.base == Base()
    ensures var difference := CurveOperations().Sub(Multiple(response, Base()), Multiple(challenge, key));
      var total := SumOf(difference, NegativeOf(r));
      Equation(s, key, challenge, r, response)
      <==> SumOf(SumOf(total, total), SumOf(total, total)) == Affine(0, 1)
  {
    hide PrimeField, NonSquare, IsAssociative, IsAbelianGroup, SumOf, NegativeOf, Mul, Base;
    var g := CurveOperations();
    CurveIsAbelian();
    var difference := g.Sub(Multiple(response, Base()), Multiple(challenge, key));
    var total := SumOf(difference, NegativeOf(r));
    OperationsAre(difference, r);
    OperationsAre(difference, NegativeOf(r));
    OperationsAre(total, total);
    OperationsAre(SumOf(total, total), SumOf(total, total));
    MulOne(g, total);
    MulDouble(g, 2, total);
  }

  /** Import a decoded key: not the identity, then the subgroup test over the table that verification keeps. */
  method ImportPoint(point: EdwardsPoint, ghost s: Suite<CurvePoint>, ghost a: CurvePoint)
    returns (table: Option<seq<AffineNielsPoint>>)
    requires CurveFacts() && PointAt(point, a) && s.g == CurveOperations()
    ensures table.Some? <==> StrictPoint(s, a)
    ensures table.Some? <==> a != Affine(0, 1) && Multiple(L, a) == Affine(0, 1)
    ensures table.Some? ==> IsOddPoints(table.value, a)
  {
    hide Val, PointAt, IsOddPoints, CurveFacts, Mul;
    var identity := point.IsIdentity();
    IdentityAt(point, a);
    if identity {
      return None;
    }
    var odd := BuildOddPoints(point, a);
    var inSubgroup := IsPrimeSubgroupPoints(point, odd, a);
    if !inSubgroup {
      return None;
    }
    table := Some(odd);
  }
}
