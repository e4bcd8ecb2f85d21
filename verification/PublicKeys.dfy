// X301 public keys: the fixed-base path, the ladder on the base coordinate, and key agreement.
module PublicKeys {
  import opened Arithmetic
  import opened Wrappers
  import opened Words
  import opened Bytes
  import opened Modular
  import opened FieldElements
  import opened LadderSpec
  import opened Scalars
  import opened Groups
  import opened FixedBase
  import opened EdwardsFormulas
  import opened EdwardsComplete
  import opened EdwardsPoints
  import opened MontgomeryMap
  import opened CurveGroup
  import opened X301Core
  import opened LadderOnCurve

  // ---- The public coordinate of a projective point ----

  /** Refuse an invalid point, a zero denominator and a zero coordinate; otherwise encode (Z + Y) / (Z - Y). */
  method MontgomeryUPublicArtifact(point: EdwardsPoint) returns (r: Result<seq<Byte>, X301Error>)
    ensures !(!Cong(point.z.Int(), 0) && ProjectiveEquation(point.Coordinates())) ==> r == Err(AllZeroSharedSecret)
    ensures PrimeField() && !Cong(point.z.Int(), 0) && ProjectiveEquation(point.Coordinates())
        ==> r == OutputOf(Line(point.Coordinates()))
  {
    hide Val, Residue, IsUnit, OutputOf, PrimeField, ProjectiveEquation;
    var valid := point.IsValid();
    if !valid {
      return Err(AllZeroSharedSecret);
    }
    var numerator, denominator := NumeratorAndDenominator(point.z, point.y);
    r := EncodeQuotient(numerator, denominator, Line(point.Coordinates()));
  }

  method NumeratorAndDenominator(z: Fe301, y: Fe301) returns (sum: Fe301, gap: Fe301)
    ensures Cong(sum.Int(), z.Int() + y.Int())
    ensures Cong(gap.Int(), z.Int() - y.Int())
  {
    hide Val, Residue;
    sum := z.Add(y);
    ModCong(sum.Int(), z.Int() + y.Int(), z.Int() + y.Int());
    gap := z.Sub(y);
    ModCong(gap.Int(), z.Int() - y.Int(), z.Int() - y.Int());
  }

  /** Divide and encode; without an inverse, or for a zero quotient, refuse. */
  method EncodeQuotient(numerator: Fe301, denominator: Fe301, ghost line: Point) returns (r: Result<seq<Byte>,
                                                                                          X301Error>)
    requires Cong(numerator.Int(), line.x) && Cong(denominator.Int(), line.z)
    ensures PrimeField() ==> r == OutputOf(line)
  {
    hide Val, Residue, IsUnit, OutputOf, PrimeField;
    var present, inverse := Invert(denominator);
    if !present {
      NoInverseIsZero(line, denominator.Int());
      return Err(AllZeroSharedSecret);
    }
    var coordinate := numerator.Mul(inverse);
    QuotientOutput(line, numerator.Int(), denominator.Int(), inverse.Int(), coordinate.Int());
    var isZero := IsZeroElement(coordinate);
    if isZero {
      return Err(AllZeroSharedSecret);
    }
    r := ToCanonicalResult(coordinate);
  }

  method ToCanonicalResult(coordinate: Fe301) returns (r: Result<seq<Byte>, X301Error>)
    ensures r == Ok(ToLE(coordinate.Int(), FIELD_BYTES))
  {
    hide Val;
    var encoded := ToCanonicalBytes(coordinate);
    r := Ok(encoded);
  }

  lemma QuotientOutput(line: Point, numerator: int, denominator: int, inverse: int, coordinate: int)
    requires Cong(numerator, line.x) && Cong(denominator, line.z) && Cong(denominator * inverse, 1)
    requires coordinate == numerator * inverse % P
    ensures OutputOf(line) == if coordinate == 0 then Err(AllZeroSharedSecret) else Ok(ToLE(coordinate, FIELD_BYTES))
  {
    hide Residue, IsUnit, OutputOf, ToLE;
    UnitWitness(denominator, inverse);
    UnitCong(denominator, line.z);
    CongSym(denominator, line.z);
    CongMul(line.z, denominator, inverse, inverse);
    CongTrans(line.z * inverse, denominator * inverse, 1);
    CongMul(numerator, line.x, inverse, inverse);
    ModCong(coordinate, numerator * inverse, line.x * inverse);
    OutputOfUnit(line, inverse, coordinate);
    CanonicalModulo(coordinate, numerator * inverse);
  }

  lemma CanonicalModulo(r: int, x: int)
    requires r == x % P
    ensures r % P == r
  {
  }

  /** With p prime a denominator without inverse is zero. */
  lemma NoInverseIsZero(line: Point, denominator: int)
    requires !IsUnit(denominator) && Cong(denominator, line.z)
    ensures PrimeField() ==> OutputOf(line) == Err(AllZeroSharedSecret)
  {
    hide Residue, OutputOf;
    if PrimeField() {
      ZeroOrUnit(denominator);
      CongSym(denominator, line.z);
      CongTrans(line.z, denominator, 0);
      OutputOfZero(line);
    }
  }

  // ---- The base point ----

  const BASE_X: int := 0x3aee6839_3be0acb6161a2783_5cdbb15e84b52add_4942cad7bf841f3f_76e2adfb00c03d1f
  const BASE_Y: int := 0x1888_d3028aa8_c8f26c9e41732255_67ac249292b147f3_d7f76f6dcf3fe83c_65800c5a753ff76b
  const BASE_U: int := 0x863_54e92a2d_d42c9599bdd2129c_f7053dfe493989d1_b75e16fe96248a01_5fffc6ccf4f0a65b

  /** The base point is on the curve and its u-coordinate is the published one. */
  lemma BaseOnCurve()
    ensures OnAffine(Affine(BASE_X, BASE_Y))
    ensures Cong(BASE_U * U(Affine(BASE_X, BASE_Y)).z, U(Affine(BASE_X, BASE_Y)).x)
  {
    var l, r := Form(EDWARDS_A, BASE_X, BASE_Y), Form(EDWARDS_D, BASE_X * BASE_Y, 1);
    CongIntro(l, r, (l - r) / P);
    QuadricsOf(Rep(Affine(BASE_X, BASE_Y)));
    var e := BASE_U * (1 - BASE_Y) - (1 + BASE_Y);
    CongIntro(BASE_U * (1 - BASE_Y), 1 + BASE_Y, e / P);
  }

  /** The canonical base point. */
  ghost function Base(): CurvePoint {
    BaseOnCurve();
    Affine(BASE_X, BASE_Y)
  }

  lemma BaseHasU()
    requires PrimeField()
    ensures HasU(BASE_U, Base()) && IsUnit(BASE_U)
  {
    hide Residue, IsUnit;
    BaseOnCurve();
    CongMod(1 - BASE_Y);
    assert (1 - BASE_Y) % P == P + 1 - BASE_Y;
    assert IsUnit(P + 1 - BASE_Y);
    UnitCong(P + 1 - BASE_Y, 1 - BASE_Y);
  }

  // ---- Public keys ----

  /** The public key of a secret: u of the clamped multiple of the base point. */
  ghost function PublicKeyOf(secret: seq<Byte>): Result<seq<Byte>, X301Error> {
    if |secret| != FIELD_BYTES then Err(InvalidSecretLength)
    else OutputOf(U(Multiple(ClampInteger(LE(secret)), Base())))
  }

  lemma DecodedEncoding(u: nat)
    requires u < P
    ensures DecodeInteger(LE(ToLE(u, FIELD_BYTES))) == u
  {
    hide LE, ToLE;
    Pow256Literals();
    LERoundTrip(u, FIELD_BYTES);
  }

  /**
   * The coordinate of the clamped multiple of the base point is what the ladder gives on any encoding of the base
   * coordinate.
   */
  lemma PublicKeysAgree(secret: seq<Byte>, encoded: seq<Byte>)
    requires CurveFacts() && |encoded| == FIELD_BYTES && DecodeInteger(LE(encoded)) == BASE_U
    ensures ReferenceX301(secret, encoded) == PublicKeyOf(secret)
  {
    hide Residue, PrimeField, NonSquare, IsAssociative, HasU, IsUnit, OutputOf, U, Multiple, Base, LE, DecodeInteger;
    hide ReferenceLadder, CurveOperations, OnAffine;
    if |secret| == FIELD_BYTES {
      BaseHasU();
      LadderIsMultiple(ClampInteger(LE(secret)), DecodeInteger(LE(encoded)), Base());
    }
  }

  /** An accepted public key decodes to an invertible u-coordinate of its point. */
  lemma PublicCoordinate(a: CurvePoint, public: seq<Byte>)
    requires PrimeField() && OutputOf(U(a)) == Ok(public)
    ensures |public| == FIELD_BYTES
    ensures var u := DecodeInteger(LE(public)); HasU(u, a) && IsUnit(u)
  {
    hide Residue, U;
    var w := InverseOf(U(a).z);
    var u := U(a).x * w % P;
    DecodedEncoding(u);
    CongMod(U(a).x * w);
    CongMul(u, U(a).x * w, U(a).z, U(a).z);
    Reassociate(U(a).x, w, U(a).z);
    Commute(w, U(a).z);
    CongMul(U(a).x, U(a).x, U(a).z * w, 1);
    CongTrans(u * U(a).z, U(a).x * (U(a).z * w), U(a).x * 1);
  }

  /** Both sides of an exchange derive the same secret, or both refuse. */
  lemma SharedSecretsAgree(first: seq<Byte>, second: seq<Byte>)
    requires CurveFacts() && PublicKeyOf(first).Ok? && PublicKeyOf(second).Ok?
    ensures ReferenceX301(first, PublicKeyOf(second).value)
         == ReferenceX301(second, PublicKeyOf(first).value)
  {
    hide Residue, PrimeField, NonSquare, IsAssociative, HasU, IsUnit, OutputOf, U, Mul, Base;
    var a, b := ClampInteger(LE(first)), ClampInteger(LE(second));
    var g := CurveOperations();
    LadderOnPublicKey(a, Multiple(b, Base()), PublicKeyOf(second).value);
    LadderOnPublicKey(b, Multiple(a, Base()), PublicKeyOf(first).value);
    CurveIsAbelian();
    assert IsAbelianGroup(g);
    MulMul(g, a, b, Base());
    MulMul(g, b, a, Base());
    Commute(a, b);
  }

  /** The ladder of `k` on the public key of the point `a` gives the u of [k]a. */
  lemma LadderOnPublicKey(k: nat, a: CurvePoint, public: seq<Byte>)
    requires CurveFacts() && k < 2 * TOP_BIT && OutputOf(U(a)) == Ok(public)
    ensures |public| == FIELD_BYTES
    ensures OutputOf(ReferenceLadder(k, DecodeInteger(LE(public)))) == OutputOf(U(Multiple(k, a)))
  {
    hide Residue, PrimeField, NonSquare, IsAssociative, HasU, IsUnit, OutputOf, U, Multiple;
    PublicCoordinate(a, public);
    LadderIsMultiple(k, DecodeInteger(LE(public)), a);
  }

  // ---- Every secret has a public key ----

  /** 1 - y vanishes only at the identity. */
  lemma IdentityHeight(a: CurvePoint)
    requires PrimeField() && Cong(U(a).z, 0)
    ensures a == Affine(0, 1)
  {
    hide Residue, PrimeField, IsUnit, OnQuadrics;
    AffineIs(a);
    CongSub(a.y, a.y, 1 - a.y, 0);
    CongAdd(1 - a.y, 0, a.y, a.y);
    CongSym(1, a.y);
    CongMul(a.y, 1, a.y, 1);
    UnitHeight(a);
    CongCanonical(a.y, 1);
  }

  /** Two is invertible modulo L. */
  lemma HalveMultiple(n: int)
    requires 2 * n % L == 0
    ensures n % L == 0
  {
    var q := 2 * n / L;
    var w := (L + 1) / 2;
    assert 2 * n == L * q;
    assert n == L * (q * w - n) by {
      assert (2 * w) * n == (L + 1) * n == L * n + n;
      assert (2 * n) * w == L * (q * w);
      assert (2 * w) * n == (2 * n) * w;
    }
    MultipleOf(q * w - n, L);
  }

  /** A coordinate pair with invertible parts has an encoding. */
  lemma InvertibleOutput(p: Point)
    requires PrimeField() && !Cong(p.x, 0) && !Cong(p.z, 0)
    ensures OutputOf(p).Ok?
  {
    hide Residue, PrimeField, IsUnit;
    ZeroOrUnit(p.z);
    ZeroOrUnit(p.x);
    var w := InverseOf(p.z);
    Commute(p.z, w);
    UnitWitness(w, p.z);
    UnitMul(p.x, w);
    UnitNotZero(p.x * w);
    CongSameResidue(p.x * w, 0);
  }

  /** With a base point of order L every 38-byte secret has a public key. */
  lemma PublicKeyExists(secret: seq<Byte>)
    requires CurveFacts() && HasOrder(CurveOperations(), Base(), L) && |secret| == FIELD_BYTES
    ensures PublicKeyOf(secret).Ok?
  {
    hide Residue, PrimeField, NonSquare, IsAssociative, IsAbelianGroup, HasOrder, IsUnit, OutputOf, U, Mul, Base, LE,
      SumOf;
    var g, k := CurveOperations(), ClampInteger(LE(secret));
    var a := Multiple(k, Base());
    CurveIsAbelian();
    ClampedMultipleNotIdentity(g, k, Base());
    if Cong(U(a).z, 0) {
      IdentityHeight(a);
    }
    if Cong(U(a).x, 0) {
      OrderTwoHeight(a);
      MulDouble(g, k, Base());
      OrderDivides(g, Base(), 2 * k);
      HalveMultiple(k);
      ClampedNotMultiple(k);
    }
    InvertibleOutput(U(a));
  }
}
