// The X301 ladder computes u-coordinates of curve multiples.
module LadderOnCurve {
  import opened Arithmetic
  import opened Wrappers
  import opened Words
  import opened Modular
  import opened LadderSpec
  import opened Scalars
  import opened Groups
  import opened EdwardsFormulas
  import opened EdwardsComplete
  import opened MontgomeryMap
  import opened CurveGroup
  import opened X301Core

  /** (1 + y : 1 - y) */
  function U(a: Affine): Point {
    Line(Rep(a))
  }

  /** `u` is the affine u-coordinate of `a`. */
  ghost predicate HasU(u: int, a: Affine) {
    IsUnit(U(a).z) && Cong(u * U(a).z, U(a).x)
  }

  // ---- One ladder step in terms of the group ----

  lemma RepresentedLine(e: Extended, a: Affine)
    requires IsUnit(e.z) && Represents(e, a)
    ensures UnitScaled(Line(e), U(a)) && Scaled(Line(e), U(a), e.z)
  {
    hide Residue, IsUnit;
    CongAdd(e.z, e.z, e.y, e.z * a.y);
    CongSub(e.z, e.z, e.y, e.z * a.y);
    Distribute(e.z, 1, a.y);
    Distribute(e.z, 1, -a.y);
    assert e.z * -a.y == -(e.z * a.y);
  }

  lemma DoubleStep(r: Point, a: CurvePoint)
    requires PrimeField() && NonSquare(EDWARDS_D) && UnitScaled(r, U(a))
    ensures UnitScaled(Double(r), U(SumOf(a, a)))
  {
    hide Residue, PrimeField, NonSquare, OnQuadrics, IsUnit, UnitScaled, AddPoints, DoublePoint, Double, Represents,
      SumOf;
    var e := AddPoints(Rep(a), Rep(a));
    RepOnCurve(a);
    DoubleKeepsLine(r, Rep(a));
    DoubleIsNegatedSum(Rep(a));
    SumRepresents(a, a);
    NegatedLine(DoublePoint(Rep(a)), e);
    RepresentedLine(e, SumOf(a, a));
    UnitScaledTrans(Double(r), Line(DoublePoint(Rep(a))), Line(e));
    UnitScaledTrans(Double(r), Line(e), U(SumOf(a, a)));
  }

  lemma NegatedLine(d: Extended, e: Extended)
    requires CongExtended(d, EdwardsFormulas.Scale(-1, e))
    ensures UnitScaled(Line(d), Line(e))
  {
    hide Residue;
    UnitWitness(1, 1);
    NegatedUnit(1);
    CongAdd(d.z, -1 * e.z, d.y, -1 * e.y);
    CongSub(d.z, -1 * e.z, d.y, -1 * e.y);
    assert Scaled(Line(d), Line(e), -1);
  }

  lemma DiffAddStep(u: int, r2: Point, a: CurvePoint, r3: Point, b: CurvePoint)
    requires PrimeField() && NonSquare(EDWARDS_D) && IsUnit(u)
    requires UnitScaled(r2, U(a)) && UnitScaled(r3, U(b)) && HasU(u, SumOf(b, NegativeOf(a)))
    ensures UnitScaled(DiffAdd(u, r2, r3), U(SumOf(a, b)))
  {
    hide Residue, PrimeField, NonSquare, OnQuadrics, IsUnit, UnitScaled, AddPoints, DiffAdd, Represents, SumOf,
      NegativeOf;
    var e := AddPoints(Rep(a), Rep(b));
    RepOnCurve(a);
    RepOnCurve(b);
    DifferenceLine(u, a, b);
    DiffAddKeepsLine(u, r2, Rep(a), r3, Rep(b));
    SumRepresents(a, b);
    RepresentedLine(e, SumOf(a, b));
    UnitScaledTrans(DiffAdd(u, r2, r3), Line(e), U(SumOf(a, b)));
  }

  /** The u of b - a is the u of the projective difference. */
  lemma DifferenceLine(u: int, a: CurvePoint, b: CurvePoint)
    requires PrimeField() && NonSquare(EDWARDS_D) && HasU(u, SumOf(b, NegativeOf(a)))
    ensures IsUnit(Line(AddPoints(Rep(b), Negate(Rep(a)))).z)
    ensures Cong(u * Line(AddPoints(Rep(b), Negate(Rep(a)))).z, Line(AddPoints(Rep(b), Negate(Rep(a)))).x)
  {
    hide Residue, PrimeField, NonSquare, OnQuadrics, IsUnit, AddPoints, SumOf, NegativeOf, Negate;
    var n := NegativeOf(a);
    var d := SumOf(b, n);
    var e, f := AddPoints(Rep(b), Rep(n)), AddPoints(Rep(b), Negate(Rep(a)));
    NegativeRepresents(a);
    SumRepresents(b, n);
    AddPointsCong(Rep(b), Rep(n), Negate(Rep(a)));
    RepresentedLine(e, d);
    CongAdd(e.z, f.z, e.y, f.y);
    CongSub(e.z, f.z, e.y, f.y);
    CongSym(Line(f).x, e.z * U(d).x);
    CongSym(Line(f).z, e.z * U(d).z);
    TransferU(u, e.z, U(d), Line(f));
  }

  lemma TransferU(u: int, s: int, p: Point, r: Point)
    requires IsUnit(s) && IsUnit(p.z) && Cong(u * p.z, p.x) && Scaled(r, p, s)
    ensures IsUnit(r.z) && Cong(u * r.z, r.x)
  {
    hide Residue, IsUnit;
    UnitMul(s, p.z);
    CongSym(r.z, s * p.z);
    UnitCong(s * p.z, r.z);
    CongMul(u, u, r.z, s * p.z);
    Swap(u, s, p.z);
    CongMul(s, s, u * p.z, p.x);
    CongTrans(u * r.z, s * (u * p.z), s * p.x);
    CongSym(r.x, s * p.x);
    CongTrans(u * r.z, s * p.x, r.x);
  }

  // ---- The whole run ----

  /** After the rounds for bits 300..i the two rungs are the lines of [m]B and [m + 1]B, m = k >> i. */
  ghost predicate RungsOnCurve(r: Rungs, m: int, base: CurvePoint) {
    && UnitScaled(if r.swap then r.p3 else r.p2, U(Multiple(m, base)))
    && UnitScaled(if r.swap then r.p2 else r.p3, U(Multiple(m + 1, base)))
  }

  /** `[m]B` on the curve. */
  ghost function Multiple(m: int, base: CurvePoint): CurvePoint {
    Mul(CurveOperations(), m, base)
  }

  lemma StartOnCurve(u: int, base: CurvePoint)
    requires CurveFacts() && HasU(u, base)
    ensures RungsOnCurve(Rungs(Point(1, 0), Point(u, 1), false), 0, base)
  {
    hide Residue, PrimeField, NonSquare, IsAssociative, OnQuadrics, IsUnit;
    var g := CurveOperations();
    CurveIsAbelian();
    MulOne(g, base);
    assert Mul(g, 0, base) == Affine(0, 1);
    SmallUnits();
    ExactlyScaled(U(Affine(0, 1)), Point(1, 0), 2);
    UnitScaledSym(U(Affine(0, 1)), Point(1, 0));
    var z := U(base).z;
    CongSym(u * z, U(base).x);
    Commute(u, z);
    assert Scaled(U(base), Point(u, 1), z);
    UnitScaledSym(U(base), Point(u, 1));
  }

  /** One round takes the multiples m, m + 1 to 2m + b, 2m + b + 1. */
  lemma RoundOnCurve(u: int, r: Rungs, m: nat, bit: bool, base: CurvePoint)
    requires CurveFacts() && HasU(u, base) && IsUnit(u) && RungsOnCurve(r, m, base)
    ensures RungsOnCurve(ReferenceRound(u, r, bit), 2 * m + (if bit then 1 else 0), base)
  {
    hide Residue, PrimeField, NonSquare, IsAssociative, IsAbelianGroup, OnQuadrics, IsUnit, UnitScaled, HasU, Mul,
      Double, DiffAdd, U;
    hide SumOf, NegativeOf;
    var g := CurveOperations();
    var a, b := Multiple(m, base), Multiple(m + 1, base);
    var low, high := if r.swap then r.p3 else r.p2, if r.swap then r.p2 else r.p3;
    CurveIsAbelian();
    MulDouble(g, m, base);
    MulDouble(g, m + 1, base);
    MulAdd(g, m, m + 1, base);
    MulAdd(g, m + 1, m, base);
    if bit {
      DoubleStep(high, b);
      DifferenceOfRungs(u, m, base, -1);
      DiffAddStep(u, high, b, low, a);
    } else {
      DoubleStep(low, a);
      DifferenceOfRungs(u, m, base, 1);
      DiffAddStep(u, low, a, high, b);
    }
  }

  lemma SameU(u: int, base: CurvePoint)
    requires HasU(u, base)
    ensures HasU(u, NegativeOf(base))
  {
    hide Residue, IsUnit, NegativeOf;
    NegativeRepresents(base);
  }

  /** The two rungs differ by the base point or its negative, which have the same u. */
  lemma DifferenceOfRungs(u: int, m: nat, base: CurvePoint, sign: int)
    requires CurveFacts() && HasU(u, base)
    ensures sign == 1 ==>
      HasU(u, SumOf(Multiple(m + 1, base), NegativeOf(Multiple(m, base))))
    ensures sign == -1 ==>
      HasU(u, SumOf(Multiple(m, base), NegativeOf(Multiple(m + 1, base))))
  {
    hide Residue, PrimeField, NonSquare, IsAssociative, IsAbelianGroup, OnQuadrics, IsUnit, Mul, SumOf, NegativeOf,
      HasU;
    var g := CurveOperations();
    CurveIsAbelian();
    MulOne(g, base);
    MulNeg(g, 1, base);
    SameU(u, base);
    if sign == 1 {
      MulNeg(g, m, base);
      MulAdd(g, m + 1, 0 - m, base);
    } else if sign == -1 {
      MulNeg(g, m + 1, base);
      MulAdd(g, m, 0 - (m + 1), base);
    }
  }

  /** The run down to bit `i` stands at the top bits of k. */
  ghost predicate RunOnCurve(k: nat, u: int, i: nat, base: CurvePoint) {
    i <= FIELD_BITS && RungsOnCurve(ReferenceRun(k, u, i), k / Pow2(i), base)
  }

  lemma {:induction false} RunStaysOnCurve(k: nat, u: int, i: nat, base: CurvePoint)
    requires CurveFacts() && HasU(u, base) && IsUnit(u) && k < 2 * TOP_BIT && i <= FIELD_BITS
    ensures RunOnCurve(k, u, i, base)
    decreases FIELD_BITS - i
  {
    hide Residue, CurveFacts, HasU, IsUnit, RungsOnCurve, ReferenceRound, Bit;
    if i == FIELD_BITS {
      StartOnCurve(u, base);
      AllBitsGone(k);
    } else {
      RunStaysOnCurve(k, u, i + 1, base);
      RoundOnCurve(u, ReferenceRun(k, u, i + 1), k / Pow2(i + 1), Bit(k, i), base);
      NextBit(k, i);
    }
  }

  lemma AllBitsGone(k: nat)
    requires k < 2 * TOP_BIT
    ensures k / Pow2(301) == 0
  {
    TopPower();
    assert Pow2(301) == 2 * Pow2(300);
  }

  lemma NextBit(k: nat, i: nat)
    ensures k / Pow2(i) == 2 * (k / Pow2(i + 1)) + (if Bit(k, i) then 1 else 0)
  {
    DivDiv(k, Pow2(i), 2);
    assert Pow2(i + 1) == Pow2(i) * 2;
  }

  lemma UnitInputIsMultiple(k: nat, u: int, base: CurvePoint)
    requires CurveFacts() && HasU(u, base) && IsUnit(u) && k < 2 * TOP_BIT
    ensures OutputOf(ReferenceLadder(k, u)) == OutputOf(U(Multiple(k, base)))
  {
    hide Residue, CurveFacts, HasU, IsUnit, OutputOf, U, Multiple, ReferenceRun, UnitScaled;
    RunStaysOnCurve(k, u, 0, base);
    assert k / Pow2(0) == k;
    OutputIgnoresScale(ReferenceLadder(k, u), U(Multiple(k, base)));
  }

  // ---- u = 0, the point of order two ----

  /** The points with y^2 = 1 have x = 0. */
  lemma UnitHeight(a: CurvePoint)
    requires PrimeField() && Cong(a.y * a.y, 1)
    ensures a.x == 0
  {
    hide Residue, PrimeField, IsUnit, OnQuadrics;
    AffineIs(a);
    var p, xx := Rep(a), a.x * a.x;
    QuadricsOf(p);
    Exchange(a.x, a.y, a.x, a.y);
    CongMul(xx, xx, a.y * a.y, 1);
    CongMul(EDWARDS_D, EDWARDS_D, p.t * p.t, xx);
    CongAdd(EDWARDS_A * xx, EDWARDS_A * xx, a.y * a.y, 1);
    CongAdd(EDWARDS_D * (p.t * p.t), EDWARDS_D * xx, 1, 1);
    CongSym(Form(EDWARDS_A, p.x, p.y), EDWARDS_A * xx + 1);
    CongTrans(EDWARDS_A * xx + 1, Form(EDWARDS_A, p.x, p.y), Form(EDWARDS_D, p.t, p.z));
    CongTrans(EDWARDS_A * xx + 1, Form(EDWARDS_D, p.t, p.z), EDWARDS_D * xx + 1);
    CongSub(EDWARDS_A * xx + 1, EDWARDS_D * xx + 1, EDWARDS_D * xx + 1, EDWARDS_D * xx + 1);
    DenominatorIsUnit();
    assert EDWARDS_A * xx + 1 - (EDWARDS_D * xx + 1) == A24_DENOMINATOR * xx;
    UnitCancel(A24_DENOMINATOR, xx, 0);
    ZeroOrUnit(a.x);
    if IsUnit(a.x) {
      ProductVanishes(a.x, a.x);
    }
    CongCanonical(a.x, 0);
  }

  /** 1 + y vanishes only at a point of order two. */
  lemma OrderTwoHeight(a: CurvePoint)
    requires PrimeField() && NonSquare(EDWARDS_D) && Cong(U(a).x, 0)
    ensures SumOf(a, a) == Affine(0, 1)
  {
    hide Residue, PrimeField, NonSquare, IsUnit, OnQuadrics, AddPoints;
    CongSub(1 + a.y, 0, 1, 1);
    CongMul(a.y, -1, a.y, -1);
    UnitHeight(a);
    SumIs(a, a);
    SumRepresents(a, a);
    DoubledOnAxis(a.y);
    IdentityOnCurve();
    NormalIs(AddPoints(Rep(a), Rep(a)), Affine(0, 1));
  }

  lemma DoubledOnAxis(y: int)
    ensures AddPoints(Extended(0, y, 1, 0 * y), Extended(0, y, 1, 0 * y)) == Extended(0, y * y, 1, 0)
  {
  }

  lemma OrderTwoMultiples(k: nat, base: CurvePoint)
    requires CurveFacts() && SumOf(base, base) == Affine(0, 1)
    ensures Multiple(k, base) == if k % 2 == 0 then Affine(0, 1) else base
  {
    hide PrimeField, NonSquare, IsAssociative, IsAbelianGroup, SumOf, Mul;
    CurveIsAbelian();
    OperationsAre(base, base);
    MulOrderTwo(CurveOperations(), k, base);
  }

  /** A zero coordinate on either side of the quotient is refused. */
  lemma AxisOutput(p: Point)
    requires Cong(p.z, 0) || (IsUnit(p.z) && Cong(p.x, 0))
    ensures OutputOf(p) == Err(AllZeroSharedSecret)
  {
    hide Residue, IsUnit, OutputOf;
    if Cong(p.z, 0) {
      OutputOfZero(p);
    } else {
      var w := UnitInverse(p.z);
      CongMul(p.x, 0, w, w);
      CongSym(p.x * w, 0);
      OutputOfUnit(p, w, 0);
    }
  }

  lemma ZeroInputIsMultiple(k: nat, base: CurvePoint)
    requires CurveFacts() && HasU(0, base)
    ensures OutputOf(ReferenceLadder(k, 0)) == OutputOf(U(Multiple(k, base)))
  {
    hide Residue, PrimeField, NonSquare, IsAssociative, IsUnit, OutputOf, Multiple, SumOf, ReferenceLadder, OnQuadrics;
    CongSym(0 * U(base).z, U(base).x);
    OrderTwoHeight(base);
    OrderTwoMultiples(k, base);
    ZeroInputVanishes(k);
    AxisOutput(ReferenceLadder(k, 0));
    AxisOutput(U(Multiple(k, base)));
  }

  /**
   * The ladder on the u of a point gives the u of its multiple, for every canonical u and every point that has one;
   * the point of order two has u = 0 and both sides refuse.
   */
  lemma LadderIsMultiple(k: nat, u: int, base: CurvePoint)
    requires CurveFacts() && HasU(u, base) && 0 <= u < P && k < 2 * TOP_BIT
    ensures OutputOf(ReferenceLadder(k, u)) == OutputOf(U(Multiple(k, base)))
  {
    hide Residue, NonSquare, IsAssociative, HasU, IsUnit, OutputOf, U, Multiple, ReferenceLadder;
    if u == 0 {
      ZeroInputIsMultiple(k, base);
    } else {
      UnitInputIsMultiple(k, u, base);
    }
  }
}
