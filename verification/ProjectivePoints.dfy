// Limb points as projective forms of curve points: what each shipped operation does to the point it stands for.
module ProjectivePoints {
  import opened Arithmetic
  import opened Modular
  import opened Groups
  import opened EdwardsFormulas
  import opened EdwardsComplete
  import opened EdwardsPoints
  import opened CurveGroup
  import opened LadderOnCurve

  /** `e` is a projective form of the affine point `a`. */
  ghost predicate Projective(e: Extended, a: CurvePoint) {
    OnCurve(e) && Represents(e, a)
  }

  lemma RepProjective(a: CurvePoint)
    ensures Projective(Rep(a), a)
  {
    hide Residue, OnQuadrics, IsUnit;
    RepOnCurve(a);
  }

  lemma RepresentsScaled(s: int, e: Extended, a: Affine)
    requires Represents(e, a)
    ensures Represents(Scale(s, e), a)
  {
    hide Residue;
    CongMul(s, s, e.x, e.z * a.x);
    CongMul(s, s, e.y, e.z * a.y);
    Reassociate(s, e.z, a.x);
    Reassociate(s, e.z, a.y);
  }

  lemma CongExtendedSym(e: Extended, f: Extended)
    requires CongExtended(e, f)
    ensures CongExtended(f, e)
  {
    hide Residue;
    CongSym(e.x, f.x);
    CongSym(e.y, f.y);
    CongSym(e.z, f.z);
    CongSym(e.t, f.t);
  }

  lemma CongExtendedTrans(e: Extended, f: Extended, h: Extended)
    requires CongExtended(e, f) && CongExtended(f, h)
    ensures CongExtended(e, h)
  {
    hide Residue;
    CongTrans(e.x, f.x, h.x);
    CongTrans(e.y, f.y, h.y);
    CongTrans(e.z, f.z, h.z);
    CongTrans(e.t, f.t, h.t);
  }

  lemma RepresentsOfCong(e: Extended, f: Extended, a: Affine)
    requires CongExtended(e, f) && Represents(f, a)
    ensures Represents(e, a)
  {
    hide Residue;
    CongSym(e.z, f.z);
    CongMul(f.z, e.z, a.x, a.x);
    CongMul(f.z, e.z, a.y, a.y);
    CongTrans(e.x, f.x, f.z * a.x);
    CongTrans(e.x, f.z * a.x, e.z * a.x);
    CongTrans(e.y, f.y, f.z * a.y);
    CongTrans(e.y, f.z * a.y, e.z * a.y);
  }

  /** Coordinates congruent to those of a form of `a` are a form of `a`. */
  lemma ProjectiveOfCong(e: Extended, f: Extended, a: CurvePoint)
    requires CongExtended(e, f) && Projective(f, a)
    ensures Projective(e, a)
  {
    hide Residue, OnQuadrics, IsUnit, Represents;
    CongExtendedSym(e, f);
    QuadricsOfCong(f, e);
    UnitCong(f.z, e.z);
    RepresentsOfCong(e, f, a);
  }

  lemma ProjectiveScaled(s: int, e: Extended, a: CurvePoint)
    requires IsUnit(s) && Projective(e, a)
    ensures Projective(Scale(s, e), a)
  {
    hide Residue, OnQuadrics, IsUnit, Represents;
    ScaleCloses(s, e);
    UnitMul(s, e.z);
    RepresentsScaled(s, e, a);
  }

  /** Every form of `a` is `Rep(a)` times its Z, T included. */
  lemma FormIsScaled(e: Extended, a: CurvePoint)
    requires Projective(e, a)
    ensures CongExtended(e, Scale(e.z, Rep(a)))
  {
    hide Residue, OnQuadrics, IsUnit, Form;
    QuadricsOf(e);
    CongMul(e.x, e.z * a.x, e.y, e.z * a.y);
    CongSym(e.x * e.y, e.t * e.z);
    CongTrans(e.t * e.z, e.x * e.y, (e.z * a.x) * (e.z * a.y));
    Commute(e.t, e.z);
    Exchange(e.z, a.x, e.z, a.y);
    Reassociate(e.z, e.z, a.x * a.y);
    UnitCancel(e.z, e.t, e.z * (a.x * a.y));
  }

  /** The complete addition of any two forms is a form of the sum. */
  lemma SumOfForms(p: Extended, a: CurvePoint, q: Extended, b: CurvePoint)
    requires PrimeField() && NonSquare(EDWARDS_D) && Projective(p, a) && Projective(q, b)
    ensures Projective(AddPoints(p, q), SumOf(a, b))
  {
    hide Residue, PrimeField, NonSquare, OnQuadrics, IsUnit, Represents, AddPoints, Rep, Scale, CongExtended, SumOf;
    var sum := AddPoints(Rep(a), Rep(b));
    var p', q' := Scale(p.z, Rep(a)), Scale(q.z, Rep(b));
    AddComplete(p, q);
    FormIsScaled(p, a);
    FormIsScaled(q, b);
    AddPointsCong(p, q, q');
    AddCommutes(p, q');
    AddPointsCong(q', p, p');
    CongExtendedTrans(AddPoints(p, q), AddPoints(p, q'), AddPoints(q', p'));
    AddScaled(q.z, Rep(b), p');
    AddCommutes(Rep(b), p');
    AddScaled(p.z, Rep(a), Rep(b));
    SumRepresents(a, b);
    RepresentsScaled(p.z * p.z, sum, SumOf(a, b));
    RepresentsScaled(q.z * q.z, Scale(p.z * p.z, sum), SumOf(a, b));
    RepresentsOfCong(AddPoints(p, q), AddPoints(q', p'), SumOf(a, b));
  }

  /** The dedicated doubling of a form is a form of the double. */
  lemma DoubleOfForm(p: Extended, a: CurvePoint)
    requires PrimeField() && NonSquare(EDWARDS_D) && Projective(p, a)
    ensures Projective(DoublePoint(p), SumOf(a, a))
  {
    hide Residue, PrimeField, NonSquare, OnQuadrics, IsUnit, Represents, AddPoints, DoublePoint, CongExtended, SumOf;
    SumOfForms(p, a, p, a);
    DoubleIsNegatedSum(p);
    UnitWitness(-1, -1);
    ProjectiveScaled(-1, AddPoints(p, p), SumOf(a, a));
    ProjectiveOfCong(DoublePoint(p), Scale(-1, AddPoints(p, p)), SumOf(a, a));
  }

  /** Adding a cached point to a form is a form of the sum. */
  lemma MixedSumOfForms(p: Extended, a: CurvePoint, n: Niels, b: CurvePoint)
    requires PrimeField() && NonSquare(EDWARDS_D) && Projective(p, a)
    requires CachesAffine(n) && n.x == b.x && n.y == b.y
    ensures Projective(AddCached(p, n), SumOf(a, b))
  {
    hide Residue, PrimeField, NonSquare, OnQuadrics, IsUnit, AddPoints, AddCached, CachesAffine, CongExtended, SumOf;
    hide Represents;
    RepProjective(b);
    SumOfForms(p, a, Rep(b), b);
    AddCachedIsAdd(p, n);
    ProjectiveOfCong(AddCached(p, n), AddPoints(p, Rep(b)), SumOf(a, b));
  }

  /** The negative of a form is a form of the negative. */
  lemma NegateOfForm(p: Extended, a: CurvePoint)
    requires Projective(p, a)
    ensures Projective(Negate(p), NegativeOf(a))
  {
    hide Residue, OnQuadrics, IsUnit;
    NegateCloses(p);
    NegativeRepresents(a);
    var n := NegativeOf(a);
    CongSub(0, 0, p.x, p.z * a.x);
    CongSym(n.x, -a.x);
    CongMul(p.z, p.z, -a.x, n.x);
    assert p.z * -a.x == -(p.z * a.x);
    CongTrans(-p.x, p.z * -a.x, p.z * n.x);
  }

  /** A form is a form of the identity exactly when X = 0 and Y = Z. */
  lemma IdentityForm(p: Extended, a: CurvePoint)
    requires Projective(p, a)
    ensures Cong(p.x, 0) && Cong(p.y, p.z) <==> a == Affine(0, 1)
  {
    hide Residue, OnQuadrics, IsUnit;
    AffineIs(a);
    if Cong(p.x, 0) && Cong(p.y, p.z) {
      CongSym(p.x, p.z * a.x);
      CongTrans(p.z * a.x, p.x, 0);
      assert p.z * 0 == 0 && p.z * 1 == p.z;
      UnitCancel(p.z, a.x, 0);
      CongSym(p.y, p.z * a.y);
      CongTrans(p.z * a.y, p.y, p.z * 1);
      UnitCancel(p.z, a.y, 1);
      CongCanonical(a.x, 0);
      CongCanonical(a.y, 1);
    }
    if a == Affine(0, 1) {
      assert p.z * a.x == 0 && p.z * a.y == p.z;
    }
  }

  // ---- Limb points and the curve point they stand for ----

  /** Given the curve facts, the limb point stands for `a`. */
  ghost predicate PointAt(p: EdwardsPoint, a: CurvePoint) {
    CurveFacts() ==> Projective(p.Coordinates(), a)
  }

  /** Given the curve facts, the cached limb point stands for `a`. */
  ghost predicate EntryAt(e: AffineNielsPoint, a: CurvePoint) {
    && CachesAffine(e.Ints())
    && (CurveFacts() ==> e.x.Int() == a.x && e.y.Int() == a.y)
  }

  lemma SumAt(p: EdwardsPoint, a: CurvePoint, q: EdwardsPoint, b: CurvePoint, r: EdwardsPoint)
    requires PointAt(p, a) && PointAt(q, b)
    requires CongExtended(r.Coordinates(), AddPoints(p.Coordinates(), q.Coordinates()))
    ensures PointAt(r, SumOf(a, b))
  {
    hide AddPoints, CongExtended, Projective, PrimeField, NonSquare, IsAssociative, SumOf;
    if CurveFacts() {
      SumOfForms(p.Coordinates(), a, q.Coordinates(), b);
      ProjectiveOfCong(r.Coordinates(), AddPoints(p.Coordinates(), q.Coordinates()), SumOf(a, b));
    }
  }

  lemma DoubleAt(p: EdwardsPoint, a: CurvePoint, r: EdwardsPoint)
    requires PointAt(p, a) && CongExtended(r.Coordinates(), DoublePoint(p.Coordinates()))
    ensures PointAt(r, SumOf(a, a))
  {
    hide DoublePoint, CongExtended, Projective, PrimeField, NonSquare, IsAssociative, SumOf;
    if CurveFacts() {
      DoubleOfForm(p.Coordinates(), a);
      ProjectiveOfCong(r.Coordinates(), DoublePoint(p.Coordinates()), SumOf(a, a));
    }
  }

  lemma MixedSumAt(p: EdwardsPoint, a: CurvePoint, e: AffineNielsPoint, b: CurvePoint, r: EdwardsPoint)
    requires PointAt(p, a) && EntryAt(e, b)
    requires CongExtended(r.Coordinates(), AddCached(p.Coordinates(), e.Ints()))
    ensures PointAt(r, SumOf(a, b))
  {
    hide AddCached, CachesAffine, CongExtended, Projective, PrimeField, NonSquare, IsAssociative, SumOf;
    if CurveFacts() {
      MixedSumOfForms(p.Coordinates(), a, e.Ints(), b);
      ProjectiveOfCong(r.Coordinates(), AddCached(p.Coordinates(), e.Ints()), SumOf(a, b));
    }
  }

  lemma NegatedAt(p: EdwardsPoint, a: CurvePoint, r: EdwardsPoint)
    requires PointAt(p, a) && CongExtended(r.Coordinates(), Negate(p.Coordinates()))
    ensures PointAt(r, NegativeOf(a))
  {
    hide CongExtended, Projective, PrimeField, NonSquare, IsAssociative, NegativeOf;
    if CurveFacts() {
      NegateOfForm(p.Coordinates(), a);
      ProjectiveOfCong(r.Coordinates(), Negate(p.Coordinates()), NegativeOf(a));
    }
  }

  lemma EntryNegatedAt(e: AffineNielsPoint, a: CurvePoint, r: AffineNielsPoint)
    requires EntryAt(e, a) && CachesAffine(r.Ints())
    requires Cong(r.x.Int(), -e.x.Int()) && r.y == e.y
    ensures EntryAt(r, NegativeOf(a))
  {
    hide Residue, CachesAffine, PrimeField, NonSquare, IsAssociative, NegativeOf;
    AffineIs(NegativeOf(a));
    if CurveFacts() {
      NegativeRepresents(a);
      CongSym(NegativeOf(a).x, -a.x);
      CongTrans(r.x.Int(), -a.x, NegativeOf(a).x);
      CongCanonical(r.x.Int(), NegativeOf(a).x);
    }
  }

  /** The entry of a form, by whichever inverse of Z, has the affine coordinates of its point. */
  lemma EntryOfPoint(e: AffineNielsPoint, p: EdwardsPoint, a: CurvePoint)
    requires PointAt(p, a) && IsEntryOf(e, p)
    ensures EntryAt(e, a)
  {
    hide Residue, CachesAffine, OnQuadrics, PrimeField, NonSquare, IsAssociative, IsUnit;
    AffineIs(a);
    if CurveFacts() {
      var c := p.Coordinates();
      var w := UnitInverse(c.z);
      Normalized(c.x, c.z, w, a.x);
      Normalized(c.y, c.z, w, a.y);
    }
  }

  // ---- Multiples of a base ----

  ghost predicate PointIs(p: EdwardsPoint, n: int, base: CurvePoint) {
    PointAt(p, Multiple(n, base))
  }

  ghost predicate EntryIs(e: AffineNielsPoint, n: int, base: CurvePoint) {
    EntryAt(e, Multiple(n, base))
  }

  lemma SumOfMultiples(m: int, n: int, base: CurvePoint)
    ensures CurveFacts() ==> SumOf(Multiple(m, base), Multiple(n, base)) == Multiple(m + n, base)
  {
    hide PrimeField, NonSquare, IsAssociative, IsAbelianGroup, CurveOperations, SumOf, Mul;
    if CurveFacts() {
      CurveIsAbelian();
      MulAdd(CurveOperations(), m, n, base);
      OperationsAre(Multiple(m, base), Multiple(n, base));
    }
  }

  lemma NegativeOfMultiple(n: int, base: CurvePoint)
    ensures CurveFacts() ==> NegativeOf(Multiple(n, base)) == Multiple(-n, base)
  {
    hide PrimeField, NonSquare, IsAssociative, IsAbelianGroup, CurveOperations, NegativeOf, Mul;
    if CurveFacts() {
      CurveIsAbelian();
      MulNeg(CurveOperations(), n, base);
      OperationsAre(Multiple(n, base), Multiple(n, base));
    }
  }

  lemma PointSum(p: EdwardsPoint, m: int, q: EdwardsPoint, n: int, base: CurvePoint, r: EdwardsPoint)
    requires PointIs(p, m, base) && PointIs(q, n, base)
    requires CongExtended(r.Coordinates(), AddPoints(p.Coordinates(), q.Coordinates()))
    ensures PointIs(r, m + n, base)
  {
    hide AddPoints, CongExtended, Projective, CurveFacts, SumOf, Multiple;
    SumAt(p, Multiple(m, base), q, Multiple(n, base), r);
    SumOfMultiples(m, n, base);
  }

  lemma PointDouble(p: EdwardsPoint, n: int, base: CurvePoint, r: EdwardsPoint)
    requires PointIs(p, n, base) && CongExtended(r.Coordinates(), DoublePoint(p.Coordinates()))
    ensures PointIs(r, 2 * n, base)
  {
    hide DoublePoint, CongExtended, Projective, CurveFacts, SumOf, Multiple;
    DoubleAt(p, Multiple(n, base), r);
    SumOfMultiples(n, n, base);
  }

  lemma PointMixedSum(p: EdwardsPoint, m: int, e: AffineNielsPoint, n: int, base: CurvePoint, r: EdwardsPoint)
    requires PointIs(p, m, base) && EntryIs(e, n, base)
    requires CongExtended(r.Coordinates(), AddCached(p.Coordinates(), e.Ints()))
    ensures PointIs(r, m + n, base)
  {
    hide AddCached, CachesAffine, CongExtended, Projective, CurveFacts, SumOf, Multiple;
    MixedSumAt(p, Multiple(m, base), e, Multiple(n, base), r);
    SumOfMultiples(m, n, base);
  }

  lemma EntryNegated(e: AffineNielsPoint, n: int, base: CurvePoint, r: AffineNielsPoint)
    requires EntryIs(e, n, base) && CachesAffine(r.Ints())
    requires Cong(r.x.Int(), -e.x.Int()) && r.y == e.y
    ensures EntryIs(r, -n, base)
  {
    hide CachesAffine, CurveFacts, NegativeOf, Multiple, Residue;
    EntryNegatedAt(e, Multiple(n, base), r);
    NegativeOfMultiple(n, base);
  }

  lemma EntryOfMultiple(e: AffineNielsPoint, p: EdwardsPoint, n: int, base: CurvePoint)
    requires PointIs(p, n, base) && IsEntryOf(e, p)
    ensures EntryIs(e, n, base)
  {
    hide CurveFacts, IsEntryOf, Multiple;
    EntryOfPoint(e, p, Multiple(n, base));
  }

  lemma Normalized(c: int, z: int, w: int, r: int)
    requires Cong(z * w, 1) && Cong(c, z * r) && 0 <= r < P
    ensures c * w % P == r
  {
    hide Residue;
    CongMul(c, z * r, w, w);
    assert (z * r) * w == (z * w) * r;
    CongMul(z * w, 1, r, r);
    CongTrans(c * w, (z * w) * r, r);
    CongSameResidue(c * w, r);
  }
}
