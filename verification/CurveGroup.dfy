// The curve's affine points under the complete addition: closed, commutative, with identity and inverses.
module CurveGroup {
  import opened Arithmetic
  import opened Modular
  import opened Groups
  import opened EdwardsFormulas
  import opened EdwardsComplete

  datatype Affine = Affine(x: int, y: int)

  function Rep(a: Affine): Extended {
    FromAffine(a.x, a.y)
  }

  /** Canonical coordinates of an affine point whose extended form is on the quadrics; AffineIs gives them. */
  ghost predicate OnAffine(a: Affine) {
    forall b: Affine {:trigger Named(b, a)} ::
      Named(b, a) ==> 0 <= b.x < P && 0 <= b.y < P && OnQuadrics(Rep(b))
  }

  lemma AffineIs(a: Affine)
    ensures OnAffine(a) <==> 0 <= a.x < P && 0 <= a.y < P && OnQuadrics(Rep(a))
  {
    hide OnQuadrics;
    assert Named(a, a);
  }

  lemma IdentityOnCurve()
    ensures OnAffine(Affine(0, 1))
  {
    QuadricsOf(Rep(Affine(0, 1)));
    AffineIs(Affine(0, 1));
  }

  type CurvePoint = a: Affine | OnAffine(a) ghost witness (IdentityOnCurve(); Affine(0, 1))

  /** `a` has the affine coordinates of `e`. */
  ghost predicate Represents(e: Extended, a: Affine) {
    Cong(e.x, e.z * a.x) && Cong(e.y, e.z * a.y)
  }

  // ---- Every projective point of the curve has one affine point ----

  lemma FormCong(k: int, x: int, y: int, u: int, v: int)
    requires Cong(x, u) && Cong(y, v)
    ensures Cong(Form(k, x, y), Form(k, u, v))
  {
    hide Residue;
    CongMul(x, u, x, u);
    CongMul(k, k, x * x, u * u);
    CongMul(y, v, y, v);
    CongAdd(k * (x * x), k * (u * u), y * y, v * v);
  }

  lemma QuadricsOfCong(p: Extended, q: Extended)
    requires OnQuadrics(p) && CongExtended(p, q)
    ensures OnQuadrics(q)
  {
    hide Residue, OnQuadrics, Form;
    QuadricsOf(p);
    QuadricsOf(q);
    FormCong(EDWARDS_A, p.x, p.y, q.x, q.y);
    FormCong(EDWARDS_D, p.t, p.z, q.t, q.z);
    CongMul(p.x, q.x, p.y, q.y);
    CongMul(p.t, q.t, p.z, q.z);
  }

  lemma FormScaled(k: int, s: int, x: int, y: int)
    ensures Form(k, s * x, s * y) == (s * s) * Form(k, x, y)
  {
    Exchange(s, x, s, x);
    Exchange(s, y, s, y);
    Swap(k, s * s, x * x);
    Distribute(s * s, k * (x * x), y * y);
  }

  lemma ScaleCloses(s: int, p: Extended)
    requires OnQuadrics(p)
    ensures OnQuadrics(Scale(s, p))
  {
    hide Residue, OnQuadrics, Form;
    QuadricsOf(p);
    QuadricsOf(Scale(s, p));
    FormScaled(EDWARDS_A, s, p.x, p.y);
    FormScaled(EDWARDS_D, s, p.t, p.z);
    CongMul(s * s, s * s, Form(EDWARDS_A, p.x, p.y), Form(EDWARDS_D, p.t, p.z));
    Exchange(s, p.x, s, p.y);
    Exchange(s, p.t, s, p.z);
    CongMul(s * s, s * s, p.x * p.y, p.t * p.z);
  }

  /** `w e` for the inverse w of Z has Z = 1 and T = XY. */
  lemma NormalizedShape(e: Extended, w: int, x: int, y: int)
    requires OnQuadrics(e) && Cong(e.z * w, 1) && Cong(x, w * e.x) && Cong(y, w * e.y)
    ensures CongExtended(Scale(w, e), FromAffine(x, y))
  {
    hide Residue, OnQuadrics, Form;
    QuadricsOf(e);
    Commute(e.z, w);
    CongSym(x, w * e.x);
    CongSym(y, w * e.y);
    CongMul(w * e.x, x, w * e.y, y);
    Exchange(w, e.x, w, e.y);
    CongMul(w * w, w * w, e.x * e.y, e.t * e.z);
    Exchange(w, e.t, w, e.z);
    CongMul(w * e.t, w * e.t, w * e.z, 1);
    CongSym((w * e.t) * (w * e.z), (w * e.t) * 1);
    CongSym((w * w) * (e.x * e.y), (w * w) * (e.t * e.z));
    CongTrans(w * e.t, (w * w) * (e.t * e.z), (w * w) * (e.x * e.y));
    CongTrans(w * e.t, (w * e.x) * (w * e.y), x * y);
  }

  lemma NormalForm(e: Extended) returns (a: CurvePoint)
    requires OnCurve(e)
    ensures Represents(e, a)
  {
    hide Residue, OnQuadrics, IsUnit;
    var w := UnitInverse(e.z);
    var x, y := w * e.x % P, w * e.y % P;
    CongMod(w * e.x);
    CongMod(w * e.y);
    NormalizedShape(e, w, x, y);
    ScaleCloses(w, e);
    QuadricsOfCong(Scale(w, e), FromAffine(x, y));
    a := Affine(x, y);
    BackToProjective(e.z, w, e.x, x);
    BackToProjective(e.z, w, e.y, y);
  }

  lemma UnitInverse(z: int) returns (w: int)
    requires IsUnit(z)
    ensures Cong(z * w, 1)
  {
    w :| Cong(z * w, 1);
  }

  lemma BackToProjective(z: int, w: int, c: int, r: int)
    requires Cong(z * w, 1) && Cong(r, w * c)
    ensures Cong(c, z * r)
  {
    hide Residue;
    CongMul(z, z, r, w * c);
    Reassociate(z, w, c);
    CongMul(z * w, 1, c, c);
    CongTrans(z * r, (z * w) * c, 1 * c);
    CongSym(z * r, c);
  }

  lemma RepresentativeUnique(e: Extended, a: CurvePoint, b: CurvePoint)
    requires IsUnit(e.z) && Represents(e, a) && Represents(e, b)
    ensures a == b
  {
    hide Residue, OnQuadrics, IsUnit;
    AffineIs(a);
    AffineIs(b);
    CongSym(e.x, e.z * a.x);
    CongSym(e.y, e.z * a.y);
    CongTrans(e.z * a.x, e.x, e.z * b.x);
    CongTrans(e.z * a.y, e.y, e.z * b.y);
    UnitCancel(e.z, a.x, b.x);
    UnitCancel(e.z, a.y, b.y);
    CongCanonical(a.x, b.x);
    CongCanonical(a.y, b.y);
  }

  /** The affine point of a projective one, where there is one. */
  ghost function Normal(e: Extended): CurvePoint {
    IdentityOnCurve();
    if exists a: CurvePoint :: Represents(e, a) then
      var a: CurvePoint :| Represents(e, a);
      a
    else Affine(0, 1)
  }

  lemma NormalIs(e: Extended, a: CurvePoint)
    requires IsUnit(e.z) && Represents(e, a)
    ensures Normal(e) == a
  {
    hide Residue, OnQuadrics, IsUnit, Represents;
    RepresentativeUnique(e, a, Normal(e));
  }

  lemma NormalRepresents(e: Extended)
    requires OnCurve(e)
    ensures Represents(e, Normal(e))
  {
    hide Residue, OnQuadrics, IsUnit, Represents;
    var a := NormalForm(e);
    NormalIs(e, a);
  }

  // ---- The group operations ----

  ghost predicate IsSum(c: CurvePoint, a: CurvePoint, b: CurvePoint) {
    forall p: CurvePoint, q: CurvePoint {:trigger Named(p, a), Named(q, b)} ::
      Named(p, a) && Named(q, b) ==> c == Normal(AddPoints(Rep(p), Rep(q)))
  }

  /** The affine point of the complete addition, named for opacity; SumIs gives the plain meaning. */
  ghost function SumOf(a: CurvePoint, b: CurvePoint): CurvePoint {
    assert IsSum(Normal(AddPoints(Rep(a), Rep(b))), a, b);
    var c: CurvePoint :| IsSum(c, a, b);
    c
  }

  lemma SumIs(a: CurvePoint, b: CurvePoint)
    ensures SumOf(a, b) == Normal(AddPoints(Rep(a), Rep(b)))
  {
    hide Normal, AddPoints, OnQuadrics;
    assert Named(a, a) && Named(b, b);
  }

  ghost function NegativeOf(a: CurvePoint): CurvePoint {
    Normal(Negate(Rep(a)))
  }

  /** The complete addition on canonical affine points. */
  ghost function CurveOperations(): Group<CurvePoint> {
    IdentityOnCurve();
    Group<CurvePoint>.Group(Affine(0, 1), (a: CurvePoint, b: CurvePoint) => SumOf(a, b),
                            (a: CurvePoint) => NegativeOf(a))
  }

  /** What this model takes from the curve: p is prime, d is not a square, and the addition associates. */
  ghost predicate CurveFacts() {
    PrimeField() && NonSquare(EDWARDS_D) && IsAssociative(CurveOperations())
  }

  lemma RepOnCurve(a: CurvePoint)
    ensures OnCurve(Rep(a))
  {
    hide Residue, OnQuadrics;
    AffineIs(a);
    UnitWitness(1, 1);
  }

  /** The sum of two affine points is represented by the projective sum. */
  lemma SumRepresents(a: CurvePoint, b: CurvePoint)
    requires PrimeField() && NonSquare(EDWARDS_D)
    ensures OnCurve(AddPoints(Rep(a), Rep(b))) && Represents(AddPoints(Rep(a), Rep(b)), SumOf(a, b))
  {
    hide Residue, PrimeField, NonSquare, OnQuadrics, IsUnit, AddPoints, Represents;
    RepOnCurve(a);
    RepOnCurve(b);
    AddComplete(Rep(a), Rep(b));
    SumIs(a, b);
    NormalRepresents(AddPoints(Rep(a), Rep(b)));
  }

  /** The negative is (-x, y). */
  lemma NegativeRepresents(a: CurvePoint)
    ensures Represents(Negate(Rep(a)), NegativeOf(a)) && NegativeOf(a).y == a.y
    ensures CongExtended(Rep(NegativeOf(a)), Negate(Rep(a)))
  {
    hide Residue, OnQuadrics, IsUnit;
    AffineIs(a);
    AffineIs(NegativeOf(a));
    RepOnCurve(a);
    NegateCloses(Rep(a));
    NormalRepresents(Negate(Rep(a)));
    var n := NegativeOf(a);
    CongCanonical(a.y, n.y);
    CongSym(-a.x, n.x);
    CongMul(n.x, -a.x, a.y, a.y);
    assert (-a.x) * a.y == -(a.x * a.y);
  }

  lemma SumCommutes(a: CurvePoint, b: CurvePoint)
    ensures SumOf(a, b) == SumOf(b, a)
  {
    hide AddPoints;
    SumIs(a, b);
    SumIs(b, a);
    AddCommutes(Rep(a), Rep(b));
  }

  lemma SumIdentity(a: CurvePoint)
    requires PrimeField() && NonSquare(EDWARDS_D)
    ensures SumOf(CurveOperations().zero, a) == a
  {
    hide Residue, PrimeField, NonSquare, OnQuadrics, IsUnit, AddPoints;
    IdentityOnCurve();
    assert Rep(Affine(0, 1)) == IDENTITY;
    SumIs(Affine(0, 1), a);
    SumRepresents(Affine(0, 1), a);
    AddCommutes(Rep(a), IDENTITY);
    RepOnCurve(a);
    AddIdentity(Rep(a));
    var e := AddPoints(IDENTITY, Rep(a));
    CongMul(e.z, 1, a.x, a.x);
    CongMul(e.z, 1, a.y, a.y);
    NormalIs(e, a);
  }

  lemma AddPointsCong(p: Extended, q: Extended, r: Extended)
    requires CongExtended(q, r)
    ensures CongExtended(AddPoints(p, q), AddPoints(p, r))
  {
    hide Residue, Combine;
    TermCong(p.x, p.y, q.x, q.y, r.x, r.y, EDWARDS_A);
    TermCong(p.t, p.z, q.t, q.z, r.t, r.z, EDWARDS_D);
    CombineCong(CrossTerm(p, q), DifferenceTerm(p, q), SumTerm(p, q), TwistedTerm(p, q),
                CrossTerm(p, r), DifferenceTerm(p, r), SumTerm(p, r), TwistedTerm(p, r));
  }

  lemma TermCong(x: int, y: int, u: int, v: int, u': int, v': int, k: int)
    requires Cong(u, u') && Cong(v, v')
    ensures Cong(Cross(x, y, u, v), Cross(x, y, u', v'))
    ensures Cong(Minus(k, x, y, u, v), Minus(k, x, y, u', v')) && Cong(Plus(k, x, y, u, v), Plus(k, x, y, u', v'))
  {
    hide Residue;
    CongMul(x, x, v, v');
    CongMul(y, y, u, u');
    CongAdd(x * v, x * v', y * u, y * u');
    CongMul(y, y, v, v');
    CongMul(x, x, u, u');
    CongMul(k, k, x * u, x * u');
    CongSub(y * v, y * v', k * (x * u), k * (x * u'));
    CongAdd(y * v, y * v', k * (x * u), k * (x * u'));
  }

  lemma SumInverse(a: CurvePoint)
    requires PrimeField() && NonSquare(EDWARDS_D)
    ensures SumOf(a, NegativeOf(a)) == CurveOperations().zero
  {
    hide Residue, PrimeField, NonSquare, OnQuadrics, IsUnit, AddPoints;
    IdentityOnCurve();
    RepOnCurve(a);
    NegativeRepresents(a);
    SumIs(a, NegativeOf(a));
    SumRepresents(a, NegativeOf(a));
    var e, f := AddPoints(Rep(a), Rep(NegativeOf(a))), AddPoints(Rep(a), Negate(Rep(a)));
    AddPointsCong(Rep(a), Rep(NegativeOf(a)), Negate(Rep(a)));
    AddNegative(Rep(a));
    CongTrans(e.x, f.x, 0);
    CongSym(e.z, f.z);
    CongTrans(e.y, f.y, f.z);
    CongTrans(e.y, f.z, e.z);
    assert e.z * 0 == 0 && e.z * 1 == e.z;
    NormalIs(e, Affine(0, 1));
  }

  lemma OperationsAre(a: CurvePoint, b: CurvePoint)
    ensures CurveOperations().add(a, b) == SumOf(a, b)
    ensures CurveOperations().neg(a) == NegativeOf(a)
  {
    hide SumOf, NegativeOf;
  }

  lemma CommutesHere(a: CurvePoint, b: CurvePoint)
    ensures CommutesAt(CurveOperations(), a, b)
  {
    hide SumOf, NegativeOf, CurveOperations;
    OperationsAre(a, b);
    OperationsAre(b, a);
    SumCommutes(a, b);
  }

  lemma InvertsHere(a: CurvePoint)
    requires PrimeField() && NonSquare(EDWARDS_D)
    ensures InvertsAt(CurveOperations(), a)
  {
    hide SumOf, NegativeOf, CurveOperations, PrimeField, NonSquare;
    OperationsAre(CurveOperations().zero, a);
    OperationsAre(a, NegativeOf(a));
    SumIdentity(a);
    SumInverse(a);
  }

  lemma CurveIsCommutative()
    ensures IsCommutative(CurveOperations())
  {
    hide CommutesAt, CurveOperations;
    forall a: CurvePoint, b: CurvePoint
      ensures CommutesAt(CurveOperations(), a, b)
    {
      CommutesHere(a, b);
    }
  }

  lemma CurveHasInverses()
    requires PrimeField() && NonSquare(EDWARDS_D)
    ensures HasInverses(CurveOperations())
  {
    hide InvertsAt, CurveOperations, PrimeField, NonSquare;
    forall a: CurvePoint
      ensures InvertsAt(CurveOperations(), a)
    {
      InvertsHere(a);
    }
  }

  /** Given associativity, the curve is one of the groups the scalar-multiplication results are about. */
  lemma CurveIsAbelian()
    requires CurveFacts()
    ensures IsAbelianGroup(CurveOperations())
  {
    hide PrimeField, NonSquare, IsAssociative, IsCommutative, HasInverses, CurveOperations;
    CurveIsCommutative();
    CurveHasInverses();
  }
}
