// Completeness: addition never leaves the affine points, because a is a square and d is not.
module EdwardsComplete {
  import opened Arithmetic
  import opened Modular
  import opened EdwardsFormulas

  /** a = 45677^2 */
  const ROOT_OF_A: int := 45677

  ghost predicate IsRoot(s: int, d: int) {
    Cong(s * s, d)
  }

  ghost predicate NonSquare(d: int) {
    forall s: int :: !IsRoot(s, d)
  }

  /** A point of the curve: on both quadrics with an invertible Z. */
  ghost predicate OnCurve(p: Extended) {
    OnQuadrics(p) && IsUnit(p.z)
  }

  /** `sx + ey` for a square root s of a. */
  function Root(e: int, x: int, y: int): int {
    ROOT_OF_A * x + e * y
  }

  lemma SquareExpanded(s: int, x: int, e: int, y: int)
    requires e * e == 1
    ensures (s * x + e * y) * (s * x + e * y) == (s * s) * (x * x) + y * y + 2 * (e * (s * (x * y)))
  {
    Foil(s * x, e * y, s * x, e * y);
    Exchange(s, x, s, x);
    Exchange(e, y, e, y);
    CrossMonomial(s, x, e, y);
  }

  lemma CrossMonomial(s: int, x: int, e: int, y: int)
    ensures (s * x) * (e * y) == e * (s * (x * y)) == (e * y) * (s * x)
  {
  }

  /** The square of the root on the other side of the quadrics. */
  lemma RootSquared(e: int, p: Extended)
    requires e * e == 1 && OnQuadrics(p)
    ensures Cong(Root(e, p.x, p.y) * Root(e, p.x, p.y),
                 Form(EDWARDS_D, p.t, p.z) + 2 * (e * (ROOT_OF_A * (p.t * p.z))))
  {
    hide OnQuadrics, Residue;
    QuadricsOf(p);
    SquareExpanded(ROOT_OF_A, p.x, e, p.y);
    assert ROOT_OF_A * ROOT_OF_A == EDWARDS_A;
    CongMul(ROOT_OF_A, ROOT_OF_A, p.x * p.y, p.t * p.z);
    CongMul(2 * e, 2 * e, ROOT_OF_A * (p.x * p.y), ROOT_OF_A * (p.t * p.z));
    TwiceScaled(e, ROOT_OF_A * (p.x * p.y));
    TwiceScaled(e, ROOT_OF_A * (p.t * p.z));
    CongAdd(Form(EDWARDS_A, p.x, p.y), Form(EDWARDS_D, p.t, p.z),
            (2 * e) * (ROOT_OF_A * (p.x * p.y)), (2 * e) * (ROOT_OF_A * (p.t * p.z)));
  }

  lemma TwiceScaled(e: int, u: int)
    ensures (2 * e) * u == 2 * (e * u)
  {
  }

  lemma CollapseLeft(d: int, s: int, e: int, t1: int, z1: int, t2: int, z2: int)
    ensures (z2 * z2) * (d * (t1 * t1) + z1 * z1 + 2 * (e * (s * (t1 * z1))))
         == d * ((t1 * z2) * (t1 * z2)) + (z1 * z2) * (z1 * z2) + 2 * ((s * (t1 * z2)) * (e * (z1 * z2)))
    ensures (d * (t1 * t1)) * (d * (t2 * t2) + z2 * z2 + 2 * (1 * (s * (t2 * z2))))
         == (d * (t1 * t2)) * (d * (t1 * t2)) + d * ((t1 * z2) * (t1 * z2)) + 2 * ((s * (t1 * z2)) * (d * (t1 * t2)))
  {
    LeftMonomials(d, s, e, t1, z1, z2);
    DistributeThree(z2 * z2, d * (t1 * t1), z1 * z1, e * (s * (t1 * z1)));
    RightMonomials(d, s, t1, t2, z2);
    DistributeThree(d * (t1 * t1), d * (t2 * t2), z2 * z2, s * (t2 * z2));
  }

  lemma DistributeThree(x: int, u: int, v: int, w: int)
    ensures x * (u + v + 2 * w) == x * u + x * v + 2 * (x * w)
  {
  }

  lemma LeftMonomials(d: int, s: int, e: int, t: int, z1: int, z2: int)
    ensures (z2 * z2) * (d * (t * t)) == d * ((t * z2) * (t * z2))
    ensures (z2 * z2) * (z1 * z1) == (z1 * z2) * (z1 * z2)
    ensures (z2 * z2) * (e * (s * (t * z1))) == (s * (t * z2)) * (e * (z1 * z2))
  {
    Exchange(t, z2, t, z2);
    Exchange(z1, z2, z1, z2);
    FiveFactors(s, e, t, z1, z2);
  }

  lemma FiveFactors(s: int, e: int, t: int, z1: int, z2: int)
    ensures (z2 * z2) * (e * (s * (t * z1))) == (s * (t * z2)) * (e * (z1 * z2))
  {
  }

  lemma RightMonomials(d: int, s: int, t1: int, t2: int, z: int)
    ensures (d * (t1 * t1)) * (d * (t2 * t2)) == (d * (t1 * t2)) * (d * (t1 * t2))
    ensures (d * (t1 * t1)) * (z * z) == d * ((t1 * z) * (t1 * z))
    ensures (d * (t1 * t1)) * (s * (t2 * z)) == (s * (t1 * z)) * (d * (t1 * t2))
  {
    SquaresScaled(d, t1, t2);
    SquaresInside(d, t1, z);
    SixFactors(d, s, t1, t2, z);
  }

  lemma SquaresScaled(d: int, x: int, y: int)
    ensures (d * (x * x)) * (d * (y * y)) == (d * (x * y)) * (d * (x * y))
  {
    Exchange(d, x * x, d, y * y);
    Exchange(d, x * y, d, x * y);
    Exchange(x, x, y, y);
  }

  lemma SquaresInside(d: int, x: int, y: int)
    ensures (d * (x * x)) * (y * y) == d * ((x * y) * (x * y))
  {
    Exchange(x, y, x, y);
    Reassociate(d, x * x, y * y);
  }

  lemma SixFactors(d: int, s: int, t1: int, t2: int, z: int)
    ensures (d * (t1 * t1)) * (s * (t2 * z)) == (s * (t1 * z)) * (d * (t1 * t2))
  {
    Exchange(d, t1 * t1, s, t2 * z);
    Exchange(s, t1 * z, d, t1 * t2);
    Exchange(t1, t1, t2, z);
    Exchange(t1, z, t1, t2);
    Commute(t1 * z, t1 * t2);
    Commute(t2 * z, t1 * t1);
    Commute(d, s);
  }

  lemma SquareOfCollapse(w: int, v: int, e: int)
    requires e * e == 1 && Cong(w, e * v)
    ensures Cong(w * w, v * v) && Cong(e * w, v)
  {
    hide Residue;
    CongMul(w, e * v, w, e * v);
    Exchange(e, v, e, v);
    CongMul(e, e, w, e * v);
    Reassociate(e, e, v);
  }

  /** If Z1 Z2 = e d T1 T2 then (z2 (s x1 + e y1))^2 = d (t1 (s x2 + y2))^2. */
  lemma CollapseSquares(p: Extended, q: Extended, e: int)
    requires OnQuadrics(p) && OnQuadrics(q) && e * e == 1
    requires Cong(p.z * q.z, e * (EDWARDS_D * (p.t * q.t)))
    ensures Cong((q.z * q.z) * (Root(e, p.x, p.y) * Root(e, p.x, p.y)),
                 (EDWARDS_D * (p.t * p.t)) * (Root(1, q.x, q.y) * Root(1, q.x, q.y)))
  {
    hide OnQuadrics, Residue, Root, Form;
    RootSquared(e, p);
    RootSquared(1, q);
    var a, b := Root(e, p.x, p.y) * Root(e, p.x, p.y), Root(1, q.x, q.y) * Root(1, q.x, q.y);
    var c := Form(EDWARDS_D, p.t, p.z) + 2 * (e * (ROOT_OF_A * (p.t * p.z)));
    var d := Form(EDWARDS_D, q.t, q.z) + 2 * (1 * (ROOT_OF_A * (q.t * q.z)));
    CongMul(q.z * q.z, q.z * q.z, a, c);
    CongMul(EDWARDS_D * (p.t * p.t), EDWARDS_D * (p.t * p.t), b, d);
    Collapsed(p, q, e);
    CongTrans((q.z * q.z) * a, (q.z * q.z) * c, (EDWARDS_D * (p.t * p.t)) * d);
    CongSym((EDWARDS_D * (p.t * p.t)) * b, (EDWARDS_D * (p.t * p.t)) * d);
    CongTrans((q.z * q.z) * a, (EDWARDS_D * (p.t * p.t)) * d, (EDWARDS_D * (p.t * p.t)) * b);
  }

  lemma Collapsed(p: Extended, q: Extended, e: int)
    requires e * e == 1 && Cong(p.z * q.z, e * (EDWARDS_D * (p.t * q.t)))
    ensures Cong((q.z * q.z) * (Form(EDWARDS_D, p.t, p.z) + 2 * (e * (ROOT_OF_A * (p.t * p.z)))),
                 (EDWARDS_D * (p.t * p.t)) * (Form(EDWARDS_D, q.t, q.z) + 2 * (1 * (ROOT_OF_A * (q.t * q.z)))))
  {
    hide Residue;
    var w, v := p.z * q.z, EDWARDS_D * (p.t * q.t);
    var m, k := EDWARDS_D * ((p.t * q.z) * (p.t * q.z)), ROOT_OF_A * (p.t * q.z);
    CollapseLeft(EDWARDS_D, ROOT_OF_A, e, p.t, p.z, q.t, q.z);
    SquareOfCollapse(w, v, e);
    CongMul(2 * k, 2 * k, e * w, v);
    TwiceScaled(k, e * w);
    TwiceScaled(k, v);
    CongAdd(m + w * w, m + v * v, 2 * (k * (e * w)), 2 * (k * v)) by {
      CongAdd(m, m, w * w, v * v);
    }
  }

  /** A unit multiple of d that is a square makes d a square. */
  lemma SquareQuotient(x: int, y: int, d: int)
    requires IsUnit(y) && Cong(x * x, d * (y * y))
    ensures !NonSquare(d)
  {
    hide Residue;
    var w :| Cong(y * w, 1);
    CongMul(x * x, d * (y * y), w * w, w * w);
    Exchange(x, w, x, w);
    Exchange(y, w, y, w);
    Reassociate(d, y * y, w * w);
    CongMul(y * w, 1, y * w, 1);
    CongMul(d, d, (y * w) * (y * w), 1 * 1);
    CongTrans((x * w) * (x * w), d * ((y * w) * (y * w)), d);
    assert IsRoot(x * w, d);
  }

  /** The root of the second point cannot be invertible. */
  lemma RootVanishes(p: Extended, q: Extended, e: int)
    requires PrimeField() && NonSquare(EDWARDS_D) && OnQuadrics(p) && OnQuadrics(q) && e * e == 1 && IsUnit(p.t)
    requires Cong(p.z * q.z, e * (EDWARDS_D * (p.t * q.t)))
    ensures Cong(Root(1, q.x, q.y), 0)
  {
    hide Residue, Root, IsUnit, NonSquare, PrimeField, OnQuadrics;
    var r, s := Root(e, p.x, p.y), Root(1, q.x, q.y);
    ZeroOrUnit(s);
    CollapseSquares(p, q, e);
    Exchange(q.z, q.z, r, r);
    Exchange(p.t, p.t, s, s);
    Reassociate(EDWARDS_D, p.t * p.t, s * s);
    if IsUnit(s) {
      UnitMul(p.t, s);
      SquareQuotient(q.z * r, p.t * s, EDWARDS_D);
    }
  }

  /** Z1 Z2 = e d T1 T2 is impossible on the curve. */
  lemma NeverCollapses(p: Extended, q: Extended, e: int)
    requires PrimeField() && NonSquare(EDWARDS_D) && OnCurve(p) && OnCurve(q) && e * e == 1
    ensures !Cong(p.z * q.z, e * (EDWARDS_D * (p.t * q.t)))
  {
    hide Residue, NonSquare, PrimeField, OnQuadrics, IsUnit;
    if Cong(p.z * q.z, e * (EDWARDS_D * (p.t * q.t))) {
      UnitMul(p.z, q.z);
      UnitCong(p.z * q.z, e * (EDWARDS_D * (p.t * q.t)));
      UnitFactor(e, EDWARDS_D * (p.t * q.t));
      UnitFactor(EDWARDS_D, p.t * q.t);
      UnitFactor(p.t, q.t);
      RootVanishes(p, q, e);
      NegateCloses(p);
      NegateCloses(q);
      Reflected(p, q);
      NegatedUnit(p.t);
      RootVanishes(Negate(p), Negate(q), e);
      BothRootsVanish(q);
      UnitMul(q.t, q.z);
      UnitNotZero(q.t * q.z);
    }
  }

  lemma Reflected(p: Extended, q: Extended)
    ensures Negate(p).t * Negate(q).t == p.t * q.t
  {
    assert (-p.t) * (-q.t) == p.t * q.t;
  }

  lemma NegatedUnit(t: int)
    requires IsUnit(t)
    ensures IsUnit(-t)
  {
    hide Residue;
    var w :| Cong(t * w, 1);
    assert (-t) * (-w) == t * w;
    UnitWitness(-t, -w);
  }

  /** Both roots vanish only when Y = 0, which makes ZT = 0. */
  lemma BothRootsVanish(q: Extended)
    requires OnQuadrics(q) && Cong(Root(1, q.x, q.y), 0) && Cong(Root(1, Negate(q).x, Negate(q).y), 0)
    ensures Cong(q.t * q.z, 0)
  {
    hide Residue, OnQuadrics;
    CongAdd(Root(1, q.x, q.y), 0, Root(1, -q.x, q.y), 0);
    assert Root(1, q.x, q.y) + Root(1, -q.x, q.y) == 2 * q.y;
    HalfOfZero(q.y);
    CongMul(q.x, q.x, q.y, 0);
    QuadricsOf(q);
    CongSym(q.x * q.y, q.t * q.z);
    CongTrans(q.t * q.z, q.x * q.y, q.x * 0);
  }

  lemma HalfOfZero(y: int)
    requires Cong(2 * y, 0)
    ensures Cong(y, 0)
  {
    hide Residue;
    CongIntro(2 * ((P + 1) / 2), 1, 1);
    UnitWitness(2, (P + 1) / 2);
    UnitCancel(2, y, 0);
  }

  /** The sum of two points of the curve is a point of the curve. */
  lemma AddComplete(p: Extended, q: Extended)
    requires PrimeField() && NonSquare(EDWARDS_D) && OnCurve(p) && OnCurve(q)
    ensures OnCurve(AddPoints(p, q))
  {
    hide Residue, NonSquare, PrimeField, OnQuadrics, IsUnit;
    AddCloses(p, q);
    NeverCollapses(p, q, 1);
    NeverCollapses(p, q, -1);
    var w, v := p.z * q.z, EDWARDS_D * (p.t * q.t);
    ZeroOrUnit(w - v);
    ZeroOrUnit(w + v);
    if Cong(w - v, 0) {
      CongAdd(w - v, 0, v, v);
    }
    if Cong(w + v, 0) {
      CongSub(w + v, 0, v, v);
    }
    UnitMul(w - v, w + v);
  }

  // ---- The validity check ----

  /** (aX^2 + Y^2) Z^2 */
  function EquationLeft(p: Extended): int {
    (EDWARDS_A * (p.x * p.x)) * (p.z * p.z) + (p.y * p.y) * (p.z * p.z)
  }

  /** Z^4 + dX^2 Y^2 */
  function EquationRight(p: Extended): int {
    (p.z * p.z) * (p.z * p.z) + (EDWARDS_D * (p.x * p.x)) * (p.y * p.y)
  }

  /** What `is_valid` tests besides Z != 0. */
  ghost predicate ProjectiveEquation(p: Extended) {
    Cong(p.x * p.y, p.z * p.t) && Cong(EquationLeft(p), EquationRight(p))
  }

  lemma ClearDenominators(p: Extended)
    requires Cong(p.x * p.y, p.t * p.z)
    ensures Cong((p.z * p.z) * Form(EDWARDS_D, p.t, p.z), EquationRight(p))
    ensures (p.z * p.z) * Form(EDWARDS_A, p.x, p.y) == EquationLeft(p)
  {
    hide Residue;
    var zz := p.z * p.z;
    Distribute(zz, EDWARDS_D * (p.t * p.t), zz);
    Distribute(zz, EDWARDS_A * (p.x * p.x), p.y * p.y);
    Commute(zz, EDWARDS_A * (p.x * p.x));
    Commute(zz, p.y * p.y);
    CongMul(p.x * p.y, p.t * p.z, p.x * p.y, p.t * p.z);
    CongSym((p.x * p.y) * (p.x * p.y), (p.t * p.z) * (p.t * p.z));
    CongMul(EDWARDS_D, EDWARDS_D, (p.t * p.z) * (p.t * p.z), (p.x * p.y) * (p.x * p.y));
    Exchange(p.t, p.z, p.t, p.z);
    Exchange(p.x, p.y, p.x, p.y);
    ScaledProduct(EDWARDS_D, p.t * p.t, zz);
    ScaledProduct(EDWARDS_D, p.x * p.x, p.y * p.y);
    CongAdd(zz * (EDWARDS_D * (p.t * p.t)), (EDWARDS_D * (p.x * p.x)) * (p.y * p.y), zz * zz, zz * zz);
  }

  lemma ScaledProduct(k: int, x: int, y: int)
    ensures k * (x * y) == (k * x) * y == y * (k * x)
  {
  }

  /** For an invertible Z the tested equation is membership of the quadrics, in both directions. */
  lemma ValidityIsMembership(p: Extended)
    requires IsUnit(p.z)
    ensures ProjectiveEquation(p) <==> OnQuadrics(p)
  {
    hide OnQuadrics, Residue, Form, IsUnit, EquationLeft, EquationRight;
    QuadricsOf(p);
    Commute(p.t, p.z);
    if Cong(p.x * p.y, p.t * p.z) {
      var zz, l, r := p.z * p.z, Form(EDWARDS_A, p.x, p.y), Form(EDWARDS_D, p.t, p.z);
      var right := EquationRight(p);
      ClearDenominators(p);
      UnitMul(p.z, p.z);
      if OnQuadrics(p) {
        CongMul(zz, zz, l, r);
        CongTrans(zz * l, zz * r, right);
      }
      if ProjectiveEquation(p) {
        CongSym(zz * r, right);
        CongTrans(zz * l, right, zz * r);
        UnitCancel(zz, l, r);
      }
    }
  }
}
