// The ladder's x-line formulas are the Edwards formulas seen through u = (Z + Y) / (Z - Y).
module MontgomeryMap {
  import opened Arithmetic
  import opened Modular
  import opened LadderSpec
  import opened EdwardsFormulas
  import opened EdwardsComplete

  /** The projective u coordinate of a point: (Z + Y : Z - Y). */
  function Line(p: Extended): Point {
    Point(p.z + p.y, p.z - p.y)
  }

  function Sq(x: int): int {
    x * x
  }

  // ---- What the quadrics say about squares of coordinates ----

  /** d X Y = Z (aX + Y - Z) for the squares of the coordinates. */
  ghost predicate SquaresOnCurve(x: int, y: int, z: int) {
    Cong(EDWARDS_D * (x * y), z * (EDWARDS_A * x + y - z))
  }

  lemma CurveSquares(p: Extended)
    requires OnQuadrics(p)
    ensures SquaresOnCurve(Sq(p.x), Sq(p.y), Sq(p.z))
  {
    hide OnQuadrics, Residue;
    var x, y, z, t := Sq(p.x), Sq(p.y), Sq(p.z), Sq(p.t);
    QuadricsOf(p);
    CongMul(z, z, EDWARDS_A * x + y, EDWARDS_D * t + z);
    CongMul(p.x * p.y, p.t * p.z, p.x * p.y, p.t * p.z);
    Exchange(p.x, p.y, p.x, p.y);
    Exchange(p.t, p.z, p.t, p.z);
    CongMul(EDWARDS_D, EDWARDS_D, x * y, t * z);
    CongSub(z * (EDWARDS_A * x + y), z * (EDWARDS_D * t + z), z * z, z * z);
    MultiplyOut(x, y, z, t);
    CongSym(z * (EDWARDS_A * x + y) - z * z, z * (EDWARDS_D * t + z) - z * z);
    CongTrans(EDWARDS_D * (x * y), EDWARDS_D * (t * z), z * (EDWARDS_A * x + y - z));
  }

  lemma MultiplyOut(x: int, y: int, z: int, t: int)
    ensures z * (EDWARDS_A * x + y) - z * z == z * (EDWARDS_A * x + y - z)
    ensures z * (EDWARDS_D * t + z) - z * z == EDWARDS_D * (t * z)
  {
  }

  // ---- Doubling ----

  /** aZ - dY */
  function Weight(p: Extended): int {
    EDWARDS_A * Sq(p.z) - EDWARDS_D * Sq(p.y)
  }

  /** `(Z - aX : Z - Y)`, the line of the double up to scale. */
  function DoubleLine(p: Extended): Point {
    Point(Sq(p.z) - EDWARDS_A * Sq(p.x), Sq(p.z) - Sq(p.y))
  }

  lemma LineDoubled(z: int, y: int)
    ensures SquareOf(2 * z) == 4 * (z * z)
    ensures SquareOf(z + y + (z - y)) == 4 * (z * z) && SquareOf(z + y - (z - y)) == 4 * (y * y)
  {
    SquareIs(2 * z);
    SquareIs(z + y + (z - y));
    SquareIs(z + y - (z - y));
  }

  lemma DoubledProducts(q: int, z: int, y: int)
    ensures ((4 * z) * q) * (4 * y) == 16 * (q * (z * y))
    ensures (4 * z - 4 * y) * ((4 * z) * q + (4 * z - 4 * y) * 301) == 16 * ((z - y) * ((q + 301) * z - 301 * y))
  {
    calc {
      (4 * z - 4 * y) * ((4 * z) * q + (4 * z - 4 * y) * 301);
      (4 * (z - y)) * (4 * ((q + 301) * z - 301 * y));
      16 * ((z - y) * ((q + 301) * z - 301 * y));
    }
  }

  /** The scaled ladder doubling of a line. */
  lemma ScaledDoubleOfLine(p: Extended)
    ensures DoubleScaled(Line(p))
         == Point(16 * (A24_DENOMINATOR * (Sq(p.z) * Sq(p.y))), 16 * ((Sq(p.z) - Sq(p.y)) * Weight(p)))
  {
    hide SquareOf;
    LineDoubled(p.z, p.y);
    DoubledProducts(A24_DENOMINATOR, Sq(p.z), Sq(p.y));
  }

  lemma FactorForm(s: int, x: int, y: int, z: int)
    requires s == EDWARDS_A * x + y
    ensures (s - 2 * z) * s + s * (EDWARDS_A * x - y) == (-2 * s) * (z - EDWARDS_A * x)
    ensures (s - 2 * z) * s - s * (EDWARDS_A * x - y) == (-2 * s) * (z - y)
  {
  }

  /** The line of the Edwards double. */
  lemma LineOfDouble(p: Extended)
    ensures Line(DoublePoint(p)).x == (-2 * Form(EDWARDS_A, p.x, p.y)) * DoubleLine(p).x
    ensures Line(DoublePoint(p)).z == (-2 * Form(EDWARDS_A, p.x, p.y)) * DoubleLine(p).z
  {
    FactorForm(Form(EDWARDS_A, p.x, p.y), Sq(p.x), Sq(p.y), Sq(p.z));
  }

  /** (Z - aX)(aZ - dY) = q Z Y on the curve. */
  lemma WeightRelation(x: int, y: int, z: int)
    requires SquaresOnCurve(x, y, z)
    ensures Cong((z - EDWARDS_A * x) * (EDWARDS_A * z - EDWARDS_D * y), A24_DENOMINATOR * (z * y))
  {
    hide Residue;
    var e := EDWARDS_A * x + y - z;
    CongMul(EDWARDS_A, EDWARDS_A, EDWARDS_D * (x * y), z * e);
    var rest := EDWARDS_A * (z * z) - EDWARDS_D * (z * y) - EDWARDS_A * (EDWARDS_A * (x * z));
    CongAdd(rest, rest, EDWARDS_A * (EDWARDS_D * (x * y)), EDWARDS_A * (z * e));
    WeightExpanded(x, y, z);
  }

  lemma WeightExpanded(x: int, y: int, z: int)
    ensures EDWARDS_A * (z * z) - EDWARDS_D * (z * y) - EDWARDS_A * (EDWARDS_A * (x * z))
            + EDWARDS_A * (EDWARDS_D * (x * y))
         == (z - EDWARDS_A * x) * (EDWARDS_A * z - EDWARDS_D * y)
    ensures EDWARDS_A * (z * z) - EDWARDS_D * (z * y) - EDWARDS_A * (EDWARDS_A * (x * z))
            + EDWARDS_A * (z * (EDWARDS_A * x + y - z))
         == A24_DENOMINATOR * (z * y)
  {
  }

  /** On the curve the scaled ladder doubling of a line is the line of the double, times 16 (aZ - dY). */
  lemma DoubleOnLine(p: Extended)
    requires OnQuadrics(p)
    ensures Scaled(DoubleScaled(Line(p)), DoubleLine(p), 16 * Weight(p))
    ensures Line(DoublePoint(p)) == Point((-2 * Form(EDWARDS_A, p.x, p.y)) * DoubleLine(p).x,
                                          (-2 * Form(EDWARDS_A, p.x, p.y)) * DoubleLine(p).z)
  {
    hide Residue, DoubleScaled, DoublePoint, OnQuadrics, SquaresOnCurve, Sq;
    var x, y, z := Sq(p.x), Sq(p.y), Sq(p.z);
    ScaledDoubleOfLine(p);
    LineOfDouble(p);
    CurveSquares(p);
    WeightRelation(x, y, z);
    CongMul(16, 16, (z - EDWARDS_A * x) * Weight(p), A24_DENOMINATOR * (z * y));
    CongSym(16 * ((z - EDWARDS_A * x) * Weight(p)), 16 * (A24_DENOMINATOR * (z * y)));
    Sixteen(Weight(p), z - EDWARDS_A * x);
    Sixteen(Weight(p), z - y);
  }

  lemma Sixteen(w: int, u: int)
    ensures (16 * w) * u == 16 * (u * w)
  {
  }

  // ---- Differential addition ----

  lemma CrossBracket(x1: int, y1: int, z1: int, x2: int, y2: int, z2: int)
    ensures z1 * z2 + y1 * y2 - EDWARDS_A * (EDWARDS_A * (x1 * x2))
            - (EDWARDS_A * x1 + (y1 - z1)) * (EDWARDS_A * x2 + (y2 - z2))
         == y2 * z1 + z2 * y1
            - EDWARDS_A * ((EDWARDS_A * x2 + (y2 - z2)) * x1 + (EDWARDS_A * x1 + (y1 - z1)) * x2)
  {
    Foil(EDWARDS_A * x1, y1 - z1, EDWARDS_A * x2, y2 - z2);
    Foil(y1, z1, y2, z2);
    Scalars(x1, x2, y1 - z1, y2 - z2);
  }

  lemma Scalars(x1: int, x2: int, f1: int, f2: int)
    ensures (EDWARDS_A * x1) * (EDWARDS_A * x2) == EDWARDS_A * (EDWARDS_A * (x1 * x2))
    ensures (EDWARDS_A * x1) * f2 == EDWARDS_A * (x1 * f2) && f1 * (EDWARDS_A * x2) == EDWARDS_A * (x2 * f1)
    ensures (EDWARDS_A * x2 + f2) * x1 == EDWARDS_A * (x1 * x2) + x1 * f2
    ensures (EDWARDS_A * x1 + f1) * x2 == EDWARDS_A * (x1 * x2) + x2 * f1
  {
  }

  /** The left side of the bracket relation, over squares of coordinates. */
  function BracketLeft(x1: int, y1: int, z1: int, x2: int, y2: int, z2: int): int {
    (z1 * z2) * (z1 * z2 + y1 * y2 - EDWARDS_A * (EDWARDS_A * (x1 * x2)))
    - (EDWARDS_D * (x1 * y1)) * (EDWARDS_D * (x2 * y2))
  }

  function BracketRight(x1: int, y1: int, z1: int, x2: int, y2: int, z2: int): int {
    (y2 * z1 + z2 * y1) * (z1 * z2)
    - EDWARDS_A * ((EDWARDS_D * (x2 * y2)) * (z1 * x1) + (EDWARDS_D * (x1 * y1)) * (z2 * x2))
  }

  lemma PullOut(v: int, k: int, e1: int, e2: int, m: int, x1: int, x2: int)
    requires k - e1 * e2 == m - EDWARDS_A * (e2 * x1 + e1 * x2)
    ensures v * k - v * (e1 * e2) == m * v - EDWARDS_A * (v * (e2 * x1) + v * (e1 * x2))
  {
    Distribute(v, k, -(e1 * e2));
    Distribute(v, m, -(EDWARDS_A * (e2 * x1 + e1 * x2)));
    Distribute(v, e2 * x1, e1 * x2);
    Swap(EDWARDS_A, v, e2 * x1 + e1 * x2);
    assert v * -(e1 * e2) == -(v * (e1 * e2));
    assert v * -(EDWARDS_A * (e2 * x1 + e1 * x2)) == -(v * (EDWARDS_A * (e2 * x1 + e1 * x2)));
    assert m * v == v * m;
  }

  lemma BracketRelation(x1: int, y1: int, z1: int, x2: int, y2: int, z2: int)
    requires SquaresOnCurve(x1, y1, z1) && SquaresOnCurve(x2, y2, z2)
    ensures Cong(BracketLeft(x1, y1, z1, x2, y2, z2), BracketRight(x1, y1, z1, x2, y2, z2))
  {
    hide Residue;
    var c1, c2 := EDWARDS_D * (x1 * y1), EDWARDS_D * (x2 * y2);
    var e1, e2 := EDWARDS_A * x1 + (y1 - z1), EDWARDS_A * x2 + (y2 - z2);
    var v, k := z1 * z2, z1 * z2 + y1 * y2 - EDWARDS_A * (EDWARDS_A * (x1 * x2));
    CongMul(c1, z1 * e1, c2, z2 * e2);
    Exchange(z1, e1, z2, e2);
    CongMul(c2, z2 * e2, z1 * x1, z1 * x1);
    Exchange(z2, e2, z1, x1);
    CongMul(c1, z1 * e1, z2 * x2, z2 * x2);
    Exchange(z1, e1, z2, x2);
    Commute(z2, z1);
    CrossBracket(x1, y1, z1, x2, y2, z2);
    PullOut(v, k, e1, e2, y2 * z1 + z2 * y1, x1, x2);
    CongSub(v * k, v * k, c1 * c2, v * (e1 * e2));
    CongAdd(c2 * (z1 * x1), v * (e2 * x1), c1 * (z2 * x2), v * (e1 * x2));
    CongMul(EDWARDS_A, EDWARDS_A, c2 * (z1 * x1) + c1 * (z2 * x2), v * (e2 * x1) + v * (e1 * x2));
    var m := (y2 * z1 + z2 * y1) * v;
    CongSub(m, m, EDWARDS_A * (c2 * (z1 * x1) + c1 * (z2 * x2)), EDWARDS_A * (v * (e2 * x1) + v * (e1 * x2)));
  }

  // ---- From squares back to coordinates ----

  /** y1^2 z2^2 + z1^2 y2^2, the symmetric part of both diagonals. */
  function Symmetric(p: Extended, q: Extended): int {
    Sq(q.y) * Sq(p.z) + Sq(q.z) * Sq(p.y)
  }

  function Zeta(p: Extended, q: Extended): int { p.z * q.z }

  function Eta(p: Extended, q: Extended): int { p.y * q.y }

  function Tau(p: Extended, q: Extended): int { EDWARDS_D * (p.t * q.t) }

  function Alpha(p: Extended, q: Extended): int { EDWARDS_A * (p.x * q.x) }

  lemma SquaresOfTerms(p: Extended, q: Extended)
    ensures Sq(Zeta(p, q)) == Sq(p.z) * Sq(q.z)
    ensures Sq(Eta(p, q)) == Sq(p.y) * Sq(q.y)
    ensures Sq(Alpha(p, q)) == EDWARDS_A * (EDWARDS_A * (Sq(p.x) * Sq(q.x)))
  {
    Exchange(p.z, q.z, p.z, q.z);
    Exchange(p.y, q.y, p.y, q.y);
    Exchange(p.x, q.x, p.x, q.x);
    Exchange(EDWARDS_A, p.x * q.x, EDWARDS_A, p.x * q.x);
    Reassociate(EDWARDS_A, EDWARDS_A, (p.x * q.x) * (p.x * q.x));
  }

  /** Z1 Z2 d T1 T2 through the second quadric. */
  lemma ZetaTau(p: Extended, q: Extended)
    requires OnQuadrics(p) && OnQuadrics(q)
    ensures Cong(Zeta(p, q) * Tau(p, q), EDWARDS_D * ((p.x * p.y) * (q.x * q.y)))
  {
    hide Residue, OnQuadrics;
    QuadricsOf(p);
    QuadricsOf(q);
    CongMul(p.x * p.y, p.t * p.z, q.x * q.y, q.t * q.z);
    CongMul(EDWARDS_D, EDWARDS_D, (p.x * p.y) * (q.x * q.y), (p.t * p.z) * (q.t * q.z));
    CongSym(EDWARDS_D * ((p.x * p.y) * (q.x * q.y)), EDWARDS_D * ((p.t * p.z) * (q.t * q.z)));
    Exchange(p.t, p.z, q.t, q.z);
    Commute(p.t * q.t, p.z * q.z);
    Swap(EDWARDS_D, p.z * q.z, p.t * q.t);
  }

  lemma TauSquared(p: Extended, q: Extended)
    ensures Sq(EDWARDS_D * ((p.x * p.y) * (q.x * q.y)))
         == (EDWARDS_D * (Sq(p.x) * Sq(p.y))) * (EDWARDS_D * (Sq(q.x) * Sq(q.y)))
  {
    var u := (p.x * p.y) * (q.x * q.y);
    Exchange(EDWARDS_D, u, EDWARDS_D, u);
    Exchange(p.x * p.y, q.x * q.y, p.x * p.y, q.x * q.y);
    Exchange(p.x, p.y, p.x, p.y);
    Exchange(q.x, q.y, q.x, q.y);
    Exchange(EDWARDS_D, EDWARDS_D, Sq(p.x) * Sq(p.y), Sq(q.x) * Sq(q.y));
    Exchange(EDWARDS_D, Sq(p.x) * Sq(p.y), EDWARDS_D, Sq(q.x) * Sq(q.y));
  }

  /** The product of all four terms, with Y1 Y2 pulled out. */
  lemma TauAlpha(p: Extended, q: Extended)
    ensures (EDWARDS_D * ((p.x * p.y) * (q.x * q.y))) * Alpha(p, q)
         == Eta(p, q) * (EDWARDS_D * (EDWARDS_A * (Sq(p.x) * Sq(q.x))))
  {
    var xx, yy := p.x * q.x, p.y * q.y;
    Exchange(p.x, p.y, q.x, q.y);
    Exchange(EDWARDS_D, xx * yy, EDWARDS_A, xx);
    Reassociate(xx, yy, xx);
    Exchange(p.x, q.x, p.x, q.x);
    ThreeFactors(EDWARDS_D, EDWARDS_A, yy, xx * xx);
  }

  lemma ThreeFactors(d: int, a: int, y: int, x: int)
    ensures (d * a) * (y * x) == y * (d * (a * x))
  {
  }

  lemma SymmetricProduct(p: Extended, q: Extended)
    ensures Symmetric(p, q) * (EDWARDS_D * (EDWARDS_A * (Sq(p.x) * Sq(q.x))))
         == EDWARDS_A * ((EDWARDS_D * (Sq(q.x) * Sq(q.y))) * (Sq(p.z) * Sq(p.x))
                         + (EDWARDS_D * (Sq(p.x) * Sq(p.y))) * (Sq(q.z) * Sq(q.x)))
  {
    SymmetricTerms(EDWARDS_D, EDWARDS_A, Sq(p.x), Sq(p.y), Sq(p.z), Sq(q.x), Sq(q.y), Sq(q.z));
  }

  lemma SymmetricTerms(d: int, a: int, x1: int, y1: int, z1: int, x2: int, y2: int, z2: int)
    ensures (y2 * z1 + z2 * y1) * (d * (a * (x1 * x2)))
         == a * ((d * (x2 * y2)) * (z1 * x1) + (d * (x1 * y1)) * (z2 * x2))
  {
    OneTerm(d, a, x1, z1, x2, y2);
    OneTerm(d, a, x2, z2, x1, y1);
    Commute(x1, x2);
    Commute(y2 * z1 + z2 * y1, d * (a * (x1 * x2)));
    Distribute(d * (a * (x1 * x2)), y2 * z1, z2 * y1);
    Distribute(a, (d * (x2 * y2)) * (z1 * x1), (d * (x1 * y1)) * (z2 * x2));
    Commute(z2, y1);
  }

  lemma OneTerm(d: int, a: int, x1: int, z1: int, x2: int, y2: int)
    ensures (d * (a * (x1 * x2))) * (y2 * z1) == a * ((d * (x2 * y2)) * (z1 * x1))
  {
    Swap(d, a, x1 * x2);
    Reassociate(a, d * (x1 * x2), y2 * z1);
    Reassociate(d, x1 * x2, y2 * z1);
    Reassociate(d, x2 * y2, z1 * x1);
    Exchange(x1, x2, z1, y2);
    Exchange(x2, y2, x1, z1);
    Commute(x1, x2);
    Commute(y2, z1);
    Commute(z1, x1);
    Exchange(x2, x1, y2, z1);
  }

  /** (zeta^2 + eta^2) - (tau^2 + alpha^2) */
  function Balance(p: Extended, q: Extended): int {
    Sq(Zeta(p, q)) + Sq(Eta(p, q)) - Sq(Tau(p, q)) - Sq(Alpha(p, q))
  }

  function Mixed(p: Extended, q: Extended): int {
    Zeta(p, q) * Eta(p, q) - Tau(p, q) * Alpha(p, q)
  }

  lemma PullEta(zeta: int, eta: int, tau: int, alpha: int, m: int, v: int, k: int)
    requires v == zeta * zeta
    ensures zeta * ((zeta * eta) * (k - tau * tau)) == eta * (v * k - (zeta * tau) * (zeta * tau))
    ensures zeta * (m * (zeta * eta - tau * alpha)) == eta * (m * v) - m * ((zeta * tau) * alpha)
  {
    Exchange(zeta, tau, zeta, tau);
    Reassociate(zeta, eta, k - tau * tau);
    Reassociate(zeta, zeta, eta * (k - tau * tau));
    Distribute(v, k, -(tau * tau));
    assert v * -(tau * tau) == -(v * (tau * tau));
    Swap(v, eta, k - tau * tau);
    Swap(zeta, m, zeta * eta - tau * alpha);
    Distribute(zeta, zeta * eta, -(tau * alpha));
    assert zeta * -(tau * alpha) == -(zeta * (tau * alpha));
    Reassociate(zeta, zeta, eta);
    Reassociate(zeta, tau, alpha);
    Distribute(m, v * eta, -((zeta * tau) * alpha));
    assert m * -((zeta * tau) * alpha) == -(m * ((zeta * tau) * alpha));
    Reassociate(m, v, eta);
    Commute(m * v, eta);
  }

  /** zeta^2 (zeta^2 + eta^2 - alpha^2) - (zeta tau)^2 is the left bracket. */
  lemma LeftIsBracket(p: Extended, q: Extended)
    requires OnQuadrics(p) && OnQuadrics(q)
    ensures Cong(Sq(Zeta(p, q)) * (Sq(Zeta(p, q)) + Sq(Eta(p, q)) - Sq(Alpha(p, q)))
                 - (Zeta(p, q) * Tau(p, q)) * (Zeta(p, q) * Tau(p, q)),
                 BracketLeft(Sq(p.x), Sq(p.y), Sq(p.z), Sq(q.x), Sq(q.y), Sq(q.z)))
  {
    hide Residue, OnQuadrics, Zeta, Eta, Alpha, Tau;
    var zt, w := Zeta(p, q) * Tau(p, q), EDWARDS_D * ((p.x * p.y) * (q.x * q.y));
    var first := Sq(Zeta(p, q)) * (Sq(Zeta(p, q)) + Sq(Eta(p, q)) - Sq(Alpha(p, q)));
    SquaresOfTerms(p, q);
    ZetaTau(p, q);
    CongMul(zt, w, zt, w);
    TauSquared(p, q);
    CongSub(first, first, zt * zt, w * w);
  }

  /** M (zeta tau alpha) is eta times the subtracted half of the right bracket. */
  lemma RightIsBracket(p: Extended, q: Extended)
    requires OnQuadrics(p) && OnQuadrics(q)
    ensures Cong(Eta(p, q) * (Symmetric(p, q) * Sq(Zeta(p, q)))
                 - Symmetric(p, q) * ((Zeta(p, q) * Tau(p, q)) * Alpha(p, q)),
                 Eta(p, q) * BracketRight(Sq(p.x), Sq(p.y), Sq(p.z), Sq(q.x), Sq(q.y), Sq(q.z)))
  {
    hide Residue, OnQuadrics, Zeta, Eta, Alpha, Tau, Sq;
    var m, eta := Symmetric(p, q), Eta(p, q);
    var zt, w := Zeta(p, q) * Tau(p, q), EDWARDS_D * ((p.x * p.y) * (q.x * q.y));
    var g := EDWARDS_D * (EDWARDS_A * (Sq(p.x) * Sq(q.x)));
    ZetaTau(p, q);
    CongMul(zt, w, Alpha(p, q), Alpha(p, q));
    TauAlpha(p, q);
    CongMul(m, m, zt * Alpha(p, q), eta * g);
    Swap(m, eta, g);
    SymmetricProduct(p, q);
    CongSub(eta * (m * Sq(Zeta(p, q))), eta * (m * Sq(Zeta(p, q))), m * (zt * Alpha(p, q)), eta * (m * g));
    Distribute(eta, m * Sq(Zeta(p, q)), -(m * g));
    assert eta * -(m * g) == -(eta * (m * g));
    ZetaSquared(p, q);
  }

  lemma ZetaSquared(p: Extended, q: Extended)
    ensures Sq(Zeta(p, q)) == Sq(p.z) * Sq(q.z)
  {
    SquaresOfTerms(p, q);
  }

  /** zeta eta (zeta^2 + eta^2 - tau^2 - alpha^2) = M (zeta eta - tau alpha) */
  lemma BalanceRelation(p: Extended, q: Extended)
    requires OnQuadrics(p) && OnQuadrics(q) && IsUnit(p.z) && IsUnit(q.z)
    ensures Cong((Zeta(p, q) * Eta(p, q)) * Balance(p, q), Symmetric(p, q) * Mixed(p, q))
  {
    hide Residue, OnQuadrics, IsUnit, Eta, Alpha, Tau, Symmetric, BracketLeft, BracketRight, SquaresOnCurve;
    var zeta, eta, tau, alpha, m := Zeta(p, q), Eta(p, q), Tau(p, q), Alpha(p, q), Symmetric(p, q);
    var k := Sq(zeta) + Sq(eta) - Sq(alpha);
    var l := BracketLeft(Sq(p.x), Sq(p.y), Sq(p.z), Sq(q.x), Sq(q.y), Sq(q.z));
    var r := BracketRight(Sq(p.x), Sq(p.y), Sq(p.z), Sq(q.x), Sq(q.y), Sq(q.z));
    UnitMul(p.z, q.z);
    PullEta(zeta, eta, tau, alpha, m, Sq(zeta), k);
    LeftIsBracket(p, q);
    RightIsBracket(p, q);
    CurveSquares(p);
    CurveSquares(q);
    BracketRelation(Sq(p.x), Sq(p.y), Sq(p.z), Sq(q.x), Sq(q.y), Sq(q.z));
    CongMul(eta, eta, Sq(zeta) * k - (zeta * tau) * (zeta * tau), l);
    CongMul(eta, eta, l, r);
    var a, b := zeta * ((zeta * eta) * (k - tau * tau)), zeta * (m * (zeta * eta - tau * alpha));
    CongTrans(a, eta * l, eta * r);
    CongSym(b, eta * r);
    CongTrans(a, eta * r, b);
    UnitCancel(zeta, (zeta * eta) * (k - tau * tau), m * (zeta * eta - tau * alpha));
  }

  lemma DiagonalIdentity(m: int, k: int, a: int, b: int)
    ensures (m + 2 * k) * (a - 2 * b) == (m - 2 * k) * (a + 2 * b) + 4 * (k * a - m * b)
  {
  }

  lemma PlusMinus(zeta: int, eta: int, tau: int, alpha: int)
    ensures (zeta + tau - (eta + alpha)) * (zeta - tau - (eta - alpha))
         == zeta * zeta + eta * eta - tau * tau - alpha * alpha - 2 * (zeta * eta - tau * alpha)
    ensures (zeta + tau + (eta + alpha)) * (zeta - tau + (eta - alpha))
         == zeta * zeta + eta * eta - tau * tau - alpha * alpha + 2 * (zeta * eta - tau * alpha)
  {
    Foil(zeta - eta, tau - alpha, zeta - eta, tau - alpha);
    assert (zeta + tau - (eta + alpha)) == (zeta - eta) + (tau - alpha);
    assert (zeta - tau - (eta - alpha)) == (zeta - eta) - (tau - alpha);
    DifferenceProduct(zeta - eta, tau - alpha);
    DifferenceProduct(zeta + eta, tau + alpha);
    Foil(zeta, eta, zeta, eta);
    Foil(tau, alpha, tau, alpha);
    Commute(zeta, eta);
    Commute(tau, alpha);
  }

  lemma DifferenceProduct(x: int, y: int)
    ensures (x + y) * (x - y) == x * x - y * y
  {
  }

  /** y2 z1 + z2 y1 and y2 z1 - z2 y1. */
  function DiagonalPlus(p: Extended, q: Extended): int { q.y * p.z + q.z * p.y }

  function DiagonalMinus(p: Extended, q: Extended): int { q.y * p.z - q.z * p.y }

  lemma DiagonalSquares(p: Extended, q: Extended)
    ensures Sq(DiagonalPlus(p, q)) == Symmetric(p, q) + 2 * (Zeta(p, q) * Eta(p, q))
    ensures Sq(DiagonalMinus(p, q)) == Symmetric(p, q) - 2 * (Zeta(p, q) * Eta(p, q))
  {
    var u, v := q.y * p.z, q.z * p.y;
    Foil(u, v, u, v);
    Exchange(q.y, p.z, q.y, p.z);
    Exchange(q.z, p.y, q.z, p.y);
    Exchange(q.y, p.z, q.z, p.y);
    Commute(u, v);
    Commute(q.y * q.z, p.z * p.y);
    Exchange(p.z, p.y, q.z, q.y);
    Commute(q.y, q.z);
  }

  /** The four sums and differences of the terms of p + q and q - p. */
  lemma DiagonalRelation(p: Extended, q: Extended)
    requires OnQuadrics(p) && OnQuadrics(q) && IsUnit(p.z) && IsUnit(q.z)
    ensures Cong(Sq(DiagonalPlus(p, q)) * ((SumTerm(p, q) - Plus(EDWARDS_A, p.x, p.y, q.x, q.y))
                                           * (DifferenceTerm(p, q) - TwistedTerm(p, q))),
                 Sq(DiagonalMinus(p, q)) * ((SumTerm(p, q) + Plus(EDWARDS_A, p.x, p.y, q.x, q.y))
                                            * (DifferenceTerm(p, q) + TwistedTerm(p, q))))
  {
    hide Residue, OnQuadrics, IsUnit, Symmetric, DiagonalPlus, DiagonalMinus;
    var zeta, eta, tau, alpha, m := Zeta(p, q), Eta(p, q), Tau(p, q), Alpha(p, q), Symmetric(p, q);
    TermsByName(p, q);
    PlusMinus(zeta, eta, tau, alpha);
    DiagonalSquares(p, q);
    DiagonalIdentity(m, zeta * eta, Balance(p, q), Mixed(p, q));
    BalanceRelation(p, q);
    var right := (m - 2 * (zeta * eta)) * (Balance(p, q) + 2 * Mixed(p, q));
    CongSub((zeta * eta) * Balance(p, q), m * Mixed(p, q), m * Mixed(p, q), m * Mixed(p, q));
    CongMul(4, 4, (zeta * eta) * Balance(p, q) - m * Mixed(p, q), 0);
    CongAdd(right, right, 4 * ((zeta * eta) * Balance(p, q) - m * Mixed(p, q)), 4 * 0);
  }

  lemma TermsByName(p: Extended, q: Extended)
    ensures SumTerm(p, q) == Zeta(p, q) + Tau(p, q) && DifferenceTerm(p, q) == Zeta(p, q) - Tau(p, q)
    ensures TwistedTerm(p, q) == Eta(p, q) - Alpha(p, q)
    ensures Plus(EDWARDS_A, p.x, p.y, q.x, q.y) == Eta(p, q) + Alpha(p, q)
  {
  }

  // ---- The ladder's differential addition of two lines ----

  lemma DiffAddOfLines(u: int, p: Extended, q: Extended)
    ensures DiffAdd(u, Line(p), Line(q)) == Point(16 * Sq(DiagonalPlus(p, q)), u * (16 * Sq(DiagonalMinus(p, q))))
  {
    var da, cb := DiagonalDA(Line(p), Line(q)), DiagonalCB(Line(p), Line(q));
    SquareIs(da + cb);
    SquareIs(da - cb);
    FourTimes(q.y, p.z);
    FourTimes(q.z, p.y);
    SixteenSquare(DiagonalPlus(p, q));
    SixteenSquare(DiagonalMinus(p, q));
  }

  lemma FourTimes(x: int, y: int)
    ensures (2 * x) * (2 * y) == 4 * (x * y)
  {
  }

  lemma SixteenSquare(x: int)
    ensures (4 * x) * (4 * x) == 16 * (x * x)
  {
  }

  /** The line of the sum is G (F + H : F - H). */
  lemma LineOfSum(p: Extended, q: Extended)
    ensures Line(AddPoints(p, q)).x == SumTerm(p, q) * (DifferenceTerm(p, q) + TwistedTerm(p, q))
    ensures Line(AddPoints(p, q)).z == SumTerm(p, q) * (DifferenceTerm(p, q) - TwistedTerm(p, q))
  {
    hide SumTerm, DifferenceTerm, TwistedTerm, CrossTerm;
    SumAndGap(SumTerm(p, q), DifferenceTerm(p, q), TwistedTerm(p, q));
  }

  lemma SumAndGap(g: int, f: int, h: int)
    ensures f * g + g * h == g * (f + h) && f * g - g * h == g * (f - h)
  {
  }

  lemma NegatedTerms(p: Extended, q: Extended)
    ensures SumTerm(q, Negate(p)) == DifferenceTerm(p, q)
    ensures DifferenceTerm(q, Negate(p)) == SumTerm(p, q)
    ensures TwistedTerm(q, Negate(p)) == Plus(EDWARDS_A, p.x, p.y, q.x, q.y)
  {
    Commute(p.z, q.z);
    Commute(p.y, q.y);
    assert q.t * (-p.t) == -(p.t * q.t) && q.x * (-p.x) == -(p.x * q.x);
  }

  /** The line of the difference is F (G + H' : G - H'). */
  lemma LineOfDifference(p: Extended, q: Extended)
    ensures Line(AddPoints(q, Negate(p))).x
         == DifferenceTerm(p, q) * (SumTerm(p, q) + Plus(EDWARDS_A, p.x, p.y, q.x, q.y))
    ensures Line(AddPoints(q, Negate(p))).z
         == DifferenceTerm(p, q) * (SumTerm(p, q) - Plus(EDWARDS_A, p.x, p.y, q.x, q.y))
  {
    hide Plus, SumTerm, DifferenceTerm, TwistedTerm, CrossTerm, Line, AddPoints;
    LineOfSum(q, Negate(p));
    NegatedTerms(p, q);
  }

  lemma CrossProducts(m: int, n: int, g: int, f: int, a: int, b: int, c: int, d: int)
    ensures ((16 * m) * (g * b)) * (f * a) == (16 * (g * f)) * (m * (a * b))
    ensures ((16 * n) * (g * d)) * (f * c) == (16 * (g * f)) * (n * (c * d))
  {
    SixProducts(m, g, b, f, a);
    SixProducts(n, g, d, f, c);
  }

  lemma SixProducts(m: int, g: int, b: int, f: int, a: int)
    ensures ((16 * m) * (g * b)) * (f * a) == (16 * (g * f)) * (m * (a * b))
  {
    Exchange(g, b, f, a);
    Reassociate(16 * m, g * b, f * a);
    Commute(b, a);
    Exchange(16, m, g * f, a * b);
  }

  /**
   * The ladder's differential addition of the lines of p and q, with the affine u of q - p, is the line of p + q:
   * the two projective points have equal cross products.
   */
  lemma DiffAddOnLine(u: int, p: Extended, q: Extended)
    requires OnCurve(p) && OnCurve(q)
    requires IsUnit(Line(AddPoints(q, Negate(p))).z)
    requires Cong(u * Line(AddPoints(q, Negate(p))).z, Line(AddPoints(q, Negate(p))).x)
    ensures Cong(DiffAdd(u, Line(p), Line(q)).x * Line(AddPoints(p, q)).z,
                 DiffAdd(u, Line(p), Line(q)).z * Line(AddPoints(p, q)).x)
  {
    hide Residue, IsUnit, OnQuadrics, Line, AddPoints, DiffAdd, Sq, DiagonalPlus, DiagonalMinus;
    hide SumTerm, DifferenceTerm, TwistedTerm, Plus;
    var m, n := Sq(DiagonalPlus(p, q)), Sq(DiagonalMinus(p, q));
    var g, f, h, h' := SumTerm(p, q), DifferenceTerm(p, q), TwistedTerm(p, q), Plus(EDWARDS_A, p.x, p.y, q.x, q.y);
    var dx, dz := Line(AddPoints(q, Negate(p))).x, Line(AddPoints(q, Negate(p))).z;
    DiffAddOfLines(u, p, q);
    LineOfSum(p, q);
    LineOfDifference(p, q);
    DiagonalRelation(p, q);
    CrossProducts(m, n, g, f, g - h', f - h, g + h', f + h);
    CongMul(16 * (g * f), 16 * (g * f), m * ((g - h') * (f - h)), n * ((g + h') * (f + h)));
    var left, right := (16 * m) * (g * (f - h)), (u * (16 * n)) * (g * (f + h));
    CongMul((16 * n) * (g * (f + h)), (16 * n) * (g * (f + h)), u * dz, dx);
    MoveU(u, 16 * n, g * (f + h), dz);
    Commute(left, dz);
    Commute(right, dz);
    CongSym(((16 * n) * (g * (f + h))) * (u * dz), ((16 * n) * (g * (f + h))) * dx);
    CongTrans(left * dz, ((16 * n) * (g * (f + h))) * dx, ((16 * n) * (g * (f + h))) * (u * dz));
    UnitCancel(dz, left, right);
  }

  lemma MoveU(u: int, n: int, s: int, d: int)
    ensures (n * s) * (u * d) == ((u * n) * s) * d
  {
    Exchange(n, s, u, d);
    Commute(n, u);
    Reassociate(u * n, s, d);
  }

  // ---- Points that represent a line up to a unit ----

  lemma UnitScaledSym(r: Point, f: Point)
    requires UnitScaled(r, f)
    ensures UnitScaled(f, r)
  {
    hide Residue;
    var s :| IsUnit(s) && Scaled(r, f, s);
    var w :| Cong(s * w, 1);
    Unscale(r.x, f.x, s, w);
    Unscale(r.z, f.z, s, w);
    Commute(s, w);
    UnitWitness(w, s);
    assert Scaled(f, r, w);
  }

  lemma Unscale(a: int, b: int, s: int, w: int)
    requires Cong(a, s * b) && Cong(s * w, 1)
    ensures Cong(b, w * a)
  {
    hide Residue;
    CongMul(w, w, a, s * b);
    Reassociate(w, s, b);
    Commute(w, s);
    CongMul(s * w, 1, b, b);
    CongTrans(w * a, (s * w) * b, 1 * b);
    CongSym(w * a, b);
  }

  lemma UnitScaledTrans(r: Point, f: Point, h: Point)
    requires UnitScaled(r, f) && UnitScaled(f, h)
    ensures UnitScaled(r, h)
  {
    hide Residue;
    var s :| IsUnit(s) && Scaled(r, f, s);
    var t :| IsUnit(t) && Scaled(f, h, t);
    CongMul(s, s, f.x, t * h.x);
    CongMul(s, s, f.z, t * h.z);
    Reassociate(s, t, h.x);
    Reassociate(s, t, h.z);
    UnitMul(s, t);
    assert Scaled(r, h, s * t);
  }

  /** Neither coordinate pair is (0, 0). */
  ghost predicate Nonzero(p: Point) {
    !(Cong(p.x, 0) && Cong(p.z, 0))
  }

  /** Over a field, equal cross products of nonzero pairs mean equality up to a unit. */
  lemma CrossToUnit(r: Point, f: Point)
    requires PrimeField() && Nonzero(r) && Nonzero(f) && Cong(r.x * f.z, r.z * f.x)
    ensures UnitScaled(r, f)
  {
    hide Residue, PrimeField, IsUnit;
    ZeroOrUnit(f.z);
    ZeroOrUnit(f.x);
    if IsUnit(f.z) {
      CrossScale(r.x, r.z, f.x, f.z);
    } else {
      CongMul(r.x, r.x, f.z, 0);
      CongSym(r.x * f.z, r.z * f.x);
      CrossScale(r.z, r.x, f.z, f.x);
    }
  }

  /** With an invertible second coordinate the scale is the quotient of the second coordinates. */
  lemma CrossScale(rx: int, rz: int, fx: int, fz: int)
    requires PrimeField() && IsUnit(fz) && Cong(rx * fz, rz * fx) && !(Cong(rx, 0) && Cong(rz, 0))
    ensures UnitScaled(Point(rx, rz), Point(fx, fz)) && UnitScaled(Point(rz, rx), Point(fz, fx))
  {
    hide Residue, PrimeField;
    var w :| Cong(fz * w, 1);
    var s := rz * w;
    Reassociate(rz, w, fz);
    Commute(w, fz);
    CongMul(rz, rz, fz * w, 1);
    CongSym(s * fz, rz);
    CongMul(s * fz, rz, fx, fx);
    Reassociate(s, fz, fx);
    Commute(rx, fz);
    CongSym(fz * (s * fx), rz * fx);
    CongTrans(fz * rx, rz * fx, fz * (s * fx));
    UnitCancel(fz, rx, s * fx);
    ZeroOrUnit(s);
    if Cong(s, 0) {
      CongMul(s, 0, fx, fx);
      CongMul(s, 0, fz, fz);
    }
    assert Scaled(Point(rx, rz), Point(fx, fz), s) && Scaled(Point(rz, rx), Point(fz, fx), s);
  }
  // ---- The scales are units ----

  /** The square root of a is invertible. */
  lemma RootIsUnit()
    requires PrimeField()
    ensures IsUnit(ROOT_OF_A) && IsUnit(EDWARDS_A)
  {
    UnitMul(ROOT_OF_A, ROOT_OF_A);
    assert ROOT_OF_A * ROOT_OF_A == EDWARDS_A;
  }

  /** aZ - dY is invertible: a is a square and d is not. */
  lemma WeightIsUnit(p: Extended)
    requires PrimeField() && NonSquare(EDWARDS_D) && OnCurve(p)
    ensures IsUnit(Weight(p))
  {
    hide Residue, PrimeField, NonSquare, OnQuadrics, IsUnit;
    var zz, yy := p.z * p.z, p.y * p.y;
    ZeroOrUnit(Weight(p));
    if Cong(Weight(p), 0) {
      CongAdd(Weight(p), 0, EDWARDS_D * yy, EDWARDS_D * yy);
      ZeroOrUnit(p.y);
      if IsUnit(p.y) {
        Exchange(ROOT_OF_A, p.z, ROOT_OF_A, p.z);
        SquareQuotient(ROOT_OF_A * p.z, p.y, EDWARDS_D);
      } else {
        CongMul(p.y, 0, p.y, 0);
        CongMul(EDWARDS_D, EDWARDS_D, yy, 0);
        CongTrans(EDWARDS_A * zz, EDWARDS_D * yy, EDWARDS_D * 0);
        RootIsUnit();
        UnitMul(p.z, p.z);
        UnitMul(EDWARDS_A, zz);
        UnitNotZero(EDWARDS_A * zz);
      }
    }
  }

  /** aX + Y is invertible: it is a factor of the Z coordinate of 2P. */
  lemma FormIsUnit(p: Extended)
    requires PrimeField() && NonSquare(EDWARDS_D) && OnCurve(p)
    ensures IsUnit(Form(EDWARDS_A, p.x, p.y))
  {
    hide Residue, PrimeField, NonSquare, IsUnit, Form, OnQuadrics;
    hide SumTerm, DifferenceTerm, CrossTerm, TwistedTerm;
    AddComplete(p, p);
    UnitFactor(DifferenceTerm(p, p), SumTerm(p, p));
    SelfTerms(p);
    QuadricsOf(p);
    CongSym(Form(EDWARDS_A, p.x, p.y), Form(EDWARDS_D, p.t, p.z));
    UnitCong(Form(EDWARDS_D, p.t, p.z), Form(EDWARDS_A, p.x, p.y));
  }

  lemma SmallUnits()
    ensures IsUnit(2) && IsUnit(16) && IsUnit(-2)
  {
    hide Residue;
    FourIsUnit();
    UnitFactor(2, 2);
    UnitMul(4, 4);
    NegatedUnit(2);
  }

  /** The ladder's doubling of a point on the line of p is on the line of 2p. */
  lemma DoubleKeepsLine(r: Point, p: Extended)
    requires PrimeField() && NonSquare(EDWARDS_D) && OnCurve(p) && UnitScaled(r, Line(p))
    ensures UnitScaled(Double(r), Line(DoublePoint(p)))
  {
    hide Residue, PrimeField, NonSquare, OnQuadrics, IsUnit, Line, DoublePoint, Double, DoubleScaled, DoubleLine,
      Weight, Form;
    UnitScaledSym(r, Line(p));
    UnitScaledDouble(Line(p), r);
    UnitScaledSym(DoubleScaled(Line(p)), Double(r));
    DoubleOnLine(p);
    SmallUnits();
    WeightIsUnit(p);
    UnitMul(16, Weight(p));
    assert UnitScaled(DoubleScaled(Line(p)), DoubleLine(p));
    FormIsUnit(p);
    UnitMul(-2, Form(EDWARDS_A, p.x, p.y));
    ExactlyScaled(Line(DoublePoint(p)), DoubleLine(p), -2 * Form(EDWARDS_A, p.x, p.y));
    UnitScaledSym(Line(DoublePoint(p)), DoubleLine(p));
    UnitScaledTrans(Double(r), DoubleScaled(Line(p)), DoubleLine(p));
    UnitScaledTrans(Double(r), DoubleLine(p), Line(DoublePoint(p)));
  }

  lemma ExactlyScaled(r: Point, f: Point, s: int)
    requires IsUnit(s) && r.x == s * f.x && r.z == s * f.z
    ensures UnitScaled(r, f)
  {
    assert Scaled(r, f, s);
  }

  // ---- Differential addition never degenerates ----

  /** The line of a point of the curve is not (0 : 0). */
  lemma LineNonzero(p: Extended)
    requires OnCurve(p)
    ensures Nonzero(Line(p))
  {
    hide Residue, OnQuadrics, IsUnit;
    if !Nonzero(Line(p)) {
      CongAdd(p.z + p.y, 0, p.z - p.y, 0);
      HalfOfZero(p.z);
      UnitNotZero(p.z);
    }
  }

  lemma ProductVanishes(a: int, b: int)
    requires PrimeField() && Cong(a * b, 0) && IsUnit(b)
    ensures Cong(a, 0)
  {
    hide Residue, PrimeField, IsUnit;
    Commute(a, b);
    UnitCancel(b, a, 0);
  }

  /** Both diagonals vanish only when both Y coordinates do. */
  lemma DiagonalsVanish(p: Extended, q: Extended)
    requires PrimeField() && IsUnit(p.z) && IsUnit(q.z)
    requires Cong(DiagonalPlus(p, q), 0) && Cong(DiagonalMinus(p, q), 0)
    ensures Cong(p.y, 0) && Cong(q.y, 0)
  {
    hide Residue, PrimeField, IsUnit;
    CongAdd(DiagonalPlus(p, q), 0, DiagonalMinus(p, q), 0);
    CongSub(DiagonalPlus(p, q), 0, DiagonalMinus(p, q), 0);
    HalfOfZero(q.y * p.z);
    HalfOfZero(q.z * p.y);
    ProductVanishes(q.y, p.z);
    Commute(q.z, p.y);
    ProductVanishes(p.y, q.z);
  }

  /** A point with Y = 0 has T = 0 and aX = Z in squares. */
  lemma FlatPoint(p: Extended)
    requires PrimeField() && OnCurve(p) && Cong(p.y, 0)
    ensures Cong(p.t, 0) && Cong(EDWARDS_A * Sq(p.x), Sq(p.z))
  {
    hide Residue, PrimeField, IsUnit, OnQuadrics;
    QuadricsOf(p);
    CongMul(p.x, p.x, p.y, 0);
    CongSym(p.x * p.y, p.t * p.z);
    CongTrans(p.t * p.z, p.x * p.y, p.x * 0);
    ProductVanishes(p.t, p.z);
    CongMul(p.t, 0, p.t, 0);
    CongMul(EDWARDS_D, EDWARDS_D, p.t * p.t, 0);
    CongAdd(EDWARDS_D * (p.t * p.t), 0, p.z * p.z, p.z * p.z);
    CongMul(p.y, 0, p.y, 0);
    CongSub(Form(EDWARDS_A, p.x, p.y), Form(EDWARDS_D, p.t, p.z), p.y * p.y, 0);
    CongTrans(EDWARDS_A * (p.x * p.x), Form(EDWARDS_D, p.t, p.z), p.z * p.z);
  }

  /** Two such points differ by a point whose line has a zero coordinate. */
  lemma FlatDifference(p: Extended, q: Extended)
    requires PrimeField() && OnCurve(p) && OnCurve(q) && Cong(p.y, 0) && Cong(q.y, 0)
    ensures Cong(Line(AddPoints(q, Negate(p))).x * Line(AddPoints(q, Negate(p))).z, 0)
  {
    hide Residue, PrimeField, IsUnit, OnQuadrics, Line, AddPoints;
    var f := DifferenceTerm(p, q);
    var zeta, eta, tau, alpha := Zeta(p, q), Eta(p, q), Tau(p, q), Alpha(p, q);
    LineOfDifference(p, q);
    TermsByName(p, q);
    FlatPoint(p);
    FlatPoint(q);
    CongMul(p.y, 0, q.y, 0);
    CongMul(p.t, 0, q.t, 0);
    CongMul(EDWARDS_D, EDWARDS_D, p.t * q.t, 0);
    CongMul(EDWARDS_A * Sq(p.x), Sq(p.z), EDWARDS_A * Sq(q.x), Sq(q.z));
    FlatSquares(p, q);
    CongAdd(zeta, zeta, tau, 0);
    CongAdd(eta, 0, alpha, alpha);
    CongAdd(zeta + tau, zeta, eta + alpha, alpha);
    CongSub(zeta + tau, zeta, eta + alpha, alpha);
    CongMul(zeta + tau + (eta + alpha), zeta + alpha, zeta + tau - (eta + alpha), zeta - alpha);
    DifferenceProduct(zeta, alpha);
    CongSub(Sq(zeta), Sq(zeta), Sq(alpha), Sq(zeta));
    CongMul(f * f, f * f, (zeta + tau + (eta + alpha)) * (zeta + tau - (eta + alpha)), 0);
    Exchange(f, zeta + tau + (eta + alpha), f, zeta + tau - (eta + alpha));
  }

  lemma FlatSquares(p: Extended, q: Extended)
    requires Cong((EDWARDS_A * Sq(p.x)) * (EDWARDS_A * Sq(q.x)), Sq(p.z) * Sq(q.z))
    ensures Cong(Sq(Alpha(p, q)), Sq(Zeta(p, q)))
  {
    hide Residue, Sq, Alpha, Zeta;
    SquaresOfTerms(p, q);
    Exchange(EDWARDS_A, Sq(p.x), EDWARDS_A, Sq(q.x));
    Reassociate(EDWARDS_A, EDWARDS_A, Sq(p.x) * Sq(q.x));
  }

  lemma SquareVanishes(a: int)
    requires PrimeField() && Cong(16 * Sq(a), 0)
    ensures Cong(a, 0)
  {
    hide Residue, PrimeField, IsUnit;
    SmallUnits();
    UnitCancel(16, Sq(a), 0);
    ZeroOrUnit(a);
    if IsUnit(a) {
      ProductVanishes(a, a);
    }
  }

  /** With an invertible u and difference the ladder's sum is not (0 : 0). */
  lemma DiffAddNonzero(u: int, p: Extended, q: Extended)
    requires PrimeField() && OnCurve(p) && OnCurve(q) && IsUnit(u)
    requires IsUnit(Line(AddPoints(q, Negate(p))).z)
    requires Cong(u * Line(AddPoints(q, Negate(p))).z, Line(AddPoints(q, Negate(p))).x)
    ensures Nonzero(DiffAdd(u, Line(p), Line(q)))
  {
    hide Residue, PrimeField, IsUnit, OnQuadrics, Line, AddPoints, DiffAdd, Sq, DiagonalPlus, DiagonalMinus;
    var d := Line(AddPoints(q, Negate(p)));
    DiffAddOfLines(u, p, q);
    if !Nonzero(DiffAdd(u, Line(p), Line(q))) {
      SquareVanishes(DiagonalPlus(p, q));
      UnitCancel(u, 16 * Sq(DiagonalMinus(p, q)), 0);
      SquareVanishes(DiagonalMinus(p, q));
      DiagonalsVanish(p, q);
      FlatDifference(p, q);
      UnitMul(u, d.z);
      UnitCong(u * d.z, d.x);
      UnitMul(d.x, d.z);
      UnitNotZero(d.x * d.z);
    }
  }

  /** The ladder's differential addition of points on the lines of p and q is on the line of p + q. */
  lemma DiffAddKeepsLine(u: int, r2: Point, p: Extended, r3: Point, q: Extended)
    requires PrimeField() && NonSquare(EDWARDS_D) && OnCurve(p) && OnCurve(q) && IsUnit(u)
    requires UnitScaled(r2, Line(p)) && UnitScaled(r3, Line(q))
    requires IsUnit(Line(AddPoints(q, Negate(p))).z)
    requires Cong(u * Line(AddPoints(q, Negate(p))).z, Line(AddPoints(q, Negate(p))).x)
    ensures UnitScaled(DiffAdd(u, r2, r3), Line(AddPoints(p, q)))
  {
    hide Residue, PrimeField, NonSquare, IsUnit, OnQuadrics, Line, AddPoints, DiffAdd, UnitScaled, Nonzero;
    AddComplete(p, q);
    LineNonzero(AddPoints(p, q));
    DiffAddNonzero(u, p, q);
    DiffAddOnLine(u, p, q);
    CrossToUnit(DiffAdd(u, Line(p), Line(q)), Line(AddPoints(p, q)));
    UnitScaledDiffAdd(u, r2, Line(p), r3, Line(q));
    UnitScaledTrans(DiffAdd(u, r2, r3), DiffAdd(u, Line(p), Line(q)), Line(AddPoints(p, q)));
  }
}
