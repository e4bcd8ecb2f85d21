// The complete twisted-Edwards formulas as integer polynomials modulo p.
module EdwardsFormulas {
  import opened Arithmetic
  import opened Modular

  const EDWARDS_A: int := 2086388329
  const EDWARDS_D: int := 301

  /** Extended coordinates (X : Y : Z : T), meaningful modulo p. */
  datatype Extended = Extended(x: int, y: int, z: int, t: int)

  /** k x^2 + y^2 */
  function Form(k: int, x: int, y: int): int {
    k * (x * x) + y * y
  }

  /** aX^2 + Y^2 = Z^2 + dT^2 and XY = ZT */
  ghost predicate Quadrics(p: Extended) {
    Cong(Form(EDWARDS_A, p.x, p.y), Form(EDWARDS_D, p.t, p.z)) && Cong(p.x * p.y, p.t * p.z)
  }

  /**
   * The point is on both quadrics. It says so of every `e` named as `p` for opacity only: a hypothesis or a type about
   * a point does not put the polynomials in scope, and QuadricsOf does.
   */
  ghost predicate OnQuadrics(p: Extended) {
    forall e: Extended {:trigger Named(e, p)} :: Named(e, p) ==> Quadrics(e)
  }

  lemma QuadricsOf(p: Extended)
    ensures OnQuadrics(p)
       <==> Cong(Form(EDWARDS_A, p.x, p.y), Form(EDWARDS_D, p.t, p.z)) && Cong(p.x * p.y, p.t * p.z)
  {
    hide Residue, Form;
    assert Named(p, p);
  }

  ghost predicate CongExtended(p: Extended, q: Extended) {
    Cong(p.x, q.x) && Cong(p.y, q.y) && Cong(p.z, q.z) && Cong(p.t, q.t)
  }

  const IDENTITY: Extended := Extended(0, 1, 1, 0)

  function FromAffine(x: int, y: int): Extended {
    Extended(x, y, 1, x * y)
  }

  function Negate(p: Extended): Extended {
    Extended(-p.x, p.y, p.z, -p.t)
  }

  // ---- Addition ----

  /** x1 y2 + y1 x2 */
  function Cross(x1: int, y1: int, x2: int, y2: int): int {
    x1 * y2 + y1 * x2
  }

  /** x1 y2 - y1 x2 */
  function Dual(x1: int, y1: int, x2: int, y2: int): int {
    x1 * y2 - y1 * x2
  }

  /** y1 y2 - k x1 x2 */
  function Minus(k: int, x1: int, y1: int, x2: int, y2: int): int {
    y1 * y2 - k * (x1 * x2)
  }

  /** y1 y2 + k x1 x2 */
  function Plus(k: int, x1: int, y1: int, x2: int, y2: int): int {
    y1 * y2 + k * (x1 * x2)
  }

  function CrossTerm(p: Extended, q: Extended): int {
    Cross(p.x, p.y, q.x, q.y)
  }

  /** Z1 Z2 - d T1 T2 */
  function DifferenceTerm(p: Extended, q: Extended): int {
    Minus(EDWARDS_D, p.t, p.z, q.t, q.z)
  }

  /** Z1 Z2 + d T1 T2 */
  function SumTerm(p: Extended, q: Extended): int {
    Plus(EDWARDS_D, p.t, p.z, q.t, q.z)
  }

  /** Y1 Y2 - a X1 X2 */
  function TwistedTerm(p: Extended, q: Extended): int {
    Minus(EDWARDS_A, p.x, p.y, q.x, q.y)
  }

  function Combine(cross: int, difference: int, sum: int, twisted: int): Extended {
    Extended(cross * difference, sum * twisted, difference * sum, cross * twisted)
  }

  function AddPoints(p: Extended, q: Extended): Extended {
    Combine(CrossTerm(p, q), DifferenceTerm(p, q), SumTerm(p, q), TwistedTerm(p, q))
  }

  // ---- Ring identities, one shape at a time ----

  lemma Foil(a: int, b: int, c: int, d: int)
    ensures (a - b) * (c - d) == a * c - a * d - b * c + b * d
    ensures (a + b) * (c + d) == a * c + a * d + b * c + b * d
  {
  }

  lemma DualMonomials(k: int, x1: int, y1: int, x2: int, y2: int)
    ensures (y1 * y2) * (x1 * y2) == (x1 * y1) * (y2 * y2)
    ensures (y1 * y2) * (y1 * x2) == (x2 * y2) * (y1 * y1)
    ensures (k * (x1 * x2)) * (x1 * y2) == (x2 * y2) * (k * (x1 * x1))
    ensures (k * (x1 * x2)) * (y1 * x2) == (x1 * y1) * (k * (x2 * x2))
  {
    ScaledMonomial(k, x1, x2, y2);
    ScaledMonomial(k, x2, x1, y1);
  }

  lemma ScaledMonomial(k: int, x: int, w: int, y: int)
    ensures (k * (x * w)) * (x * y) == (w * y) * (k * (x * x))
    ensures (k * (w * x)) * (y * x) == (w * y) * (k * (x * x))
  {
  }

  lemma DualMatch(a: int, b: int, c: int, d: int, p: int, q: int, r1: int, s1: int, r2: int, s2: int)
    requires a * c == p * s2 && a * d == q * s1 && b * c == q * r1 && b * d == p * r2
    ensures (a - b) * (c - d) == p * (r2 + s2) - q * (r1 + s1)
  {
    Foil(a, b, c, d);
    Distribute(p, r2, s2);
    Distribute(q, r1, s1);
  }

  /** (y1 y2 - k x1 x2)(x1 y2 - y1 x2) through the two forms. */
  lemma DualIdentity(k: int, x1: int, y1: int, x2: int, y2: int)
    ensures Minus(k, x1, y1, x2, y2) * Dual(x1, y1, x2, y2)
         == (x1 * y1) * Form(k, x2, y2) - (x2 * y2) * Form(k, x1, y1)
  {
    DualMonomials(k, x1, y1, x2, y2);
    DualMatch(y1 * y2, k * (x1 * x2), x1 * y2, y1 * x2, x1 * y1, x2 * y2,
              k * (x1 * x1), y1 * y1, k * (x2 * x2), y2 * y2);
  }

  lemma NormMonomials(k: int, x1: int, y1: int, x2: int, y2: int)
    ensures (k * (x1 * x2)) * (y1 * y2) == k * ((x1 * y2) * (y1 * x2))
    ensures (y1 * y2) * (y1 * y2) == (y1 * y1) * (y2 * y2)
    ensures (k * (x1 * x2)) * (k * (x1 * x2)) == (k * (x1 * x1)) * (k * (x2 * x2))
    ensures k * ((x1 * y2) * (x1 * y2)) == (k * (x1 * x1)) * (y2 * y2)
    ensures k * ((y1 * x2) * (y1 * x2)) == (y1 * y1) * (k * (x2 * x2))
  {
    Exchange(x1, x2, y1, y2);
    Exchange(x1, y2, x1, y2);
    Exchange(y1, x2, y1, x2);
    Exchange(k, x1 * x2, k, x1 * x2);
    Exchange(k, x1 * x1, k, x2 * x2);
    Exchange(x1, x2, x1, x2);
  }

  lemma TwiceInside(k: int, c: int, d: int)
    ensures k * (c * c + c * d + d * c + d * d) == k * (c * c) + 2 * (k * (c * d)) + k * (d * d)
    ensures k * (c * c - c * d - d * c + d * d) == k * (c * c) - 2 * (k * (c * d)) + k * (d * d)
  {
  }

  lemma NormMatch(k: int, b: int, u: int, c: int, d: int, r1: int, s1: int, r2: int, s2: int)
    requires u * b == k * (c * d) && b * b == s1 * s2 && u * u == r1 * r2
    requires k * (c * c) == r1 * s2 && k * (d * d) == s1 * r2
    ensures (b - u) * (b - u) + k * ((c + d) * (c + d)) == (r1 + s1) * (r2 + s2)
    ensures (b + u) * (b + u) + k * ((c - d) * (c - d)) == (r1 + s1) * (r2 + s2)
  {
    Foil(b, u, b, u);
    Foil(c, d, c, d);
    Foil(r1, s1, r2, s2);
    TwiceInside(k, c, d);
  }

  /** Both norms multiply: the forms of two points give the form of their product. */
  lemma NormIdentity(k: int, x1: int, y1: int, x2: int, y2: int)
    ensures Minus(k, x1, y1, x2, y2) * Minus(k, x1, y1, x2, y2)
          + k * (Cross(x1, y1, x2, y2) * Cross(x1, y1, x2, y2)) == Form(k, x1, y1) * Form(k, x2, y2)
    ensures Plus(k, x1, y1, x2, y2) * Plus(k, x1, y1, x2, y2)
          + k * (Dual(x1, y1, x2, y2) * Dual(x1, y1, x2, y2)) == Form(k, x1, y1) * Form(k, x2, y2)
  {
    NormMonomials(k, x1, y1, x2, y2);
    NormMatch(k, y1 * y2, k * (x1 * x2), x1 * y2, y1 * x2, k * (x1 * x1), y1 * y1, k * (x2 * x2), y2 * y2);
  }

  lemma SquareGap(c: int, d: int)
    ensures (c + d) * (c + d) - (c - d) * (c - d) == 4 * (c * d)
  {
  }

  /** The gaps between the squares of a sum and a difference. */
  lemma GapIdentity(k: int, x1: int, y1: int, x2: int, y2: int)
    ensures Cross(x1, y1, x2, y2) * Cross(x1, y1, x2, y2) - Dual(x1, y1, x2, y2) * Dual(x1, y1, x2, y2)
         == 4 * ((x1 * y1) * (x2 * y2))
    ensures Plus(k, x1, y1, x2, y2) * Plus(k, x1, y1, x2, y2) - Minus(k, x1, y1, x2, y2) * Minus(k, x1, y1, x2, y2)
         == 4 * (k * ((x1 * y1) * (x2 * y2)))
  {
    SquareGap(x1 * y2, y1 * x2);
    SquareGap(y1 * y2, k * (x1 * x2));
    GapMonomials(k, x1, y1, x2, y2);
  }

  lemma GapMonomials(k: int, x1: int, y1: int, x2: int, y2: int)
    ensures (x1 * y2) * (y1 * x2) == (x1 * y1) * (x2 * y2)
    ensures (y1 * y2) * (k * (x1 * x2)) == k * ((x1 * y1) * (x2 * y2))
  {
    Exchange(x1, y1, x2, y2);
  }

  // ---- Closure ----

  /** Points on the quadrics: the relation H (x1 y2 - y1 x2) = F (t1 z2 - z1 t2). */
  lemma DualRelation(p: Extended, q: Extended)
    requires OnQuadrics(p) && OnQuadrics(q)
    ensures Cong(TwistedTerm(p, q) * Dual(p.x, p.y, q.x, q.y), DifferenceTerm(p, q) * Dual(p.t, p.z, q.t, q.z))
  {
    hide OnQuadrics, Residue, Form, Minus, Dual;
    QuadricsOf(p);
    QuadricsOf(q);
    DualIdentity(EDWARDS_A, p.x, p.y, q.x, q.y);
    DualIdentity(EDWARDS_D, p.t, p.z, q.t, q.z);
    CongMul(p.x * p.y, p.t * p.z, Form(EDWARDS_A, q.x, q.y), Form(EDWARDS_D, q.t, q.z));
    CongMul(q.x * q.y, q.t * q.z, Form(EDWARDS_A, p.x, p.y), Form(EDWARDS_D, p.t, p.z));
    CongSub((p.x * p.y) * Form(EDWARDS_A, q.x, q.y), (p.t * p.z) * Form(EDWARDS_D, q.t, q.z),
            (q.x * q.y) * Form(EDWARDS_A, p.x, p.y), (q.t * q.z) * Form(EDWARDS_D, p.t, p.z));
  }

  /** H^2 + aE^2 = G^2 + dV^2: both are the product of the two norms. */
  lemma NormRelation(p: Extended, q: Extended)
    requires OnQuadrics(p) && OnQuadrics(q)
    ensures Cong(TwistedTerm(p, q) * TwistedTerm(p, q) + EDWARDS_A * (CrossTerm(p, q) * CrossTerm(p, q)),
                 SumTerm(p, q) * SumTerm(p, q) + EDWARDS_D * (Dual(p.t, p.z, q.t, q.z) * Dual(p.t, p.z, q.t, q.z)))
  {
    hide OnQuadrics, Residue, Form, Minus, Plus, Cross, Dual;
    QuadricsOf(p);
    QuadricsOf(q);
    NormIdentity(EDWARDS_A, p.x, p.y, q.x, q.y);
    NormIdentity(EDWARDS_D, p.t, p.z, q.t, q.z);
    CongMul(Form(EDWARDS_A, p.x, p.y), Form(EDWARDS_D, p.t, p.z), Form(EDWARDS_A, q.x, q.y), Form(EDWARDS_D, q.t, q.z));
  }

  /** d(E^2 - E'^2) = G^2 - F^2 */
  lemma GapRelation(p: Extended, q: Extended)
    requires OnQuadrics(p) && OnQuadrics(q)
    ensures Cong(EDWARDS_D * (CrossTerm(p, q) * CrossTerm(p, q) - Dual(p.x, p.y, q.x, q.y) * Dual(p.x, p.y, q.x, q.y)),
                 SumTerm(p, q) * SumTerm(p, q) - DifferenceTerm(p, q) * DifferenceTerm(p, q))
  {
    hide OnQuadrics, Residue, Form, Minus, Plus, Cross, Dual;
    QuadricsOf(p);
    QuadricsOf(q);
    GapIdentity(EDWARDS_A, p.x, p.y, q.x, q.y);
    GapIdentity(EDWARDS_D, p.t, p.z, q.t, q.z);
    CongMul(p.x * p.y, p.t * p.z, q.x * q.y, q.t * q.z);
    CongMul(4 * EDWARDS_D, 4 * EDWARDS_D, (p.x * p.y) * (q.x * q.y), (p.t * p.z) * (q.t * q.z));
  }

  lemma DistributeFour(x: int, h: int, e: int, g: int, v: int)
    ensures x * (h + EDWARDS_A * e - (g + EDWARDS_D * v)) == x * h + EDWARDS_A * (x * e) - x * g - EDWARDS_D * (x * v)
    ensures x * (g - h - EDWARDS_D * (e - v)) == x * g - x * h - EDWARDS_D * (x * e) + EDWARDS_D * (x * v)
  {
  }

  /** What the combination of the three relations leaves, as exact polynomials. */
  lemma ClosureIdentity(e: int, f: int, g: int, h: int, v: int, w: int)
    ensures Form(EDWARDS_A, e * f, g * h) - Form(EDWARDS_D, e * h, f * g)
         == (f * f) * (h * h + EDWARDS_A * (e * e) - (g * g + EDWARDS_D * (v * v)))
          + EDWARDS_D * ((f * v) * (f * v) - (h * w) * (h * w))
          + (h * h) * (g * g - f * f - EDWARDS_D * (e * e - w * w))
  {
    Exchange(e, f, e, f);
    Exchange(g, h, g, h);
    Exchange(e, h, e, h);
    Exchange(f, g, f, g);
    Exchange(f, v, f, v);
    Exchange(h, w, h, w);
    DistributeFour(f * f, h * h, e * e, g * g, v * v);
    DistributeFour(h * h, f * f, e * e, g * g, w * w);
    ProductsCommute(e * e, f * f, g * g, h * h);
  }

  lemma ProductsCommute(e: int, f: int, g: int, h: int)
    ensures f * e == e * f && h * e == e * h && h * f == f * h && h * g == g * h
  {
  }

  /** Any point built from four terms in these relations satisfies the first quadric. */
  lemma CombineCloses(e: int, f: int, g: int, h: int, v: int, w: int)
    requires Cong(h * w, f * v)
    requires Cong(h * h + EDWARDS_A * (e * e), g * g + EDWARDS_D * (v * v))
    requires Cong(EDWARDS_D * (e * e - w * w), g * g - f * f)
    ensures Cong(Form(EDWARDS_A, e * f, g * h), Form(EDWARDS_D, e * h, f * g))
  {
    hide Residue, Form;
    var k := CongQuotient(h * w, f * v);
    var m := CongQuotient(h * h + EDWARDS_A * (e * e), g * g + EDWARDS_D * (v * v));
    var n := CongQuotient(EDWARDS_D * (e * e - w * w), g * g - f * f);
    ClosureIdentity(e, f, g, h, v, w);
    DifferenceOfSquares(f * v, h * w, k);
    var q := (f * f) * m - EDWARDS_D * (k * (f * v + h * w)) - (h * h) * n;
    CollectMultiples(f * f, m, EDWARDS_D, k * (f * v + h * w), h * h, n, P);
    CongIntro(Form(EDWARDS_A, e * f, g * h), Form(EDWARDS_D, e * h, f * g), q);
  }

  lemma DifferenceOfSquares(x: int, y: int, k: int)
    requires y == x + k * P
    ensures x * x - y * y == -((k * (x + y)) * P)
  {
  }

  lemma CollectMultiples(r: int, m: int, d: int, s: int, t: int, n: int, p: int)
    ensures r * (m * p) + d * -(s * p) + t * -(n * p) == (r * m - d * s - t * n) * p
  {
  }

  /** Adding two points of the quadrics gives a point of the quadrics. */
  lemma AddCloses(p: Extended, q: Extended)
    requires OnQuadrics(p) && OnQuadrics(q)
    ensures OnQuadrics(AddPoints(p, q))
  {
    hide OnQuadrics, Residue, Form, CrossTerm, DifferenceTerm, SumTerm, TwistedTerm, Dual;
    var r := AddPoints(p, q);
    QuadricsOf(r);
    DualRelation(p, q);
    NormRelation(p, q);
    GapRelation(p, q);
    CombineCloses(CrossTerm(p, q), DifferenceTerm(p, q), SumTerm(p, q), TwistedTerm(p, q),
                  Dual(p.t, p.z, q.t, q.z), Dual(p.x, p.y, q.x, q.y));
    SegreProduct(CrossTerm(p, q), DifferenceTerm(p, q), SumTerm(p, q), TwistedTerm(p, q));
  }

  lemma SegreProduct(e: int, f: int, g: int, h: int)
    ensures (e * f) * (g * h) == (e * h) * (f * g)
  {
  }

  // ---- Doubling ----

  function DoublePoint(p: Extended): Extended {
    var sum := Form(EDWARDS_A, p.x, p.y);
    Combine(2 * (p.x * p.y), sum - 2 * (p.z * p.z), sum, EDWARDS_A * (p.x * p.x) - p.y * p.y)
  }

  function Scale(s: int, p: Extended): Extended {
    Extended(s * p.x, s * p.y, s * p.z, s * p.t)
  }

  lemma CombineCong(e: int, f: int, g: int, h: int, e1: int, f1: int, g1: int, h1: int)
    requires Cong(e, e1) && Cong(f, f1) && Cong(g, g1) && Cong(h, h1)
    ensures CongExtended(Combine(e, f, g, h), Combine(e1, f1, g1, h1))
  {
    hide Residue;
    CongMul(e, e1, f, f1);
    CongMul(g, g1, h, h1);
    CongMul(f, f1, g, g1);
    CongMul(e, e1, h, h1);
  }

  lemma CombineSigns(e: int, f: int, g: int, h: int)
    ensures Combine(e, -f, g, -h) == Scale(-1, Combine(e, f, g, h))
  {
  }

  lemma SelfTerms(p: Extended)
    ensures CrossTerm(p, p) == 2 * (p.x * p.y)
    ensures SumTerm(p, p) == Form(EDWARDS_D, p.t, p.z)
    ensures DifferenceTerm(p, p) == 2 * (p.z * p.z) - Form(EDWARDS_D, p.t, p.z)
    ensures TwistedTerm(p, p) == p.y * p.y - EDWARDS_A * (p.x * p.x)
  {
  }

  /** On the quadrics `double(P)` is -1 times `add(P, P)`, coordinate by coordinate. */
  lemma DoubleIsNegatedSum(p: Extended)
    requires OnQuadrics(p)
    ensures CongExtended(DoublePoint(p), Scale(-1, AddPoints(p, p)))
  {
    hide OnQuadrics, Residue, Form, CrossTerm, SumTerm, DifferenceTerm, TwistedTerm, Combine;
    QuadricsOf(p);
    SelfTerms(p);
    var l, r := Form(EDWARDS_A, p.x, p.y), Form(EDWARDS_D, p.t, p.z);
    CongSub(l, r, 2 * (p.z * p.z), 2 * (p.z * p.z));
    CombineCong(2 * (p.x * p.y), l - 2 * (p.z * p.z), l, EDWARDS_A * (p.x * p.x) - p.y * p.y,
                CrossTerm(p, p), -DifferenceTerm(p, p), SumTerm(p, p), -TwistedTerm(p, p));
    CombineSigns(CrossTerm(p, p), DifferenceTerm(p, p), SumTerm(p, p), TwistedTerm(p, p));
  }

  // ---- Mixed addition ----

  /** Cached affine point: `xy` and `dt` stand for x + y and d x y. */
  datatype Niels = Niels(x: int, y: int, xy: int, dt: int)

  ghost predicate Caches(n: Niels) {
    Cong(n.xy, n.x + n.y) && Cong(n.dt, EDWARDS_D * (n.x * n.y))
  }

  /** The entry caches its affine point; named for opacity as in OnQuadrics. */
  ghost predicate CachesAffine(n: Niels) {
    forall m: Niels {:trigger Named(m, n)} :: Named(m, n) ==> Caches(m)
  }

  lemma CachesOf(n: Niels)
    ensures CachesAffine(n) <==> Cong(n.xy, n.x + n.y) && Cong(n.dt, EDWARDS_D * (n.x * n.y))
  {
    hide Residue;
    assert Named(n, n);
  }

  function CachedCross(p: Extended, n: Niels): int {
    (p.x + p.y) * n.xy - (p.x * n.x + p.y * n.y)
  }

  function AddCached(p: Extended, n: Niels): Extended {
    Combine(CachedCross(p, n), p.z - p.t * n.dt, p.z + p.t * n.dt, Minus(EDWARDS_A, p.x, p.y, n.x, n.y))
  }

  lemma CrossExpanded(x1: int, y1: int, x2: int, y2: int)
    ensures (x1 + y1) * (x2 + y2) - (x1 * x2 + y1 * y2) == Cross(x1, y1, x2, y2)
  {
    Foil(x1, y1, x2, y2);
  }

  lemma AffineTerms(p: Extended, x: int, y: int)
    ensures CrossTerm(p, FromAffine(x, y)) == Cross(p.x, p.y, x, y)
    ensures DifferenceTerm(p, FromAffine(x, y)) == p.z - p.t * (EDWARDS_D * (x * y))
    ensures SumTerm(p, FromAffine(x, y)) == p.z + p.t * (EDWARDS_D * (x * y))
    ensures TwistedTerm(p, FromAffine(x, y)) == p.y * y - EDWARDS_A * (p.x * x)
  {
    Swap(EDWARDS_D, p.t, x * y);
  }

  /** Adding a cached point is adding the affine point it caches. */
  lemma AddCachedIsAdd(p: Extended, n: Niels)
    requires CachesAffine(n)
    ensures CongExtended(AddCached(p, n), AddPoints(p, FromAffine(n.x, n.y)))
  {
    hide CachesAffine, Residue, Combine, Cross, CrossTerm, SumTerm, DifferenceTerm, TwistedTerm;
    CachesOf(n);
    var products, dxy := p.x * n.x + p.y * n.y, EDWARDS_D * (n.x * n.y);
    CongMul(p.x + p.y, p.x + p.y, n.xy, n.x + n.y);
    CongSub((p.x + p.y) * n.xy, (p.x + p.y) * (n.x + n.y), products, products);
    CrossExpanded(p.x, p.y, n.x, n.y);
    CongMul(p.t, p.t, n.dt, dxy);
    CongSub(p.z, p.z, p.t * n.dt, p.t * dxy);
    CongAdd(p.z, p.z, p.t * n.dt, p.t * dxy);
    AffineTerms(p, n.x, n.y);
    CombineCong((p.x + p.y) * n.xy - products, p.z - p.t * n.dt, p.z + p.t * n.dt,
                p.y * n.y - EDWARDS_A * (p.x * n.x),
                Cross(p.x, p.y, n.x, n.y), p.z - p.t * dxy, p.z + p.t * dxy, p.y * n.y - EDWARDS_A * (p.x * n.x));
  }

  lemma NegateCloses(p: Extended)
    requires OnQuadrics(p)
    ensures OnQuadrics(Negate(p))
  {
    hide OnQuadrics, Residue;
    QuadricsOf(p);
    QuadricsOf(Negate(p));
    assert (-p.x) * (-p.x) == p.x * p.x && (-p.t) * (-p.t) == p.t * p.t;
    assert (-p.x) * p.y == -(p.x * p.y) && (-p.t) * p.z == -(p.t * p.z);
    CongSub(0, 0, p.x * p.y, p.t * p.z);
  }

  // ---- Projective well-definedness ----

  lemma ScaleTerm(s: int, x: int, y: int)
    ensures (s * x) * y == s * (x * y) && x * (s * y) == s * (x * y)
  {
  }

  lemma ScaledMinus(s: int, k: int, x1: int, y1: int, x2: int, y2: int)
    ensures Minus(k, s * x1, s * y1, x2, y2) == s * Minus(k, x1, y1, x2, y2)
    ensures Plus(k, s * x1, s * y1, x2, y2) == s * Plus(k, x1, y1, x2, y2)
    ensures Cross(s * x1, s * y1, x2, y2) == s * Cross(x1, y1, x2, y2)
  {
    ScaleTerm(s, y1, y2);
    ScaleTerm(s, x1, x2);
    ScaleTerm(s, x1, y2);
    ScaleTerm(s, y1, x2);
    ScaleTerm(s, k, x1 * x2);
    Distribute(s, y1 * y2, k * (x1 * x2));
    Distribute(s, y1 * y2, -(k * (x1 * x2)));
    Distribute(s, x1 * y2, y1 * x2);
  }

  /** Scaling one summand by s scales the sum by s^2. */
  lemma AddScaled(s: int, p: Extended, q: Extended)
    ensures AddPoints(Scale(s, p), q) == Scale(s * s, AddPoints(p, q))
  {
    hide Minus, Plus, Cross;
    ScaledMinus(s, EDWARDS_A, p.x, p.y, q.x, q.y);
    ScaledMinus(s, EDWARDS_D, p.t, p.z, q.t, q.z);
    Exchange(s, CrossTerm(p, q), s, DifferenceTerm(p, q));
    Exchange(s, SumTerm(p, q), s, TwistedTerm(p, q));
    Exchange(s, DifferenceTerm(p, q), s, SumTerm(p, q));
    Exchange(s, CrossTerm(p, q), s, TwistedTerm(p, q));
  }

  lemma AddCommutes(p: Extended, q: Extended)
    ensures AddPoints(p, q) == AddPoints(q, p)
  {
    ProductsCommute(p.x, q.x, p.y, q.y);
    assert p.x * q.y == q.y * p.x && p.y * q.x == q.x * p.y;
    assert p.z * q.z == q.z * p.z && p.t * q.t == q.t * p.t;
  }

  /** Adding the identity scales by Z. */
  lemma AddIdentity(p: Extended)
    requires OnQuadrics(p)
    ensures CongExtended(AddPoints(p, IDENTITY), Scale(p.z, p))
  {
    hide OnQuadrics, Residue;
    QuadricsOf(p);
    assert AddPoints(p, IDENTITY) == Combine(p.x, p.z, p.z, p.y);
    ProductsCommute(p.x, p.z, p.y, p.z);
    assert p.z * p.t == p.t * p.z;
  }

  /** A point plus its negative has X = 0 and Y = Z. */
  lemma AddNegative(p: Extended)
    requires OnQuadrics(p)
    ensures Cong(AddPoints(p, Negate(p)).x, 0) && Cong(AddPoints(p, Negate(p)).t, 0)
    ensures Cong(AddPoints(p, Negate(p)).y, AddPoints(p, Negate(p)).z)
  {
    hide OnQuadrics, Residue, Form;
    QuadricsOf(p);
    NegativeTerms(p);
    var l, r := Form(EDWARDS_A, p.x, p.y), Form(EDWARDS_D, p.t, p.z);
    var g := 2 * (p.z * p.z) - r;
    CongMul(g, g, l, r);
    assert r * g == g * r;
  }

  lemma NegativeTerms(p: Extended)
    ensures CrossTerm(p, Negate(p)) == 0
    ensures SumTerm(p, Negate(p)) == 2 * (p.z * p.z) - Form(EDWARDS_D, p.t, p.z)
    ensures DifferenceTerm(p, Negate(p)) == Form(EDWARDS_D, p.t, p.z)
    ensures TwistedTerm(p, Negate(p)) == Form(EDWARDS_A, p.x, p.y)
  {
    assert p.x * (-p.x) == -(p.x * p.x) && p.t * (-p.t) == -(p.t * p.t);
    assert p.x * p.y == p.y * p.x && p.y * (-p.x) == -(p.y * p.x);
  }
}
