// The two Montgomery ladders as integer polynomials, and the proof that the scaled, peeled one
// refines the 301-round reference ladder.
module LadderSpec {
  import opened Arithmetic
  import opened Words
  import opened Modular

  /** q = a - d, the common scale of every doubling. */
  const A24_DENOMINATOR: int := 2086388028
  const A24_NUMERATOR: int := 301
  /** (A - 2) / 4 of the Montgomery form, as a residue. */
  const A24_MINUS: int :=
    0xaa029362ba3_137bab9f5cdc1fc8_3a5ea81722d22255_15ed71ca8cd44f2f_09f485440646b74c

  /** Projective x-line point (x : z); coordinates are integers, meaningful modulo p. */
  datatype Point = Point(x: int, z: int)

  function Sum(p: Point): int { p.x + p.z }

  function Difference(p: Point): int { p.x - p.z }

  ghost predicate IsSquare(s: int, x: int) {
    forall v: int {:trigger Named(v, x)} :: Named(v, x) ==> s == v * v
  }

  /** x^2, named for opacity: nested doublings stay polynomials of degree two in the named squares. */
  ghost function SquareOf(x: int): int {
    assert IsSquare(x * x, x);
    var s: int :| IsSquare(s, x);
    s
  }

  lemma SquareIs(x: int)
    ensures SquareOf(x) == x * x
  {
    assert Named(x, x);
  }

  /** `(x+z)^2 - (x-z)^2` */
  ghost function Cross(p: Point): int {
    SquareOf(Sum(p)) - SquareOf(Difference(p))
  }

  /** Reference doubling. */
  ghost function Double(p: Point): Point {
    Point(SquareOf(Sum(p)) * SquareOf(Difference(p)),
          Cross(p) * (SquareOf(Sum(p)) + A24_MINUS * Cross(p)))
  }

  /** Doubling with both coordinates multiplied by q. */
  ghost function DoubleScaled(p: Point): Point {
    Point((SquareOf(Sum(p)) * A24_DENOMINATOR) * SquareOf(Difference(p)),
          Cross(p) * (SquareOf(Sum(p)) * A24_DENOMINATOR + Cross(p) * A24_NUMERATOR))
  }

  function DiagonalDA(p: Point, q: Point): int { Difference(q) * Sum(p) }

  function DiagonalCB(p: Point, q: Point): int { Sum(q) * Difference(p) }

  /** Differential addition of `p` and `q` whose difference is `(u : 1)`. */
  ghost function DiffAdd(u: int, p: Point, q: Point): Point {
    Point(SquareOf(DiagonalDA(p, q) + DiagonalCB(p, q)),
          u * SquareOf(DiagonalDA(p, q) - DiagonalCB(p, q)))
  }

  datatype Rungs = Rungs(p2: Point, p3: Point, swap: bool) {
    /** The two points after the conditional swap for `bit`. */
    function Arranged(bit: bool): (Point, Point) {
      if swap != bit then (p3, p2) else (p2, p3)
    }
  }

  function Bit(k: nat, i: nat): bool {
    k / Pow2(i) % 2 == 1
  }

  ghost function ReferenceRound(u: int, r: Rungs, bit: bool): Rungs {
    var (p2, p3) := r.Arranged(bit);
    Rungs(Double(p2), DiffAdd(u, p2, p3), bit)
  }

  ghost function ScaledRound(u: int, r: Rungs, bit: bool): Rungs {
    var (p2, p3) := r.Arranged(bit);
    Rungs(DoubleScaled(p2), DiffAdd(u, p2, p3), bit)
  }

  /** Reference ladder after the rounds for bits 300 down to `i`. */
  ghost function ReferenceRun(k: nat, u: int, i: nat): Rungs
    requires i <= FIELD_BITS
    decreases FIELD_BITS - i, k, u
  {
    if i == FIELD_BITS then Rungs(Point(1, 0), Point(u, 1), false)
    else ReferenceRound(u, ReferenceRun(k, u, i + 1), Bit(k, i))
  }

  ghost function ReferenceLadder(k: nat, u: int): Point {
    var r := ReferenceRun(k, u, 0);
    if r.swap then r.p3 else r.p2
  }

  /** Optimized ladder after the rounds for bits 299 down to `i`; bit 300 is peeled into the start. */
  ghost function ScaledRun(k: nat, u: int, i: nat): Rungs
    requires i < FIELD_BITS
    decreases FIELD_BITS - i, k, u
  {
    if i == FIELD_BITS - 1 then Rungs(DoubleScaled(Point(u, 1)), Point(u, 1), true)
    else ScaledRound(u, ScaledRun(k, u, i + 1), Bit(k, i))
  }

  /** Bits 1 and 0 are two plain doublings of the selected point. */
  ghost function ScaledLadder(k: nat, u: int): Point {
    var r := ScaledRun(k, u, 2);
    DoubleScaled(DoubleScaled(if r.swap then r.p3 else r.p2))
  }

  /** A clamped scalar: bit 300 is the top bit and bits 1 and 0 are clear. */
  predicate Clamped(k: nat) {
    TOP_BIT <= k < 2 * TOP_BIT && k % 4 == 0
  }

  // ---- Scale factors ----

  /** `r` is `f` with both coordinates multiplied by `s`. */
  ghost predicate Scaled(r: Point, f: Point, s: int) {
    Cong(r.x, s * f.x) && Cong(r.z, s * f.z)
  }

  lemma ScaledSums(r: Point, f: Point, s: int)
    requires Scaled(r, f, s)
    ensures Cong(Sum(r), s * Sum(f)) && Cong(Difference(r), s * Difference(f))
  {
    hide Residue;
    CongAdd(r.x, s * f.x, r.z, s * f.z);
    CongSub(r.x, s * f.x, r.z, s * f.z);
    assert s * f.x + s * f.z == s * Sum(f) && s * f.x - s * f.z == s * Difference(f);
  }

  lemma ScaledSquare(a: int, b: int, s: int)
    requires Cong(a, s * b)
    ensures Cong(SquareOf(a), (s * s) * SquareOf(b))
  {
    hide Residue;
    SquareIs(a);
    SquareIs(b);
    CongMul(a, s * b, a, s * b);
    assert (s * b) * (s * b) == (s * s) * (b * b);
  }

  lemma ScaledCross(r: Point, f: Point, s: int)
    requires Scaled(r, f, s)
    ensures Cong(SquareOf(Sum(r)), (s * s) * SquareOf(Sum(f)))
    ensures Cong(SquareOf(Difference(r)), (s * s) * SquareOf(Difference(f)))
    ensures Cong(Cross(r), (s * s) * Cross(f))
  {
    hide Residue;
    ScaledSums(r, f, s);
    ScaledSquare(Sum(r), Sum(f), s);
    ScaledSquare(Difference(r), Difference(f), s);
    CongSub(SquareOf(Sum(r)), (s * s) * SquareOf(Sum(f)), SquareOf(Difference(r)), (s * s) * SquareOf(Difference(f)));
    assert (s * s) * SquareOf(Sum(f)) - (s * s) * SquareOf(Difference(f)) == (s * s) * Cross(f);
  }

  /** A24 = d / q. */
  lemma A24Ratio()
    ensures Cong(A24_DENOMINATOR * A24_MINUS, A24_NUMERATOR)
  {
    hide Residue;
    CongIntro(A24_DENOMINATOR * A24_MINUS, A24_NUMERATOR, (A24_DENOMINATOR * A24_MINUS - A24_NUMERATOR) / P);
  }

  /** The bracket of the z coordinate, with the scale pulled out. */
  lemma ScaledBracket(aa: int, aaf: int, e: int, ef: int, t: int)
    requires Cong(aa, t * aaf) && Cong(e, t * ef)
    ensures Cong(aa * A24_DENOMINATOR + e * A24_NUMERATOR, (A24_DENOMINATOR * t) * (aaf + A24_MINUS * ef))
  {
    hide Residue;
    var q := A24_DENOMINATOR;
    A24Ratio();
    CongSym(q * A24_MINUS, A24_NUMERATOR);
    CongMul(e, t * ef, A24_NUMERATOR, q * A24_MINUS);
    CongMul(aa, t * aaf, q, q);
    CongAdd(aa * q, (t * aaf) * q, e * A24_NUMERATOR, (t * ef) * (q * A24_MINUS));
    BracketIdentity(q, t, aaf, A24_MINUS, ef);
  }

  lemma BracketIdentity(q: int, t: int, x: int, a: int, y: int)
    ensures (t * x) * q + (t * y) * (q * a) == (q * t) * (x + a * y)
  {
    assert (t * y) * (q * a) == (q * t) * (a * y);
    assert (t * x) * q == (q * t) * x;
  }

  lemma Regroup4(q: int, t: int, x: int, y: int)
    ensures ((t * x) * q) * (t * y) == (q * (t * t)) * (x * y)
    ensures (t * x) * ((q * t) * y) == (q * (t * t)) * (x * y)
  {
    assert ((t * x) * q) * (t * y) == (q * t) * (x * (t * y));
    assert x * (t * y) == t * (x * y);
    assert (q * t) * (t * (x * y)) == (q * (t * t)) * (x * y);
    assert (t * x) * ((q * t) * y) == (t * (q * t)) * (x * y);
    assert t * (q * t) == q * (t * t);
  }

  /** Scaled doubling of a point scaled by `s` is the reference doubling scaled by `q * s^4`. */
  lemma DoubleScales(r: Point, f: Point, s: int)
    requires Scaled(r, f, s)
    ensures Scaled(DoubleScaled(r), Double(f), A24_DENOMINATOR * ((s * s) * (s * s)))
  {
    hide Residue;
    var q, t := A24_DENOMINATOR, s * s;
    ScaledCross(r, f, s);
    var aa, bb, e := SquareOf(Sum(r)), SquareOf(Difference(r)), Cross(r);
    var aaf, bbf, ef := SquareOf(Sum(f)), SquareOf(Difference(f)), Cross(f);
    CongMul(aa, t * aaf, q, q);
    CongMul(aa * q, (t * aaf) * q, bb, t * bbf);
    Regroup4(q, t, aaf, bbf);
    ScaledBracket(aa, aaf, e, ef, t);
    CongMul(e, t * ef, aa * q + e * A24_NUMERATOR, (q * t) * (aaf + A24_MINUS * ef));
    Regroup4(q, t, ef, aaf + A24_MINUS * ef);
  }

  lemma ScaledProduct(a: int, b: int, s: int, c: int, d: int, t: int)
    requires Cong(a, s * b) && Cong(c, t * d)
    ensures Cong(a * c, (s * t) * (b * d))
  {
    hide Residue;
    CongMul(a, s * b, c, t * d);
    assert (s * b) * (t * d) == (s * t) * (b * d);
  }

  /** Differential addition multiplies the scales of its inputs and squares the product. */
  lemma DiffAddScales(u: int, r2: Point, f2: Point, s2: int, r3: Point, f3: Point, s3: int)
    requires Scaled(r2, f2, s2) && Scaled(r3, f3, s3)
    ensures Scaled(DiffAdd(u, r2, r3), DiffAdd(u, f2, f3), (s2 * s3) * (s2 * s3))
  {
    hide Residue;
    var m := s3 * s2;
    ScaledSums(r2, f2, s2);
    ScaledSums(r3, f3, s3);
    ScaledProduct(Difference(r3), Difference(f3), s3, Sum(r2), Sum(f2), s2);
    ScaledProduct(Sum(r3), Sum(f3), s3, Difference(r2), Difference(f2), s2);
    ScaledOutputs(u, DiagonalDA(r2, r3), DiagonalCB(r2, r3), DiagonalDA(f2, f3), DiagonalCB(f2, f3), m);
    assert s2 * s3 == m;
  }

  lemma ScaledOutputs(u: int, da: int, cb: int, daf: int, cbf: int, m: int)
    requires Cong(da, m * daf) && Cong(cb, m * cbf)
    ensures Cong(SquareOf(da + cb), (m * m) * SquareOf(daf + cbf))
    ensures Cong(u * SquareOf(da - cb), (m * m) * (u * SquareOf(daf - cbf)))
  {
    hide Residue;
    CongAdd(da, m * daf, cb, m * cbf);
    CongSub(da, m * daf, cb, m * cbf);
    assert m * daf + m * cbf == m * (daf + cbf) && m * daf - m * cbf == m * (daf - cbf);
    ScaledSquare(da + cb, daf + cbf, m);
    ScaledSquare(da - cb, daf - cbf, m);
    CongMul(u, u, SquareOf(da - cb), (m * m) * SquareOf(daf - cbf));
    Swap(u, m * m, SquareOf(daf - cbf));
  }

  // ---- Scales are units ----

  lemma DenominatorIsUnit()
    ensures IsUnit(A24_DENOMINATOR)
  {
    hide Residue;
    A24Ratio();
    var inverse := InverseOf301();
    CongMul(A24_DENOMINATOR * A24_MINUS, A24_NUMERATOR, inverse, inverse);
    CongTrans((A24_DENOMINATOR * A24_MINUS) * inverse, A24_NUMERATOR * inverse, 1);
    assert (A24_DENOMINATOR * A24_MINUS) * inverse == A24_DENOMINATOR * (A24_MINUS * inverse);
    UnitWitness(A24_DENOMINATOR, A24_MINUS * inverse);
  }

  /** 301 * w = 1 + 65 * p */
  lemma InverseOf301() returns (w: int)
    ensures Cong(A24_NUMERATOR * w, 1)
  {
    hide Residue;
    w := (1 + 65 * P) / 301;
    assert 301 * w == 1 + 65 * P;
    CongIntro(A24_NUMERATOR * w, 1, 65);
  }

  lemma FourIsUnit()
    ensures IsUnit(4)
  {
    hide Residue;
    var w := (P + 1) / 4;
    assert 4 * w == 1 + 1 * P;
    CongIntro(4 * w, 1, 1);
    UnitWitness(4, w);
  }

  lemma FourthPowerIsUnit(s: int)
    requires IsUnit(s)
    ensures IsUnit(A24_DENOMINATOR * ((s * s) * (s * s)))
  {
    hide Residue;
    DenominatorIsUnit();
    UnitMul(s, s);
    UnitMul(s * s, s * s);
    UnitMul(A24_DENOMINATOR, (s * s) * (s * s));
  }

  /** Some unit scale relates `r` to `f`. */
  ghost predicate UnitScaled(r: Point, f: Point) {
    exists s: int :: IsUnit(s) && Scaled(r, f, s)
  }

  lemma UnitScaledDouble(r: Point, f: Point)
    requires UnitScaled(r, f)
    ensures UnitScaled(DoubleScaled(r), Double(f))
  {
    hide Residue;
    var s :| IsUnit(s) && Scaled(r, f, s);
    DoubleScales(r, f, s);
    FourthPowerIsUnit(s);
  }

  lemma UnitScaledDiffAdd(u: int, r2: Point, f2: Point, r3: Point, f3: Point)
    requires UnitScaled(r2, f2) && UnitScaled(r3, f3)
    ensures UnitScaled(DiffAdd(u, r2, r3), DiffAdd(u, f2, f3))
  {
    hide Residue;
    var s :| IsUnit(s) && Scaled(r2, f2, s);
    var t :| IsUnit(t) && Scaled(r3, f3, t);
    DiffAddScales(u, r2, f2, s, r3, f3, t);
    UnitMul(s, t);
    UnitMul(s * t, s * t);
  }

  // ---- Refinement ----

  ghost predicate SameRungs(r: Rungs, f: Rungs) {
    r.swap == f.swap && UnitScaled(r.p2, f.p2) && UnitScaled(r.p3, f.p3)
  }

  lemma TopBit(k: nat)
    requires TOP_BIT <= k < 2 * TOP_BIT
    ensures Bit(k, 300)
  {
    TopPower();
    QuotientOne(k, TOP_BIT);
  }

  lemma QuotientOne(k: int, p: int)
    requires 0 < p <= k < 2 * p
    ensures k / p == 1
  {
  }

  lemma LowBits(k: nat)
    requires k % 4 == 0
    ensures !Bit(k, 1) && !Bit(k, 0)
  {
    assert Pow2(1) == 2 && Pow2(0) == 1;
  }

  /** After the top round the reference holds `(2P, P)` with `P` scaled by `4u`. */
  lemma PeeledRound(k: nat, u: int)
    requires TOP_BIT <= k < 2 * TOP_BIT && IsUnit(u)
    ensures SameRungs(ScaledRun(k, u, 300), ReferenceRun(k, u, 300))
  {
    hide Residue;
    TopBit(k);
    assert ReferenceRun(k, u, 301) == Rungs(Point(1, 0), Point(u, 1), false);
    var f := ReferenceRun(k, u, 300);
    assert f == ReferenceRound(u, Rungs(Point(1, 0), Point(u, 1), false), true);
    var start := Point(u, 1);
    assert UnitScaled(start, start) by {
      UnitWitness(1, 1);
      assert Scaled(start, start, 1);
    }
    UnitScaledDouble(start, start);
    var p3 := DiffAdd(u, start, Point(1, 0));
    FourUIdentity(u);
    FourIsUnit();
    UnitMul(4, u);
    var w :| Cong((4 * u) * w, 1);
    PeeledScale(u, 4 * u, w);
  }

  lemma PeeledScale(u: int, v: int, w: int)
    requires Cong(v * w, 1)
    ensures UnitScaled(Point(u, 1), Point(v * u, v))
  {
    hide Residue;
    CommuteInside(v, w, u);
    UnitWitness(w, v);
    CongSym(v * w, 1);
    CongMul(1, v * w, u, u);
    assert Scaled(Point(u, 1), Point(v * u, v), w);
  }

  lemma CommuteInside(v: int, w: int, u: int)
    ensures (v * w) * u == w * (v * u) && v * w == w * v
  {
  }

  lemma FourUIdentity(u: int)
    ensures DiffAdd(u, Point(u, 1), Point(1, 0)) == Point((4 * u) * u, 4 * u)
  {
    assert DiagonalDA(Point(u, 1), Point(1, 0)) == u + 1;
    assert DiagonalCB(Point(u, 1), Point(1, 0)) == u - 1;
    SquareIs(u + 1 + (u - 1));
    SquareIs(u + 1 - (u - 1));
    assert (u + 1 + (u - 1)) * (u + 1 + (u - 1)) == (4 * u) * u;
  }

  lemma SameRound(u: int, r: Rungs, f: Rungs, bit: bool)
    requires SameRungs(r, f)
    ensures SameRungs(ScaledRound(u, r, bit), ReferenceRound(u, f, bit))
  {
    hide Residue;
    var (r2, r3) := r.Arranged(bit);
    var (f2, f3) := f.Arranged(bit);
    UnitScaledDouble(r2, f2);
    UnitScaledDiffAdd(u, r2, f2, r3, f3);
  }

  lemma {:induction false} SameRun(k: nat, u: int, i: nat)
    requires TOP_BIT <= k < 2 * TOP_BIT && IsUnit(u) && i <= 300
    ensures SameRungs(ScaledRun(k, u, i), ReferenceRun(k, u, i))
    decreases 300 - i
  {
    hide Residue;
    if i == 300 {
      PeeledRound(k, u);
    } else {
      SameRun(k, u, i + 1);
      SameRound(u, ScaledRun(k, u, i + 1), ReferenceRun(k, u, i + 1), Bit(k, i));
    }
  }

  /** The last two reference rounds select the point and double it twice. */
  lemma LastRounds(k: nat, u: int)
    requires k % 4 == 0
    ensures ReferenceLadder(k, u)
         == Double(Double(if ReferenceRun(k, u, 2).swap then ReferenceRun(k, u, 2).p3 else ReferenceRun(k, u, 2).p2))
  {
    LowBits(k);
    var r2 := ReferenceRun(k, u, 2);
    var r1 := ReferenceRun(k, u, 1);
    var r0 := ReferenceRun(k, u, 0);
    assert r1 == ReferenceRound(u, r2, false);
    assert r0 == ReferenceRound(u, r1, false);
  }

  /**
   * For every clamped scalar and every invertible u the optimized ladder returns the reference
   * ladder's projective point up to an invertible factor.
   */
  lemma UnitInputRefines(k: nat, u: int)
    requires Clamped(k) && IsUnit(u)
    ensures UnitScaled(ScaledLadder(k, u), ReferenceLadder(k, u))
  {
    hide Residue;
    SameRun(k, u, 2);
    var r, f := ScaledRun(k, u, 2), ReferenceRun(k, u, 2);
    var rp, fp := if r.swap then r.p3 else r.p2, if f.swap then f.p3 else f.p2;
    UnitScaledDouble(rp, fp);
    UnitScaledDouble(DoubleScaled(rp), Double(fp));
    LastRounds(k, u);
  }

  // ---- u = 0 ----

  lemma ZeroCross(p: Point)
    requires p.x == 0 || p.z == 0
    ensures Cross(p) == 0
  {
    SquareIs(Sum(p));
    SquareIs(Difference(p));
    assert Sum(p) == Difference(p) || Sum(p) == -Difference(p);
  }

  /** At u = 0 every z of the optimized ladder is zero after one loop round. */
  lemma {:induction false} ScaledZeroRun(k: nat, i: nat)
    requires i <= 299
    ensures ScaledRun(k, 0, i).p2.z == 0 && ScaledRun(k, 0, i).p3.z == 0
    decreases 299 - i
  {
    hide Residue;
    if i == 299 {
      assert ScaledRun(k, 0, 300) == Rungs(DoubleScaled(Point(0, 1)), Point(0, 1), true);
      ZeroCross(Point(0, 1));
    } else {
      ScaledZeroRun(k, i + 1);
    }
    var (p2, p3) := ScaledRun(k, 0, i + 1).Arranged(Bit(k, i));
    ZeroCross(p2);
  }

  lemma {:induction false} ReferenceZeroRun(k: nat, i: nat)
    requires i <= 300
    ensures ReferenceRun(k, 0, i).p2.z == 0 && ReferenceRun(k, 0, i).p3.z == 0
    decreases 300 - i
  {
    if i == 300 {
      assert ReferenceRun(k, 0, 301) == Rungs(Point(1, 0), Point(0, 1), false);
    } else {
      ReferenceZeroRun(k, i + 1);
    }
    var (p2, p3) := ReferenceRun(k, 0, i + 1).Arranged(Bit(k, i));
    ZeroCross(p2);
  }

  /** At u = 0 both ladders end at z = 0, for every scalar. */
  lemma ZeroInputVanishes(k: nat)
    ensures ScaledLadder(k, 0).z == 0 && ReferenceLadder(k, 0).z == 0
  {
    hide Residue;
    ScaledZeroRun(k, 2);
    ReferenceZeroRun(k, 0);
    var r := ScaledRun(k, 0, 2);
    var p := if r.swap then r.p3 else r.p2;
    ZeroCross(p);
    ZeroCross(DoubleScaled(p));
  }

  /**
   * The optimized ladder refines the reference on every clamped scalar and every canonical u: the same projective
   * point up to an invertible factor when u is invertible, z = 0 on both sides when u is zero, and no other case
   * when p is prime.
   */
  lemma LadderRefinesReference(k: nat, u: int)
    requires Clamped(k) && 0 <= u < P
    ensures IsUnit(u) ==> UnitScaled(ScaledLadder(k, u), ReferenceLadder(k, u))
    ensures u == 0 ==> ScaledLadder(k, u).z == 0 && ReferenceLadder(k, u).z == 0
    ensures PrimeField() ==> IsUnit(u) || u == 0
  {
    hide Residue, IsUnit, UnitScaled, ScaledLadder, ReferenceLadder;
    if IsUnit(u) {
      UnitInputRefines(k, u);
    }
    ZeroInputVanishes(k);
  }

  // ---- u = 1 and u = -1: the points of order four ----

  /** u^2 = 1 modulo p, named for opacity. */
  ghost predicate SquaresToOne(u: int) {
    forall v: int {:trigger Named(v, u)} :: Named(v, u) ==> Cong(v * v, 1)
  }

  lemma SquaresToOneOf(u: int)
    ensures SquaresToOne(u) <==> Cong(u * u, 1)
  {
    hide Residue;
    assert Named(u, u);
  }

  /** `x^2 = z^2`: the point's x-coordinate is 1 or -1. */
  ghost predicate OrderFour(p: Point) {
    Cong(p.x * p.x, p.z * p.z)
  }

  /** `x = 0` or `z = 0`, without splitting the product. */
  ghost predicate Degenerate(p: Point) {
    Cong(p.x * p.z, 0)
  }

  lemma SumTimesDifference(p: Point)
    ensures Sum(p) * Difference(p) == p.x * p.x - p.z * p.z
    ensures Cross(p) == 4 * (p.x * p.z)
  {
    SquareIs(Sum(p));
    SquareIs(Difference(p));
  }

  lemma CongZeroMul(a: int, b: int)
    requires Cong(a, 0)
    ensures Cong(a * b, 0) && Cong(b * a, 0)
  {
    hide Residue;
    CongMul(a, 0, b, b);
  }

  lemma DoubleOrderFour(p: Point)
    requires OrderFour(p)
    ensures Degenerate(DoubleScaled(p))
  {
    hide Residue;
    SumTimesDifference(p);
    CongSub(p.x * p.x, p.z * p.z, p.z * p.z, p.z * p.z);
    var m := Sum(p) * Difference(p);
    CongZeroMul(m, A24_DENOMINATOR * m);
    SquaresTogether(Sum(p), Difference(p), A24_DENOMINATOR);
    CongZeroMul(DoubleScaled(p).x, DoubleScaled(p).z);
  }

  lemma SquaresTogether(a: int, b: int, q: int)
    ensures (SquareOf(a) * q) * SquareOf(b) == (a * b) * (q * (a * b))
  {
    SquareIs(a);
    SquareIs(b);
    assert ((a * a) * q) * (b * b) == (a * b) * (q * (a * b));
  }

  lemma DoubleDegenerate(p: Point)
    requires Degenerate(p)
    ensures Cong(DoubleScaled(p).z, 0) && Degenerate(DoubleScaled(p))
  {
    hide Residue;
    SumTimesDifference(p);
    CongZeroMul(p.x * p.z, 4);
    var bracket := SquareOf(Sum(p)) * A24_DENOMINATOR + Cross(p) * A24_NUMERATOR;
    CongZeroMul(Cross(p), bracket);
    CongZeroMul(DoubleScaled(p).z, DoubleScaled(p).x);
  }

  /** `(x2 x3 - z2 z3)^2 - (x3 z2 - x2 z3)^2 = (x2^2 - z2^2)(x3^2 - z3^2)` */
  lemma DiffAddIdentity(p: Point, q: Point)
    ensures SquareOf(DiagonalDA(p, q) + DiagonalCB(p, q)) - SquareOf(DiagonalDA(p, q) - DiagonalCB(p, q))
         == 4 * ((p.x * p.x - p.z * p.z) * (q.x * q.x - q.z * q.z))
  {
    var da, cb := DiagonalDA(p, q), DiagonalCB(p, q);
    SumTimesDifference(p);
    SumTimesDifference(q);
    SquareIs(da + cb);
    SquareIs(da - cb);
    assert SquareOf(da + cb) - SquareOf(da - cb) == 4 * (da * cb);
    FourFactors(Difference(q), Sum(p), Sum(q), Difference(p));
  }

  lemma FourFactors(a: int, b: int, c: int, d: int)
    ensures (a * b) * (c * d) == (b * d) * (c * a)
  {
    assert (a * b) * (c * d) == a * (b * (c * d));
    assert b * (c * d) == (b * d) * c;
    assert a * ((b * d) * c) == (b * d) * (c * a);
  }

  lemma DiffAddOrderFour(u: int, p: Point, q: Point)
    requires Cong(u * u, 1) && (OrderFour(p) || OrderFour(q))
    ensures OrderFour(DiffAdd(u, p, q))
  {
    hide Residue;
    var s, t := SquareOf(DiagonalDA(p, q) + DiagonalCB(p, q)), SquareOf(DiagonalDA(p, q) - DiagonalCB(p, q));
    var a, b := p.x * p.x - p.z * p.z, q.x * q.x - q.z * q.z;
    DiffAddIdentity(p, q);
    if OrderFour(p) {
      CongSub(p.x * p.x, p.z * p.z, p.z * p.z, p.z * p.z);
      CongZeroMul(a, b);
    } else {
      CongSub(q.x * q.x, q.z * q.z, q.z * q.z, q.z * q.z);
      CongZeroMul(b, a);
    }
    CongZeroMul(a * b, 4);
    CongAdd(s - t, 0, t, t);
    CongMul(s, t, s, t);
    CongSym(u * u, 1);
    CongMul(1, u * u, t * t, t * t);
    assert (u * u) * (t * t) == (u * t) * (u * t);
    CongTrans(s * s, t * t, (u * t) * (u * t));
  }

  /** The loop invariant at u = 1 and u = -1: the first point is degenerate and the second has order four. */
  lemma {:induction false} OrderFourRun(k: nat, u: int, i: nat)
    requires SquaresToOne(u) && i <= 300
    ensures Degenerate(ScaledRun(k, u, i).p2) && OrderFour(ScaledRun(k, u, i).p3)
    decreases 300 - i
  {
    hide Residue, SquaresToOne;
    SquaresToOneOf(u);
    if i == 300 {
      DoubleOrderFour(Point(u, 1));
    } else {
      OrderFourRun(k, u, i + 1);
      var (p2, p3) := ScaledRun(k, u, i + 1).Arranged(Bit(k, i));
      if OrderFour(p2) {
        DoubleOrderFour(p2);
      } else {
        DoubleDegenerate(p2);
      }
      DiffAddOrderFour(u, p2, p3);
    }
  }

  /** The two final doublings of the optimized ladder send u = 1 and u = -1 to z = 0, for every scalar. */
  lemma OrderFourInputVanishes(k: nat, u: int)
    requires SquaresToOne(u)
    ensures Cong(ScaledLadder(k, u).z, 0)
  {
    hide Residue, SquaresToOne;
    OrderFourRun(k, u, 2);
    var r := ScaledRun(k, u, 2);
    var p := if r.swap then r.p3 else r.p2;
    if r.swap {
      DoubleOrderFour(p);
    } else {
      DoubleDegenerate(p);
    }
    DoubleDegenerate(DoubleScaled(p));
  }

  /** The reference ladder rejects the same inputs, by refinement. */
  lemma OrderFourReferenceVanishes(k: nat, u: int)
    requires Clamped(k) && SquaresToOne(u)
    ensures Cong(ReferenceLadder(k, u).z, 0)
  {
    hide Residue, SquaresToOne;
    SquaresToOneOf(u);
    UnitWitness(u, u);
    UnitInputRefines(k, u);
    OrderFourInputVanishes(k, u);
    var r, f := ScaledLadder(k, u), ReferenceLadder(k, u);
    var s :| IsUnit(s) && Scaled(r, f, s);
    CongSym(r.z, s * f.z);
    CongTrans(s * f.z, r.z, 0);
    UnitCancel(s, f.z, 0);
  }
}
