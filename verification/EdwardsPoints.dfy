// Edwards points over limb elements: the shipped formulas, validity, and batch normalization.
module EdwardsPoints {
  import opened Arithmetic
  import opened Words
  import opened Modular
  import opened FieldElements
  import opened EdwardsFormulas
  import opened EdwardsComplete

  const EDWARDS_A_WORD: Word := 2086388329
  const EDWARDS_D_WORD: Word := 301

  // ---- Congruences of the four terms ----

  lemma TightenCong(r: int, x: int)
    requires r == if x >= 2 * P then x - 2 * P else x
    ensures Cong(r, x)
  {
    hide Residue;
    if x >= 2 * P {
      CongIntro(r, x, -2);
    }
  }

  /** `(x + y)(rx + ry) - (xx + yy)` is the cross term. */
  lemma CrossCong(x: int, y: int, rx: int, ry: int, xx: int, yy: int, product: int, squares: int, cross: int)
    requires Cong(xx, x * rx) && Cong(yy, y * ry) && Cong(product, (x + y) * (rx + ry))
    requires Cong(squares, xx + yy) && cross == product + 2 * P - squares
    ensures Cong(cross, Cross(x, y, rx, ry))
  {
    hide Residue, Cross;
    CongAdd(xx, x * rx, yy, y * ry);
    CongTrans(squares, xx + yy, x * rx + y * ry);
    CongSub(product, (x + y) * (rx + ry), squares, x * rx + y * ry);
    SubLooseCong(cross, product, squares);
    CrossExpanded(x, y, rx, ry);
    CongTrans(cross, product - squares, Cross(x, y, rx, ry));
  }

  lemma TwistedCong(x: int, y: int, rx: int, ry: int, xx: int, yy: int, scaled: int, twisted: int)
    requires Cong(xx, x * rx) && Cong(yy, y * ry) && Cong(scaled, xx * EDWARDS_A) && twisted == yy + 2 * P - scaled
    ensures Cong(twisted, Minus(EDWARDS_A, x, y, rx, ry))
  {
    hide Residue;
    CongMul(xx, x * rx, EDWARDS_A, EDWARDS_A);
    CongTrans(scaled, xx * EDWARDS_A, (x * rx) * EDWARDS_A);
    SubLooseCong(twisted, yy, scaled);
    CongSub(yy, y * ry, scaled, (x * rx) * EDWARDS_A);
    CongTrans(twisted, yy - scaled, y * ry - (x * rx) * EDWARDS_A);
  }

  lemma SumCong(zz: int, dt: int, difference: int, sum: int, z: int, t: int)
    requires Cong(zz, z) && Cong(dt, t) && difference == zz + 2 * P - dt && sum == zz + dt
    ensures Cong(difference, z - t) && Cong(sum, z + t)
  {
    hide Residue;
    SubLooseCong(difference, zz, dt);
    CongSub(zz, z, dt, t);
    CongTrans(difference, zz - dt, z - t);
    CongAdd(zz, z, dt, t);
  }

  lemma CanonicalCong(canonical: int, lazy: int, a: int, b: int, c: int, d: int)
    requires canonical == lazy % P && Cong(lazy, a * b) && Cong(a, c) && Cong(b, d)
    ensures Cong(canonical, c * d)
  {
    hide Residue;
    CongMod(lazy);
    CongProduct(lazy, a, b, c, d);
    CongTrans(canonical, lazy, c * d);
  }

  // ---- Points ----

  datatype EdwardsPoint = EdwardsPoint(x: Fe301, y: Fe301, z: Fe301, t: Fe301) {
    ghost function Coordinates(): Extended {
      Extended(x.Int(), y.Int(), z.Int(), t.Int())
    }

    /** The complete addition. */
    method Add(rhs: EdwardsPoint) returns (r: EdwardsPoint)
      ensures CongExtended(r.Coordinates(), AddPoints(Coordinates(), rhs.Coordinates()))
    {
      hide Val, Residue, Combine, Cross, Minus, Plus;
      var lx, ly := Fe301Lazy.FromFe301(x), Fe301Lazy.FromFe301(y);
      var lz, lt := Fe301Lazy.FromFe301(z), Fe301Lazy.FromFe301(t);
      var rx, ry := Fe301Lazy.FromFe301(rhs.x), Fe301Lazy.FromFe301(rhs.y);
      var rz, rt := Fe301Lazy.FromFe301(rhs.z), Fe301Lazy.FromFe301(rhs.t);
      var xx := lx.Mul(rx);
      var yy := ly.Mul(ry);
      var scaledT := lt.MulSmall(EDWARDS_D_WORD);
      var dt := scaledT.Mul(rt);
      var zz := lz.Mul(rz);
      var cross := SubtractSquares(lx, ly, rx, ry, xx, yy);
      var difference := zz.SubLoose(dt);
      var sum := zz.AddLoose(dt);
      var scaled := xx.MulSmall(EDWARDS_A_WORD);
      var twisted := yy.SubLoose(scaled);
      TwistedCong(lx.Int(), ly.Int(), rx.Int(), ry.Int(), xx.Int(), yy.Int(), scaled.Int(), twisted.Int());
      ScaledProductCong(lt.Int(), rt.Int(), scaledT.Int(), dt.Int());
      SumCong(zz.Int(), dt.Int(), difference.Int(), sum.Int(), lz.Int() * rz.Int(), EDWARDS_D * (lt.Int() * rt.Int()));
      AddTerms(Coordinates(), rhs.Coordinates());
      ghost var p, q := Coordinates(), rhs.Coordinates();
      r := Assemble(cross, difference, sum, twisted,
                    CrossTerm(p, q), DifferenceTerm(p, q), SumTerm(p, q), TwistedTerm(p, q));
    }

    /** The complete mixed addition with a cached affine point. */
    method AddAffine(rhs: AffineNielsPoint) returns (r: EdwardsPoint)
      ensures CongExtended(r.Coordinates(), AddCached(Coordinates(), rhs.Ints()))
    {
      hide Val, Residue, Combine, CachedCross, Minus;
      var lx, ly := Fe301Lazy.FromFe301(x), Fe301Lazy.FromFe301(y);
      var lz, lt := Fe301Lazy.FromFe301(z), Fe301Lazy.FromFe301(t);
      var xx := lx.Mul(Fe301Lazy.FromFe301(rhs.x));
      var yy := ly.Mul(Fe301Lazy.FromFe301(rhs.y));
      var dt := lt.Mul(Fe301Lazy.FromFe301(rhs.dt));
      var left := lx.AddLoose(ly);
      var product := left.MulTight(Fe301Lazy.FromFe301(rhs.xy));
      var squares := xx.AddLoose(yy);
      var tight := squares.Tighten();
      var cross := product.SubLoose(tight);
      var difference := lz.SubLoose(dt);
      var sum := lz.AddLoose(dt);
      var scaled := xx.MulSmall(EDWARDS_A_WORD);
      var twisted := yy.SubLoose(scaled);
      ghost var p, n := Coordinates(), rhs.Ints();
      TightenCong(tight.Int(), squares.Int());
      CachedCrossCong(p, n, xx.Int(), yy.Int(), product.Int(), tight.Int(), cross.Int());
      TwistedCong(p.x, p.y, n.x, n.y, xx.Int(), yy.Int(), scaled.Int(), twisted.Int());
      SumCong(lz.Int(), dt.Int(), difference.Int(), sum.Int(), p.z, p.t * n.dt);
      r := Assemble(cross, difference, sum, twisted,
                    CachedCross(p, n), p.z - p.t * n.dt, p.z + p.t * n.dt, Minus(EDWARDS_A, p.x, p.y, n.x, n.y));
    }

    /** The dedicated doubling. */
    method Double() returns (r: EdwardsPoint)
      ensures CongExtended(r.Coordinates(), DoublePoint(Coordinates()))
    {
      hide Val, Residue, Combine, Cross, Form;
      var lx, ly, lz := Fe301Lazy.FromFe301(x), Fe301Lazy.FromFe301(y), Fe301Lazy.FromFe301(z);
      var xx := lx.Square();
      var yy := ly.Square();
      var zz := lz.Square();
      var looseTwo := zz.AddLoose(zz);
      var twoZz := looseTwo.Tighten();
      var twistedXx := xx.MulSmall(EDWARDS_A_WORD);
      var cross := SubtractOwnSquares(lx, ly, xx, yy);
      var sum := twistedXx.AddLoose(yy);
      var tightSum := sum.Tighten();
      var difference := tightSum.SubLoose(twoZz);
      var twistedDifference := twistedXx.SubLoose(yy);
      TightenCong(twoZz.Int(), looseTwo.Int());
      TightenCong(tightSum.Int(), sum.Int());
      DoubleTermsCong(Coordinates(), xx.Int(), yy.Int(), zz.Int(), twoZz.Int(), twistedXx.Int(), sum.Int(),
                      tightSum.Int(), difference.Int(), twistedDifference.Int());
      ghost var p := Coordinates();
      ghost var form := Form(EDWARDS_A, p.x, p.y);
      r := Assemble(cross, difference, sum, twistedDifference,
                    2 * (p.x * p.y), form - 2 * (p.z * p.z), form, EDWARDS_A * (p.x * p.x) - p.y * p.y);
    }

    method Negate() returns (r: EdwardsPoint)
      ensures CongExtended(r.Coordinates(), EdwardsFormulas.Negate(Coordinates()))
    {
      hide Val, Residue;
      var nx := x.Neg();
      NegatedResidue(nx.Int(), x.Int());
      var nt := t.Neg();
      NegatedResidue(nt.Int(), t.Int());
      r := EdwardsPoint(nx, y, z, nt);
    }

    method IsIdentity() returns (b: bool)
      ensures b <==> x.Int() == 0 && y.Int() == z.Int()
    {
      hide Val;
      ZeroAndOne();
      b := x.CtEq(ZERO) && y.CtEq(z);
    }

    /** Equality of projective points by cross-multiplication. */
    method CtEq(rhs: EdwardsPoint) returns (b: bool)
      ensures b <==> (Cong(x.Int() * rhs.z.Int(), rhs.x.Int() * z.Int())
                      && Cong(y.Int() * rhs.z.Int(), rhs.y.Int() * z.Int()))
    {
      hide Val, Residue;
      var a := x.Mul(rhs.z);
      var b1 := rhs.x.Mul(z);
      var c := y.Mul(rhs.z);
      var d := rhs.y.Mul(z);
      CongSameResidue(x.Int() * rhs.z.Int(), rhs.x.Int() * z.Int());
      CongSameResidue(y.Int() * rhs.z.Int(), rhs.y.Int() * z.Int());
      b := a.CtEq(b1) && c.CtEq(d);
    }

    /** Z != 0, XY = ZT and the cleared curve equation. */
    method IsValid() returns (b: bool)
      ensures b <==> !Cong(z.Int(), 0) && ProjectiveEquation(Coordinates())
    {
      hide Val, Residue, EquationLeft, EquationRight;
      var extendedRelation := this.ExtendedRelation();
      var left, right := this.EquationSides();
      var zIsZero := IsZeroElement(z);
      CongSameResidue(z.Int(), 0);
      SidesAgree(left.Int(), right.Int(), EquationLeft(Coordinates()), EquationRight(Coordinates()));
      b := !zIsZero && extendedRelation && left.CtEq(right);
    }

    method ExtendedRelation() returns (b: bool)
      ensures b <==> Cong(x.Int() * y.Int(), z.Int() * t.Int())
    {
      hide Residue, Val;
      var xy := x.Mul(y);
      var zt := z.Mul(t);
      CongSameResidue(x.Int() * y.Int(), z.Int() * t.Int());
      b := xy.CtEq(zt);
    }

    method EquationSides() returns (left: Fe301, right: Fe301)
      ensures Cong(left.Int(), EquationLeft(Coordinates()))
      ensures Cong(right.Int(), EquationRight(Coordinates()))
    {
      hide Val, Residue;
      ghost var X, Y, Z := x.Int() * x.Int(), y.Int() * y.Int(), z.Int() * z.Int();
      var xx := x.Square();
      CongMod(X);
      var yy := y.Square();
      CongMod(Y);
      var zz := z.Square();
      CongMod(Z);
      left := LeftSide(xx, yy, zz, X, Y, Z);
      right := RightSide(xx, yy, zz, X, Y, Z);
    }
  }

  method LeftSide(xx: Fe301, yy: Fe301, zz: Fe301, ghost x: int, ghost y: int, ghost z: int) returns (left: Fe301)
    requires Cong(xx.Int(), x) && Cong(yy.Int(), y) && Cong(zz.Int(), z)
    ensures Cong(left.Int(), (EDWARDS_A * x) * z + y * z)
  {
    hide Val, Residue;
    var axx := xx.MulSmall(EDWARDS_A_WORD);
    ModProductCong(axx.Int(), xx.Int(), EDWARDS_A, x, EDWARDS_A);
    var axxzz := axx.Mul(zz);
    ModProductCong(axxzz.Int(), axx.Int(), zz.Int(), x * EDWARDS_A, z);
    var yyzz := yy.Mul(zz);
    ModProductCong(yyzz.Int(), yy.Int(), zz.Int(), y, z);
    left := axxzz.Add(yyzz);
    ModSumCong(left.Int(), axxzz.Int(), yyzz.Int(), (x * EDWARDS_A) * z, y * z);
  }

  method RightSide(xx: Fe301, yy: Fe301, zz: Fe301, ghost x: int, ghost y: int, ghost z: int) returns (right: Fe301)
    requires Cong(xx.Int(), x) && Cong(yy.Int(), y) && Cong(zz.Int(), z)
    ensures Cong(right.Int(), z * z + (EDWARDS_D * x) * y)
  {
    hide Val, Residue;
    var zzzz := zz.Square();
    ModProductCong(zzzz.Int(), zz.Int(), zz.Int(), z, z);
    var dxx := xx.MulSmall(EDWARDS_D_WORD);
    ModProductCong(dxx.Int(), xx.Int(), EDWARDS_D, x, EDWARDS_D);
    var dxxyy := dxx.Mul(yy);
    ModProductCong(dxxyy.Int(), dxx.Int(), yy.Int(), x * EDWARDS_D, y);
    right := zzzz.Add(dxxyy);
    ModSumCong(right.Int(), zzzz.Int(), dxxyy.Int(), z * z, (x * EDWARDS_D) * y);
  }

  lemma NegatedResidue(r: int, x: int)
    requires r == -x % P
    ensures Cong(r, -x)
  {
    hide Residue;
    CongMod(-x);
  }

  method IsZeroElement(value: Fe301) returns (b: bool)
    ensures b <==> value.Int() == 0
  {
    hide Val;
    ZeroAndOne();
    b := value.CtEq(ZERO);
  }

  lemma AddTerms(p: Extended, q: Extended)
    ensures CrossTerm(p, q) == Cross(p.x, p.y, q.x, q.y)
    ensures DifferenceTerm(p, q) == p.z * q.z - EDWARDS_D * (p.t * q.t)
    ensures SumTerm(p, q) == p.z * q.z + EDWARDS_D * (p.t * q.t)
    ensures TwistedTerm(p, q) == Minus(EDWARDS_A, p.x, p.y, q.x, q.y)
  {
  }

  lemma ScaledProductCong(t: int, rt: int, scaled: int, dt: int)
    requires Cong(scaled, t * EDWARDS_D) && Cong(dt, scaled * rt)
    ensures Cong(dt, EDWARDS_D * (t * rt))
  {
    hide Residue;
    CongMul(scaled, t * EDWARDS_D, rt, rt);
    CongTrans(dt, scaled * rt, (t * EDWARDS_D) * rt);
    assert (t * EDWARDS_D) * rt == EDWARDS_D * (t * rt);
  }

  lemma CachedCrossCong(p: Extended, n: Niels, xx: int, yy: int, product: int, squares: int, cross: int)
    requires Cong(xx, p.x * n.x) && Cong(yy, p.y * n.y) && Cong(product, (p.x + p.y) * n.xy)
    requires Cong(squares, xx + yy) && cross == product + 2 * P - squares
    ensures Cong(cross, CachedCross(p, n))
  {
    hide Residue;
    CongAdd(xx, p.x * n.x, yy, p.y * n.y);
    CongTrans(squares, xx + yy, p.x * n.x + p.y * n.y);
    CongSub(product, (p.x + p.y) * n.xy, squares, p.x * n.x + p.y * n.y);
    SubLooseCong(cross, product, squares);
    CongTrans(cross, product - squares, CachedCross(p, n));
  }

  method SubtractSquares(lx: Fe301Lazy, ly: Fe301Lazy, rx: Fe301Lazy, ry: Fe301Lazy, xx: Fe301Lazy, yy: Fe301Lazy)
    returns (cross: Fe301LazyLinear)
    requires Cong(xx.Int(), lx.Int() * rx.Int()) && Cong(yy.Int(), ly.Int() * ry.Int())
    ensures Cong(cross.Int(), Cross(lx.Int(), ly.Int(), rx.Int(), ry.Int()))
  {
    hide Val, Residue, Cross;
    var left := lx.AddLoose(ly);
    var right := rx.AddLoose(ry);
    var product := left.Mul(right);
    var squares := xx.AddLoose(yy);
    var tight := squares.Tighten();
    cross := product.SubLoose(tight);
    TightenCong(tight.Int(), squares.Int());
    CrossCong(lx.Int(), ly.Int(), rx.Int(), ry.Int(), xx.Int(), yy.Int(), product.Int(), tight.Int(), cross.Int());
  }

  method SubtractOwnSquares(lx: Fe301Lazy, ly: Fe301Lazy, xx: Fe301Lazy, yy: Fe301Lazy)
    returns (cross: Fe301LazyLinear)
    requires Cong(xx.Int(), lx.Int() * lx.Int()) && Cong(yy.Int(), ly.Int() * ly.Int())
    ensures Cong(cross.Int(), 2 * (lx.Int() * ly.Int()))
  {
    hide Val, Residue, Cross;
    ghost var x, y := lx.Int(), ly.Int();
    var left := lx.AddLoose(ly);
    var product := left.Square();
    var squares := xx.AddLoose(yy);
    var tight := squares.Tighten();
    cross := product.SubLoose(tight);
    TightenCong(tight.Int(), squares.Int());
    CrossCong(x, y, x, y, xx.Int(), yy.Int(), product.Int(), tight.Int(), cross.Int());
    SelfCross(x, y);
  }

  lemma SelfCross(x: int, y: int)
    ensures Cross(x, y, x, y) == 2 * (x * y)
  {
  }

  lemma DoubleTermsCong(p: Extended, xx: int, yy: int, zz: int, twoZz: int, twistedXx: int, sum: int, tightSum: int,
                        difference: int, twistedDifference: int)
    requires Cong(xx, p.x * p.x) && Cong(yy, p.y * p.y) && Cong(zz, p.z * p.z)
    requires Cong(twoZz, zz + zz) && Cong(twistedXx, xx * EDWARDS_A) && sum == twistedXx + yy
    requires Cong(tightSum, sum) && difference == tightSum + 2 * P - twoZz
    requires twistedDifference == twistedXx + 2 * P - yy
    ensures Cong(sum, Form(EDWARDS_A, p.x, p.y))
    ensures Cong(difference, Form(EDWARDS_A, p.x, p.y) - 2 * (p.z * p.z))
    ensures Cong(twistedDifference, EDWARDS_A * (p.x * p.x) - p.y * p.y)
  {
    hide Residue;
    var axx := EDWARDS_A * (p.x * p.x);
    CongMul(xx, p.x * p.x, EDWARDS_A, EDWARDS_A);
    CongTrans(twistedXx, xx * EDWARDS_A, axx);
    CongAdd(twistedXx, axx, yy, p.y * p.y);
    CongAdd(zz, p.z * p.z, zz, p.z * p.z);
    CongTrans(twoZz, zz + zz, 2 * (p.z * p.z));
    CongTrans(tightSum, sum, Form(EDWARDS_A, p.x, p.y));
    SubLooseCong(difference, tightSum, twoZz);
    CongSub(tightSum, Form(EDWARDS_A, p.x, p.y), twoZz, 2 * (p.z * p.z));
    CongTrans(difference, tightSum - twoZz, Form(EDWARDS_A, p.x, p.y) - 2 * (p.z * p.z));
    SubLooseCong(twistedDifference, twistedXx, yy);
    CongSub(twistedXx, axx, yy, p.y * p.y);
    CongTrans(twistedDifference, twistedXx - yy, axx - p.y * p.y);
  }

  /** The four closing products, brought back to canonical coordinates. */
  method Assemble(cross: Fe301LazyLinear, difference: Fe301LazyLinear, sum: Fe301LazyLinear, twisted: Fe301LazyLinear,
                  ghost e: int, ghost f: int, ghost g: int, ghost h: int) returns (r: EdwardsPoint)
    requires Cong(cross.Int(), e) && Cong(difference.Int(), f) && Cong(sum.Int(), g) && Cong(twisted.Int(), h)
    ensures CongExtended(r.Coordinates(), Combine(e, f, g, h))
  {
    hide Val, Residue;
    var x := cross.Mul(difference);
    var y := sum.Mul(twisted);
    var z := difference.Mul(sum);
    var t := cross.Mul(twisted);
    var cx := x.Canonical();
    var cy := y.Canonical();
    var cz := z.Canonical();
    var ct := t.Canonical();
    CanonicalCong(cx.Int(), x.Int(), cross.Int(), difference.Int(), e, f);
    CanonicalCong(cy.Int(), y.Int(), sum.Int(), twisted.Int(), g, h);
    CanonicalCong(cz.Int(), z.Int(), difference.Int(), sum.Int(), f, g);
    CanonicalCong(ct.Int(), t.Int(), cross.Int(), twisted.Int(), e, h);
    r := EdwardsPoint(cx, cy, cz, ct);
  }

  lemma ModCong(r: int, x: int, y: int)
    requires r == x % P && Cong(x, y)
    ensures Cong(r, y)
  {
    hide Residue;
    CongMod(x);
    CongTrans(r, x, y);
  }

  lemma ModProductCong(r: int, x: int, y: int, a: int, b: int)
    requires r == x * y % P && Cong(x, a) && Cong(y, b)
    ensures Cong(r, a * b)
  {
    hide Residue;
    CongMul(x, a, y, b);
    ModCong(r, x * y, a * b);
  }

  lemma ModSumCong(r: int, x: int, y: int, a: int, b: int)
    requires r == (x + y) % P && Cong(x, a) && Cong(y, b)
    ensures Cong(r, a + b)
  {
    hide Residue;
    CongAdd(x, a, y, b);
    ModCong(r, x + y, a + b);
  }

  lemma SidesAgree(left: int, right: int, a: int, b: int)
    requires Cong(left, a) && Cong(right, b) && 0 <= left < P && 0 <= right < P
    ensures left == right <==> Cong(a, b)
  {
    CongSameResidue(left, right);
  }

  // ---- Cached affine points ----

  datatype AffineNielsPoint = AffineNielsPoint(x: Fe301, y: Fe301, xy: Fe301, dt: Fe301) {
    ghost function Ints(): Niels {
      EdwardsFormulas.Niels(x.Int(), y.Int(), xy.Int(), dt.Int())
    }

    method Negate() returns (r: AffineNielsPoint)
      requires CachesAffine(Ints())
      ensures CachesAffine(r.Ints())
      ensures Cong(r.x.Int(), -x.Int()) && r.y == y
    {
      hide Residue, CachesAffine, Val;
      var nx := x.Neg();
      var nxy := nx.Add(y);
      var ndt := dt.Neg();
      r := AffineNielsPoint(nx, y, nxy, ndt);
      NegatedEntry(Ints(), r.Ints());
    }
  }

  lemma NegatedEntry(n: Niels, r: Niels)
    requires CachesAffine(n)
    requires r.x == -n.x % P && r.y == n.y && r.xy == (r.x + r.y) % P && r.dt == -n.dt % P
    ensures CachesAffine(r) && Cong(r.x, -n.x)
  {
    hide CachesAffine, Residue;
    CachesOf(n);
    CachesOf(r);
    CongMod(-n.x);
    CongMod(r.x + r.y);
    CongMod(-n.dt);
    CongSub(0, 0, n.dt, EDWARDS_D * (n.x * n.y));
    CongTrans(r.dt, -n.dt, -(EDWARDS_D * (n.x * n.y)));
    CongMul(r.x, -n.x, r.y, n.y);
    CongMul(EDWARDS_D, EDWARDS_D, r.x * r.y, (-n.x) * n.y);
    assert EDWARDS_D * ((-n.x) * n.y) == -(EDWARDS_D * (n.x * n.y));
    CongSym(EDWARDS_D * (r.x * r.y), -(EDWARDS_D * (n.x * n.y)));
    CongTrans(r.dt, -(EDWARDS_D * (n.x * n.y)), EDWARDS_D * (r.x * r.y));
  }

  /** The canonical entry of a projective point, through an inverse `w` of Z. */
  ghost function EntryThrough(p: Extended, w: int): Niels {
    var x, y := p.x * w % P, p.y * w % P;
    EdwardsFormulas.Niels(x, y, (x + y) % P, (x * y % P) * EDWARDS_D % P)
  }

  /** Inverses of one residue give one entry. */
  lemma EntryUnique(p: Extended, v: int, w: int)
    requires Cong(p.z * v, 1) && Cong(p.z * w, 1)
    ensures EntryThrough(p, v) == EntryThrough(p, w)
  {
    hide Residue;
    InverseUnique(p.z, v, w);
    CongMul(p.x, p.x, v, w);
    CongMul(p.y, p.y, v, w);
    CongSameResidue(p.x * v, p.x * w);
    CongSameResidue(p.y * v, p.y * w);
  }

  /** The entry caches the affine point it stands for. */
  lemma EntryCaches(p: Extended, w: int)
    ensures CachesAffine(EntryThrough(p, w))
  {
    hide CachesAffine, Residue;
    var n := EntryThrough(p, w);
    CachesOf(n);
    var x, y := p.x * w % P, p.y * w % P;
    CongMod(x + y);
    CongMod(x * y);
    ModProductCong((x * y % P) * EDWARDS_D % P, x * y % P, EDWARDS_D, x * y, EDWARDS_D);
  }

  method FromProjective(point: EdwardsPoint, inverseZ: Fe301) returns (r: AffineNielsPoint)
    ensures r.Ints() == EntryThrough(point.Coordinates(), inverseZ.Int())
  {
    hide Val;
    var x := point.x.Mul(inverseZ);
    var y := point.y.Mul(inverseZ);
    var xy := x.Add(y);
    var product := x.Mul(y);
    var dt := product.MulSmall(EDWARDS_D_WORD);
    r := AffineNielsPoint(x, y, xy, dt);
  }

  // ---- Batch normalization ----

  /** The product of the first `n` Z coordinates. */
  ghost function ProductOfZ(points: seq<EdwardsPoint>, n: nat): int
    requires n <= |points|
  {
    if n == 0 then 1 else ProductOfZ(points, n - 1) * points[n - 1].z.Int()
  }

  lemma {:induction false} ProductIsUnit(points: seq<EdwardsPoint>, n: nat)
    requires n <= |points| && forall i :: 0 <= i < n ==> IsUnit(points[i].z.Int())
    ensures IsUnit(ProductOfZ(points, n))
  {
    hide Residue, IsUnit;
    if n == 0 {
      UnitWitness(1, 1);
    } else {
      ProductIsUnit(points, n - 1);
      UnitMul(ProductOfZ(points, n - 1), points[n - 1].z.Int());
    }
  }

  /** Peeling the last factor off the running inverse. */
  lemma PeelFactor(inverse: int, prefix: int, product: int, z: int, inverseZ: int, next: int)
    requires Cong(inverse * (product * z), 1) && Cong(prefix, product)
    requires inverseZ == inverse * prefix % P && next == inverse * z % P
    ensures Cong(z * inverseZ, 1) && Cong(next * product, 1)
  {
    hide Residue;
    ModProductCong(inverseZ, inverse, prefix, inverse, product);
    CongMul(z, z, inverseZ, inverse * product);
    Reassociate(inverse, product, z);
    assert z * (inverse * product) == inverse * (product * z);
    CongTrans(z * inverseZ, inverse * (product * z), 1);
    CongMod(inverse * z);
    CongMul(next, inverse * z, product, product);
    assert (inverse * z) * product == inverse * (product * z);
    CongTrans(next * product, inverse * (product * z), 1);
  }

  /** An entry equals the one found by inverting its own Z. */
  ghost predicate IsEntryOf(n: AffineNielsPoint, point: EdwardsPoint) {
    && CachesAffine(n.Ints())
    && forall w: int :: Cong(point.z.Int() * w, 1) ==> n.Ints() == EntryThrough(point.Coordinates(), w)
  }

  lemma EntryByAnyInverse(n: AffineNielsPoint, point: EdwardsPoint, v: int)
    requires Cong(point.z.Int() * v, 1) && n.Ints() == EntryThrough(point.Coordinates(), v)
    ensures IsEntryOf(n, point)
  {
    hide Residue, EntryThrough, CachesAffine;
    EntryCaches(point.Coordinates(), v);
    forall w: int | Cong(point.z.Int() * w, 1)
      ensures n.Ints() == EntryThrough(point.Coordinates(), w)
    {
      EntryUnique(point.Coordinates(), v, w);
    }
  }

  /** Running products of the Z coordinates, before each point and over all of them. */
  method PrefixProducts(points: seq<EdwardsPoint>) returns (prefixes: seq<Fe301>, product: Fe301)
    ensures |prefixes| == |points|
    ensures forall i :: 0 <= i < |points| ==> IsPrefix(prefixes[i], points, i)
    ensures IsPrefix(product, points, |points|)
  {
    hide Val, Residue, ProductOfZ;
    NoFactors(points);
    var buffer := new Fe301[|points|](_ => ONE);
    product := ONE;
    var index := 0;
    while index < |points|
      invariant 0 <= index <= |points|
      invariant IsPrefix(product, points, index)
      invariant forall i :: 0 <= i < index ==> IsPrefix(buffer[i], points, i)
    {
      buffer[index] := product;
      var z := points[index].z;
      var next := product.Mul(z);
      ModProductCong(next.Int(), product.Int(), z.Int(), ProductOfZ(points, index), z.Int());
      NextFactor(points, index);
      product := next;
      index := index + 1;
    }
    prefixes := buffer[..];
  }

  ghost predicate IsPrefix(product: Fe301, points: seq<EdwardsPoint>, n: nat)
    requires n <= |points|
  {
    Cong(product.Int(), ProductOfZ(points, n))
  }

  lemma NoFactors(points: seq<EdwardsPoint>)
    ensures IsPrefix(ONE, points, 0)
  {
    ZeroAndOne();
  }

  lemma NextFactor(points: seq<EdwardsPoint>, n: nat)
    requires n < |points|
    ensures ProductOfZ(points, n + 1) == ProductOfZ(points, n) * points[n].z.Int()
  {
  }

  /** One inversion for the whole batch. */
  method BatchNormalize(points: seq<EdwardsPoint>) returns (output: seq<AffineNielsPoint>)
    requires forall i :: 0 <= i < |points| ==> IsUnit(points[i].z.Int())
    ensures |output| == |points|
    ensures forall i :: 0 <= i < |points| ==> IsEntryOf(output[i], points[i])
  {
    hide Val, Residue, IsUnit, EntryThrough, IsEntryOf, CachesAffine, ProductOfZ;
    var prefixes, product := PrefixProducts(points);
    ProductIsUnit(points, |points|);
    CongSym(product.Int(), ProductOfZ(points, |points|));
    UnitCong(ProductOfZ(points, |points|), product.Int());
    var present, inverse := Invert(product);
    RunningInverse(product.Int(), inverse.Int(), ProductOfZ(points, |points|));
    var entries := new AffineNielsPoint[|points|](_ => AffineNielsPoint(ONE, ONE, ONE, ONE));
    var index := |points|;
    while index != 0
      invariant 0 <= index <= |points|
      invariant Cong(inverse.Int() * ProductOfZ(points, index), 1)
      invariant forall i :: index <= i < |points| ==> IsEntryOf(entries[i], points[i])
    {
      index := index - 1;
      var entry;
      entry, inverse := PeelEntry(points, index, prefixes[index], inverse);
      entries[index] := entry;
    }
    output := entries[..];
  }

  /** One step back: the entry of point `index` and the inverse of the shorter product. */
  method PeelEntry(points: seq<EdwardsPoint>, index: nat, prefix: Fe301, inverse: Fe301)
    returns (entry: AffineNielsPoint, next: Fe301)
    requires index < |points| && IsPrefix(prefix, points, index)
    requires Cong(inverse.Int() * ProductOfZ(points, index + 1), 1)
    ensures IsEntryOf(entry, points[index])
    ensures Cong(next.Int() * ProductOfZ(points, index), 1)
  {
    hide Val, Residue, EntryThrough, IsEntryOf, CachesAffine, ProductOfZ;
    NextFactor(points, index);
    var inverseZ := inverse.Mul(prefix);
    next := inverse.Mul(points[index].z);
    PeelFactor(inverse.Int(), prefix.Int(), ProductOfZ(points, index), points[index].z.Int(),
               inverseZ.Int(), next.Int());
    entry := FromProjective(points[index], inverseZ);
    EntryByAnyInverse(entry, points[index], inverseZ.Int());
  }

  lemma RunningInverse(product: int, inverse: int, exact: int)
    requires Cong(product * inverse, 1) && Cong(exact, product)
    ensures Cong(inverse * exact, 1)
  {
    hide Residue;
    CongMul(inverse, inverse, exact, product);
    assert inverse * product == product * inverse;
    CongTrans(inverse * exact, product * inverse, 1);
  }
}
