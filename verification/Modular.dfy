// Congruence modulo the field prime p = 2^301 - 2^99 + 947.
//
// `Cong(a, b)` means a % P == b % P (CongSameResidue). The residue is named rather than computed, so that congruences
// of long polynomials put no `%` in scope until a lemma asks for it.
module Modular {
  import opened Arithmetic

  const P: int := 0x1fff_ffffffff_ffffffffffffffff_ffffffffffffffff_fffffff800000000_00000000000003b3

  /**
   * `e` under the name `p`. A definition that speaks of every `e` named as its argument stays closed until a lemma
   * names that argument. The reason is the solver: its nonlinear arithmetic turns polynomials of degree four and more
   * into Groebner-basis searches, which are slow and, with moduli of 301 bits, have been seen to report an unreachable
   * branch where there is none. A plain body would put those polynomials into every obligation that mentions a point.
   */
  ghost predicate Named<T>(e: T, p: T) {
    e == p
  }

  ghost predicate IsResidue(r: int, a: int) {
    forall d: int {:trigger Named(d, a)} :: Named(d, a) ==> r == d % P
  }

  /** The residue of `a` in [0, p). */
  ghost function Residue(a: int): int {
    assert IsResidue(a % P, a);
    var r: int :| IsResidue(r, a);
    r
  }

  /** `a` and `b` have the same residue modulo p. */
  ghost predicate Cong(a: int, b: int) {
    Residue(a) == Residue(b)
  }

  lemma ResidueIsMod(a: int)
    ensures Residue(a) == a % P
  {
    assert Named(a, a);
  }

  lemma CongSameResidue(a: int, b: int)
    ensures Cong(a, b) <==> a % P == b % P
  {
    ResidueIsMod(a);
    ResidueIsMod(b);
  }

  lemma CongIntro(a: int, b: int, k: int)
    requires a == b + k * P
    ensures Cong(a, b)
  {
    CongSameResidue(a, b);
    assert a == (b / P + k) * P + b % P;
    QuotientUnique(a, P, b / P + k, b % P);
  }

  lemma CongQuotient(a: int, b: int) returns (k: int)
    requires Cong(a, b)
    ensures a == b + k * P
  {
    CongSameResidue(a, b);
    k := a / P - b / P;
  }

  lemma CongSym(a: int, b: int)
    requires Cong(a, b)
    ensures Cong(b, a)
  {
  }

  lemma CongTrans(a: int, b: int, c: int)
    requires Cong(a, b) && Cong(b, c)
    ensures Cong(a, c)
  {
  }

  lemma CongMod(a: int)
    ensures Cong(a % P, a) && Cong(a, a % P)
  {
    CongIntro(a, a % P, a / P);
    CongSym(a, a % P);
  }

  lemma CongAdd(a: int, b: int, c: int, d: int)
    requires Cong(a, b) && Cong(c, d)
    ensures Cong(a + c, b + d)
  {
    var k := CongQuotient(a, b);
    var j := CongQuotient(c, d);
    CongIntro(a + c, b + d, k + j);
  }

  lemma CongSub(a: int, b: int, c: int, d: int)
    requires Cong(a, b) && Cong(c, d)
    ensures Cong(a - c, b - d)
  {
    var k := CongQuotient(a, b);
    var j := CongQuotient(c, d);
    CongIntro(a - c, b - d, k - j);
  }

  lemma ProductOfSums(b: int, d: int, k: int, j: int, p: int)
    ensures (b + k * p) * (d + j * p) == b * d + (b * j + k * d + k * (j * p)) * p
  {
    calc {
      (b + k * p) * (d + j * p);
      b * d + b * (j * p) + (k * p) * d + (k * p) * (j * p);
      b * d + (b * j) * p + (k * d) * p + (k * (j * p)) * p;
      b * d + (b * j + k * d + k * (j * p)) * p;
    }
  }

  lemma CongMul(a: int, b: int, c: int, d: int)
    requires Cong(a, b) && Cong(c, d)
    ensures Cong(a * c, b * d)
  {
    var k := CongQuotient(a, b);
    var j := CongQuotient(c, d);
    ProductOfSums(b, d, k, j, P);
    CongIntro(a * c, b * d, b * j + k * d + k * (j * P));
  }

  /** A product of values congruent to `c` and `d`. */
  lemma CongProduct(r: int, a: int, b: int, c: int, d: int)
    requires Cong(r, a * b) && Cong(a, c) && Cong(b, d)
    ensures Cong(r, c * d)
  {
    hide Residue;
    CongMul(a, c, b, d);
    CongTrans(r, a * b, c * d);
  }

  /** `x + 2p - y` stands for `x - y`. */
  lemma SubLooseCong(d: int, x: int, y: int)
    requires d == x + 2 * P - y
    ensures Cong(d, x - y)
  {
    hide Residue;
    CongIntro(d, x - y, 2);
  }

  lemma CongSquare(a: int, b: int)
    requires Cong(a, b)
    ensures Cong(a * a, b * b)
  {
    CongMul(a, b, a, b);
  }

  /** Two canonical residues that are congruent are equal. */
  lemma CongCanonical(a: int, b: int)
    requires Cong(a, b) && 0 <= a < P && 0 <= b < P
    ensures a == b
  {
    CongSameResidue(a, b);
  }

  /** `a` has an inverse modulo p. */
  ghost predicate IsUnit(a: int) {
    exists w: int :: Cong(a * w, 1)
  }

  /**
   * p is prime, stated as what the arithmetic uses: every nonzero residue is invertible.
   * Never assumed globally; the results that need it carry it as a precondition.
   */
  ghost predicate PrimeField() {
    forall a: int :: 0 < a < P ==> IsUnit(a)
  }

  lemma UnitWitness(a: int, w: int)
    requires Cong(a * w, 1)
    ensures IsUnit(a)
  {
  }

  lemma UnitMul(a: int, b: int)
    requires IsUnit(a) && IsUnit(b)
    ensures IsUnit(a * b)
  {
    hide Residue;
    var v :| Cong(a * v, 1);
    var w :| Cong(b * w, 1);
    CongMul(a * v, 1, b * w, 1);
    Exchange(a, v, b, w);
    UnitWitness(a * b, v * w);
  }

  lemma UnitCong(a: int, b: int)
    requires IsUnit(a) && Cong(a, b)
    ensures IsUnit(b)
  {
    var w :| Cong(a * w, 1);
    CongSym(a, b);
    CongMul(b, a, w, w);
    CongTrans(b * w, a * w, 1);
    UnitWitness(b, w);
  }

  /** A unit can be cancelled from a congruence. */
  lemma UnitCancel(s: int, a: int, b: int)
    requires IsUnit(s) && Cong(s * a, s * b)
    ensures Cong(a, b)
  {
    var w :| Cong(s * w, 1);
    CongMul(w, w, s * a, s * b);
    assert w * (s * a) == (s * w) * a && w * (s * b) == (s * w) * b;
    CongMul(s * w, 1, a, a);
    CongMul(s * w, 1, b, b);
    CongSym((s * w) * a, 1 * a);
    CongTrans(a, (s * w) * a, (s * w) * b);
    CongTrans(a, (s * w) * b, b);
  }

  lemma InverseUnique(z: int, v: int, w: int)
    requires Cong(z * v, 1) && Cong(z * w, 1)
    ensures Cong(v, w)
  {
    hide Residue;
    CongMul(z * v, 1, w, w);
    CongMul(z * w, 1, v, v);
    assert (z * v) * w == (z * w) * v;
    CongSym((z * w) * v, 1 * v);
    CongTrans(v, (z * w) * v, w);
  }

  lemma UnitNotZero(s: int)
    requires IsUnit(s)
    ensures !Cong(s, 0)
  {
    hide Residue;
    if Cong(s, 0) {
      var w :| Cong(s * w, 1);
      CongMul(s, 0, w, w);
      CongSym(s * w, 0 * w);
      CongTrans(0 * w, s * w, 1);
      CongSameResidue(0, 1);
    }
  }

  /** With p prime a residue is zero or invertible. */
  lemma ZeroOrUnit(z: int)
    requires PrimeField()
    ensures Cong(z, 0) || IsUnit(z)
  {
    hide Residue;
    CongMod(z);
    if z % P == 0 {
      assert Cong(z, 0);
    } else {
      UnitCong(z % P, z);
    }
  }

  lemma UnitFactor(a: int, b: int)
    requires IsUnit(a * b)
    ensures IsUnit(a) && IsUnit(b)
  {
    hide Residue;
    var w :| Cong((a * b) * w, 1);
    Reassociate(a, b, w);
    UnitWitness(a, b * w);
    UnitWitness(b, a * w);
  }

}
