// The X301 function: the limb ladder, finalization, and the reference implementation it agrees with.
module X301Core {
  import opened Wrappers
  import opened Words
  import opened Bytes
  import opened Modular
  import opened Reduction
  import opened FieldElements
  import opened LadderSpec
  import opened Scalars

  datatype X301Error = InvalidSecretLength | InvalidPublicLength | AllZeroSharedSecret | NotInvertible

  // ---- Congruences of one round ----

  ghost predicate CongPoint(p: Point, q: Point) {
    Cong(p.x, q.x) && Cong(p.z, q.z)
  }

  lemma CongPointTrans(p: Point, q: Point, r: Point)
    requires CongPoint(p, q) && CongPoint(q, r)
    ensures CongPoint(p, r)
  {
    hide Residue;
    CongTrans(p.x, q.x, r.x);
    CongTrans(p.z, q.z, r.z);
  }

  /** Squaring a value congruent to `b`. */
  lemma CongSquareOf(s: int, a: int, b: int)
    requires Cong(s, a * a) && Cong(a, b)
    ensures Cong(s, SquareOf(b))
  {
    hide Residue;
    CongSquare(a, b);
    SquareIs(b);
    CongTrans(s, a * a, b * b);
  }

  /** The two diagonal products of a round. */
  lemma DiagonalSteps(p: Point, q: Point, a: int, b: int, c: int, d: int, da: int, cb: int)
    requires Cong(a, Sum(p)) && Cong(b, Difference(p)) && Cong(c, Sum(q)) && Cong(d, Difference(q))
    requires Cong(da, d * a) && Cong(cb, c * b)
    ensures Cong(da, DiagonalDA(p, q)) && Cong(cb, DiagonalCB(p, q))
  {
    hide Residue;
    CongProduct(da, d, a, Difference(q), Sum(p));
    CongProduct(cb, c, b, Sum(q), Difference(p));
  }

  /** Square of a sum, and u times the square of a difference. */
  lemma SquareSteps(u: int, s: int, t: int, sum: int, difference: int, x: int, square: int, z: int)
    requires Cong(sum, s) && Cong(x, sum * sum)
    requires Cong(difference, t) && Cong(square, difference * difference) && Cong(z, u * square)
    ensures Cong(x, SquareOf(s)) && Cong(z, u * SquareOf(t))
  {
    hide Residue;
    CongSquareOf(x, sum, s);
    CongSquareOf(square, difference, t);
    CongProduct(z, u, square, u, SquareOf(t));
  }

  lemma SumAndDifference(da: int, cb: int, s: int, t: int, sum: int, difference: int)
    requires Cong(da, s) && Cong(cb, t) && sum == da + cb && Cong(difference, da - cb)
    ensures Cong(sum, s + t) && Cong(difference, s - t)
  {
    hide Residue;
    CongAdd(da, s, cb, t);
    CongSub(da, s, cb, t);
    CongTrans(difference, da - cb, s - t);
  }

  lemma DoubleScaledCong(p: Point, q: Point)
    requires CongPoint(p, q)
    ensures CongPoint(DoubleScaled(p), DoubleScaled(q))
  {
    hide Residue;
    ScaledByOne(p, q);
    ScaledCross(p, q, 1);
    var aa, bb, e := SquareOf(Sum(p)), SquareOf(Difference(p)), Cross(p);
    var aaq, bbq, eq := SquareOf(Sum(q)), SquareOf(Difference(q)), Cross(q);
    var k := A24_DENOMINATOR;
    CongMul(aa, aaq, k, k);
    CongMul(aa * k, aaq * k, bb, bbq);
    CongMul(e, eq, A24_NUMERATOR, A24_NUMERATOR);
    CongAdd(aa * k, aaq * k, e * A24_NUMERATOR, eq * A24_NUMERATOR);
    CongMul(e, eq, aa * k + e * A24_NUMERATOR, aaq * k + eq * A24_NUMERATOR);
  }

  lemma ScaledByOne(p: Point, q: Point)
    ensures CongPoint(p, q) <==> Scaled(p, q, 1)
  {
  }

  lemma DiffAddCong(u: int, p2: Point, q2: Point, p3: Point, q3: Point)
    requires CongPoint(p2, q2) && CongPoint(p3, q3)
    ensures CongPoint(DiffAdd(u, p2, p3), DiffAdd(u, q2, q3))
  {
    hide Residue;
    ScaledByOne(p2, q2);
    ScaledByOne(p3, q3);
    DiffAddScales(u, p2, q2, 1, p3, q3, 1);
  }

  // ---- The limb ladder ----

  /** From `(x+z)^2` and `(x-z)^2`, the coordinates of the scaled double. */
  method DoubleFromSquares(ghost p: Point, aa: Fe301Lazy, bb: Fe301Lazy) returns (x: Fe301Lazy, z: Fe301Lazy)
    requires Cong(aa.Int(), SquareOf(Sum(p))) && Cong(bb.Int(), SquareOf(Difference(p)))
    ensures CongPoint(Point(x.Int(), z.Int()), DoubleScaled(p))
  {
    hide Val, Residue;
    var e := aa.SubLoose(bb);
    SubLooseCong(e.Int(), aa.Int(), bb.Int());
    CongSub(aa.Int(), SquareOf(Sum(p)), bb.Int(), SquareOf(Difference(p)));
    CongTrans(e.Int(), aa.Int() - bb.Int(), Cross(p));
    var scaledAA := aa.MulSmall(A24_DENOMINATOR);
    x := scaledAA.Mul(bb);
    CongProduct(scaledAA.Int(), aa.Int(), A24_DENOMINATOR, SquareOf(Sum(p)), A24_DENOMINATOR);
    CongProduct(x.Int(), scaledAA.Int(), bb.Int(), SquareOf(Sum(p)) * A24_DENOMINATOR, SquareOf(Difference(p)));
    var scaledE := e.MulSmall(A24_NUMERATOR);
    var bracket := scaledAA.AddLoose(scaledE);
    z := e.Mul(bracket);
    CongProduct(scaledE.Int(), e.Int(), A24_NUMERATOR, Cross(p), A24_NUMERATOR);
    CongAdd(scaledAA.Int(), SquareOf(Sum(p)) * A24_DENOMINATOR, scaledE.Int(), Cross(p) * A24_NUMERATOR);
    CongProduct(z.Int(), e.Int(), bracket.Int(), Cross(p),
                SquareOf(Sum(p)) * A24_DENOMINATOR + Cross(p) * A24_NUMERATOR);
  }

  method DoubleScaledLazy(x: Fe301Lazy, z: Fe301Lazy) returns (nextX: Fe301Lazy, nextZ: Fe301Lazy)
    ensures CongPoint(Point(nextX.Int(), nextZ.Int()), DoubleScaled(Point(x.Int(), z.Int())))
  {
    hide Val, Residue, SquareOf, DoubleScaled;
    ghost var p := Point(x.Int(), z.Int());
    var a := x.AddLoose(z);
    var aa := a.Square();
    var b := x.SubLoose(z);
    var bb := b.Square();
    SubLooseCong(b.Int(), p.x, p.z);
    CongSquareOf(aa.Int(), a.Int(), Sum(p));
    CongSquareOf(bb.Int(), b.Int(), Difference(p));
    nextX, nextZ := DoubleFromSquares(p, aa, bb);
  }

  /** The differential addition from the sums and differences of the two points. */
  method DiffAddLazy(x1: Fe301Lazy, a: Fe301LazyLinear, b: Fe301LazyLinear, c: Fe301LazyLinear, d: Fe301LazyLinear,
                     ghost p: Point, ghost q: Point) returns (x: Fe301Lazy, z: Fe301Lazy)
    requires Cong(a.Int(), Sum(p)) && Cong(b.Int(), Difference(p))
    requires Cong(c.Int(), Sum(q)) && Cong(d.Int(), Difference(q))
    ensures CongPoint(Point(x.Int(), z.Int()), DiffAdd(x1.Int(), p, q))
  {
    hide Val, Residue, SquareOf, DiagonalDA, DiagonalCB, Sum, Difference;
    var da := d.Mul(a);
    var cb := c.Mul(b);
    var sum := da.AddLoose(cb);
    var difference := da.SubLoose(cb);
    x := sum.Square();
    var square := difference.Square();
    z := x1.Mul(square);
    ghost var s, t := DiagonalDA(p, q), DiagonalCB(p, q);
    SubLooseCong(difference.Int(), da.Int(), cb.Int());
    DiagonalSteps(p, q, a.Int(), b.Int(), c.Int(), d.Int(), da.Int(), cb.Int());
    SumAndDifference(da.Int(), cb.Int(), s, t, sum.Int(), difference.Int());
    SquareSteps(x1.Int(), s + t, s - t, sum.Int(), difference.Int(), x.Int(), square.Int(), z.Int());
  }

  /** The five values the ladder loop updates in place; their type keeps every coordinate below 2p. */
  class LadderState {
    var x1: Fe301Lazy
    var x2: Fe301Lazy
    var z2: Fe301Lazy
    var x3: Fe301Lazy
    var z3: Fe301Lazy

    constructor (x1: Fe301Lazy, x2: Fe301Lazy, z2: Fe301Lazy, x3: Fe301Lazy, z3: Fe301Lazy)
      ensures this.x1 == x1 && this.x2 == x2 && this.z2 == z2 && this.x3 == x3 && this.z3 == z3
    {
      this.x1, this.x2, this.z2, this.x3, this.z3 := x1, x2, z2, x3, z3;
    }

    ghost function Point2(): Point
      reads this
    {
      Point(x2.Int(), z2.Int())
    }

    ghost function Point3(): Point
      reads this
    {
      Point(x3.Int(), z3.Int())
    }

    method ConditionalSwap(choice: bool)
      modifies this
      ensures x1 == old(x1)
      ensures Point2() == old(if choice then Point3() else Point2())
      ensures Point3() == old(if choice then Point2() else Point3())
    {
      if choice {
        x2, x3 := x3, x2;
        z2, z3 := z3, z2;
      }
    }

    /** One ladder round on the arranged points. */
    method Round()
      modifies this
      ensures x1 == old(x1)
      ensures CongPoint(Point2(), old(DoubleScaled(Point2())))
      ensures CongPoint(Point3(), old(DiffAdd(x1.Int(), Point2(), Point3())))
    {
      hide Val, Residue, SquareOf, DoubleScaled, DiffAdd;
      ghost var p, q := Point2(), Point3();
      var a := x2.AddLoose(z2);
      var aa := a.Square();
      var b := x2.SubLoose(z2);
      var bb := b.Square();
      var c := x3.AddLoose(z3);
      var d := x3.SubLoose(z3);
      SubLooseCong(b.Int(), p.x, p.z);
      SubLooseCong(d.Int(), q.x, q.z);
      x3, z3 := DiffAddLazy(x1, a, b, c, d, p, q);
      CongSquareOf(aa.Int(), a.Int(), Sum(p));
      CongSquareOf(bb.Int(), b.Int(), Difference(p));
      x2, z2 := DoubleFromSquares(p, aa, bb);
    }
  }

  /** `scalar[i >> 3] >> (i & 7)`, low bit. */
  function ScalarBit(scalar: seq<Byte>, i: nat): (bit: bool)
    requires i < 8 * |scalar|
    ensures bit == Bit(LE(scalar), i)
  {
    BitOfBytes(scalar, i);
    scalar[i / 8] / Pow2(i % 8) % 2 == 1
  }

  /** The limb ladder: lazy outputs congruent to the scaled ladder polynomial, for every byte string and every u. */
  method Ladder(scalar: seq<Byte>, u: Fe301) returns (x: Fe301Lazy, z: Fe301Lazy)
    requires |scalar| == FIELD_BYTES
    ensures CongPoint(Point(x.Int(), z.Int()), ScaledLadder(LE(scalar), u.Int()))
  {
    hide Val, Residue;
    var lazyU := Fe301Lazy.FromFe301(u);
    ZeroAndOne();
    var one := Fe301Lazy.FromFe301(ONE);
    var x2, z2 := DoubleScaledLazy(lazyU, one);
    var state := new LadderState(lazyU, x2, z2, lazyU, one);
    var swap := true;
    ghost var k := LE(scalar);
    for bitIndex := FIELD_BITS - 1 downto 2
      invariant fresh(state) && state.x1 == lazyU
      invariant swap == ScaledRun(k, u.Int(), bitIndex).swap
      invariant CongPoint(state.Point2(), ScaledRun(k, u.Int(), bitIndex).p2)
      invariant CongPoint(state.Point3(), ScaledRun(k, u.Int(), bitIndex).p3)
    {
      ghost var before := ScaledRun(k, u.Int(), bitIndex + 1);
      var bit := ScalarBit(scalar, bitIndex);
      state.ConditionalSwap(swap != bit);
      swap := bit;
      ghost var p2, p3 := state.Point2(), state.Point3();
      state.Round();
      ghost var (q2, q3) := before.Arranged(bit);
      DoubleScaledCong(p2, q2);
      DiffAddCong(u.Int(), p2, q2, p3, q3);
      CongPointTrans(state.Point2(), DoubleScaled(p2), DoubleScaled(q2));
      CongPointTrans(state.Point3(), DiffAdd(u.Int(), p2, p3), DiffAdd(u.Int(), q2, q3));
    }
    ghost var last := ScaledRun(k, u.Int(), 2);
    state.ConditionalSwap(swap);
    ghost var selected := if last.swap then last.p3 else last.p2;
    DoubleScaledCong(state.Point2(), selected);
    x, z := DoubleScaledLazy(state.x2, state.z2);
    CongPointTrans(Point(x.Int(), z.Int()), DoubleScaled(state.Point2()), DoubleScaled(selected));
    DoubleScaledCong(Point(x.Int(), z.Int()), DoubleScaled(selected));
    ghost var once := Point(x.Int(), z.Int());
    x, z := DoubleScaledLazy(x, z);
    CongPointTrans(Point(x.Int(), z.Int()), DoubleScaled(once), DoubleScaled(DoubleScaled(selected)));
  }

  // ---- Output of a projective point ----

  /** The inverse of a unit, in [0, p). */
  ghost function InverseOf(z: int): (w: int)
    requires IsUnit(z)
    ensures 0 <= w < P && Cong(z * w, 1)
  {
    var v :| Cong(z * v, 1);
    CongMod(v);
    CongMul(z, z, v % P, v);
    CongTrans(z * (v % P), z * v, 1);
    v % P
  }

  /** The affine coordinate x/z, encoded; zero denominators and zero results are refused. */
  ghost function OutputOf(p: Point): Result<seq<Byte>, X301Error> {
    if Cong(p.z, 0) then Err(AllZeroSharedSecret)
    else if !IsUnit(p.z) then Err(NotInvertible)
    else
      var affine := p.x * InverseOf(p.z) % P;
      if affine == 0 then Err(AllZeroSharedSecret) else Ok(ToLE(affine, FIELD_BYTES))
  }

  /** Any inverse of z gives the affine coordinate. */
  lemma AffineByAnyInverse(p: Point, w: int)
    requires IsUnit(p.z) && Cong(p.z * w, 1)
    ensures Cong(p.x * w, p.x * InverseOf(p.z))
    ensures p.x * w % P == p.x * InverseOf(p.z) % P
  {
    hide Residue;
    InverseUnique(p.z, w, InverseOf(p.z));
    CongMul(p.x, p.x, w, InverseOf(p.z));
    CongSameResidue(p.x * w, p.x * InverseOf(p.z));
  }

  lemma UnitOfProduct(s: int, z: int)
    requires IsUnit(s * z)
    ensures IsUnit(z)
  {
    hide Residue;
    var w :| Cong((s * z) * w, 1);
    assert (s * z) * w == z * (s * w);
    UnitWitness(z, s * w);
  }

  lemma ScaledAffine(s: int, x: int, z: int, w: int)
    ensures (s * x) * w == x * (s * w) && (s * z) * w == z * (s * w)
  {
  }

  /** An invertible common factor does not change the output. */
  lemma OutputIgnoresScale(r: Point, f: Point)
    requires UnitScaled(r, f)
    ensures OutputOf(r) == OutputOf(f)
  {
    hide Residue;
    var s :| IsUnit(s) && Scaled(r, f, s);
    ZeroIgnoresScale(r.z, f.z, s);
    if IsUnit(r.z) {
      UnitCong(r.z, s * f.z);
      UnitOfProduct(s, f.z);
      var w := InverseOf(r.z);
      CongMul(r.z, s * f.z, w, w);
      CongSym(r.z * w, (s * f.z) * w);
      CongTrans((s * f.z) * w, r.z * w, 1);
      ScaledAffine(s, f.x, f.z, w);
      AffineByAnyInverse(f, s * w);
      CongMul(r.x, s * f.x, w, w);
      CongTrans(r.x * w, f.x * (s * w), f.x * InverseOf(f.z));
      CongSameResidue(r.x * w, f.x * InverseOf(f.z));
    }
    if IsUnit(f.z) {
      UnitMul(s, f.z);
      CongSym(r.z, s * f.z);
      UnitCong(s * f.z, r.z);
    }
  }

  lemma ZeroIgnoresScale(a: int, b: int, s: int)
    requires IsUnit(s) && Cong(a, s * b)
    ensures Cong(a, 0) <==> Cong(b, 0)
  {
    hide Residue;
    if Cong(b, 0) {
      CongMul(s, s, b, 0);
      CongTrans(a, s * b, 0);
    }
    if Cong(a, 0) {
      CongSym(a, s * b);
      CongTrans(s * b, a, s * 0);
      UnitCancel(s, b, 0);
    }
  }

  lemma OutputOfCongruent(p: Point, q: Point)
    requires CongPoint(p, q)
    ensures OutputOf(p) == OutputOf(q)
  {
    hide Residue;
    UnitWitness(1, 1);
    ScaledByOne(p, q);
    OutputIgnoresScale(p, q);
  }

  method Finalize(x: Fe301Lazy, z: Fe301Lazy) returns (r: Result<seq<Byte>, X301Error>)
    ensures Cong(z.Int(), 0) ==> r == Err(AllZeroSharedSecret)
    ensures Cong(z.Int(), 0) || IsUnit(z.Int()) ==> r == OutputOf(Point(x.Int(), z.Int()))
  {
    hide Val, Residue, IsUnit, OutputOf;
    var zIsZero := z.IsZero();
    var canonicalZ := z.Canonical();
    var present, inverse := Invert(canonicalZ);
    var affine := x.Mul(Fe301Lazy.FromFe301(inverse));
    var affineIsZero := affine.IsZero();
    var canonical := affine.Canonical();
    var output := ToCanonicalBytes(canonical);
    OutputOfZero(Point(x.Int(), z.Int()));
    if IsUnit(z.Int()) {
      InverseOfResidue(z.Int(), canonicalZ.Int(), inverse.Int(), present);
      OutputOfUnit(Point(x.Int(), z.Int()), inverse.Int(), affine.Int());
    }
    if zIsZero || affineIsZero {
      return Err(AllZeroSharedSecret);
    }
    r := Ok(output);
  }

  lemma OutputOfZero(p: Point)
    ensures Cong(p.z, 0) <==> p.z % P == 0
    ensures Cong(p.z, 0) ==> OutputOf(p) == Err(AllZeroSharedSecret)
  {
    CongSameResidue(p.z, 0);
  }

  /** The output through an inverse found by the backend. */
  lemma OutputOfUnit(p: Point, w: int, affine: int)
    requires IsUnit(p.z) && Cong(p.z * w, 1) && Cong(affine, p.x * w)
    ensures p.z % P != 0
    ensures OutputOf(p)
         == if affine % P == 0 then Err(AllZeroSharedSecret) else Ok(ToLE(affine % P, FIELD_BYTES))
  {
    hide Residue;
    AffineByAnyInverse(p, w);
    CongSameResidue(affine, p.x * w);
    UnitNotZero(p.z);
    OutputOfZero(p);
  }

  lemma InverseOfResidue(z: int, residue: int, inverse: int, present: bool)
    requires IsUnit(z) && residue == z % P
    requires present ==> Cong(residue * inverse, 1)
    requires !present ==> !IsUnit(residue)
    ensures Cong(z * inverse, 1)
  {
    hide Residue;
    CongMod(z);
    UnitCong(z, residue);
    CongMul(z, residue, inverse, inverse);
    CongTrans(z * inverse, residue * inverse, 1);
  }

  // ---- The whole function, against the reference ----

  /** The u coordinate an encoding stands for. */
  function DecodeInteger(encoded: nat): (u: nat)
    ensures u < P
  {
    encoded % TOP % P
  }

  /** X301 as the reference states it. */
  ghost function ReferenceX301(secret: seq<Byte>, encoded: seq<Byte>): Result<seq<Byte>, X301Error> {
    if |secret| != FIELD_BYTES then Err(InvalidSecretLength)
    else if |encoded| != FIELD_BYTES then Err(InvalidPublicLength)
    else OutputOf(ReferenceLadder(ClampInteger(LE(secret)), DecodeInteger(LE(encoded))))
  }

  /** For p prime, the optimized ladder gives the same bytes as the reference ladder, or both reject. */
  lemma SameOutput(k: nat, u: int)
    requires PrimeField() && Clamped(k) && 0 <= u < P
    ensures OutputOf(ScaledLadder(k, u)) == OutputOf(ReferenceLadder(k, u))
  {
    hide Residue;
    LadderRefinesReference(k, u);
    if u != 0 {
      OutputIgnoresScale(ScaledLadder(k, u), ReferenceLadder(k, u));
    }
  }

  method ClampScalar(input: seq<Byte>) returns (scalar: seq<Byte>)
    requires |input| == FIELD_BYTES
    ensures |scalar| == FIELD_BYTES && LE(scalar) == ClampInteger(LE(input))
    ensures forall i: nat :: Bit(LE(scalar), i) <==> i == 300 || (2 <= i < 300 && Bit(LE(input), i))
  {
    var buffer := new Byte[FIELD_BYTES](k requires 0 <= k < FIELD_BYTES => input[k]);
    assert buffer[..] == input;
    buffer[0] := buffer[0] - buffer[0] % 4;
    buffer[FIELD_BYTES - 1] := buffer[FIELD_BYTES - 1] % 16 + 16;
    scalar := buffer[..];
    ClampBytes(input, scalar);
    forall i: nat
      ensures Bit(LE(scalar), i) <==> i == 300 || (2 <= i < 300 && Bit(LE(input), i))
    {
      ClampBits(LE(input), i);
    }
  }

  /** u = 0, 1 and -1 modulo p. */
  predicate SmallOrder(u: int) {
    u == 0 || u == 1 || u == P - 1
  }

  lemma SmallOrderVanishes(k: nat, u: int)
    requires SmallOrder(u)
    ensures Cong(ScaledLadder(k, u).z, 0)
  {
    hide Residue;
    if u == 0 {
      ZeroInputVanishes(k);
    } else {
      if u == P - 1 {
        assert (P - 1) * (P - 1) == 1 + (P - 2) * P;
        CongIntro((P - 1) * (P - 1), 1, P - 2);
      }
      SquaresToOneOf(u);
      OrderFourInputVanishes(k, u);
    }
  }

  /**
   * The shipped X301. Lengths are checked secret first; small-order inputs are always refused;
   * and for p prime the result is the reference's.
   */
  method X301(secret: seq<Byte>, encoded: seq<Byte>) returns (r: Result<seq<Byte>, X301Error>)
    ensures |secret| != FIELD_BYTES ==> r == Err(InvalidSecretLength)
    ensures |secret| == FIELD_BYTES != |encoded| ==> r == Err(InvalidPublicLength)
    ensures |secret| == |encoded| == FIELD_BYTES && SmallOrder(DecodeInteger(LE(encoded)))
        ==> r == Err(AllZeroSharedSecret)
    ensures PrimeField() ==> r == ReferenceX301(secret, encoded)
  {
    hide Val, Residue;
    if |secret| != FIELD_BYTES {
      return Err(InvalidSecretLength);
    }
    if |encoded| != FIELD_BYTES {
      return Err(InvalidPublicLength);
    }
    var u := FromX301Bytes(encoded);
    var scalar := ClampScalar(secret);
    var x, z := Ladder(scalar, u);
    r := Finalize(x, z);
    ghost var k, p := LE(scalar), Point(x.Int(), z.Int());
    if SmallOrder(u.Int()) {
      SmallOrderVanishes(k, u.Int());
      CongTrans(z.Int(), ScaledLadder(k, u.Int()).z, 0);
    }
    if PrimeField() {
      ZeroOrUnit(z.Int());
      OutputOfCongruent(p, ScaledLadder(k, u.Int()));
      SameOutput(k, u.Int());
    }
  }
}
