// The independent reference implementation: variable-time integers, reduced after every operation.
module ReferenceImplementation {
  import opened Words
  import opened Bytes
  import opened Modular
  import opened FieldElements
  import opened LadderSpec
  import opened Wrappers
  import opened X301Core

  /** Sums and differences of congruent points. */
  lemma SumsCong(p: Point, f: Point, a: int, b: int)
    requires CongPoint(p, f) && a == (p.x + p.z) % P && b == (p.x - p.z) % P
    ensures Cong(a, Sum(f)) && Cong(b, Difference(f))
  {
    hide Residue;
    CongMod(p.x + p.z);
    CongMod(p.x - p.z);
    CongAdd(p.x, f.x, p.z, f.z);
    CongSub(p.x, f.x, p.z, f.z);
  }

  lemma ReferenceDoubleSteps(p: Point, a: int, aa: int, b: int, bb: int, e: int, x: int, z: int)
    requires Cong(a, Sum(p)) && Cong(aa, a * a) && Cong(b, Difference(p)) && Cong(bb, b * b)
    requires Cong(e, aa - bb) && Cong(x, aa * bb) && Cong(z, e * (aa + A24_MINUS * e))
    ensures CongPoint(Point(x, z), Double(p))
  {
    hide Residue;
    CongSquareOf(aa, a, Sum(p));
    CongSquareOf(bb, b, Difference(p));
    CongSub(aa, SquareOf(Sum(p)), bb, SquareOf(Difference(p)));
    CongTrans(e, aa - bb, Cross(p));
    CongProduct(x, aa, bb, SquareOf(Sum(p)), SquareOf(Difference(p)));
    CongMul(A24_MINUS, A24_MINUS, e, Cross(p));
    CongAdd(aa, SquareOf(Sum(p)), A24_MINUS * e, A24_MINUS * Cross(p));
    CongProduct(z, e, aa + A24_MINUS * e, Cross(p), SquareOf(Sum(p)) + A24_MINUS * Cross(p));
  }

  /** One round on representatives of the points `f` and `h`. */
  method ReferenceRoundSteps(x1: int, p: Point, q: Point, ghost f: Point, ghost h: Point) returns (n2: Point, n3: Point)
    requires CongPoint(p, f) && CongPoint(q, h)
    ensures CongPoint(n2, Double(f)) && CongPoint(n3, DiffAdd(x1, f, h))
    ensures 0 <= n2.x < P && 0 <= n2.z < P && 0 <= n3.x < P && 0 <= n3.z < P
  {
    hide Residue, SquareOf, DiagonalDA, DiagonalCB, Sum, Difference, Double;
    var a := (p.x + p.z) % P;
    var aa := a * a % P;
    var b := (p.x - p.z) % P;
    var bb := b * b % P;
    var e := (aa - bb) % P;
    var c := (q.x + q.z) % P;
    var d := (q.x - q.z) % P;
    var da := d * a % P;
    var cb := c * b % P;
    SumsCong(p, f, a, b);
    CongMod(a * a);
    CongMod(b * b);
    CongMod(aa - bb);
    SumsCong(q, h, c, d);
    CongMod(d * a);
    CongMod(c * b);
    var square := (da - cb) * (da - cb);
    n3 := Point((da + cb) * (da + cb) % P, x1 * square % P);
    CongMod((da + cb) * (da + cb));
    CongMod(x1 * square);
    ghost var s, t := DiagonalDA(f, h), DiagonalCB(f, h);
    DiagonalSteps(f, h, a, b, c, d, da, cb);
    SumAndDifference(da, cb, s, t, da + cb, da - cb);
    SquareSteps(x1, s + t, s - t, da + cb, da - cb, n3.x, square, n3.z);
    n2 := Point(aa * bb % P, e * (aa + A24_MINUS * e) % P);
    CongMod(aa * bb);
    CongMod(e * (aa + A24_MINUS * e));
    ReferenceDoubleSteps(f, a, aa, b, bb, e, n2.x, n2.z);
  }

  method MontgomeryLadder(scalar: nat, u: int) returns (p: Point)
    ensures CongPoint(p, ReferenceLadder(scalar, u))
    ensures 0 <= p.x < P && 0 <= p.z < P
  {
    hide Residue;
    var p2, p3, swap := Point(1, 0), Point(u, 1), false;
    for bitIndex := FIELD_BITS downto 0
      invariant swap == ReferenceRun(scalar, u, bitIndex).swap
      invariant CongPoint(p2, ReferenceRun(scalar, u, bitIndex).p2)
      invariant CongPoint(p3, ReferenceRun(scalar, u, bitIndex).p3)
      invariant bitIndex < FIELD_BITS ==> 0 <= p2.x < P && 0 <= p2.z < P && 0 <= p3.x < P && 0 <= p3.z < P
    {
      ghost var before := ReferenceRun(scalar, u, bitIndex + 1);
      var bit := Bit(scalar, bitIndex);
      if swap != bit {
        p2, p3 := p3, p2;
      }
      swap := bit;
      ghost var (f, h) := before.Arranged(bit);
      p2, p3 := ReferenceRoundSteps(u, p2, p3, f, h);
    }
    p := if swap then p3 else p2;
  }

  method DecodeU(encoded: seq<Byte>) returns (value: int)
    requires |encoded| == FIELD_BYTES
    ensures value == DecodeInteger(LE(encoded))
  {
    var masked := encoded[FIELD_BYTES - 1 := encoded[FIELD_BYTES - 1] % 32];
    MaskTopBits(encoded);
    value := LE(masked);
    ResidueOnce(value);
    if value >= P {
      value := value - P;
    }
  }

  /** Refuse a zero denominator, divide, refuse a zero result. */
  method EncodeAffine(p: Point) returns (r: Result<seq<Byte>, X301Error>)
    requires 0 <= p.x < P && 0 <= p.z < P
    ensures r == OutputOf(p)
  {
    hide Residue;
    if p.z == 0 {
      return Err(AllZeroSharedSecret);
    }
    if Cong(p.z, 0) {
      CongCanonical(p.z, 0);
    }
    var present, inverse := InvertResidue(p.z);
    if !present {
      return Err(NotInvertible);
    }
    UnitWitness(p.z, inverse);
    AffineByAnyInverse(p, inverse);
    var output := p.x * inverse % P;
    if output == 0 {
      return Err(AllZeroSharedSecret);
    }
    r := Ok(ToLE(output, FIELD_BYTES));
  }

  /** The reference X301 meets its specification for every input, prime modulus or not. */
  method X301(secret: seq<Byte>, encoded: seq<Byte>) returns (r: Result<seq<Byte>, X301Error>)
    ensures r == ReferenceX301(secret, encoded)
  {
    hide Residue;
    if |secret| != FIELD_BYTES {
      return Err(InvalidSecretLength);
    }
    var clamped := ClampScalar(secret);
    if |encoded| != FIELD_BYTES {
      return Err(InvalidPublicLength);
    }
    var u := DecodeU(encoded);
    var p := MontgomeryLadder(LE(clamped), u);
    OutputOfCongruent(p, ReferenceLadder(LE(clamped), u));
    r := EncodeAffine(p);
  }
}
