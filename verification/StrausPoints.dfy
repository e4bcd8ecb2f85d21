// Straus interleaving and the subgroup schedules over limb points, for the curve points they stand for.
module StrausPoints {
  import opened Words
  import opened Modular
  import opened Groups
  import opened Recoding
  import opened Straus
  import opened Schedules
  import opened EdwardsFormulas
  import opened EdwardsComplete
  import opened EdwardsPoints
  import opened CurveGroup
  import opened LadderOnCurve
  import opened ProjectivePoints
  import opened PublicKeyDerivation

  // ---- Odd-multiple tables ----

  /** Entry `j` caches `[2j + 1]a`. */
  ghost predicate IsOddPoints(table: seq<AffineNielsPoint>, a: CurvePoint) {
    |table| == ODD_MULTIPLES && forall j :: 0 <= j < |table| ==> EntryIs(table[j], 2 * j + 1, a)
  }

  ghost predicate OddPoints(points: seq<EdwardsPoint>, n: nat, a: CurvePoint) {
    n <= |points| && forall j :: 0 <= j < n ==> PointIs(points[j], 2 * j + 1, a)
  }

  /** The 64 odd multiples of a point, normalized with one inversion. */
  method BuildOddPoints(point: EdwardsPoint, ghost a: CurvePoint) returns (table: seq<AffineNielsPoint>)
    requires CurveFacts() && PointAt(point, a)
    ensures IsOddPoints(table, a)
  {
    hide Val, PointIs, EntryIs, PointAt, CurveFacts, IsEntryOf, CongExtended, DoublePoint, AddPoints, IsUnit;
    FirstMultiple(point, a);
    var step := point.Double();
    PointDouble(point, 1, a, step);
    var projective := new EdwardsPoint[ODD_MULTIPLES](_ => IDENTITY_POINT);
    projective[0] := point;
    var index := 1;
    while index < ODD_MULTIPLES
      invariant 1 <= index <= ODD_MULTIPLES
      invariant OddPoints(projective[..], index, a)
    {
      ghost var before := projective[..];
      var last := projective[index - 1];
      assert last == before[index - 1];
      var next := last.Add(step);
      PointSum(last, 2 * (index - 1) + 1, step, 2, a, next);
      projective[index] := next;
      assert projective[..] == before[index := next];
      index := index + 1;
    }
    var points := projective[..];
    forall j | 0 <= j < |points|
      ensures IsUnit(points[j].z.Int())
    {
      PointIsInvertible(points[j], 2 * j + 1, a);
    }
    table := BatchNormalize(points);
    forall j | 0 <= j < |table|
      ensures EntryIs(table[j], 2 * j + 1, a)
    {
      EntryOfMultiple(table[j], points[j], 2 * j + 1, a);
    }
  }

  // ---- Straus ----

  /** Add the odd multiple that the magnitude indexes, negated when digit and flag say so. */
  method AddSignedEntry(accumulator: EdwardsPoint, ghost c: CurvePoint, digit: int, table: seq<AffineNielsPoint>,
                        negateScalar: bool, ghost a: CurvePoint) returns (r: EdwardsPoint)
    requires PointAt(accumulator, c) && IsOddPoints(table, a) && TableDigit(digit)
    ensures PointAt(r, SumOf(c, Multiple(if negateScalar then -digit else digit, a)))
  {
    hide Val, PointAt, CongExtended, AddCached, SumOf, Multiple, CachesAffine, CurveFacts, Residue;
    if digit == 0 {
      NothingAdded(accumulator, c, a);
      return accumulator;
    }
    var magnitude := Magnitude(digit);
    assert 2 * (magnitude / 2) + 1 == magnitude;
    var addend := table[magnitude / 2];
    ghost var n: int := magnitude;
    assert EntryIs(addend, n, a);
    if (digit < 0) != negateScalar {
      var negated := addend.Negate();
      EntryNegated(addend, n, a, negated);
      addend, n := negated, -n;
    }
    r := accumulator.AddAffine(addend);
    MixedSumAt(accumulator, c, addend, Multiple(n, a), r);
  }

  lemma NothingAdded(p: EdwardsPoint, c: CurvePoint, a: CurvePoint)
    requires PointAt(p, c)
    ensures PointAt(p, SumOf(c, Multiple(0, a)))
  {
    hide Projective, PrimeField, NonSquare, IsAssociative, IsAbelianGroup, SumOf;
    if CurveFacts() {
      CurveIsAbelian();
      OperationsAre(c, Multiple(0, a));
      Identity(CurveOperations(), c);
    }
  }

  /** `[x]base + [y]point` on the curve. */
  ghost function Both(x: int, base: CurvePoint, y: int, point: CurvePoint): CurvePoint {
    SumOf(Multiple(x, base), Multiple(y, point))
  }

  lemma BothStart(base: CurvePoint, point: CurvePoint)
    ensures PointAt(IDENTITY_POINT, Both(0, base, 0, point))
  {
    hide Projective, PrimeField, NonSquare, IsAssociative, IsAbelianGroup, SumOf;
    IdentityIsNothing(base);
    if CurveFacts() {
      CurveIsAbelian();
      OperationsAre(Multiple(0, base), Multiple(0, point));
      Identity(CurveOperations(), CurveOperations().zero);
    }
  }

  /** One round on curve points: double, then add a multiple of each point. */
  lemma BothRound(x: int, base: CurvePoint, y: int, point: CurvePoint, s: int, t: int)
    ensures CurveFacts() ==>
      SumOf(SumOf(SumOf(Both(x, base, y, point), Both(x, base, y, point)), Multiple(s, base)), Multiple(t, point))
      == Both(2 * x + s, base, 2 * y + t, point)
  {
    hide PrimeField, NonSquare, IsAssociative, IsAbelianGroup, CurveOperations, SumOf, Mul;
    if CurveFacts() {
      var g := CurveOperations();
      CurveIsAbelian();
      CombinationRound(g, x, base, y, point, s, t);
      OperationsAre(Multiple(x, base), Multiple(y, point));
      OperationsAre(Multiple(2 * x + s, base), Multiple(2 * y + t, point));
      var both := Both(x, base, y, point);
      OperationsAre(both, both);
      OperationsAre(SumOf(both, both), Multiple(s, base));
      OperationsAre(SumOf(SumOf(both, both), Multiple(s, base)), Multiple(t, point));
    }
  }

  /** One loop round on limb points. */
  method StrausRound(start: EdwardsPoint, ghost x: int, ghost base: CurvePoint, ghost y: int, ghost point: CurvePoint,
                     baseDigit: int, pointDigit: int,
                     baseTable: seq<AffineNielsPoint>, pointTable: seq<AffineNielsPoint>) returns (r: EdwardsPoint)
    requires PointAt(start, Both(x, base, y, point)) && TableDigit(baseDigit) && TableDigit(pointDigit)
    requires IsOddPoints(baseTable, base) && IsOddPoints(pointTable, point)
    ensures PointAt(r, Both(2 * x + baseDigit, base, 2 * y - pointDigit, point))
  {
    hide Val, Projective, CongExtended, DoublePoint, SumOf, Multiple, CurveFacts, IsOddPoints, TableDigit, Both;
    ghost var both := Both(x, base, y, point);
    ghost var sum := SumOf(SumOf(both, both), Multiple(baseDigit, base));
    var doubled := start.Double();
    DoubleAt(start, both, doubled);
    var added := AddSignedEntry(doubled, SumOf(both, both), baseDigit, baseTable, false, base);
    r := AddSignedEntry(added, sum, pointDigit, pointTable, true, point);
    BothRound(x, base, y, point, baseDigit, -pointDigit);
  }

  /** A form of `[s]base - [k]point`, skipping the positions where both recodings are zero. */
  method DoubleScalarMulPoints(baseScalar: nat, pointScalar: nat, baseTable: seq<AffineNielsPoint>,
                               pointTable: seq<AffineNielsPoint>, ghost base: CurvePoint, ghost point: CurvePoint)
    returns (result: EdwardsPoint)
    requires baseScalar < L && pointScalar < L && IsOddPoints(baseTable, base) && IsOddPoints(pointTable, point)
    ensures PointAt(result, CurveOperations().Sub(Multiple(baseScalar, base), Multiple(pointScalar, point)))
  {
    hide Val, PointAt, IsOddPoints, NonAdjacent, TableDigit, Both, Multiple, CurveOperations;
    var baseDigits := VartimeWnaf(baseScalar, 8);
    var pointDigits := VartimeWnaf(pointScalar, 8);
    var top := FIELD_BITS;
    while top != 0 && baseDigits[top] == 0 && pointDigits[top] == 0
      invariant 0 <= top <= FIELD_BITS
      invariant forall k :: top < k <= FIELD_BITS ==> baseDigits[k] == 0 && pointDigits[k] == 0
    {
      top := top - 1;
    }
    ZeroTail(baseDigits, top + 1);
    ZeroTail(pointDigits, top + 1);
    BothStart(base, point);
    result := IDENTITY_POINT;
    while true
      invariant 0 <= top <= FIELD_BITS
      invariant PointAt(result, Both(Tail(baseDigits, top + 1), base, -Tail(pointDigits, top + 1), point))
      decreases top
    {
      NafTableDigit(baseDigits, top);
      NafTableDigit(pointDigits, top);
      ghost var x, y := Tail(baseDigits, top + 1), Tail(pointDigits, top + 1);
      result := StrausRound(result, x, base, -y, point, baseDigits[top], pointDigits[top], baseTable, pointTable);
      assert 2 * -y - pointDigits[top] == -Tail(pointDigits, top);
      if top == 0 {
        break;
      }
      top := top - 1;
    }
    BothIsDifference(result, baseScalar, base, pointScalar, point);
  }

  lemma BothIsDifference(p: EdwardsPoint, x: int, base: CurvePoint, y: int, point: CurvePoint)
    requires PointAt(p, Both(x, base, -y, point))
    ensures PointAt(p, CurveOperations().Sub(Multiple(x, base), Multiple(y, point)))
  {
    hide Projective, PrimeField, NonSquare, IsAssociative, IsAbelianGroup, SumOf, NegativeOf, Mul, CurveOperations;
    if CurveFacts() {
      CurveIsAbelian();
      CombinationIsDifference(CurveOperations(), x, base, y, point);
      OperationsAre(Multiple(x, base), Multiple(-y, point));
    }
  }

  // ---- The subgroup schedules ----

  /** Double from `from` down to `to`. */
  method DoubleDownPoints(start: EdwardsPoint, from: nat, to: nat, ghost n: int, ghost a: CurvePoint)
    returns (accumulator: EdwardsPoint, bit: nat)
    requires PointIs(start, n, a)
    ensures to < from ==> bit == to && PointIs(accumulator, Pow2(from - to) * n, a)
    ensures to >= from ==> bit == from && PointIs(accumulator, n, a)
  {
    hide Val, PointIs, CongExtended, DoublePoint;
    accumulator, bit := start, from;
    while bit > to
      invariant bit <= from && (to <= bit || bit == from)
      invariant PointIs(accumulator, Pow2(from - bit) * n, a)
    {
      var next := accumulator.Double();
      PointDouble(accumulator, Pow2(from - bit) * n, a, next);
      assert 2 * (Pow2(from - bit) * n) == Pow2(from - (bit - 1)) * n;
      accumulator := next;
      bit := bit - 1;
    }
  }

  method AddOddMultiple(p: EdwardsPoint, ghost m: int, digit: int, table: seq<AffineNielsPoint>, ghost a: CurvePoint)
    returns (r: EdwardsPoint)
    requires PointIs(p, m, a) && IsOddPoints(table, a) && TableDigit(digit)
    ensures PointIs(r, m + digit, a)
  {
    hide Val, Projective, IsOddPoints, TableDigit, Multiple, SumOf, CurveFacts;
    r := AddSignedEntry(p, Multiple(m, a), digit, table, false, a);
    SumOfMultiples(m, digit, a);
  }

  /** The signed schedule on limb points accepts exactly the forms of points killed by L. */
  method IsPrimeSubgroupPoints(point: EdwardsPoint, table: seq<AffineNielsPoint>, ghost a: CurvePoint)
    returns (b: bool)
    requires PointAt(point, a) && IsOddPoints(table, a)
    ensures CurveFacts() ==> (b <==> Multiple(L, a) == Affine(0, 1))
  {
    hide Val, PointAt, PointIs, IsOddPoints, TableDigit, PrimeOrderWnaf8, CurveFacts, Multiple;
    var accumulator := point;
    var currentBit: nat := Wnaf8.Position(0);
    var digitIndex := 1;
    FirstMultiple(point, a);
    while digitIndex < 18
      invariant 1 <= digitIndex <= 18
      invariant PointIs(accumulator, ScheduleState(Wnaf8, digitIndex - 1).multiple, a)
      invariant currentBit == ScheduleState(Wnaf8, digitIndex - 1).bit
    {
      var (position, digit) := PrimeOrderWnaf8(digitIndex);
      ghost var state := ScheduleState(Wnaf8, digitIndex - 1);
      accumulator, currentBit := DoubleDownPoints(accumulator, currentBit, position, state.multiple, a);
      ScheduledDigit(digitIndex);
      accumulator := AddOddMultiple(accumulator, state.Next(position, digit).multiple - digit, digit, table, a);
      digitIndex := digitIndex + 1;
    }
    WnafScheduleIsOrder();
    b := IsIdentityPoint(accumulator, L, a);
  }

  /** The set-bit schedule on limb points gives a form of `[L]a`. */
  method PrimeOrderMultiplePoint(point: EdwardsPoint, ghost a: CurvePoint) returns (accumulator: EdwardsPoint)
    requires PointAt(point, a)
    ensures PointIs(accumulator, L, a)
  {
    hide Val, PointAt, PointIs, PrimeOrderSetBit, CongExtended, AddPoints;
    accumulator := point;
    var currentBit: nat := PrimeOrderSetBit(0);
    var setBitIndex := 1;
    FirstMultiple(point, a);
    while setBitIndex < 64
      invariant 1 <= setBitIndex <= 64
      invariant PointIs(accumulator, ScheduleState(SetBits, setBitIndex - 1).multiple, a)
      invariant currentBit == ScheduleState(SetBits, setBitIndex - 1).bit
    {
      var setBit := PrimeOrderSetBit(setBitIndex);
      ghost var state := ScheduleState(SetBits, setBitIndex - 1);
      accumulator, currentBit := DoubleDownPoints(accumulator, currentBit, setBit, state.multiple, a);
      var next := accumulator.Add(point);
      PointSum(accumulator, state.Next(setBit, 1).multiple - 1, point, 1, a, next);
      accumulator := next;
      setBitIndex := setBitIndex + 1;
    }
    SetBitsScheduleIsOrder();
  }

  method IsIdentityPoint(p: EdwardsPoint, ghost n: int, ghost a: CurvePoint) returns (b: bool)
    requires PointIs(p, n, a)
    ensures CurveFacts() ==> (b <==> Multiple(n, a) == Affine(0, 1))
  {
    hide Val, Projective, CurveFacts, Multiple, Residue;
    b := p.IsIdentity();
    IdentityAt(p, Multiple(n, a));
  }

  /** The limb test for the identity decides whether the point stands for it. */
  lemma IdentityAt(p: EdwardsPoint, a: CurvePoint)
    requires PointAt(p, a)
    ensures CurveFacts() ==> (p.x.Int() == 0 && p.y.Int() == p.z.Int() <==> a == Affine(0, 1))
  {
    hide Val, Projective, PrimeField, NonSquare, IsAssociative, Residue, Cong;
    if CurveFacts() {
      var c := p.Coordinates();
      IdentityForm(c, a);
      CanonicalEqual(c.x, 0);
      CanonicalEqual(c.y, c.z);
    }
  }

  lemma CanonicalEqual(a: int, b: int)
    requires 0 <= a < P && 0 <= b < P
    ensures Cong(a, b) <==> a == b
  {
    hide Residue;
    CongSameResidue(a, b);
  }
}
