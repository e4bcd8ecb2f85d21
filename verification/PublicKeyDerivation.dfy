// The fixed-base path over limb points: the base table, its signed radix-16 evaluation, and the public key.
module PublicKeyDerivation {
  import opened Arithmetic
  import opened Wrappers
  import opened Words
  import opened Bytes
  import opened Modular
  import opened FieldElements
  import opened Groups
  import opened Recoding
  import opened FixedBase
  import opened EdwardsFormulas
  import opened EdwardsComplete
  import opened EdwardsPoints
  import opened CurveGroup
  import opened X301Core
  import opened LadderOnCurve
  import opened PublicKeys
  import opened ProjectivePoints
  import opened Scalars
  import opened MontgomeryMap

  // ---- The constants ----

  const BASEPOINT_X: Fe301 := Fe301(
    [0x76e2_adfb_00c0_3d1f, 0x4942_cad7_bf84_1f3f, 0x5cdb_b15e_84b5_2add, 0x3be0_acb6_161a_2783, 0x3aee_6839])
  const BASEPOINT_Y: Fe301 := Fe301(
    [0x6580_0c5a_753f_f76b, 0xd7f7_6f6d_cf3f_e83c, 0x67ac_2492_92b1_47f3, 0xc8f2_6c9e_4173_2255, 0x1888_d302_8aa8])
  const BASEPOINT_T: Fe301 := Fe301(
    [0xf743_65f4_4b45_598d, 0x215c_9ee6_a9b1_002e, 0xc602_cc68_7276_039c, 0xb024_6816_daaa_5ae2, 0x1db_90e5_effb])
  const BASEPOINT: EdwardsPoint := EdwardsPoint(BASEPOINT_X, BASEPOINT_Y, ONE, BASEPOINT_T)

  const IDENTITY_POINT: EdwardsPoint := EdwardsPoint(ZERO, ONE, ONE, ZERO)
  const IDENTITY_ENTRY: AffineNielsPoint := AffineNielsPoint(ZERO, ONE, ONE, ZERO)

  const BASE_T: int := 0x1db_90e5effb_b0246816daaa5ae2_c602cc687276039c_215c9ee6a9b1002e_f74365f44b45598d

  lemma LimbsOf(e: Fe301, a: Word, b: Word, c: Word, d: Word, top: Word)
    requires e.limbs == [a, b, c, d, top]
    ensures e.Int() == a + b * RADIX + c * R2 + d * R3 + top * R4
  {
    Val5(e.limbs);
  }

  lemma BasepointValue()
    ensures BASEPOINT.Coordinates() == Extended(BASE_X, BASE_Y, 1, BASE_T)
  {
    hide Val;
    ZeroAndOne();
    LimbsOf(BASEPOINT_X, 0x76e2_adfb_00c0_3d1f, 0x4942_cad7_bf84_1f3f, 0x5cdb_b15e_84b5_2add, 0x3be0_acb6_161a_2783,
            0x3aee_6839);
    LimbsOf(BASEPOINT_Y, 0x6580_0c5a_753f_f76b, 0xd7f7_6f6d_cf3f_e83c, 0x67ac_2492_92b1_47f3, 0xc8f2_6c9e_4173_2255,
            0x1888_d302_8aa8);
    LimbsOf(BASEPOINT_T, 0xf743_65f4_4b45_598d, 0x215c_9ee6_a9b1_002e, 0xc602_cc68_7276_039c, 0xb024_6816_daaa_5ae2,
            0x1db_90e5_effb);
  }

  lemma BasepointForm()
    ensures CongExtended(BASEPOINT.Coordinates(), Rep(Base()))
  {
    hide Residue, OnQuadrics;
    BasepointValue();
    CongIntro(BASE_T, BASE_X * BASE_Y, (BASE_T - BASE_X * BASE_Y) / P);
  }

  lemma BasepointIsBase()
    ensures PointIs(BASEPOINT, 1, Base())
  {
    hide Residue, OnQuadrics, PrimeField, NonSquare, IsAssociative, CongExtended, Base, Val, Mul;
    BasepointForm();
    RepProjective(Base());
    ProjectiveOfCong(BASEPOINT.Coordinates(), Rep(Base()), Base());
    FirstMultiple(BASEPOINT, Base());
  }

  lemma FirstMultiple(point: EdwardsPoint, a: CurvePoint)
    requires PointAt(point, a)
    ensures PointIs(point, 1, a)
  {
    hide Projective, PrimeField, NonSquare, IsAssociative, IsAbelianGroup, Mul;
    if CurveFacts() {
      CurveIsAbelian();
      MulOne(CurveOperations(), a);
    }
  }

  lemma IdentityIsNothing(base: CurvePoint)
    ensures PointIs(IDENTITY_POINT, 0, base) && EntryIs(IDENTITY_ENTRY, 0, base)
  {
    hide Residue, OnQuadrics, PrimeField, NonSquare, IsAssociative;
    ZeroAndOne();
    IdentityOnCurve();
    RepOnCurve(Affine(0, 1));
    CachesOf(IDENTITY_ENTRY.Ints());
  }

  // ---- The base table ----

  /** Entry `entry` of row `row`. */
  function RowScalar(row: nat, entry: nat): int {
    (entry + 1) * Pow256(row)
  }

  /** Entry `k` of the table, which has eight entries to the row. */
  function EntryScalar(k: nat): int {
    RowScalar(k / 8, k % 8)
  }

  ghost predicate IsPointTable(table: seq<AffineNielsPoint>) {
    |table| == 304 && forall k :: 0 <= k < 304 ==> EntryIs(table[k], EntryScalar(k), Base())
  }

  ghost predicate RowsDone(points: seq<EdwardsPoint>, n: nat) {
    n <= |points| && forall k :: 0 <= k < n ==> PointIs(points[k], EntryScalar(k), Base())
  }

  /** One row: the multiples 1..8 of the row base. */
  method BuildPointRow(projective: array<EdwardsPoint>, row: nat, rowBase: EdwardsPoint)
    requires projective.Length == 304 && row < 38
    requires RowsDone(projective[..], 8 * row) && PointIs(rowBase, Pow256(row), Base())
    modifies projective
    ensures RowsDone(projective[..], 8 * (row + 1))
  {
    hide Val, PointIs, EntryScalar;
    ghost var before := projective[..];
    projective[8 * row] := rowBase;
    EntryAt(row, 0);
    var entry := 1;
    while entry < 8
      invariant 1 <= entry <= 8
      invariant RowsDone(projective[..], 8 * row + entry)
    {
      EntryAt(row, entry - 1);
      EntryAt(row, entry);
      NextEntry(entry, Pow256(row));
      var last := projective[8 * row + entry - 1];
      var next := AddNext(last, EntryScalar(8 * row + entry - 1), rowBase, Pow256(row));
      before := projective[..];
      projective[8 * row + entry] := next;
      assert projective[..] == before[8 * row + entry := next];
      entry := entry + 1;
    }
  }

  lemma EntryAt(row: nat, entry: nat)
    requires entry < 8
    ensures EntryScalar(8 * row + entry) == RowScalar(row, entry)
  {
    hide RowScalar;
    QuotientUnique(8 * row + entry, 8, row, entry);
  }

  method AddNext(p: EdwardsPoint, ghost m: int, q: EdwardsPoint, ghost n: int) returns (r: EdwardsPoint)
    requires PointIs(p, m, Base()) && PointIs(q, n, Base())
    ensures PointIs(r, m + n, Base())
  {
    hide Val, PointIs, CongExtended, AddPoints;
    r := p.Add(q);
    PointSum(p, m, q, n, Base(), r);
  }

  method DoublePoints(p: EdwardsPoint, ghost n: int, count: nat) returns (r: EdwardsPoint)
    requires PointIs(p, n, Base())
    ensures PointIs(r, n * Pow2(count), Base())
  {
    hide Val, PointIs, CongExtended, DoublePoint;
    r := p;
    var doubling := 0;
    while doubling < count
      invariant 0 <= doubling <= count && PointIs(r, n * Pow2(doubling), Base())
    {
      var next := r.Double();
      PointDouble(r, n * Pow2(doubling), Base(), next);
      assert 2 * (n * Pow2(doubling)) == n * (2 * Pow2(doubling));
      r := next;
      doubling := doubling + 1;
    }
  }

  /** The table that is built from the base point, row by row, and normalized with one inversion. */
  method BuildBasepointPoints() returns (table: seq<AffineNielsPoint>)
    requires CurveFacts()
    ensures IsPointTable(table)
  {
    hide Val, PointIs, EntryIs, CurveFacts, Base, EntryScalar, Pow256, Pow2;
    BasepointIsBase();
    RowWeights(0);
    var projective := new EdwardsPoint[304](_ => IDENTITY_POINT);
    var rowBase := BASEPOINT;
    var row := 0;
    while row < BASEPOINT_TABLE_ROWS
      invariant 0 <= row <= 38
      invariant PointIs(rowBase, Pow256(row), Base()) && RowsDone(projective[..], 8 * row)
    {
      BuildPointRow(projective, row, rowBase);
      RowWeights(row);
      rowBase := DoublePoints(rowBase, Pow256(row), 8);
      row := row + 1;
    }
    table := NormalizeTable(projective[..]);
  }

  lemma RowWeights(row: nat)
    ensures Pow256(0) == 1 && Pow256(row) * Pow2(8) == Pow256(row + 1)
  {
    Pow2Small();
  }

  method NormalizeTable(points: seq<EdwardsPoint>) returns (table: seq<AffineNielsPoint>)
    requires CurveFacts() && |points| == 304 && RowsDone(points, 304)
    ensures IsPointTable(table)
  {
    hide Val, PointIs, EntryIs, CurveFacts, IsEntryOf, Base, EntryScalar, IsUnit;
    forall k | 0 <= k < |points|
      ensures IsUnit(points[k].z.Int())
    {
      PointIsInvertible(points[k], EntryScalar(k), Base());
    }
    table := BatchNormalize(points);
    forall k | 0 <= k < 304
      ensures EntryIs(table[k], EntryScalar(k), Base())
    {
      EntryOfMultiple(table[k], points[k], EntryScalar(k), Base());
    }
  }

  lemma PointIsInvertible(p: EdwardsPoint, n: int, base: CurvePoint)
    requires CurveFacts() && PointIs(p, n, base)
    ensures IsUnit(p.z.Int())
  {
    hide CurveFacts, OnQuadrics, Represents, Residue;
  }

  // ---- Selection and evaluation ----

  /** Scan all eight entries of a row for the magnitude, then apply the sign. */
  method SelectEntry(table: seq<AffineNielsPoint>, row: nat, digit: int) returns (r: AffineNielsPoint)
    requires IsPointTable(table) && row < BASEPOINT_TABLE_ROWS && -8 <= digit <= 8
    ensures EntryIs(r, digit * Pow256(row), Base())
  {
    hide Val, EntryIs, IsPointTable, Pow256;
    ghost var scale := Pow256(row);
    TableLength(table);
    var magnitude := if digit < 0 then -digit else digit;
    var selected := IDENTITY_ENTRY;
    var entry := 0;
    IdentityIsNothing(Base());
    while entry < BASEPOINT_TABLE_WIDTH
      invariant 0 <= entry <= 8
      invariant EntryIs(selected, if magnitude <= entry then magnitude * scale else 0, Base())
    {
      if magnitude == entry + 1 {
        TableEntryIs(table, row, entry);
        selected := table[8 * row + entry];
      }
      entry := entry + 1;
    }
    r := selected;
    if digit < 0 {
      r := NegateEntry(selected, magnitude * scale);
      assert digit * scale == -(magnitude * scale);
    }
  }

  lemma TableLength(table: seq<AffineNielsPoint>)
    requires IsPointTable(table)
    ensures |table| == 304
  {
  }

  lemma TableEntryIs(table: seq<AffineNielsPoint>, row: nat, entry: nat)
    requires IsPointTable(table) && row < 38 && entry < 8
    ensures |table| == 304 && EntryIs(table[8 * row + entry], (entry + 1) * Pow256(row), Base())
  {
    hide EntryIs, EntryScalar;
    EntryAt(row, entry);
  }

  method NegateEntry(e: AffineNielsPoint, ghost n: int) returns (r: AffineNielsPoint)
    requires EntryIs(e, n, Base())
    ensures EntryIs(r, -n, Base())
  {
    hide Val, CachesAffine, CurveFacts, Residue;
    r := e.Negate();
    EntryNegated(e, n, Base(), r);
  }

  method AddEntry(p: EdwardsPoint, ghost m: int, e: AffineNielsPoint, ghost n: int) returns (r: EdwardsPoint)
    requires PointIs(p, m, Base()) && EntryIs(e, n, Base())
    ensures PointIs(r, m + n, Base())
  {
    hide Val, Projective, CongExtended, AddCached, CurveFacts;
    r := p.AddAffine(e);
    PointMixedSum(p, m, e, n, Base(), r);
  }

  /** Accumulate the selected entries of every second digit. */
  method AccumulateDigits(table: seq<AffineNielsPoint>, digits: seq<int>, offset: nat, start: EdwardsPoint,
                          ghost n: int)
    returns (r: EdwardsPoint)
    requires IsPointTable(table) && PointIs(start, n, Base())
    requires |digits| == RADIX16_DIGITS && offset < 2 && forall k :: 0 <= k < |digits| ==> -8 <= digits[k] <= 8
    ensures PointIs(r, n + HalfSum(digits, offset, 38), Base())
  {
    hide Val, PointIs, EntryIs, IsPointTable, HalfSum, Pow256;
    HalfStart(digits, offset);
    r := start;
    var digitIndex := offset;
    while digitIndex < RADIX16_DIGITS
      invariant offset <= digitIndex <= RADIX16_DIGITS + offset && digitIndex % 2 == offset
      invariant PointIs(r, n + HalfSum(digits, offset, digitIndex / 2), Base())
    {
      ghost var j := digitIndex / 2;
      assert digitIndex == offset + 2 * j;
      var addend := SelectEntry(table, digitIndex / 2, digits[digitIndex]);
      r := AddEntry(r, n + HalfSum(digits, offset, j), addend, digits[digitIndex] * Pow256(j));
      HalfNext(digits, offset, j);
      digitIndex := digitIndex + 2;
    }
  }

  /** Odd digits, four doublings, even digits: a form of [k]B for every encoded k below 2^303. */
  method ScalarMulBasePoint(table: seq<AffineNielsPoint>, scalar: seq<Byte>) returns (r: EdwardsPoint)
    requires IsPointTable(table) && |scalar| == FIELD_BYTES && LE(scalar) < 8 * TOP_BIT
    ensures PointIs(r, LE(scalar), Base())
  {
    hide Val, PointIs, EntryIs, IsPointTable;
    var digits := SignedRadix16(scalar);
    TopByte(scalar);
    IdentityIsNothing(Base());
    Pow2Small();
    ghost var odd := HalfSum(digits, 1, 38);
    var accumulated := AccumulateDigits(table, digits, 1, IDENTITY_POINT, 0);
    var shifted := DoublePoints(accumulated, odd, 4);
    r := AccumulateDigits(table, digits, 0, shifted, odd * 16);
    HalvesJoin(digits, 38);
  }

  // ---- The public key ----

  /** A form of a multiple of the base passes validation, and its artifact is that point's coordinate. */
  lemma ArtifactOfForm(e: Extended, a: CurvePoint)
    requires Projective(e, a)
    ensures !Cong(e.z, 0) && ProjectiveEquation(e) && OutputOf(Line(e)) == OutputOf(U(a))
  {
    hide Residue, OnQuadrics, IsUnit, OutputOf, ProjectiveEquation, Represents, U, Line;
    UnitNotZero(e.z);
    ValidityIsMembership(e);
    RepresentedLine(e, a);
    OutputIgnoresScale(Line(e), U(a));
  }

  /** Any 38-byte encoding of the base coordinate. */
  ghost predicate EncodesBase(encoded: seq<Byte>) {
    |encoded| == FIELD_BYTES && DecodeInteger(LE(encoded)) == BASE_U
  }

  /**
   * Clamp, multiply the base point through the table, and encode the coordinate: the public key of the curve,
   * which is also what the ladder gives on any encoding of the base coordinate.
   */
  method PublicFromSecret(table: seq<AffineNielsPoint>, secret: seq<Byte>) returns (r: Result<seq<Byte>, X301Error>)
    requires IsPointTable(table)
    ensures |secret| != FIELD_BYTES ==> r == Err(InvalidSecretLength)
    ensures CurveFacts() ==> r == PublicKeyOf(secret)
    ensures CurveFacts() ==> forall encoded: seq<Byte> :: EncodesBase(encoded) ==> r == ReferenceX301(secret, encoded)
  {
    hide Val, CurveFacts, Projective, OutputOf, ReferenceX301, IsPointTable, Multiple, U, ProjectiveEquation, Residue,
      ToLE, LE;
    forall encoded: seq<Byte> | CurveFacts() && EncodesBase(encoded)
      ensures ReferenceX301(secret, encoded) == PublicKeyOf(secret)
    {
      LadderOnBase(secret, encoded);
    }
    if |secret| != FIELD_BYTES {
      return Err(InvalidSecretLength);
    }
    var clamped := ClampScalar(secret);
    var point := ScalarMulBasePoint(table, clamped);
    r := MontgomeryUPublicArtifact(point);
    if CurveFacts() {
      ArtifactOfForm(point.Coordinates(), Multiple(LE(clamped), Base()));
      FactsOfCurve();
    }
  }

  lemma FactsOfCurve()
    requires CurveFacts()
    ensures PrimeField()
  {
  }

  lemma LadderOnBase(secret: seq<Byte>, encoded: seq<Byte>)
    requires CurveFacts() && EncodesBase(encoded)
    ensures ReferenceX301(secret, encoded) == PublicKeyOf(secret)
  {
    hide CurveFacts, ReferenceX301, PublicKeyOf, LE, DecodeInteger;
    PublicKeysAgree(secret, encoded);
  }
}
