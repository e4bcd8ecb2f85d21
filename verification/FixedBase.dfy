// Fixed-base scalar multiplication over the 38 x 8 table, in any abelian group.
module FixedBase {
  import opened Arithmetic
  import opened Words
  import opened Bytes
  import opened Groups
  import opened Scalars
  import opened Recoding
  import opened LadderSpec

  const BASEPOINT_TABLE_ROWS: nat := 38
  const BASEPOINT_TABLE_WIDTH: nat := 8

  /** Row `r`, entry `e` of the table: `[(e + 1) * 256^r]B`. */
  ghost predicate TableEntry<T>(g: Group<T>, base: T, table: seq<T>, k: nat)
    requires k < |table|
  {
    table[k] == Mul(g, (k % 8 + 1) * Pow256(k / 8), base)
  }

  ghost predicate IsBaseTable<T>(g: Group<T>, base: T, table: seq<T>) {
    |table| == 304 && forall k :: 0 <= k < 304 ==> TableEntry(g, base, table, k)
  }

  /** Eight doublings of `[n]B`. */
  method DoubleEightTimes<T(!new)>(g: Group<T>, start: T, ghost n: int, ghost base: T) returns (r: T)
    requires IsAbelianGroup(g) && start == Mul(g, n, base)
    ensures r == Mul(g, n * 256, base)
  {
    hide IsAbelianGroup;
    r := start;
    ghost var scale := 1;
    var doubling := 0;
    while doubling < 8
      invariant 0 <= doubling <= 8
      invariant scale == Pow2(doubling) && r == Mul(g, n * scale, base)
    {
      MulDouble(g, n * scale, base);
      assert 2 * (n * scale) == n * (2 * scale);
      r := g.Double(r);
      scale := 2 * scale;
      doubling := doubling + 1;
    }
    Pow2Small();
  }

  lemma NextEntry(e: nat, w: nat)
    ensures e * w + w == (e + 1) * w
  {
  }

  /** One table row: the multiples 1..8 of the row base. */
  method BuildRow<T(!new)>(g: Group<T>, table: array<T>, row: nat, rowBase: T, ghost base: T)
    requires IsAbelianGroup(g) && table.Length == 304 && row < 38
    requires rowBase == Mul(g, Pow256(row), base)
    requires forall k :: 0 <= k < 8 * row ==> TableEntry(g, base, table[..], k)
    modifies table
    ensures forall k :: 0 <= k < 8 * (row + 1) ==> TableEntry(g, base, table[..], k)
  {
    hide IsAbelianGroup, Mul;
    ghost var initial := table[..];
    table[row * 8] := rowBase;
    assert (8 * row) % 8 == 0 && (8 * row) / 8 == row;
    forall k | 0 <= k < 8 * row + 1
      ensures TableEntry(g, base, table[..], k)
    {
      if k < 8 * row {
        assert TableEntry(g, base, initial, k);
      }
    }
    var entry := 1;
    while entry < BASEPOINT_TABLE_WIDTH
      invariant 1 <= entry <= 8
      invariant forall k :: 0 <= k < 8 * row + entry ==> TableEntry(g, base, table[..], k)
    {
      assert (8 * row + entry - 1) % 8 == entry - 1 && (8 * row + entry - 1) / 8 == row;
      assert (8 * row + entry) % 8 == entry && (8 * row + entry) / 8 == row;
      assert TableEntry(g, base, table[..], 8 * row + entry - 1);
      MulAdd(g, entry * Pow256(row), Pow256(row), base);
      NextEntry(entry, Pow256(row));
      ghost var before := table[..];
      table[row * 8 + entry] := g.add(table[row * 8 + entry - 1], rowBase);
      forall k | 0 <= k < 8 * row + entry + 1
        ensures TableEntry(g, base, table[..], k)
      {
        if k < 8 * row + entry {
          assert TableEntry(g, base, before, k);
        }
      }
      entry := entry + 1;
    }
  }

  method BuildBasepointTable<T(!new)>(g: Group<T>, base: T) returns (table: seq<T>)
    requires IsAbelianGroup(g)
    ensures IsBaseTable(g, base, table)
  {
    hide IsAbelianGroup, Mul, TableEntry;
    var projective := new T[304](_ => g.zero);
    var rowBase := base;
    MulOne(g, base);
    var row := 0;
    while row < BASEPOINT_TABLE_ROWS
      invariant 0 <= row <= 38
      invariant rowBase == Mul(g, Pow256(row), base)
      invariant forall k :: 0 <= k < 8 * row ==> TableEntry(g, base, projective[..], k)
    {
      BuildRow(g, projective, row, rowBase, base);
      rowBase := DoubleEightTimes(g, rowBase, Pow256(row), base);
      row := row + 1;
    }
    table := projective[..];
  }

  /** Scan all eight entries of a row for the magnitude, then apply the sign. */
  method SelectBasepoint<T(!new)>(g: Group<T>, ghost base: T, table: seq<T>, row: nat, digit: int) returns (r: T)
    requires IsAbelianGroup(g) && IsBaseTable(g, base, table)
    requires row < BASEPOINT_TABLE_ROWS && -8 <= digit <= 8
    ensures r == Mul(g, digit * Pow256(row), base)
  {
    hide IsAbelianGroup, Mul, IsBaseTable;
    var magnitude := if digit < 0 then -digit else digit;
    var selected := g.zero;
    var entry := 0;
    MulNothing(g, base);
    TableSize(g, base, table);
    while entry < BASEPOINT_TABLE_WIDTH
      invariant 0 <= entry <= 8
      invariant selected == Mul(g, if magnitude <= entry then magnitude * Pow256(row) else 0, base)
    {
      if magnitude == entry + 1 {
        RowEntry(g, base, table, row, entry);
        selected := table[row * 8 + entry];
      }
      entry := entry + 1;
    }
    if digit < 0 {
      MulNeg(g, magnitude * Pow256(row), base);
      assert digit * Pow256(row) == -(magnitude * Pow256(row));
      selected := g.neg(selected);
    }
    r := selected;
  }

  lemma TableSize<T>(g: Group<T>, base: T, table: seq<T>)
    requires IsBaseTable(g, base, table)
    ensures |table| == 304
  {
  }

  lemma RowEntry<T>(g: Group<T>, base: T, table: seq<T>, row: nat, entry: nat)
    requires IsBaseTable(g, base, table) && row < 38 && entry < 8
    ensures |table| == 304 && table[row * 8 + entry] == Mul(g, (entry + 1) * Pow256(row), base)
  {
    var k := row * 8 + entry;
    assert k % 8 == entry && k / 8 == row;
    assert TableEntry(g, base, table, k);
  }

  // ---- Odd and even digit sums ----

  /** Sum of the digits `offset, offset + 2, ...`, `n` of them, at weights 256^j. */
  ghost function HalfSum(d: seq<int>, offset: nat, n: nat): int
    requires n > 0 ==> offset + 2 * (n - 1) < |d|
  {
    if n == 0 then 0 else HalfSum(d, offset, n - 1) + d[offset + 2 * (n - 1)] * Pow256(n - 1)
  }

  lemma HalfStart(d: seq<int>, offset: nat)
    ensures HalfSum(d, offset, 0) == 0
  {
  }

  lemma HalfNext(d: seq<int>, offset: nat, j: nat)
    requires offset + 2 * j < |d|
    ensures HalfSum(d, offset, j + 1) == HalfSum(d, offset, j) + d[offset + 2 * j] * Pow256(j)
  {
  }

  lemma {:induction false} HalvesJoin(d: seq<int>, n: nat)
    requires 2 * n <= |d|
    ensures Head16(d, 2 * n) == HalfSum(d, 0, n) + 16 * HalfSum(d, 1, n)
  {
    if n != 0 {
      HalvesJoin(d, n - 1);
      Pow16Pairs(n - 1);
      TwoDigits(d, 2 * (n - 1), Pow256(n - 1));
      Factor16(d[2 * n - 1], Pow256(n - 1));
    }
  }

  lemma Factor16(x: int, p: int)
    ensures x * (16 * p) == 16 * (x * p)
  {
  }

  /** Accumulate the selected table entries of every second digit. */
  method AccumulateHalf<T(!new)>(g: Group<T>, ghost base: T, table: seq<T>, digits: seq<int>, offset: nat,
                                 start: T, ghost n: int) returns (r: T)
    requires IsAbelianGroup(g) && IsBaseTable(g, base, table)
    requires |digits| == RADIX16_DIGITS && offset < 2 && start == Mul(g, n, base)
    requires forall k :: 0 <= k < |digits| ==> -8 <= digits[k] <= 8
    ensures r == Mul(g, n + HalfSum(digits, offset, 38), base)
  {
    hide IsAbelianGroup, Mul, IsBaseTable, HalfSum, Pow256;
    HalfStart(digits, offset);
    r := start;
    var digitIndex := offset;
    while digitIndex < RADIX16_DIGITS
      invariant offset <= digitIndex <= RADIX16_DIGITS + offset && digitIndex % 2 == offset
      invariant r == Mul(g, n + HalfSum(digits, offset, digitIndex / 2), base)
    {
      ghost var j := digitIndex / 2;
      assert digitIndex == offset + 2 * j;
      var addend := SelectBasepoint(g, base, table, digitIndex / 2, digits[digitIndex]);
      MulAdd(g, n + HalfSum(digits, offset, j), digits[digitIndex] * Pow256(j), base);
      r := g.add(r, addend);
      HalfNext(digits, offset, j);
      digitIndex := digitIndex + 2;
    }
  }

  /** Odd digits, four doublings, even digits: `[k]B` for every encoded k below 2^303. */
  method ScalarMulBaseEncoded<T(!new)>(g: Group<T>, ghost base: T, table: seq<T>, scalar: seq<Byte>) returns (r: T)
    requires IsAbelianGroup(g) && IsBaseTable(g, base, table)
    requires |scalar| == FIELD_BYTES && LE(scalar) < 8 * TOP_BIT
    ensures r == Mul(g, LE(scalar), base)
  {
    hide IsAbelianGroup, Mul, IsBaseTable;
    var digits := SignedRadix16(scalar);
    TopByte(scalar);
    MulNothing(g, base);
    var odd := AccumulateHalf(g, base, table, digits, 1, g.zero, 0);
    ghost var s := HalfSum(digits, 1, 38);
    MulDouble(g, s, base);
    MulDouble(g, 2 * s, base);
    MulDouble(g, 4 * s, base);
    MulDouble(g, 8 * s, base);
    var shifted := g.Double(g.Double(g.Double(g.Double(odd))));
    r := AccumulateHalf(g, base, table, digits, 0, shifted, 16 * s);
    HalvesJoin(digits, 38);
  }

  lemma TopByte(scalar: seq<Byte>)
    requires |scalar| == FIELD_BYTES && LE(scalar) < 8 * TOP_BIT
    ensures scalar[37] < 0x80
  {
    LastByte(scalar, 0, 37);
    Pow256Literals();
  }

  // ---- The public point is never the identity ----

  /** `x` has order exactly `n`. */
  ghost predicate HasOrder<T>(g: Group<T>, x: T, n: nat) {
    n > 0 && Mul(g, n, x) == g.zero && forall k: int :: 0 < k < n ==> Mul(g, k, x) != g.zero
  }

  /** A point of order L is killed by n exactly when L divides n. */
  lemma OrderDivides<T(!new)>(g: Group<T>, x: T, n: int)
    requires IsAbelianGroup(g) && HasOrder(g, x, L) && Mul(g, n, x) == g.zero
    ensures n % L == 0
  {
    hide IsAbelianGroup, Mul, HasOrder;
    OrderMinimal(g, x);
    MulModOrder(g, n, L, x);
  }

  lemma OrderMinimal<T>(g: Group<T>, x: T)
    requires HasOrder(g, x, L)
    ensures Mul(g, L, x) == g.zero && forall k: int :: 0 < k < L ==> Mul(g, k, x) != g.zero
  {
  }

  lemma BetweenMultiples(q: nat, k: int, l: int)
    requires k == l * q && l < k < 4 * l
    ensures q == 2 || q == 3
  {
    if q <= 1 {
      MulMonotone(q, 1, l);
      assert false;
    } else if q >= 4 {
      MulMonotone(4, q, l);
      assert false;
    }
  }

  /** The only multiples of L in [2^300, 2^301) are 2L and 3L, and neither is divisible by four. */
  lemma ClampedNotMultiple(k: nat)
    requires Clamped(k)
    ensures k % L != 0
  {
    var q := k / L;
    if k == L * q {
      BetweenMultiples(q, k, L);
      assert false;
    }
  }

  /** A clamped multiple of a point of order L is never the identity. */
  lemma ClampedMultipleNotIdentity<T(!new)>(g: Group<T>, k: nat, base: T)
    requires IsAbelianGroup(g) && HasOrder(g, base, L) && Clamped(k)
    ensures Mul(g, k, base) != g.zero
  {
    hide IsAbelianGroup;
    MulModOrder(g, k, L, base);
    ClampedNotMultiple(k);
    assert 0 < k % L < L;
  }
}
