// Public scalar multiplication: odd-multiple tables, Straus interleaving and the 301-round ladder.
module Straus {
  import opened Arithmetic
  import opened Words
  import opened Bytes
  import opened LadderSpec
  import opened Scalars
  import opened Groups
  import opened Recoding

  const ODD_MULTIPLES: nat := 64

  /** Entry `j` is `[2j + 1]P`. */
  ghost predicate IsOddTable<T>(g: Group<T>, point: T, table: seq<T>) {
    |table| == ODD_MULTIPLES && forall j :: 0 <= j < |table| ==> OddEntry(g, point, table, j)
  }

  ghost predicate OddEntry<T>(g: Group<T>, point: T, table: seq<T>, j: nat)
    requires j < |table|
  {
    table[j] == Mul(g, 2 * j + 1, point)
  }

  method BuildOddTable<T(!new)>(g: Group<T>, point: T) returns (table: seq<T>)
    requires IsAbelianGroup(g)
    ensures IsOddTable(g, point, table)
  {
    hide IsAbelianGroup, Mul;
    var step := g.Double(point);
    MulOne(g, point);
    var projective := new T[ODD_MULTIPLES](_ => g.zero);
    projective[0] := point;
    var index := 1;
    while index < ODD_MULTIPLES
      invariant 1 <= index <= ODD_MULTIPLES
      invariant forall j :: 0 <= j < index ==> OddEntry(g, point, projective[..], j)
    {
      ghost var before := projective[..];
      assert OddEntry(g, point, before, index - 1);
      MulAdd(g, 2 * (index - 1) + 1, 2, point);
      projective[index] := g.add(projective[index - 1], step);
      forall j | 0 <= j < index + 1
        ensures OddEntry(g, point, projective[..], j)
      {
        if j < index {
          assert OddEntry(g, point, before, j);
        }
      }
      index := index + 1;
    }
    table := projective[..];
  }

  function Magnitude(digit: int): nat {
    if digit < 0 then -digit else digit
  }

  /** Zero, or odd with an entry in the table. */
  predicate TableDigit(digit: int) {
    digit == 0 || (digit % 2 == 1 && Magnitude(digit) < 2 * ODD_MULTIPLES)
  }

  /** Add `[digit]P`, or subtract it when `negateScalar` is set. */
  method VartimeAddSigned<T(!new)>(g: Group<T>, accumulator: T, digit: int, table: seq<T>, negateScalar: bool,
                                   ghost point: T) returns (r: T)
    requires IsAbelianGroup(g) && IsOddTable(g, point, table) && TableDigit(digit)
    ensures r == g.add(accumulator, Mul(g, if negateScalar then -digit else digit, point))
  {
    hide IsAbelianGroup, Mul;
    if digit == 0 {
      AddNothing(g, accumulator, point);
      return accumulator;
    }
    var magnitude := Magnitude(digit);
    var addend := table[magnitude / 2];
    assert OddEntry(g, point, table, magnitude / 2) && 2 * (magnitude / 2) + 1 == magnitude;
    if (digit < 0) != negateScalar {
      MulNeg(g, magnitude, point);
      addend := g.neg(addend);
    }
    r := g.add(accumulator, addend);
  }

  lemma AddNothing<T(!new)>(g: Group<T>, x: T, point: T)
    requires IsAbelianGroup(g)
    ensures g.add(x, Mul(g, 0, point)) == x
  {
    hide IsAbelianGroup;
    Identity(g, x);
  }

  // ---- Combinations [x]B + [y]P ----

  ghost function Combination<T>(g: Group<T>, x: int, base: T, y: int, point: T): T {
    g.add(Mul(g, x, base), Mul(g, y, point))
  }

  /** One Straus round: double, then add a multiple of each point. */
  lemma CombinationRound<T(!new)>(g: Group<T>, x: int, base: T, y: int, point: T, s: int, t: int)
    requires IsAbelianGroup(g)
    ensures g.add(g.add(g.Double(Combination(g, x, base, y, point)), Mul(g, s, base)), Mul(g, t, point))
         == Combination(g, 2 * x + s, base, 2 * y + t, point)
  {
    hide IsAbelianGroup, Mul;
    var X, Y := Mul(g, x, base), Mul(g, y, point);
    var X2, Y2 := Mul(g, 2 * x, base), Mul(g, 2 * y, point);
    var S, U := Mul(g, s, base), Mul(g, t, point);
    ExchangeTerms(g, X, Y, X, Y);
    MulDouble(g, x, base);
    MulDouble(g, y, point);
    Associative(g, g.add(X2, Y2), S, U);
    ExchangeTerms(g, X2, Y2, S, U);
    MulAdd(g, 2 * x, s, base);
    MulAdd(g, 2 * y, t, point);
  }

  lemma {:induction false} ZeroTail(d: seq<int>, i: nat)
    requires i <= |d| && forall k :: i <= k < |d| ==> d[k] == 0
    ensures Tail(d, i) == 0
    decreases |d| - i
  {
    if i < |d| {
      ZeroTail(d, i + 1);
    }
  }

  /** The digits of a width-8 form index the odd table. */
  lemma NafTableDigit(d: seq<int>, i: nat)
    requires NonAdjacent(d, 8) && i < |d|
    ensures TableDigit(d[i])
  {
    if d[i] != 0 {
      assert NafDigit(d, i, 8);
      Pow2Small();
    }
  }

  lemma CombinationStart<T(!new)>(g: Group<T>, base: T, point: T)
    requires IsAbelianGroup(g)
    ensures g.zero == Combination(g, 0, base, 0, point)
  {
    hide IsAbelianGroup;
    Identity(g, g.zero);
  }

  /** `[s]B - [k]P`, skipping the positions where both recodings are zero. */
  method VartimeDoubleScalarMulBasepoint<T(!new)>(g: Group<T>, baseScalar: nat, pointScalar: nat,
                                                  baseTable: seq<T>, pointTable: seq<T>,
                                                  ghost base: T, ghost point: T) returns (result: T)
    requires IsAbelianGroup(g) && baseScalar < L && pointScalar < L
    requires IsOddTable(g, base, baseTable) && IsOddTable(g, point, pointTable)
    ensures result == g.Sub(Mul(g, baseScalar, base), Mul(g, pointScalar, point))
  {
    hide IsAbelianGroup, Mul, IsOddTable, NonAdjacent, TableDigit, Combination;
    var baseDigits := VartimeWnaf(baseScalar, 8);
    var pointDigits := VartimeWnaf(pointScalar, 8);
    var top := FIELD_BITS;
    while top != 0 && baseDigits[top] == 0 && pointDigits[top] == 0
      invariant 0 <= top <= FIELD_BITS
      invariant forall k :: top < k <= FIELD_BITS ==> baseDigits[k] == 0 && pointDigits[k] == 0
    {
      top := top - 1;
    }
    ZeroTail(baseDigits, top + 1);
    ZeroTail(pointDigits, top + 1);
    CombinationStart(g, base, point);
    result := g.zero;
    while true
      invariant 0 <= top <= FIELD_BITS
      invariant result == Combination(g, Tail(baseDigits, top + 1), base, -Tail(pointDigits, top + 1), point)
      decreases top
    {
      NafTableDigit(baseDigits, top);
      NafTableDigit(pointDigits, top);
      ghost var x, y := Tail(baseDigits, top + 1), Tail(pointDigits, top + 1);
      CombinationRound(g, x, base, -y, point, baseDigits[top], -pointDigits[top]);
      result := g.Double(result);
      result := VartimeAddSigned(g, result, baseDigits[top], baseTable, false, base);
      result := VartimeAddSigned(g, result, pointDigits[top], pointTable, true, point);
      if top == 0 {
        break;
      }
      top := top - 1;
    }
    CombinationIsDifference(g, baseScalar, base, pointScalar, point);
  }

  lemma CombinationIsDifference<T(!new)>(g: Group<T>, x: int, base: T, y: int, point: T)
    requires IsAbelianGroup(g)
    ensures Combination(g, x, base, -y, point) == g.Sub(Mul(g, x, base), Mul(g, y, point))
  {
    hide IsAbelianGroup, Mul;
    MulNeg(g, y, point);
  }

  // ---- The 301-round double-and-add-always ladder ----

  /** Bits `i` to 300 of `k`, as an integer. */
  ghost function High(k: nat, i: nat): nat
    requires i <= 301
  {
    k / Pow2(i) % Pow2(301 - i)
  }

  lemma HighStep(k: nat, i: nat)
    requires i < 301
    ensures High(k, i) == 2 * High(k, i + 1) + (if Bit(k, i) then 1 else 0)
  {
    DivDiv(k, Pow2(i), 2);
    assert Pow2(i + 1) == Pow2(i) * 2;
    DoubleAndBit(k / Pow2(i), Pow2(301 - (i + 1)));
    assert Pow2(301 - i) == 2 * Pow2(301 - (i + 1));
  }

  lemma DoubleAndBit(n: nat, m: nat)
    requires m > 0
    ensures n % (2 * m) == 2 * (n / 2 % m) + n % 2
  {
    var h, b := n / 2, n % 2;
    var q, r := h / m, h % m;
    assert n == (2 * m) * q + (2 * r + b);
    QuotientUnique(n, 2 * m, q, 2 * r + b);
  }

  /** Double and add in every round, keeping the sum only when the bit is set. */
  method ScalarMulEncoded<T(!new)>(g: Group<T>, point: T, scalar: seq<Byte>) returns (r: T)
    requires IsAbelianGroup(g) && |scalar| == FIELD_BYTES
    ensures r == Mul(g, LE(scalar) % (2 * TOP_BIT), point)
  {
    hide IsAbelianGroup, Mul, High, Bit;
    ghost var k := LE(scalar);
    var accumulator := g.zero;
    var bitIndex := 301;
    HighEnds(k);
    MulNothing(g, point);
    while bitIndex != 0
      invariant 0 <= bitIndex <= 301
      invariant accumulator == Mul(g, High(k, bitIndex), point)
    {
      bitIndex := bitIndex - 1;
      HighStep(k, bitIndex);
      BitOfBytes(scalar, bitIndex);
      MulDouble(g, High(k, bitIndex + 1), point);
      MulSuccessor(g, 2 * High(k, bitIndex + 1), point);
      var doubled := g.Double(accumulator);
      var added := g.add(doubled, point);
      accumulator := if Bit(scalar[bitIndex / 8], bitIndex % 8) then added else doubled;
    }
    r := accumulator;
  }

  lemma HighEnds(k: nat)
    ensures High(k, 301) == 0 && High(k, 0) == k % (2 * TOP_BIT)
  {
    TopPower();
    assert Pow2(301) == 2 * Pow2(300);
  }

}
