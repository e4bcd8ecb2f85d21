// Carry-chain arithmetic on limb vectors: addition, subtraction, the schoolbook product and the dedicated square.
module LimbArithmetic {
  import opened Arithmetic
  import opened Words

  const LIMBS: nat := 5

  /** Five little-endian words. */
  type Limbs = s: seq<Word> | |s| == LIMBS witness [0, 0, 0, 0, 0]

  /** Appending the limb `x` at position `n` of a prefix that agrees with `s`. */
  lemma ValStep(s: seq<Word>, t: seq<Word>, n: nat)
    requires n < |s| && n < |t| && s[..n] == t[..n]
    ensures Val(t, n + 1) == Val(s, n) + t[n] * Pow64(n)
  {
    ValExtensional(s, t, n);
  }

  /** Splitting an accumulator into its low word and its carry, at weight `p`. */
  lemma SplitAccumulator(acc: int, low: int, carry: int, p: int)
    requires acc == low + carry * RADIX
    ensures acc * p == low * p + carry * (RADIX * p)
  {
  }

  lemma Distribute3(x: int, y: int, c: int, p: int)
    ensures (x + y + c) * p == x * p + y * p + c * p
  {
  }

  method AddLimbs(left: Limbs, right: Limbs) returns (sum: Limbs, carry: Word)
    ensures carry <= 1
    ensures Value(sum) + carry * Pow64(LIMBS) == Value(left) + Value(right)
  {
    var output := new Word[LIMBS](_ => 0);
    carry := 0;
    var index := 0;
    while index < LIMBS
      invariant 0 <= index <= LIMBS && carry <= 1
      invariant Val(output[..], index) + carry * Pow64(index) == Val(left, index) + Val(right, index)
    {
      ghost var before := output[..];
      ghost var carryIn := carry;
      var accumulator: int := left[index] + right[index] + carry;
      output[index] := accumulator % RADIX;
      carry := accumulator / RADIX;
      ValStep(before, output[..], index);
      Distribute3(left[index], right[index], carryIn, Pow64(index));
      SplitAccumulator(accumulator, output[index], carry, Pow64(index));
      index := index + 1;
    }
    sum := output[..];
  }

  lemma SplitDifference(x: int, y: int, b: int, low: int, borrow: int, p: int)
    requires x - y - b == low - borrow * RADIX
    ensures low * p - borrow * (RADIX * p) == x * p - y * p - b * p
  {
    assert (x - y - b) * p == x * p - y * p - b * p;
    assert (low - borrow * RADIX) * p == low * p - borrow * (RADIX * p);
  }

  /** One word of a borrowing subtraction. */
  function SubWithBorrow(left: Word, right: Word, borrow: Word): (r: (Word, Word))
    requires borrow <= 1
    ensures r.1 <= 1 && left - right - borrow == r.0 - r.1 * RADIX
  {
    ((left - right - borrow) % RADIX, if left < right + borrow then 1 else 0)
  }

  method SubtractLimbs(left: Limbs, right: Limbs) returns (difference: Limbs, borrow: Word)
    ensures borrow <= 1
    ensures Value(difference) - borrow * Pow64(LIMBS) == Value(left) - Value(right)
    ensures borrow == 1 <==> Value(left) < Value(right)
  {
    var output := new Word[LIMBS](_ => 0);
    borrow := 0;
    var index := 0;
    while index < LIMBS
      invariant 0 <= index <= LIMBS && borrow <= 1
      invariant Val(output[..], index) - borrow * Pow64(index) == Val(left, index) - Val(right, index)
    {
      ghost var before := output[..];
      ghost var borrowIn := borrow;
      var (word, nextBorrow) := SubWithBorrow(left[index], right[index], borrow);
      output[index] := word;
      borrow := nextBorrow;
      ValStep(before, output[..], index);
      SplitDifference(left[index], right[index], borrowIn, word, borrow, Pow64(index));
      index := index + 1;
    }
    difference := output[..];
    ValBound(difference, LIMBS);
  }

  /** The inner step of a product row: `l*r` is added at weight `pi*pj`. */
  lemma ProductStep(l: int, r: int, o: int, c: int, low: int, carry: int, pi: int, pj: int)
    requires l * r + o + c == low + carry * RADIX
    ensures low * (pi * pj) + carry * (RADIX * (pi * pj)) == (l * pi) * (r * pj) + o * (pi * pj) + c * (pi * pj)
  {
    var p := pi * pj;
    SplitAccumulator(l * r + o + c, low, carry, p);
    Distribute3(l * r, o, c, p);
    assert (l * pi) * (r * pj) == (l * r) * p;
  }

  /** `x` times the limbs `from..j` of `right` added at limb `i`: the total, the carry out, and the untouched tail. */
  ghost predicate RowInvariant(out: seq<Word>, row: seq<Word>, x: Word, right: seq<Word>, i: nat, from: nat, j: nat,
                               carry: Word)
  {
    && from <= j <= |right| && i + j <= |out| == |row|
    && out[i + j..] == row[i + j..]
    && Val(out, i + j) + carry * Pow64(i + j)
       == Val(row, i + j) + (x * Pow64(i)) * (Val(right, j) - Val(right, from))
  }

  lemma RowStep(out: seq<Word>, next: seq<Word>, row: seq<Word>, x: Word, right: seq<Word>, i: nat, from: nat, j: nat,
                carry: Word, carryOut: Word)
    requires RowInvariant(out, row, x, right, i, from, j, carry) && j < |right| && i + j < |out|
    requires |next| == |out| && next == out[i + j := next[i + j]]
    requires x * right[j] + out[i + j] + carry == next[i + j] + carryOut * RADIX
    ensures RowInvariant(next, row, x, right, i, from, j + 1, carryOut)
  {
    assert out[i + j] == out[i + j..][0] == row[i + j..][0] == row[i + j];
    assert next[i + j + 1..] == out[i + j..][1..] == row[i + j + 1..];
    ValStep(out, next, i + j);
    Pow64Add(i, j);
    ProductStep(x, right[j], out[i + j], carry, next[i + j], carryOut, Pow64(i), Pow64(j));
    Distribute(x * Pow64(i), Val(right, j) - Val(right, from), right[j] * Pow64(j));
  }

  lemma RowEnd(out: seq<Word>, next: seq<Word>, row: seq<Word>, x: Word, right: seq<Word>, i: nat, from: nat,
               carry: Word)
    requires |right| == LIMBS && i + LIMBS < |out|
    requires RowInvariant(out, row, x, right, i, from, LIMBS, carry)
    requires next == out[i + LIMBS := carry]
    ensures Val(next, i + 1 + LIMBS) == Val(row, i + LIMBS) + (x * Pow64(i)) * (Value(right) - Val(right, from))
    ensures next[i + 1 + LIMBS..] == row[i + 1 + LIMBS..]
  {
    ValStep(out, next, i + LIMBS);
    assert next[i + 1 + LIMBS..] == out[i + LIMBS..][1..] == row[i + LIMBS..][1..] == row[i + 1 + LIMBS..];
  }

  /** One multiply-accumulate: no 128-bit overflow, low word kept, high word carried. */
  method MultiplyAccumulate(x: Word, y: Word, addend: Word, carryIn: Word) returns (low: Word, carry: Word)
    ensures x * y + addend + carryIn == low + carry * RADIX
  {
    WordProductBound(x, y);
    var accumulator: int := x * y + addend + carryIn;
    low := accumulator % RADIX;
    carry := accumulator / RADIX;
  }

  /** Add `x` times the limbs `from..` of `right` into `output`, starting at limb `i + from`; the carry is left over. */
  method AddScaledLimbs(output: array<Word>, x: Word, right: seq<Word>, i: nat, from: nat) returns (carry: Word)
    requires from <= |right| && i + |right| <= output.Length
    modifies output
    ensures RowInvariant(output[..], old(output[..]), x, right, i, from, |right|, carry)
  {
    ghost var row := output[..];
    carry := 0;
    var j := from;
    while j < |right|
      invariant from <= j <= |right|
      invariant RowInvariant(output[..], row, x, right, i, from, j, carry)
    {
      ghost var before, carryIn := output[..], carry;
      var low, next := MultiplyAccumulate(x, right[j], output[i + j], carry);
      output[i + j] := low;
      carry := next;
      RowStep(before, output[..], row, x, right, i, from, j, carryIn, carry);
      j := j + 1;
    }
  }

  /** Row `i` of a product: add `x` times the limbs `from..` of `right` and store the carry above the row. */
  method AccumulateRow(output: array<Word>, x: Word, right: Limbs, i: nat, from: nat)
    requires i + LIMBS < output.Length && from <= LIMBS
    modifies output
    ensures Val(output[..], i + 1 + LIMBS)
         == old(Val(output[..], i + LIMBS)) + (x * Pow64(i)) * (Value(right) - Val(right, from))
    ensures output[i + 1 + LIMBS..] == old(output[i + 1 + LIMBS..])
  {
    ghost var row := output[..];
    var carry := AddScaledLimbs(output, x, right, i, from);
    ghost var before := output[..];
    output[i + LIMBS] := carry;
    RowEnd(before, output[..], row, x, right, i, from, carry);
  }

  method MultiplyWide(left: Limbs, right: Limbs) returns (product: seq<Word>)
    ensures |product| == 2 * LIMBS
    ensures Value(product) == Value(left) * Value(right)
  {
    var output := new Word[2 * LIMBS](_ => 0);
    ValZeros(output[..], 0, LIMBS);
    var i := 0;
    while i < LIMBS
      invariant 0 <= i <= LIMBS
      invariant Val(output[..], i + LIMBS) == Val(left, i) * Value(right)
    {
      AccumulateRow(output, left[i], right, i, 0);
      Distribute(Value(right), Val(left, i), left[i] * Pow64(i));
      i := i + 1;
    }
    product := output[..];
  }

  // ---- Dedicated square: cross products, doubling, diagonals ----

  /** Sum of the products of distinct limbs whose smaller index is below `n`. */
  ghost function CrossSum(v: seq<Word>, n: nat): int
    requires n <= |v|
  {
    if n == 0 then 0
    else CrossSum(v, n - 1) + (v[n - 1] * Pow64(n - 1)) * (Value(v) - Val(v, n))
  }

  /** Sum of the squares of the limbs below `n`. */
  ghost function Diagonal(v: seq<Word>, n: nat): int
    requires n <= |v|
  {
    if n == 0 then 0
    else Diagonal(v, n - 1) + (v[n - 1] * Pow64(n - 1)) * (v[n - 1] * Pow64(n - 1))
  }

  lemma SquareExpansion(s: int, x: int, v: int, c: int, d: int)
    requires 2 * c + d == s * s + 2 * (s * (v - s))
    ensures 2 * (c + x * (v - (s + x))) + (d + x * x) == (s + x) * (s + x) + 2 * ((s + x) * (v - (s + x)))
  {
    assert (s + x) * (s + x) == s * s + 2 * (s * x) + x * x;
    assert x * (v - (s + x)) == x * v - x * s - x * x;
    assert s * (v - s) == s * v - s * s;
    assert (s + x) * (v - (s + x)) == s * v - s * s - s * x + x * v - x * s - x * x;
  }

  /** Twice the cross products plus the diagonals is the square. */
  lemma {:induction false} SquareFromParts(v: seq<Word>, n: nat)
    requires n <= |v|
    ensures 2 * CrossSum(v, n) + Diagonal(v, n) == Val(v, n) * Val(v, n) + 2 * (Val(v, n) * (Value(v) - Val(v, n)))
    ensures Diagonal(v, n) >= 0
  {
    if n != 0 {
      SquareFromParts(v, n - 1);
      SquareExpansion(Val(v, n - 1), v[n - 1] * Pow64(n - 1), Value(v), CrossSum(v, n - 1), Diagonal(v, n - 1));
    }
  }

  lemma SquareBound(v: Limbs)
    ensures Value(v) * Value(v) == 2 * CrossSum(v, LIMBS) + Diagonal(v, LIMBS) < Pow64(2 * LIMBS)
    ensures Diagonal(v, LIMBS) >= 0
  {
    SquareFromParts(v, LIMBS);
    ValBound(v, LIMBS);
    StrictSquare(Value(v), Pow64(LIMBS));
    Pow64Add(LIMBS, LIMBS);
  }

  lemma StrictSquare(x: nat, y: nat)
    requires x < y
    ensures x * x < y * y
  {
    MulBound(x, y - 1, x, y - 1);
    assert (y - 1) * (y - 1) == y * y - y - y + 1;
  }

  /** Row `i` of the cross products: limb `i` against the limbs above it. */
  method CrossRow(output: array<Word>, value: Limbs, i: nat)
    requires output.Length == 2 * LIMBS && i < LIMBS - 1
    requires Val(output[..], i + LIMBS) == CrossSum(value, i)
    requires forall k :: i + LIMBS <= k < 2 * LIMBS ==> output[..][k] == 0
    modifies output
    ensures Val(output[..], i + 1 + LIMBS) == CrossSum(value, i + 1)
    ensures forall k :: i + 1 + LIMBS <= k < 2 * LIMBS ==> output[..][k] == 0
  {
    ghost var row := output[..];
    AccumulateRow(output, value[i], value, i, i + 1);
    TailZero(output[..], row, i + 1 + LIMBS);
  }

  /** The cross products of all limb pairs, each pair once. */
  method CrossProducts(value: Limbs) returns (cross: seq<Word>)
    ensures |cross| == 2 * LIMBS && Value(cross) == CrossSum(value, LIMBS)
  {
    var output := new Word[2 * LIMBS](_ => 0);
    ValZeros(output[..], 0, LIMBS);
    var i := 0;
    while i < LIMBS - 1
      invariant 0 <= i <= LIMBS - 1
      invariant Val(output[..], i + LIMBS) == CrossSum(value, i)
      invariant forall k :: i + LIMBS <= k < 2 * LIMBS ==> output[..][k] == 0
    {
      CrossRow(output, value, i);
      i := i + 1;
    }
    cross := output[..];
    ValZeros(cross, 2 * LIMBS - 1, 2 * LIMBS);
  }

  lemma TailZero(s: seq<Word>, t: seq<Word>, n: nat)
    requires |s| == |t| && n <= |s| && s[n..] == t[n..]
    requires forall k :: n - 1 <= k < |t| && 0 <= k ==> t[k] == 0
    ensures forall k :: n <= k < |s| ==> s[k] == 0
  {
    forall k | n <= k < |s| ensures s[k] == 0 {
      assert s[k] == s[n..][k - n] == t[n..][k - n] == t[k];
    }
  }

  ghost predicate DoublingInvariant(out: seq<Word>, cross: seq<Word>, i: nat, carry: Word)
  {
    && i <= |out| == |cross| && carry <= 1
    && out[i..] == cross[i..]
    && Val(out, i) + carry * Pow64(i) == 2 * Val(cross, i)
  }

  lemma DoublingStep(out: seq<Word>, next: seq<Word>, cross: seq<Word>, i: nat, carry: Word, carryOut: Word)
    requires DoublingInvariant(out, cross, i, carry) && i < |out|
    requires carryOut <= 1
    requires |next| == |out| && next == out[i := next[i]]
    requires 2 * out[i] + carry == next[i] + carryOut * RADIX
    ensures DoublingInvariant(next, cross, i + 1, carryOut)
  {
    assert out[i] == out[i..][0] == cross[i..][0] == cross[i];
    assert next[i + 1..] == out[i..][1..] == cross[i + 1..];
    ValStep(out, next, i);
    SplitAccumulator(2 * out[i] + carry, next[i], carryOut, Pow64(i));
    Distribute3(out[i], out[i], carry, Pow64(i));
  }

  /** Shifting a word left by one and or-ing in the incoming bit. */
  lemma ShiftInBit(x: Word, carry: Word)
    requires carry <= 1
    ensures BitOr((2 * x) % RADIX, carry) == (2 * x) % RADIX + carry < RADIX
    ensures 2 * x == (2 * x) % RADIX + (x / 0x8000_0000_0000_0000) * RADIX
  {
    var high := x / 0x8000_0000_0000_0000;
    var y := x - high * 0x8000_0000_0000_0000;
    assert 2 * x == 2 * y + high * RADIX && 0 <= 2 * y < RADIX;
    assert (2 * x) % RADIX == y * Pow2(1);
    BitOrDisjoint(carry, y, 1);
    BitOrSymmetric(carry, y * Pow2(1));
  }

  /** Shift all ten limbs left by one bit in place. */
  method DoubleInPlace(output: array<Word>)
    requires output.Length == 2 * LIMBS
    requires 2 * Value(output[..]) < Pow64(2 * LIMBS)
    modifies output
    ensures Value(output[..]) == 2 * old(Value(output[..]))
  {
    ghost var cross := output[..];
    var carry: Word := 0;
    var i := 0;
    while i < 2 * LIMBS
      invariant 0 <= i <= 2 * LIMBS
      invariant DoublingInvariant(output[..], cross, i, carry)
    {
      ghost var before, carryIn := output[..], carry;
      var next := output[i] / 0x8000_0000_0000_0000;
      ShiftInBit(output[i], carry);
      output[i] := BitOr((2 * output[i]) % RADIX, carry);
      carry := next;
      DoublingStep(before, output[..], cross, i, carryIn, carry);
      i := i + 1;
    }
    if carry == 1 {
      assert false;
    }
  }

  ghost predicate DiagonalInvariant(out: seq<Word>, start: seq<Word>, v: seq<Word>, i: nat, carry: Word)
  {
    && i <= LIMBS == |v| && 2 * LIMBS == |out| == |start|
    && out[2 * i..] == start[2 * i..]
    && Val(out, 2 * i) + carry * Pow64(2 * i) == Val(start, 2 * i) + Diagonal(v, i)
  }

  lemma TwoWordStep(a: int, b: int, x: int, c: int, low: int, high: int, carry: int, p: int)
    requires a + b * RADIX + x * x + c == low + high * RADIX + carry * (RADIX * RADIX)
    ensures low * (p * p) + high * (RADIX * (p * p)) + carry * (RADIX * (RADIX * (p * p)))
         == a * (p * p) + b * (RADIX * (p * p)) + (x * p) * (x * p) + c * (p * p)
  {
    var w := p * p;
    assert (x * p) * (x * p) == (x * x) * w;
    assert (a + b * RADIX + x * x + c) * w == a * w + b * (RADIX * w) + (x * x) * w + c * w;
    assert (low + high * RADIX + carry * (RADIX * RADIX)) * w
        == low * w + high * (RADIX * w) + carry * (RADIX * (RADIX * w));
  }

  /** Two limbs rewritten at position `k`. */
  lemma ValTwoSteps(s: seq<Word>, t: seq<Word>, k: nat, w: int)
    requires k + 1 < |s| == |t| && s[..k] == t[..k] && w == Pow64(k)
    ensures Pow64(k + 1) == RADIX * w && Pow64(k + 2) == RADIX * (RADIX * w)
    ensures Val(t, k + 2) == Val(s, k) + t[k] * w + t[k + 1] * (RADIX * w)
  {
    ValStep(s, t, k);
    assert Val(t, k + 2) == Val(t, k + 1) + t[k + 1] * Pow64(k + 1);
  }

  lemma DiagonalCombine(total: int, start: int, diagonal: int, a: int, b: int, x: int, c: int,
                        low: int, high: int, carry: int, p: int)
    requires total + c * (p * p) == start + diagonal
    requires a + b * RADIX + x * x + c == low + high * RADIX + carry * (RADIX * RADIX)
    ensures total + low * (p * p) + high * (RADIX * (p * p)) + carry * (RADIX * (RADIX * (p * p)))
         == start + a * (p * p) + b * (RADIX * (p * p)) + (diagonal + (x * p) * (x * p))
  {
    TwoWordStep(a, b, x, c, low, high, carry, p);
  }

  lemma DiagonalStep(out: seq<Word>, next: seq<Word>, start: seq<Word>, v: seq<Word>, i: nat, carry: Word,
                     carryOut: Word)
    requires i < LIMBS == |v| && |out| == |next| == 2 * LIMBS
    requires DiagonalInvariant(out, start, v, i, carry)
    requires next == out[2 * i := next[2 * i]][2 * i + 1 := next[2 * i + 1]]
    requires out[2 * i] + out[2 * i + 1] * RADIX + (v[i] as int) * (v[i] as int) + carry
          == next[2 * i] + next[2 * i + 1] * RADIX + carryOut * (RADIX * RADIX)
    ensures DiagonalInvariant(next, start, v, i + 1, carryOut)
  {
    var k := 2 * i;
    assert next[k + 2..] == start[k + 2..] by {
      assert next[k + 2..] == out[k..][2..] == start[k + 2..];
    }
    assert out[k] == start[k] && out[k + 1] == start[k + 1] by {
      assert out[k] == out[k..][0] == start[k..][0] == start[k];
      assert out[k + 1] == out[k..][1] == start[k..][1] == start[k + 1];
    }
    var w := Pow64(k);
    assert w == Pow64(i) * Pow64(i) by { Pow64Add(i, i); }
    ValTwoSteps(out, next, k, w);
    ValTwoSteps(start, start, k, w);
    var p := Pow64(i);
    DiagonalCombine(Val(out, k), Val(start, k), Diagonal(v, i), out[k], out[k + 1], v[i], carry,
                    next[k], next[k + 1], carryOut, p);
    assert Diagonal(v, i + 1) == Diagonal(v, i) + (v[i] * p) * (v[i] * p);
    assert Val(next, k + 2) + carryOut * Pow64(k + 2) == Val(start, k + 2) + Diagonal(v, i + 1);
    assert 2 * (i + 1) == k + 2;
  }

  /** The two-word addition of a diagonal and a carry into limbs `a` and `b`. */
  method AddDiagonal(a: Word, b: Word, x: Word, c: Word) returns (low: Word, high: Word, carry: Word)
    ensures a + b * RADIX + x * x + c == low + high * RADIX + carry * (RADIX * RADIX)
  {
    WordProductBound(x, x);
    var p: int := x * x;
    var lowSum: int := a + p % RADIX + c;
    low := lowSum % RADIX;
    var highSum: int := b + p / RADIX + lowSum / RADIX;
    high := highSum % RADIX;
    carry := highSum / RADIX;
  }

  /** The exact square of a five-limb value. */
  method SquareWide(value: Limbs) returns (product: seq<Word>)
    ensures |product| == 2 * LIMBS
    ensures Value(product) == Value(value) * Value(value)
  {
    var cross := CrossProducts(value);
    SquareBound(value);
    var output := new Word[2 * LIMBS](k requires 0 <= k < 2 * LIMBS => cross[k]);
    assert output[..] == cross;
    DoubleInPlace(output);
    ghost var start := output[..];
    var carry: Word := 0;
    var i := 0;
    while i < LIMBS
      invariant 0 <= i <= LIMBS
      invariant DiagonalInvariant(output[..], start, value, i, carry)
    {
      ghost var before, carryIn := output[..], carry;
      var low, high, next := AddDiagonal(output[2 * i], output[2 * i + 1], value[i], carry);
      output[2 * i] := low;
      output[2 * i + 1] := high;
      carry := next;
      DiagonalStep(before, output[..], start, value, i, carryIn, carry);
      i := i + 1;
    }
    product := output[..];
    if carry >= 1 {
      MulMonotone(1, carry, Pow64(2 * LIMBS));
      assert false;
    }
  }
}
