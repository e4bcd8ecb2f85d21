// Pseudo-Mersenne reduction: 2^301 = 2^99 - 947 modulo p.
module Reduction {
  import opened Arithmetic
  import opened Words
  import opened Modular
  import opened LimbArithmetic

  const FOLD_SUBTRAHEND: int := 947
  const FOLD_CONSTANT_LOW: Word := 0xffff_ffff_ffff_fc4d
  const FOLD_CONSTANT_HIGH: Word := 0x7_ffff_ffff
  /** 2^99 - 947 */
  const FOLD: int := 0x7ffffffff_fffffffffffffc4d
  /** 2^301 */
  const TOP: int := 0x2000_00000000_0000000000000000_0000000000000000_0000000000000000_0000000000000000
  /** 2^45, the weight of bit 301 inside the fifth limb */
  const TOP_WEIGHT: int := 0x2000_0000_0000

  // ---- Adding a scaled vector with a full-width carry ----

  ghost predicate CarryInvariant(out: seq<Word>, start: seq<Word>, from: nat, carryFrom: Word, index: nat, carry: Word)
  {
    && from <= index <= |out| == |start|
    && out[index..] == start[index..]
    && Val(out, index) + carry * Pow64(index) == Val(start, index) + carryFrom * Pow64(from)
  }

  lemma CarryStep(out: seq<Word>, next: seq<Word>, start: seq<Word>, from: nat, carryFrom: Word, index: nat,
                  carry: Word, carryOut: Word)
    requires index < |out| == |next|
    requires CarryInvariant(out, start, from, carryFrom, index, carry)
    requires next == out[index := next[index]]
    requires out[index] + carry == next[index] + carryOut * RADIX
    ensures CarryInvariant(next, start, from, carryFrom, index + 1, carryOut)
  {
    assert out[index] == out[index..][0] == start[index..][0] == start[index];
    assert next[index + 1..] == out[index..][1..] == start[index + 1..];
    ValStep(out, next, index);
    SplitAccumulator(out[index] + carry, next[index], carryOut, Pow64(index));
    Distribute(Pow64(index), out[index], carry);
  }

  /** Add `carryIn` at limb `from` and ripple it through the remaining limbs. */
  method PropagateCarry(output: array<Word>, from: nat, carryIn: Word) returns (carry: Word)
    requires from <= output.Length
    modifies output
    ensures Value(output[..]) + carry * Pow64(output.Length) == old(Value(output[..])) + carryIn * Pow64(from)
  {
    ghost var start := output[..];
    carry := carryIn;
    var index := from;
    while index < output.Length
      invariant from <= index <= output.Length
      invariant CarryInvariant(output[..], start, from, carryIn, index, carry)
    {
      ghost var before, previous := output[..], carry;
      var accumulator: int := output[index] + carry;
      output[index] := accumulator % RADIX;
      carry := accumulator / RADIX;
      CarryStep(before, output[..], start, from, carryIn, index, previous, carry);
      index := index + 1;
    }
  }

  lemma RowThenCarry(start: seq<Word>, row: seq<Word>, x: Word, high: seq<Word>, offset: nat, carry: Word)
    requires RowInvariant(row, start, x, high, offset, 0, |high|, carry)
    ensures Value(row) + carry * Pow64(offset + |high|) == Value(start) + (x * Pow64(offset)) * Value(high)
  {
    ValTail(row, start, offset + |high|);
  }

  lemma {:induction false} ValTail(s: seq<Word>, t: seq<Word>, n: nat)
    requires n <= |s| == |t| && s[n..] == t[n..]
    ensures Value(s) - Val(s, n) == Value(t) - Val(t, n)
  {
    ValTailTo(s, t, n, |s|);
  }

  lemma {:induction false} ValTailTo(s: seq<Word>, t: seq<Word>, n: nat, m: nat)
    requires n <= m <= |s| == |t| && s[n..] == t[n..]
    ensures Val(s, m) - Val(s, n) == Val(t, m) - Val(t, n)
  {
    if n < m {
      ValTailTo(s, t, n, m - 1);
      assert s[m - 1] == s[n..][m - 1 - n] == t[n..][m - 1 - n] == t[m - 1];
    }
  }

  lemma CarryVanishes(v: nat, carry: nat, p: nat, total: nat)
    requires v + carry * p == total < p
    ensures carry == 0
  {
    if carry >= 1 {
      MulMonotone(1, carry, p);
    }
  }

  /** output := output + high * x * 2^(64*offset), when that fits the output. */
  method AddScaled(output: array<Word>, x: Word, high: seq<Word>, offset: nat)
    requires offset + |high| <= output.Length
    requires Value(output[..]) + (x * Pow64(offset)) * Value(high) < Pow64(output.Length)
    modifies output
    ensures Value(output[..]) == old(Value(output[..])) + (x * Pow64(offset)) * Value(high)
  {
    hide Val, Pow64, RowInvariant;
    ghost var start := output[..];
    var carry := AddScaledLimbs(output, x, high, offset, 0);
    RowThenCarry(start, output[..], x, high, offset, carry);
    ghost var total := Value(start) + (x * Pow64(offset)) * Value(high);
    var lost := PropagateCarry(output, offset + |high|, carry);
    CarryVanishes(Value(output[..]), lost, Pow64(output.Length), total);
  }

  lemma FoldParts(high: nat)
    ensures (FOLD_CONSTANT_LOW * Pow64(0)) * high >= 0
    ensures (FOLD_CONSTANT_LOW * Pow64(0)) * high + (FOLD_CONSTANT_HIGH * Pow64(1)) * high == high * FOLD
    ensures (FOLD_CONSTANT_HIGH * Pow64(1)) * high >= 0
  {
    Pow64Literals();
  }

  /** output := low + high * (2^99 - 947), for any widths that hold the result. */
  method AccumulateFold(low: seq<Word>, high: seq<Word>, output: array<Word>)
    requires |low| <= output.Length && |high| < output.Length
    requires forall k :: |low| <= k < output.Length ==> output[k] == 0
    requires Value(low) + Value(high) * FOLD < Pow64(output.Length)
    modifies output
    ensures Value(output[..]) == Value(low) + Value(high) * FOLD
  {
    var index := 0;
    while index < |low|
      invariant 0 <= index <= |low|
      invariant output[..index] == low[..index]
      invariant forall k :: |low| <= k < output.Length ==> output[k] == 0
    {
      output[index] := low[index];
      index := index + 1;
    }
    assert output[..][..|low|] == low[..|low|];
    ValExtensional(output[..], low, |low|);
    ValZeros(output[..], |low|, output.Length);
    FoldParts(Value(high));
    AddScaled(output, FOLD_CONSTANT_LOW, high, 0);
    AddScaled(output, FOLD_CONSTANT_HIGH, high, 1);
  }

  // ---- Splitting at bit 301 ----

  lemma ShiftLeft19(b: Word)
    ensures (b * 0x8_0000) % RADIX == (b % TOP_WEIGHT) * 0x8_0000
  {
    var high, low := b / 0x2000_0000_0000, b % 0x2000_0000_0000;
    assert b * 0x8_0000 == low * 0x8_0000 + high * 0x1_0000_0000_0000_0000;
    assert 0 <= low * 0x8_0000 < 0x1_0000_0000_0000_0000;
  }

  lemma Pow2Nineteen()
    ensures Pow2(19) == 0x8_0000
  {
    assert Pow2(10) == 0x400;
  }

  /** `(a >> 45) | (b << 19)`: the word that starts at bit 45 of `a`. */
  function WordAt45(a: Word, b: Word): (r: Word)
    ensures r == a / TOP_WEIGHT + (b % TOP_WEIGHT) * 0x8_0000
  {
    ShiftLeft19(b);
    Pow2Nineteen();
    BitOrDisjoint(a / TOP_WEIGHT, b % TOP_WEIGHT, 19);
    BitOr(a / TOP_WEIGHT, (b * 0x8_0000) % RADIX)
  }

  /** Bits 301 and up of a ten-limb product: five words. */
  function HighPart(p: seq<Word>): Limbs
    requires |p| == 2 * LIMBS
  {
    [WordAt45(p[4], p[5]), WordAt45(p[5], p[6]), WordAt45(p[6], p[7]), WordAt45(p[7], p[8]), WordAt45(p[8], p[9])]
  }

  /** Bits 0..300. */
  function LowPart(p: seq<Word>): (r: Limbs)
    requires |p| >= LIMBS
    ensures Value(r) < TOP
  {
    var r := [p[0], p[1], p[2], p[3], p[4] % TOP_WEIGHT];
    Val5(r);
    r
  }

  /** Regrouping limbs `l + h*2^45` of weight `2^(64k)`, `k = 4..9`, at bit 301; the last `h` must be zero. */
  lemma Regroup(l4: int, h4: int, l5: int, h5: int, l6: int, h6: int, l7: int, h7: int, l8: int, h8: int,
                l9: int, h9: int)
    requires h9 == 0
    ensures (l4 + h4 * TOP_WEIGHT) * R4 + (l5 + h5 * TOP_WEIGHT) * R5 + (l6 + h6 * TOP_WEIGHT) * R6
          + (l7 + h7 * TOP_WEIGHT) * R7 + (l8 + h8 * TOP_WEIGHT) * R8 + (l9 + h9 * TOP_WEIGHT) * R9
         == l4 * R4 + ((h4 + l5 * 0x80000) + (h5 + l6 * 0x80000) * RADIX + (h6 + l7 * 0x80000) * R2
                       + (h7 + l8 * 0x80000) * R3 + (h8 + l9 * 0x80000) * R4) * TOP
  {
  }

  /** The split at bit 301 loses nothing as long as the top word keeps its upper bits clear. */
  lemma SplitWide(p: seq<Word>)
    requires |p| == 2 * LIMBS && p[9] < TOP_WEIGHT
    ensures Value(p) == Value(LowPart(p)) + Value(HighPart(p)) * TOP
  {
    Val5(p);
    Val10(p);
    Val5(LowPart(p));
    Val5(HighPart(p));
    Regroup(p[4] % TOP_WEIGHT, p[4] / TOP_WEIGHT, p[5] % TOP_WEIGHT, p[5] / TOP_WEIGHT,
            p[6] % TOP_WEIGHT, p[6] / TOP_WEIGHT, p[7] % TOP_WEIGHT, p[7] / TOP_WEIGHT,
            p[8] % TOP_WEIGHT, p[8] / TOP_WEIGHT, p[9] % TOP_WEIGHT, p[9] / TOP_WEIGHT);
    assert Value(p) - (p[0] + p[1] * RADIX + p[2] * R2 + p[3] * R3)
        == p[4] * R4 + p[5] * R5 + p[6] * R6 + p[7] * R7 + p[8] * R8 + p[9] * R9;
  }

  /** A value below `bound` has small top limbs. */
  lemma TopLimb(p: seq<Word>, n: nat, w: int)
    requires 0 < n <= |p|
    requires Val(p, n) < w * Pow64(n - 1)
    ensures p[n - 1] < w
  {
    if p[n - 1] >= w {
      MulMonotone(w, p[n - 1], Pow64(n - 1));
    }
  }

  /** `Regroup` for seven limbs. */
  lemma RegroupFold(l4: int, h4: int, l5: int, h5: int, l6: int, h6: int)
    requires h6 == 0
    ensures (l4 + h4 * TOP_WEIGHT) * R4 + (l5 + h5 * TOP_WEIGHT) * R5 + (l6 + h6 * TOP_WEIGHT) * R6
         == l4 * R4 + ((h4 + l5 * 0x80000) + (h5 + l6 * 0x80000) * RADIX) * TOP
  {
  }

  /** The two words above bit 301 of a seven-limb first fold. */
  lemma SplitFold(f: seq<Word>, low: seq<Word>, high: seq<Word>)
    requires |f| == 7 && f[6] < TOP_WEIGHT
    requires low == LowPart(f)
    requires high == [WordAt45(f[4], f[5]), WordAt45(f[5], f[6])]
    ensures Value(f) == Value(low) + Value(high) * TOP
  {
    Val5(f);
    Pow64Literals();
    assert Val(f, 6) == Val(f, 5) + f[5] * Pow64(5);
    assert Val(f, 7) == Val(f, 6) + f[6] * Pow64(6);
    Val5(low);
    Val2(high);
    RegroupFold(f[4] % TOP_WEIGHT, f[4] / TOP_WEIGHT, f[5] % TOP_WEIGHT, f[5] / TOP_WEIGHT,
                f[6] % TOP_WEIGHT, f[6] / TOP_WEIGHT);
    assert Value(f) - (f[0] + f[1] * RADIX + f[2] * R2 + f[3] * R3) == f[4] * R4 + f[5] * R5 + f[6] * R6;
  }

  /** One fold replaces `2^301` by the congruent `2^99 - 947`. */
  lemma FoldCongruent(result: int, value: int, low: int, high: int)
    requires result == low + high * FOLD && value == low + high * TOP
    ensures Cong(result, value)
  {
    assert TOP == P + FOLD;
    Distribute(high, P, FOLD);
    CongIntro(result, value, -high);
  }

  /** 16p^2 < 2^606 */
  lemma ProductBound(product: seq<Word>)
    requires |product| == 2 * LIMBS && Value(product) < 16 * P * P
    ensures product[9] < 0x4000_0000 && Value(HighPart(product)) < 0x4000_0000 * 0x8_0000 * R4
  {
    Pow64Literals();
    assert 16 * P * P <= 0x4000_0000 * R9;
    TopLimb(product, 10, 0x4000_0000);
    SplitWide(product);
    assert 0x4000_0000 * R9 == 0x4000_0000 * 0x8_0000 * R4 * TOP;
  }

  lemma FoldBound(low: nat, high: nat, bound: nat)
    requires low < TOP && high < bound
    ensures low + high * FOLD < TOP + bound * FOLD
  {
    MulMonotone(high, bound, FOLD);
  }

  /** The first fold fits seven words with the top one below 2^21; the second high part is below 2^104. */
  lemma FirstFold(fold: seq<Word>)
    requires |fold| == 7 && Value(fold) < TOP + 0x4000_0000 * 0x8_0000 * R4 * FOLD
    ensures fold[6] < TOP_WEIGHT
    ensures Value([WordAt45(fold[4], fold[5]), WordAt45(fold[5], fold[6])]) < 0x100_0000_0000 * RADIX
  {
    Pow64Literals();
    assert TOP + 0x4000_0000 * 0x8_0000 * R4 * FOLD <= 0x20_0000 * R6;
    TopLimb(fold, 7, 0x20_0000);
    SplitFold(fold, LowPart(fold), [WordAt45(fold[4], fold[5]), WordAt45(fold[5], fold[6])]);
    assert 0x20_0000 * R6 == 0x100_0000_0000 * RADIX * TOP;
  }

  /** Two folds bring any product below 16p^2 under 2p. */
  method ReduceWideUnreduced(product: seq<Word>) returns (reduced: Limbs)
    requires |product| == 2 * LIMBS && Value(product) < 16 * P * P
    ensures Value(reduced) < 2 * P
    ensures Cong(Value(reduced), Value(product))
  {
    hide Val, Pow64;
    var low := LowPart(product);
    var high := HighPart(product);
    ProductBound(product);
    SplitWide(product);
    Pow64Literals();
    FoldBound(Value(low), Value(high), 0x4000_0000 * 0x8_0000 * R4);
    var first := new Word[7](_ => 0);
    AccumulateFold(low, high, first);

    var fold := first[..];
    var secondLow := LowPart(fold);
    var secondHigh := [WordAt45(fold[4], fold[5]), WordAt45(fold[5], fold[6])];
    FirstFold(fold);
    SplitFold(fold, secondLow, secondHigh);
    FoldBound(Value(secondLow), Value(secondHigh), 0x100_0000_0000 * RADIX);
    var second := new Word[LIMBS](_ => 0);
    AccumulateFold(secondLow, secondHigh, second);
    reduced := second[..];

    FoldCongruent(Value(fold), Value(product), Value(low), Value(high));
    FoldCongruent(Value(reduced), Value(fold), Value(secondLow), Value(secondHigh));
    CongTrans(Value(reduced), Value(fold), Value(product));
  }

  // ---- Products with a 32-bit constant ----

  method MultiplyFiveByU32(value: Limbs, multiplier: Word) returns (product: seq<Word>)
    requires multiplier < 0x1_0000_0000
    ensures |product| == LIMBS + 1
    ensures Value(product) == Value(value) * multiplier
  {
    var output := new Word[LIMBS + 1](_ => 0);
    var carry: Word := 0;
    var index := 0;
    while index < LIMBS
      invariant 0 <= index <= LIMBS
      invariant Val(output[..], index) + carry * Pow64(index) == Val(value, index) * multiplier
    {
      ghost var before, carryIn := output[..], carry;
      var low, next := MultiplyAccumulate(value[index], multiplier, 0, carry);
      output[index] := low;
      carry := next;
      ValStep(before, output[..], index);
      ScaleStep(Val(value, index), value[index], multiplier, carryIn, low, carry, Pow64(index));
      index := index + 1;
    }
    ghost var before := output[..];
    output[LIMBS] := carry;
    ValStep(before, output[..], LIMBS);
    product := output[..];
  }

  lemma ScaleStep(v: int, x: int, m: int, c: int, low: int, carry: int, p: int)
    requires x * m + c == low + carry * RADIX
    ensures low * p + carry * (RADIX * p) == (v + x * p) * m - v * m + c * p
  {
    SplitAccumulator(x * m + c, low, carry, p);
    assert (v + x * p) * m == v * m + (x * m) * p;
    assert (x * m + c) * p == (x * m) * p + c * p;
  }

  /** Subtract a one-word amount and ripple the borrow. */
  method SubtractWord(value: Limbs, amount: Word) returns (difference: Limbs)
    requires amount <= Value(value)
    ensures Value(difference) == Value(value) - amount
  {
    var subtrahend := [amount, 0, 0, 0, 0];
    Val5(subtrahend);
    var borrow;
    difference, borrow := SubtractLimbs(value, subtrahend);
  }

  /** 2^99 */
  const POWER_99: int := 0x8_00000000_0000000000000000

  /** A product below `4p * 2^32` has a high part below 2^34. */
  lemma SmallHighPart(product: seq<Word>)
    requires |product| == LIMBS + 1 && Value(product) < 4 * P * 0x1_0000_0000
    ensures product[5] < TOP_WEIGHT
    ensures Value(product) == Value(LowPart(product)) + WordAt45(product[4], product[5]) * TOP
    ensures WordAt45(product[4], product[5]) < 0x4_0000_0000
  {
    SixWords(product);
    TopLimb(product, 6, 0x8000) by {
      SmallBound();
    }
    Val5(LowPart(product));
    SmallSplit(product[4], product[5], WordAt45(product[4], product[5]));
  }

  /** The word at bit 45 of limb 4 holds all of limb 5 when that is below 2^15. */
  lemma SmallSplit(a: Word, b: Word, word: int)
    requires b < 0x8000 && word == a / TOP_WEIGHT + (b % TOP_WEIGHT) * 0x8_0000
    ensures a * R4 + b * R5 == (a % TOP_WEIGHT) * R4 + word * TOP && word < 0x4_0000_0000
  {
  }

  lemma SixWords(product: seq<Word>)
    requires |product| == LIMBS + 1
    ensures Pow64(5) == R5
    ensures Value(product) == product[0] + product[1] * RADIX + product[2] * R2 + product[3] * R3
                            + product[4] * R4 + product[5] * R5
  {
    Val5(product);
    Pow64Literals();
    assert Val(product, 6) == Val(product, 5) + product[5] * Pow64(5);
  }

  lemma SmallBound()
    ensures 4 * P * 0x1_0000_0000 <= 0x4_0000_0000 * TOP && 0x4_0000_0000 * TOP == 0x8000 * R5
  {
  }

  /** `high << 35` and `high >> 29`: the two words of `high * 2^35`. */
  function ShiftBy35(high: Word): (r: (Word, Word))
    ensures r.0 + r.1 * RADIX == high * 0x8_0000_0000
  {
    ((high * 0x8_0000_0000) % RADIX, high / 0x2000_0000)
  }

  /** output := low + high * 2^99 over five limbs. */
  method AddHighAt99(low: Limbs, high: Word) returns (sum: Limbs)
    requires Value(low) < TOP && high < 0x4_0000_0000
    ensures Value(sum) == Value(low) + high * POWER_99
  {
    var reduced := new Word[LIMBS](k requires 0 <= k < LIMBS => low[k]);
    assert reduced[..] == low;
    var (addLow, addHigh) := ShiftBy35(high);
    var first: int := reduced[1] + addLow;
    reduced[1] := first % RADIX;
    var second: int := reduced[2] + addHigh + first / RADIX;
    reduced[2] := second % RADIX;
    var carry: Word := second / RADIX;
    ghost var middle := reduced[..];
    AddedAt99(low, middle, high, addLow, addHigh, carry);
    var lost := PropagateCarry(reduced, 3, carry);
    sum := reduced[..];
    CarryVanishes(Value(sum), lost, Pow64(LIMBS), Value(low) + high * POWER_99);
  }

  lemma AddedAt99(low: Limbs, middle: Limbs, high: Word, addLow: Word, addHigh: Word, carry: Word)
    requires Value(low) < TOP && high < 0x4_0000_0000
    requires addLow + addHigh * RADIX == high * 0x8_0000_0000
    requires middle == low[1 := middle[1]][2 := middle[2]]
    requires low[1] + addLow + (low[2] + addHigh) * RADIX == middle[1] + middle[2] * RADIX + carry * RADIX * RADIX
    ensures Value(middle) + carry * Pow64(3) == Value(low) + high * POWER_99 < Pow64(LIMBS)
  {
    Val5(low);
    Val5(middle);
    Pow64Literals();
    Rescale(low[1], low[2], addLow, addHigh, middle[1], middle[2], carry, high);
  }

  lemma Rescale(a: int, b: int, x: int, y: int, c: int, d: int, carry: int, high: int)
    requires x + y * RADIX == high * 0x8_0000_0000
    requires a + x + (b + y) * RADIX == c + d * RADIX + carry * RADIX * RADIX
    ensures c * RADIX + d * R2 + carry * R3 == a * RADIX + b * R2 + high * POWER_99
  {
  }

  /** One fold suffices for a product of a value below 4p with a 32-bit constant. */
  method ReduceSmallProductUnreduced(product: seq<Word>) returns (reduced: Limbs)
    requires |product| == LIMBS + 1 && Value(product) < 4 * P * 0x1_0000_0000
    ensures Value(reduced) < 2 * P
    ensures Cong(Value(reduced), Value(product))
  {
    SmallHighPart(product);
    var high := WordAt45(product[4], product[5]);
    var low := LowPart(product);
    var sum := AddHighAt99(low, high);
    reduced := SubtractWord(sum, high * FOLD_SUBTRAHEND);
    SmallFold(Value(low), high, Value(reduced));
    FoldCongruent(Value(reduced), Value(product), Value(low), high);
  }

  lemma SmallFold(low: nat, high: nat, reduced: int)
    requires low < TOP && high < 0x4_0000_0000
    requires reduced == low + high * POWER_99 - high * FOLD_SUBTRAHEND
    ensures reduced == low + high * FOLD && 0 <= reduced < 2 * P
  {
    assert FOLD == POWER_99 - FOLD_SUBTRAHEND;
    Distribute(high, FOLD, FOLD_SUBTRAHEND);
    MulMonotone(high, 0x4_0000_0000, FOLD);
    MulMonotone(0, high, FOLD);
  }
}
