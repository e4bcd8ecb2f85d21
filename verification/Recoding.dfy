// Signed digit strings: width-w non-adjacent form and signed radix 16.
module Recoding {
  import opened Arithmetic
  import opened Words
  import opened Bytes
  import opened Groups

  const RADIX16_DIGITS: nat := 76

  /** Signed bytes, and the 320-bit integers a scalar is recoded in. */
  type I8 = x: int | -128 <= x < 128
  type U320 = x: nat | x < R5

  /** Value of the binary signed-digit string from position `i` up (Horner form). */
  ghost function Tail(d: seq<int>, i: nat): int
    requires i <= |d|
    decreases |d| - i
  {
    if i == |d| then 0 else d[i] + 2 * Tail(d, i + 1)
  }

  /** Value of the first `n` digits. */
  ghost function Head(d: seq<int>, n: nat): int
    requires n <= |d|
  {
    if n == 0 then 0 else Head(d, n - 1) + d[n - 1] * Pow2(n - 1)
  }

  lemma {:induction false} HeadTail(d: seq<int>, n: nat)
    requires n <= |d|
    ensures Head(d, n) + Pow2(n) * Tail(d, n) == Tail(d, 0)
  {
    if n != 0 {
      HeadTail(d, n - 1);
      DistributeDigit(d[n - 1], Tail(d, n), Pow2(n - 1));
    }
  }

  lemma DistributeDigit(x: int, t: int, p: int)
    ensures p * (x + 2 * t) == x * p + (2 * p) * t
  {
  }

  lemma {:induction false} HeadExtensional(d: seq<int>, e: seq<int>, n: nat)
    requires n <= |d| && n <= |e| && d[..n] == e[..n]
    ensures Head(d, n) == Head(e, n)
  {
    if n != 0 {
      assert d[..n - 1] == d[..n][..n - 1] == e[..n][..n - 1] == e[..n - 1];
      assert d[n - 1] == d[..n][n - 1] == e[..n][n - 1] == e[n - 1];
      HeadExtensional(d, e, n - 1);
    }
  }

  /** Digits of a width-`w` non-adjacent form. */
  ghost predicate NonAdjacent(d: seq<int>, w: nat) {
    forall i :: 0 <= i < |d| && d[i] != 0 ==> NafDigit(d, i, w)
  }

  /** An odd digit below 2^(w-1) in magnitude, with at least w-1 zeros above it. */
  ghost predicate NafDigit(d: seq<int>, i: nat, w: nat)
    requires i < |d|
  {
    && d[i] % 2 == 1 && 2 * d[i] < Pow2(w) && 0 < Pow2(w) + 2 * d[i]
    && forall j :: i < j < i + w && j < |d| ==> d[j] == 0
  }

  /** `value` is a multiple of 2^k. */
  ghost predicate DividesBy(value: int, k: nat) {
    value % Pow2(k) == 0
  }

  /** What is known after `n` digits: the value split, the digits so far, and the zeros still owed. */
  ghost predicate WnafInvariant(scalar: nat, d: seq<int>, w: nat, n: nat, value: nat, free: nat) {
    && n <= |d|
    && scalar == Head(d, n) + Pow2(n) * value
    && (forall k :: n <= k < |d| ==> d[k] == 0)
    && (n < free ==> DividesBy(value, free - n))
    && (forall i :: 0 <= i < n && d[i] != 0 ==> i + w <= free && DigitSoFar(d, i, w, n))
  }

  ghost predicate DigitSoFar(d: seq<int>, i: nat, w: nat, n: nat)
    requires i < n <= |d|
  {
    && d[i] % 2 == 1 && 2 * d[i] < Pow2(w) && 0 < Pow2(w) + 2 * d[i]
    && forall j :: i < j < i + w && j < n ==> d[j] == 0
  }

  /** The residue shrinks: at most 2^(300-n) up to digit 300, and zero after it. */
  ghost predicate ResidueBound(n: nat, value: nat) {
    if n <= 300 then value <= Pow2(300 - n) else value == 0
  }

  /** The signed digit of an odd value: its low `w` bits, wrapped below 2^(w-1). */
  function SignedLow(value: nat, radix: int): (digit: int)
    requires radix > 0 && radix % 2 == 0
    ensures -radix <= 2 * digit < radix
  {
    var low := value % radix;
    if 2 * low >= radix then low - radix else low
  }

  lemma EvenMod(value: int, radix: int)
    requires radix > 0 && radix % 2 == 0
    ensures value % radix % 2 == value % 2
  {
    var q, r := value / radix, value % radix;
    assert value == radix * q + r;
    var h := radix / 2;
    assert radix * q == 2 * (h * q);
  }

  /** After removing its signed digit the residue is a multiple of the radix. */
  lemma DigitRemoved(value: nat, radix: int, digit: int)
    requires radix > 0 && radix % 2 == 0 && digit == SignedLow(value, radix)
    ensures (value - digit) % radix == 0 && value - digit >= 0
  {
    var q, r := value / radix, value % radix;
    assert value == radix * q + r;
    MultipleOf(q, radix);
    MultipleOf(q + 1, radix);
    assert radix * (q + 1) == radix * q + radix;
    assert value - digit == radix * q || value - digit == radix * (q + 1);
    assert q >= 0;
    MulMonotone(0, q, radix);
  }

  // ---- One step of the wNAF loop ----

  lemma HalfMultiple(value: nat, k: nat)
    requires k > 0 && DividesBy(value, k)
    ensures value % 2 == 0 && DividesBy(value / 2, k - 1)
  {
    var p := Pow2(k - 1);
    var q := value / Pow2(k);
    assert value == 2 * (p * q);
    MultipleOf(q, p);
  }

  lemma HeadStep(scalar: nat, d: seq<int>, n: nat, digit: int, value: nat, next: nat)
    requires n < |d|
    requires scalar == Head(d, n) + Pow2(n) * value && value == digit + 2 * next
    ensures scalar == Head(d[n := digit], n + 1) + Pow2(n + 1) * next
  {
    var e := d[n := digit];
    assert e[..n] == d[..n];
    HeadExtensional(e, d, n);
    DistributeDigit(digit, next, Pow2(n));
  }

  lemma EvenStep(scalar: nat, d: seq<int>, w: nat, n: nat, value: nat, free: nat)
    requires n < |d| && WnafInvariant(scalar, d, w, n, value, free) && value % 2 == 0
    ensures WnafInvariant(scalar, d, w, n + 1, value / 2, free)
  {
    assert d[n] == 0;
    assert d[n := 0] == d;
    HeadStep(scalar, d, n, 0, value, value / 2);
    if n < free {
      HalfMultiple(value, free - n);
    }
    forall i | 0 <= i < n + 1 && d[i] != 0
      ensures i + w <= free && DigitSoFar(d, i, w, n + 1)
    {
      assert DigitSoFar(d, i, w, n);
    }
  }

  /** The signed digit of an odd value is odd, strictly below half the radix, and clears `w` bits. */
  lemma OddDigit(value: nat, w: nat, digit: int)
    requires w >= 2 && value % 2 == 1 && digit == SignedLow(value, Pow2(w))
    ensures digit % 2 == 1 && 2 * digit < Pow2(w) && 0 < Pow2(w) + 2 * digit
    ensures value - digit >= 0 && DividesBy(value - digit, w)
  {
    hide SignedLow, Pow2, DividesBy;
    QuarterPower(w);
    OddDigitOf(value, Pow2(w - 2), Pow2(w), digit);
    DigitClears(value, w, digit);
  }

  lemma OddDigitOf(value: nat, quarter: nat, radix: int, digit: int)
    requires quarter > 0 && radix == 4 * quarter && value % 2 == 1 && digit == SignedLow(value, radix)
    ensures digit % 2 == 1 && 2 * digit < radix && 0 < radix + 2 * digit
  {
    hide SignedLow;
    var low := OddLowOf(value, radix, digit);
    OddDigitRange(low, quarter, radix, digit);
  }

  lemma DigitClears(value: nat, w: nat, digit: int)
    requires w >= 2 && digit == SignedLow(value, Pow2(w))
    ensures value - digit >= 0 && DividesBy(value - digit, w)
  {
    DigitRemoved(value, Pow2(w), digit);
  }

  lemma QuarterPower(w: nat)
    requires w >= 2
    ensures Pow2(w) == 4 * Pow2(w - 2)
  {
  }

  lemma OddLowOf(value: nat, radix: int, digit: int) returns (low: nat)
    requires radix > 0 && radix % 2 == 0 && value % 2 == 1 && digit == SignedLow(value, radix)
    ensures low < radix && low % 2 == 1
    ensures digit == if 2 * low >= radix then low - radix else low
  {
    low := value % radix;
    OddLow(value, radix);
  }

  lemma OddLow(value: nat, radix: int)
    requires radix > 0 && radix % 2 == 0 && value % 2 == 1
    ensures value % radix % 2 == 1 && value % radix != 0
  {
    EvenMod(value, radix);
  }

  lemma OddDigitRange(low: nat, quarter: nat, radix: int, digit: int)
    requires radix == 4 * quarter && low < radix && low % 2 == 1
    requires digit == if 2 * low >= radix then low - radix else low
    ensures digit % 2 == 1 && 2 * digit < radix && 0 < radix + 2 * digit
  {
  }

  lemma NothingOwed(scalar: nat, d: seq<int>, w: nat, n: nat, value: nat, free: nat)
    requires WnafInvariant(scalar, d, w, n, value, free) && value % 2 == 1
    ensures free <= n
  {
    if n < free {
      HalfMultiple(value, free - n);
    }
  }

  lemma OddStep(scalar: nat, d: seq<int>, w: nat, n: nat, value: nat, free: nat, digit: int)
    requires n < |d| && w >= 2 && WnafInvariant(scalar, d, w, n, value, free) && value % 2 == 1
    requires digit == SignedLow(value, Pow2(w))
    ensures value - digit >= 0
    ensures WnafInvariant(scalar, d[n := digit], w, n + 1, (value - digit) / 2, n + w)
  {
    hide SignedLow, DividesBy, Pow2;
    OddDigit(value, w, digit);
    NothingOwed(scalar, d, w, n, value, free);
    HalfMultiple(value - digit, w);
    HeadStep(scalar, d, n, digit, value, (value - digit) / 2);
    OddDigits(d, d[n := digit], w, n, free, digit);
  }

  lemma OddDigits(d: seq<int>, e: seq<int>, w: nat, n: nat, free: nat, digit: int)
    requires n < |d| && free <= n && e == d[n := digit]
    requires digit % 2 == 1 && 2 * digit < Pow2(w) && 0 < Pow2(w) + 2 * digit
    requires forall i :: 0 <= i < n && d[i] != 0 ==> i + w <= free && DigitSoFar(d, i, w, n)
    ensures forall i :: 0 <= i < n + 1 && e[i] != 0 ==> i + w <= n + w && DigitSoFar(e, i, w, n + 1)
  {
    forall i | 0 <= i < n + 1 && e[i] != 0
      ensures i + w <= n + w && DigitSoFar(e, i, w, n + 1)
    {
      if i < n {
        assert DigitSoFar(d, i, w, n);
      }
    }
  }

  lemma MultipleBelow(q: nat, r: nat, radix: nat, k: nat)
    requires radix > 0 && 0 < r < radix && radix * q + r <= radix * k
    ensures radix * (q + 1) <= radix * k
  {
    if q >= k {
      MulMonotone(k, q, radix);
      assert false;
    }
    MulMonotone(q + 1, k, radix);
  }

  lemma RoundUpMultiple(value: nat, p: nat, k: nat)
    requires p > 0 && value <= p * k && value % p != 0
    ensures p * (value / p + 1) <= p * k
  {
    Divide(value, p);
    MultipleBelow(value / p, value % p, p, k);
  }

  /** A short residue takes a non-negative digit. */
  lemma ShortResidue(value: nat, w: nat, m: nat)
    requires m < w && value <= Pow2(m) && 2 * value != Pow2(w)
    ensures SignedLow(value, Pow2(w)) == value
  {
    Pow2Monotone(m, w - 1);
    assert Pow2(w) == 2 * Pow2(w - 1);
    QuotientUnique(value, Pow2(w), 0, value);
  }

  /** The residue bound survives an odd step. */
  lemma OddResidue(w: nat, n: nat, value: nat, digit: int)
    requires w >= 2 && value % 2 == 1 && ResidueBound(n, value)
    requires digit == SignedLow(value, Pow2(w)) && value - digit >= 0
    ensures ResidueBound(n + 1, (value - digit) / 2)
  {
    hide SignedLow;
    var m := 300 - n;
    assert n <= 300 && value <= Pow2(m);
    if m < w {
      QuarterPower(w);
      ShortResidue(value, w, m);
    } else {
      LongResidue(value, w, m, digit);
    }
  }

  /** A value at most 2^m, rounded up to the next multiple of 2^w, is still at most 2^m when w <= m. */
  lemma LongResidue(value: nat, w: nat, m: nat, digit: int)
    requires 2 <= w <= m && value % 2 == 1 && value <= Pow2(m)
    requires digit == SignedLow(value, Pow2(w)) && value - digit >= 0
    ensures (value - digit) / 2 <= Pow2(m - 1)
  {
    hide SignedLow;
    Pow2Add(w, m - w);
    RoundedResidue(value, Pow2(w), Pow2(m - w), digit);
    HalfBelow(value - digit, Pow2(m - 1));
  }

  lemma HalfBelow(x: nat, y: nat)
    requires x <= 2 * y
    ensures x / 2 <= y
  {
  }

  lemma RoundedResidue(value: nat, radix: nat, k: nat, digit: int)
    requires radix > 0 && radix % 2 == 0 && value % 2 == 1 && digit == SignedLow(value, radix)
    requires value <= radix * k
    ensures value - digit <= radix * k
  {
    OddLow(value, radix);
    RoundUpMultiple(value, radix, k);
    Divide(value, radix);
    Distribute(radix, value / radix, 1);
  }

  lemma {:induction false} Pow2Monotone(m: nat, n: nat)
    requires m <= n
    ensures Pow2(m) <= Pow2(n)
  {
    if m < n {
      Pow2Monotone(m, n - 1);
    }
  }

  lemma EvenResidue(n: nat, value: nat)
    requires value % 2 == 0 && ResidueBound(n, value)
    ensures ResidueBound(n + 1, value / 2)
  {
    if n < 300 {
      assert Pow2(300 - n) == 2 * Pow2(299 - n);
    }
  }

  lemma WnafStart(scalar: nat, d: seq<int>, w: nat)
    requires scalar < L && forall k :: 0 <= k < |d| ==> d[k] == 0
    ensures WnafInvariant(scalar, d, w, 0, scalar, 0) && ResidueBound(0, scalar)
  {
    TopPower();
  }

  /** Width-`w` non-adjacent form of a canonical scalar; the residue always reaches zero. */
  method VartimeWnaf(scalar: nat, width: nat) returns (digits: seq<I8>)
    requires scalar < L && 2 <= width <= 8
    ensures |digits| == FIELD_BITS + 1
    ensures Tail(digits, 0) == scalar
    ensures NonAdjacent(digits, width)
  {
    var radix := Pow2(width);
    QuarterPower(width);
    var value: U320 := scalar;
    var buffer := new I8[FIELD_BITS + 1](_ => 0);
    ghost var free := 0;
    var index := 0;
    WnafStart(scalar, buffer[..], width);
    hide WnafInvariant, ResidueBound, SignedLow, NonAdjacent, Pow2;
    while index < FIELD_BITS + 1
      invariant 0 <= index <= FIELD_BITS + 1
      invariant WnafInvariant(scalar, buffer[..], width, index, value, free)
      invariant ResidueBound(index, value)
    {
      ghost var before := buffer[..];
      if value % 2 == 1 {
        var digit := SignedLow(value, radix);
        OddRound(scalar, before, width, index, value, free, digit);
        buffer[index] := digit;
        assert buffer[..] == before[index := digit];
        value := value - digit;
        free := index + width;
      } else {
        EvenStep(scalar, before, width, index, value, free);
        EvenResidue(index, value);
      }
      value := value / 2;
      index := index + 1;
    }
    digits := buffer[..];
    WnafComplete(scalar, digits, width, value, free);
  }

  /** An odd round keeps the invariant and both widths. */
  lemma OddRound(scalar: nat, d: seq<int>, w: nat, n: nat, value: nat, free: nat, digit: int)
    requires n < |d| && 2 <= w <= 8 && WnafInvariant(scalar, d, w, n, value, free) && ResidueBound(n, value)
    requires value % 2 == 1 && digit == SignedLow(value, Pow2(w))
    ensures -128 <= digit < 128 && 0 <= value - digit <= 2 * TOP_BIT + 1
    ensures WnafInvariant(scalar, d[n := digit], w, n + 1, (value - digit) / 2, n + w)
    ensures ResidueBound(n + 1, (value - digit) / 2)
  {
    hide WnafInvariant, ResidueBound, SignedLow, Pow2;
    OddStep(scalar, d, w, n, value, free, digit);
    OddResidue(w, n, value, digit);
    DigitFits(w, value, digit);
    ResidueFits(n + 1, (value - digit) / 2);
  }

  /** A digit of width at most eight is an 8-bit integer. */
  lemma DigitFits(w: nat, value: nat, digit: int)
    requires 2 <= w <= 8 && value % 2 == 1 && digit == SignedLow(value, Pow2(w))
    ensures -128 <= digit < 128
  {
    hide SignedLow;
    OddDigit(value, w, digit);
    Pow2Monotone(w, 8);
    assert Pow2(8) == 256 by {
      assert Pow2(4) == 16;
    }
  }

  /** The residue stays far below 2^320. */
  lemma ResidueFits(n: nat, value: nat)
    requires ResidueBound(n, value)
    ensures value <= TOP_BIT
  {
    if n <= 300 {
      Pow2Monotone(300 - n, 300);
    }
    TopPower();
  }

  /** After all 302 digits the residue is gone. */
  lemma WnafComplete(scalar: nat, d: seq<int>, w: nat, value: nat, free: nat)
    requires |d| == FIELD_BITS + 1
    requires WnafInvariant(scalar, d, w, |d|, value, free) && ResidueBound(|d|, value)
    ensures Tail(d, 0) == scalar && NonAdjacent(d, w)
  {
    HeadTail(d, |d|);
    assert value == 0;
    forall i | 0 <= i < |d| && d[i] != 0
      ensures NafDigit(d, i, w)
    {
      assert DigitSoFar(d, i, w, |d|);
    }
  }

  // ---- Signed radix 16 ----

  /** Value of the first `n` base-16 digits. */
  ghost function Head16(d: seq<int>, n: nat): int
    requires n <= |d|
  {
    if n == 0 then 0 else Head16(d, n - 1) + d[n - 1] * Pow16(n - 1)
  }

  ghost function Pow16(n: nat): (p: nat)
    ensures p > 0
  {
    if n == 0 then 1 else 16 * Pow16(n - 1)
  }

  lemma {:induction false} Pow16Pairs(j: nat)
    ensures Pow16(2 * j) == Pow256(j)
  {
    if j != 0 {
      Pow16Pairs(j - 1);
      assert Pow16(2 * j) == 16 * Pow16(2 * j - 1) == 256 * Pow16(2 * (j - 1));
    }
  }

  lemma {:induction false} Head16Extensional(d: seq<int>, e: seq<int>, n: nat)
    requires n <= |d| && n <= |e| && d[..n] == e[..n]
    ensures Head16(d, n) == Head16(e, n)
  {
    if n != 0 {
      assert d[..n - 1] == d[..n][..n - 1] == e[..n][..n - 1] == e[..n - 1];
      assert d[n - 1] == d[..n][n - 1] == e[..n][n - 1] == e[n - 1];
      Head16Extensional(d, e, n - 1);
    }
  }

  /** Digits above `n` contribute the same to both sums. */
  lemma {:induction false} Head16Tail(d: seq<int>, e: seq<int>, n: nat, m: nat)
    requires n <= m <= |d| == |e|
    requires forall k :: n <= k < m ==> d[k] == e[k]
    ensures Head16(d, m) - Head16(d, n) == Head16(e, m) - Head16(e, n)
  {
    if n < m {
      Head16Tail(d, e, n, m - 1);
    }
  }

  /** Nibble `i` of a byte string: the low half of byte `i/2`, then the high half. */
  function Nibble(s: seq<Byte>, i: nat): (n: int)
    requires i / 2 < |s|
    ensures 0 <= n < 16
  {
    if i % 2 == 0 then s[i / 2] % 16 else s[i / 2] / 16
  }

  lemma {:induction false} NibblesSum(s: seq<Byte>, d: seq<int>, j: nat)
    requires |d| == 2 * |s| && j <= |s|
    requires forall k :: 0 <= k < |d| ==> d[k] == Nibble(s, k)
    ensures Head16(d, 2 * j) == LE(s[..j])
  {
    if j != 0 {
      NibblesSum(s, d, j - 1);
      PrefixStep(s, j - 1);
      Pow16Pairs(j - 1);
      var p := Pow256(j - 1);
      assert Head16(d, 2 * j) == Head16(d, 2 * j - 1) + d[2 * j - 1] * Pow16(2 * j - 1);
      assert Pow16(2 * j - 1) == 16 * p;
      assert d[2 * j - 2] == Nibble(s, 2 * (j - 1)) && d[2 * j - 1] == Nibble(s, 2 * (j - 1) + 1);
      JoinNibbles(s[j - 1], p);
    }
  }

  lemma JoinNibbles(b: Byte, p: int)
    ensures b % 16 * p + b / 16 * (16 * p) == b * p
  {
    var q, r := b / 16, b % 16;
    assert b == 16 * q + r;
    assert (16 * q + r) * p == (16 * q) * p + r * p;
  }

  /** Moving a carry from one digit to the next keeps the value. */
  lemma MoveCarry(d: seq<int>, e: seq<int>, i: nat, carry: int)
    requires i + 1 < |d| == |e| && e[..i] == d[..i]
    requires e[i] == d[i] - 16 * carry && e[i + 1] == d[i + 1] + carry
    requires forall k :: i + 2 <= k < |d| ==> e[k] == d[k]
    ensures Head16(e, |e|) == Head16(d, |d|)
  {
    Head16Extensional(d, e, i);
    Head16Tail(d, e, i + 2, |d|);
    var p := Pow16(i);
    TwoDigits(d, i, p);
    TwoDigits(e, i, p);
    CarryValue(d[i], d[i + 1], carry, p);
  }

  lemma TwoDigits(d: seq<int>, i: nat, p: nat)
    requires i + 1 < |d| && p == Pow16(i)
    ensures Head16(d, i + 2) == Head16(d, i) + d[i] * p + d[i + 1] * (16 * p)
  {
    assert Head16(d, i + 1) == Head16(d, i) + d[i] * Pow16(i);
    assert Head16(d, i + 2) == Head16(d, i + 1) + d[i + 1] * Pow16(i + 1);
  }

  lemma CarryValue(x: int, y: int, c: int, p: int)
    ensures (x - 16 * c) * p + (y + c) * (16 * p) == x * p + y * (16 * p)
  {
    assert (x - 16 * c) * p == x * p - 16 * (c * p);
    assert (y + c) * (16 * p) == y * (16 * p) + 16 * (c * p);
  }

  /** The state of the carry loop: the value, the finished digits, the pending one, and the untouched nibbles. */
  ghost predicate CarryState(s: seq<Byte>, d: seq<int>, i: nat) {
    && |d| == 2 * |s| && i < |d|
    && Head16(d, |d|) == LE(s)
    && (forall k :: 0 <= k < i ==> -8 <= d[k] < 8)
    && Nibble(s, i) <= d[i] <= Nibble(s, i) + 1
    && (forall k :: i < k < |d| ==> d[k] == Nibble(s, k))
  }

  lemma CarryStart(s: seq<Byte>, d: seq<int>)
    requires 0 < |s| && |d| == 2 * |s| && forall k :: 0 <= k < |d| ==> d[k] == Nibble(s, k)
    ensures CarryState(s, d, 0)
  {
    NibblesSum(s, d, |s|);
    assert s[..|s|] == s;
  }

  lemma CarryNext(s: seq<Byte>, d: seq<int>, e: seq<int>, i: nat, carry: int)
    requires CarryState(s, d, i) && i + 1 < |d|
    requires carry == (d[i] + 8) / 16
    requires e == d[i := d[i] - 16 * carry][i + 1 := d[i + 1] + carry]
    ensures CarryState(s, e, i + 1)
  {
    MoveCarry(d, e, i, carry);
  }

  /**
   * The recoded digits: base-16 value kept, every digit in [-8, 8). The top digit holds the rest. No intermediate
   * value leaves the 8-bit range, so the wrapping operations never wrap.
   */
  method SignedRadix16(scalar: seq<Byte>) returns (digits: seq<I8>)
    requires |scalar| == FIELD_BYTES
    ensures |digits| == RADIX16_DIGITS && Head16(digits, RADIX16_DIGITS) == LE(scalar)
    ensures forall k :: 0 <= k < RADIX16_DIGITS - 1 ==> -8 <= digits[k] < 8
    ensures scalar[37] / 16 <= digits[RADIX16_DIGITS - 1] <= scalar[37] / 16 + 1
  {
    var buffer := new I8[RADIX16_DIGITS](_ => 0);
    var index := 0;
    while index < RADIX16_DIGITS
      invariant 0 <= index <= RADIX16_DIGITS
      invariant forall k :: 0 <= k < index ==> buffer[k] == Nibble(scalar, k)
    {
      buffer[index] := Nibble(scalar, index);
      index := index + 1;
    }
    CarryStart(scalar, buffer[..]);
    index := 0;
    while index + 1 < RADIX16_DIGITS
      invariant 0 <= index < RADIX16_DIGITS
      invariant CarryState(scalar, buffer[..], index)
    {
      ghost var before := buffer[..];
      var biased: I8 := buffer[index] + 8;
      var carry: I8 := biased / 16;
      var shifted: I8 := 16 * carry;
      buffer[index] := buffer[index] - shifted;
      buffer[index + 1] := buffer[index + 1] + carry;
      CarryNext(scalar, before, buffer[..], index, carry);
      index := index + 1;
    }
    digits := buffer[..];
    assert digits[RADIX16_DIGITS - 1] == buffer[index];
  }
}
