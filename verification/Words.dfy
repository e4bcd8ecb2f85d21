// Machine words, multi-limb values and the bit operations of the limb code.
module Words {
  import opened Arithmetic
  const RADIX: int := 0x1_0000_0000_0000_0000

  /** A `u64`. */
  type Word = w: int | 0 <= w < RADIX

  /** 2^64 to the power `n`. */
  ghost function Pow64(n: nat): (p: nat)
    ensures p > 0
  {
    if n == 0 then 1 else RADIX * Pow64(n - 1)
  }

  /** The integer that the `n` low limbs of `s` stand for, least significant first. */
  ghost function Val(s: seq<Word>, n: nat): nat
    requires n <= |s|
  {
    if n == 0 then 0
    else
      assert s[n - 1] * Pow64(n - 1) >= 0;
      Val(s, n - 1) + s[n - 1] * Pow64(n - 1)
  }

  ghost function Value(s: seq<Word>): nat {
    Val(s, |s|)
  }

  /** Limbs at or above `n` do not matter. */
  lemma {:induction false} ValExtensional(s: seq<Word>, t: seq<Word>, n: nat)
    requires n <= |s| && n <= |t|
    requires s[..n] == t[..n]
    ensures Val(s, n) == Val(t, n)
  {
    if n != 0 {
      assert s[..n - 1] == s[..n][..n - 1] == t[..n][..n - 1] == t[..n - 1];
      assert s[n - 1] == s[..n][n - 1] == t[..n][n - 1] == t[n - 1];
      ValExtensional(s, t, n - 1);
    }
  }

  lemma {:induction false} ValBound(s: seq<Word>, n: nat)
    requires n <= |s|
    ensures Val(s, n) < Pow64(n)
  {
    if n != 0 {
      ValBound(s, n - 1);
      MulMonotone(s[n - 1], RADIX - 1, Pow64(n - 1));
    }
  }

  lemma {:induction false} ValZeros(s: seq<Word>, n: nat, m: nat)
    requires n <= m <= |s|
    requires forall k :: n <= k < m ==> s[k] == 0
    ensures Val(s, m) == Val(s, n)
  {
    if n < m {
      ValZeros(s, n, m - 1);
    }
  }

  /** Distinct limb vectors of one length stand for distinct integers. */
  lemma {:induction false} ValInjective(s: seq<Word>, t: seq<Word>, n: nat)
    requires n <= |s| && n <= |t|
    requires Val(s, n) == Val(t, n)
    ensures s[..n] == t[..n]
  {
    if n != 0 {
      ValBound(s, n - 1);
      ValBound(t, n - 1);
      DigitUnique(Val(s, n - 1), s[n - 1], Val(t, n - 1), t[n - 1], Pow64(n - 1));
      ValInjective(s, t, n - 1);
      assert s[..n] == s[..n - 1] + [s[n - 1]];
      assert t[..n] == t[..n - 1] + [t[n - 1]];
    }
  }

  lemma WordProductBound(x: Word, y: Word)
    ensures 0 <= x * y <= (RADIX - 1) * (RADIX - 1)
  {
    MulBound(x, RADIX - 1, y, RADIX - 1);
  }

  lemma Pow64Add(m: nat, n: nat)
    ensures Pow64(m + n) == Pow64(m) * Pow64(n)
  {
    if m != 0 {
      Pow64Add(m - 1, n);
      assert Pow64(m + n) == RADIX * (Pow64(m - 1) * Pow64(n));
    }
  }

  const R2: int := 0x1_0000000000000000_0000000000000000
  const R3: int := 0x1_0000000000000000_0000000000000000_0000000000000000
  const R4: int := 0x1_0000000000000000_0000000000000000_0000000000000000_0000000000000000
  const R5: int :=
    0x1_0000000000000000_0000000000000000_0000000000000000_0000000000000000_0000000000000000
  const R6: int :=
    0x1_0000000000000000_0000000000000000_0000000000000000_0000000000000000_0000000000000000_0000000000000000
  const R7: int :=
    0x1_0000000000000000_0000000000000000_0000000000000000_0000000000000000_0000000000000000_0000000000000000_0000000000000000
  const R8: int :=
    0x1_0000000000000000_0000000000000000_0000000000000000_0000000000000000_0000000000000000_0000000000000000_0000000000000000_0000000000000000
  const R9: int :=
    0x1_0000000000000000_0000000000000000_0000000000000000_0000000000000000_0000000000000000_0000000000000000_0000000000000000_0000000000000000_0000000000000000
  const R10: int :=
    0x1_0000000000000000_0000000000000000_0000000000000000_0000000000000000_0000000000000000_0000000000000000_0000000000000000_0000000000000000_0000000000000000_0000000000000000

  lemma Pow64Literals()
    ensures Pow64(0) == 1 && Pow64(1) == RADIX && Pow64(2) == R2 && Pow64(3) == R3 && Pow64(4) == R4 && Pow64(5) == R5
    ensures Pow64(6) == R6 && Pow64(7) == R7 && Pow64(8) == R8 && Pow64(9) == R9 && Pow64(10) == R10
  {
    assert Pow64(1) == RADIX * Pow64(0);
    assert Pow64(2) == RADIX * Pow64(1);
    assert Pow64(3) == RADIX * Pow64(2);
    assert Pow64(4) == RADIX * Pow64(3);
    assert Pow64(5) == RADIX * Pow64(4);
    assert Pow64(6) == RADIX * Pow64(5);
    assert Pow64(7) == RADIX * Pow64(6);
    assert Pow64(8) == RADIX * Pow64(7);
    assert Pow64(9) == RADIX * Pow64(8);
    assert Pow64(10) == RADIX * Pow64(9);
  }

  lemma Val2(s: seq<Word>)
    requires |s| >= 2
    ensures Val(s, 2) == s[0] + s[1] * RADIX
  {
    Pow64Literals();
    assert Val(s, 1) == s[0] * Pow64(0);
    assert Val(s, 2) == Val(s, 1) + s[1] * Pow64(1);
  }

  lemma Val5(s: seq<Word>)
    requires |s| >= 5
    ensures Val(s, 5) == s[0] + s[1] * RADIX + s[2] * R2 + s[3] * R3 + s[4] * R4
  {
    Val2(s);
    Pow64Literals();
    assert Val(s, 3) == Val(s, 2) + s[2] * Pow64(2);
    assert Val(s, 4) == Val(s, 3) + s[3] * Pow64(3);
    assert Val(s, 5) == Val(s, 4) + s[4] * Pow64(4);
  }

  lemma Val10(s: seq<Word>)
    requires |s| >= 10
    ensures Val(s, 6) == Val(s, 5) + s[5] * R5
    ensures Val(s, 7) == Val(s, 6) + s[6] * R6
    ensures Val(s, 10) == Val(s, 7) + s[7] * R7 + s[8] * R8 + s[9] * R9
  {
    Pow64Literals();
    assert Val(s, 8) == Val(s, 7) + s[7] * Pow64(7);
    assert Val(s, 9) == Val(s, 8) + s[8] * Pow64(8);
    assert Val(s, 10) == Val(s, 9) + s[9] * Pow64(9);
  }

  /** 2 to the power `n`. */
  function Pow2(n: nat): (p: nat)
    ensures p > 0
  {
    if n == 0 then 1 else 2 * Pow2(n - 1)
  }

  lemma Pow2Add(m: nat, n: nat)
    ensures Pow2(m + n) == Pow2(m) * Pow2(n)
  {
    if m != 0 {
      Pow2Add(m - 1, n);
      assert Pow2(m + n) == 2 * (Pow2(m - 1) * Pow2(n));
    }
  }

  const FIELD_BITS: nat := 301

  /** 2^300 */
  const TOP_BIT: nat := 0x1000_00000000_0000000000000000_0000000000000000_0000000000000000_0000000000000000

  /** Sixty factors of 32. */
  lemma SixtyTimes(n: nat)
    requires Pow2(n) == 32
    ensures Pow2(60 * n) == TOP_BIT
  {
    Pow2Add(n, n);
    Pow2Add(2 * n, n);
    Pow2Add(3 * n, 3 * n);
    Pow2Add(6 * n, 6 * n);
    Pow2Add(12 * n, 3 * n);
    Pow2Add(15 * n, 15 * n);
    Pow2Add(30 * n, 30 * n);
  }

  lemma TopPower()
    ensures Pow2(300) == TOP_BIT
  {
    SixtyTimes(5);
  }

  /** Bitwise or of two non-negative integers. */
  function BitOr(x: nat, y: nat): nat {
    if x == 0 && y == 0 then 0
    else (if x % 2 == 1 || y % 2 == 1 then 1 else 0) + 2 * BitOr(x / 2, y / 2)
  }

  /** Or of operands without a common bit position is their sum. */
  lemma {:induction false} BitOrDisjoint(x: nat, y: nat, n: nat)
    requires x < Pow2(n)
    ensures BitOr(x, y * Pow2(n)) == x + y * Pow2(n)
  {
    if n == 0 {
      BitOrZero(y);
    } else {
      var m := y * Pow2(n - 1);
      assert y * Pow2(n) == 2 * m;
      BitOrDisjoint(x / 2, y, n - 1);
    }
  }

  lemma {:induction false} BitOrZero(y: nat)
    ensures BitOr(0, y) == y == BitOr(y, 0)
  {
    if y != 0 {
      BitOrZero(y / 2);
    }
  }

  lemma {:induction false} BitOrSymmetric(x: nat, y: nat)
    ensures BitOr(x, y) == BitOr(y, x)
  {
    if x != 0 || y != 0 {
      BitOrSymmetric(x / 2, y / 2);
    }
  }
}
