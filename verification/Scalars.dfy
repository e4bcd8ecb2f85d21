// Bits of little-endian byte strings and the X301 scalar clamp.
module Scalars {
  import opened Arithmetic
  import opened Words
  import opened Bytes
  import opened LadderSpec

  lemma MixedDigits(a: int, b: int, r: int, s: int)
    requires 0 <= r < a && 0 <= s < b
    ensures 0 <= a * s + r < a * b
  {
    MulMonotone(s, b - 1, a);
    assert (b - 1) * a == a * b - a;
    MulMonotone(0, s, a);
  }

  lemma DivDiv(n: nat, a: nat, b: nat)
    requires a > 0 && b > 0
    ensures a * b > 0 && n / (a * b) == (n / a) / b
  {
    var q, r := n / a, n % a;
    var q2, r2 := q / b, q % b;
    assert n == a * q + r && q == b * q2 + r2;
    assert a * (b * q2 + r2) == (a * b) * q2 + a * r2;
    MixedDigits(a, b, r, r2);
    QuotientUnique(n, a * b, q2, a * r2 + r);
  }

  lemma EightBits(i: nat)
    requires i >= 8
    ensures Pow2(i) == 256 * Pow2(i - 8)
  {
    assert Pow2(i) == 2 * Pow2(i - 1) == 4 * Pow2(i - 2) == 8 * Pow2(i - 3) == 16 * Pow2(i - 4);
    assert Pow2(i - 4) == 2 * Pow2(i - 5) == 4 * Pow2(i - 6) == 8 * Pow2(i - 7) == 16 * Pow2(i - 8);
  }

  lemma Pow2Small()
    ensures Pow2(0) == 1 && Pow2(1) == 2 && Pow2(2) == 4 && Pow2(3) == 8
    ensures Pow2(4) == 16 && Pow2(5) == 32 && Pow2(6) == 64 && Pow2(7) == 128 && Pow2(8) == 256
  {
  }

  lemma QuotientOfSum(b: nat, p: nat, m: nat)
    requires p > 0
    ensures (b + p * m) / p == b / p + m
  {
    var q, r := b / p, b % p;
    assert b + p * m == p * (q + m) + r;
    QuotientUnique(b + p * m, p, q + m, r);
  }

  lemma LowByteBit(b: Byte, r: nat, i: nat)
    requires i < 8
    ensures Bit(b + 256 * r, i) <==> Bit(b, i)
  {
    var p, h := Pow2(i), Pow2(7 - i);
    Pow2Add(i, 8 - i);
    Pow2Small();
    assert Pow2(8 - i) == 2 * h;
    assert 256 * r == p * (2 * (h * r)) by {
      assert p * (2 * h) == 256;
      assert p * (2 * (h * r)) == (p * (2 * h)) * r;
    }
    QuotientOfSum(b, p, 2 * (h * r));
  }

  lemma ShiftByte(n: nat, i: nat)
    requires i >= 8
    ensures Bit(n, i) <==> Bit(n / 256, i - 8)
  {
    EightBits(i);
    DivDiv(n, 256, Pow2(i - 8));
  }

  /** Bit `i` of a byte string: byte `i >> 3`, position `i & 7`. */
  lemma {:induction false} BitOfBytes(s: seq<Byte>, i: nat)
    requires i < 8 * |s|
    ensures Bit(LE(s), i) <==> Bit(s[i / 8], i % 8)
  {
    if i < 8 {
      LowByteBit(s[0], LE(s[1..]), i);
    } else {
      hide Bit;
      BitOfBytes(s[1..], i - 8);
      ShiftByte(LE(s), i);
      assert i % 8 == (i - 8) % 8;
      assert LE(s) / 256 == LE(s[1..]);
      assert s[1..][(i - 8) / 8] == s[i / 8];
    }
  }

  /** The clamp on integers: drop bits 0, 1 and everything from bit 300 up, then set bit 300. */
  function ClampInteger(n: nat): (k: nat)
    ensures Clamped(k)
  {
    n % TOP_BIT / 4 * 4 + TOP_BIT
  }

  lemma ClampLow(b: Byte, r: nat)
    ensures b - b % 4 + 256 * r == (b + 256 * r) / 4 * 4
  {
    QuotientOfSum(b, 4, 64 * r);
  }

  lemma ClampHigh(low: nat, b: Byte, w: nat)
    requires low < w
    ensures (low + b * w) % (16 * w) == low + b % 16 * w
  {
    var q, r := b / 16, b % 16;
    assert low + b * w == (16 * w) * q + (low + r * w) by {
      assert b * w == (16 * q + r) * w == (16 * w) * q + r * w;
    }
    MulMonotone(r, 15, w);
    QuotientUnique(low + b * w, 16 * w, q, low + r * w);
  }

  lemma FloorFourMod(n: nat, m: nat)
    ensures n / 4 * 4 % (4 * m + 4) == n % (4 * m + 4) / 4 * 4
  {
    var d := 4 * m + 4;
    var q, r := n / d, n % d;
    assert n == d * q + r;
    assert n / 4 == (m + 1) * q + r / 4 by {
      assert n == 4 * ((m + 1) * q) + r;
    }
    assert n / 4 * 4 == d * q + r / 4 * 4;
    QuotientUnique(n / 4 * 4, d, q, r / 4 * 4);
  }

  /** Clearing the two low bits of the first byte. */
  lemma ClampFirstByte(s: seq<Byte>)
    requires |s| > 0
    ensures LE(s[0 := s[0] - s[0] % 4]) == LE(s) / 4 * 4
  {
    var m := s[0 := s[0] - s[0] % 4];
    assert m[1..] == s[1..];
    ClampLow(s[0], LE(s[1..]));
  }

  /** Keeping four bits of the last byte and setting the fifth. */
  lemma ClampLastByte(m: seq<Byte>)
    requires |m| == FIELD_BYTES
    ensures LE(m[37 := m[37] % 16 + 16]) == LE(m) % TOP_BIT + TOP_BIT
  {
    LastByte(m, m[37] % 16 + 16, 37);
    Pow256Literals();
    ClampHigh(LE(m[..37]), m[37], Pow256(37));
    DistributeOver(m[37] % 16, Pow256(37));
  }

  lemma DistributeOver(b: nat, w: nat)
    ensures (b + 16) * w == b * w + 16 * w
  {
  }

  lemma ClampCombine(n: nat, m: nat, k: nat)
    requires m == n / 4 * 4 && k == m % TOP_BIT + TOP_BIT
    ensures k == ClampInteger(n)
  {
    FloorFourMod(n, TOP_BIT / 4 - 1);
  }

  /** The clamp bit by bit: bit 300 is set, bits 2 to 299 are kept, and every other bit is clear. */
  lemma ClampBits(n: nat, i: nat)
    ensures Bit(ClampInteger(n), i) <==> i == 300 || (2 <= i < 300 && Bit(n, i))
  {
    hide Bit;
    var k, m := ClampInteger(n), n % TOP_BIT;
    TopPower();
    if i < 2 {
      LowBitClear(k, i);
    } else if i < 300 {
      FourBelow(m, i);
      HighPartSplits(1, m / 4 * 4, i);
      HighPartSplits(n / TOP_BIT, m, i);
      Divide(n, TOP_BIT);
      KeptBit(n, k, m, i);
    } else if i == 300 {
      TopBitSet(k);
    } else {
      HighBitClear(k, i);
    }
  }

  lemma LowBitClear(k: nat, i: nat)
    requires k % 4 == 0 && i < 2
    ensures !Bit(k, i)
  {
    Pow2Small();
  }

  /** Clearing the two low bits does not change the quotient by a multiple of four. */
  lemma FourBelow(m: nat, i: nat)
    requires i >= 2
    ensures m / 4 * 4 / Pow2(i) == m / Pow2(i)
  {
    var p := Pow2(i - 2);
    assert Pow2(i) == 2 * Pow2(i - 1) == 4 * p;
    DivDiv(m, 4, p);
    DivDiv(m / 4 * 4, 4, p);
    QuotientUnique(m / 4 * 4, 4, m / 4, 0);
  }

  /** A multiple of 2^300 on top adds an even number to the quotient by 2^i. */
  lemma HighPartSplits(q: nat, m: nat, i: nat)
    requires i < 300
    ensures (TOP_BIT * q + m) / Pow2(i) == Pow2(300 - i) * q + m / Pow2(i)
  {
    var p, h := Pow2(i), Pow2(300 - i);
    Pow2Add(i, 300 - i);
    TopPower();
    Divide(m, p);
    assert TOP_BIT * q + m == p * (h * q + m / p) + m % p by {
      assert (p * h) * q == p * (h * q);
    }
    QuotientUnique(TOP_BIT * q + m, p, h * q + m / p, m % p);
  }

  lemma KeptBit(n: nat, k: nat, m: nat, i: nat)
    requires 2 <= i < 300
    requires k / Pow2(i) == Pow2(300 - i) * 1 + m / Pow2(i)
    requires n / Pow2(i) == Pow2(300 - i) * (n / TOP_BIT) + m / Pow2(i)
    ensures Bit(k, i) <==> Bit(n, i)
  {
    var h := Pow2(300 - i - 1);
    assert Pow2(300 - i) == 2 * h;
    SameParity(n / Pow2(i), m / Pow2(i), h * (n / TOP_BIT));
    SameParity(k / Pow2(i), m / Pow2(i), h);
    Reassociate(2, h, n / TOP_BIT);
  }

  lemma SameParity(x: int, y: int, half: int)
    ensures x == 2 * half + y ==> x % 2 == y % 2
  {
  }

  lemma TopBitSet(k: nat)
    requires TOP_BIT <= k < 2 * TOP_BIT
    ensures Bit(k, 300)
  {
    TopPower();
    QuotientUnique(k, TOP_BIT, 1, k - TOP_BIT);
  }

  lemma HighBitClear(k: nat, i: nat)
    requires k < 2 * TOP_BIT && i > 300
    ensures !Bit(k, i)
  {
    TopPower();
    Pow2Add(301, i - 301);
    assert Pow2(301) == 2 * TOP_BIT;
    MulMonotone(1, Pow2(i - 301), Pow2(301));
    QuotientUnique(k, Pow2(i), 0, k);
  }

  /** The byte edits of the clamp are the integer clamp. */
  lemma ClampBytes(s: seq<Byte>, t: seq<Byte>)
    requires |s| == FIELD_BYTES
    requires t == s[0 := s[0] - s[0] % 4][37 := s[37] % 16 + 16]
    ensures LE(t) == ClampInteger(LE(s))
  {
    hide LE, ClampInteger;
    var m := s[0 := s[0] - s[0] % 4];
    assert m[37] == s[37];
    ClampFirstByte(s);
    ClampLastByte(m);
    ClampCombine(LE(s), LE(m), LE(t));
  }
}
