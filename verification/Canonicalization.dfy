// Public-key canonicalization: the limb version, the byte-wise version, and the encoding relation they decide.
module Canonicalization {
  import opened Arithmetic
  import opened Bytes
  import opened Modular
  import opened Reduction
  import opened FieldElements
  import opened Wrappers
  import opened X301Core

  /** The canonical encoding of a 38-byte public value. */
  function CanonicalEncoding(encoded: seq<Byte>): (r: seq<Byte>)
    ensures |r| == FIELD_BYTES
  {
    ToLE(DecodeInteger(LE(encoded)), FIELD_BYTES)
  }

  /** The 301 bits of an encoding that count. */
  function MaskedValue(encoded: seq<Byte>): nat {
    LE(encoded) % TOP
  }

  lemma CanonicalValue(encoded: seq<Byte>)
    ensures LE(CanonicalEncoding(encoded)) == DecodeInteger(LE(encoded)) < P
  {
    Pow256Literals();
    LERoundTrip(DecodeInteger(LE(encoded)), FIELD_BYTES);
  }

  lemma SmallDecode(v: nat)
    requires v < P
    ensures DecodeInteger(v) == v
  {
  }

  /** Canonical encodings are fixed points. */
  lemma CanonicalIdempotent(encoded: seq<Byte>)
    ensures CanonicalEncoding(CanonicalEncoding(encoded)) == CanonicalEncoding(encoded)
  {
    CanonicalValue(encoded);
    SmallDecode(LE(CanonicalEncoding(encoded)));
  }

  /** A 38-byte string is its own canonical encoding exactly when its value is below p. */
  lemma CanonicalExactlyBelowP(encoded: seq<Byte>)
    requires |encoded| == FIELD_BYTES
    ensures CanonicalEncoding(encoded) == encoded <==> LE(encoded) < P
  {
    CanonicalValue(encoded);
    if LE(encoded) < P {
      SmallDecode(LE(encoded));
      LEInjective(CanonicalEncoding(encoded), encoded);
    }
  }

  /** Two encodings are identified exactly when their masked values are congruent modulo p. */
  lemma CanonicalDecidesCongruence(first: seq<Byte>, second: seq<Byte>)
    ensures CanonicalEncoding(first) == CanonicalEncoding(second)
       <==> Cong(MaskedValue(first), MaskedValue(second))
  {
    CanonicalValue(first);
    CanonicalValue(second);
    CongSameResidue(MaskedValue(first), MaskedValue(second));
  }

  /** Canonicalization on limbs. */
  method CanonicalizePublicEncoding(encoded: seq<Byte>) returns (r: Result<seq<Byte>, X301Error>)
    ensures r == if |encoded| == FIELD_BYTES then Ok(CanonicalEncoding(encoded)) else Err(InvalidPublicLength)
  {
    if |encoded| != FIELD_BYTES {
      return Err(InvalidPublicLength);
    }
    var value := FromX301Bytes(encoded);
    var bytes := ToCanonicalBytes(value);
    r := Ok(bytes);
  }

  // ---- Byte-wise version ----

  /** `n` copies of one byte. */
  function Repeat(b: Byte, n: nat): seq<Byte> {
    seq(n, _ => b)
  }

  /** p, byte by byte. */
  const FIELD_MODULUS: seq<Byte> := [0xb3, 0x03] + (Repeat(0, 10) + ([0xf8] + (Repeat(0xff, 24) + [0x1f])))

  lemma {:induction false} RepeatValue(b: Byte, n: nat)
    ensures 255 * LE(Repeat(b, n)) == b * (Pow256(n) - 1)
  {
    if n != 0 {
      RepeatValue(b, n - 1);
      assert Repeat(b, n)[1..] == Repeat(b, n - 1);
    }
  }

  lemma Prepend(s: seq<Byte>, t: seq<Byte>, n: nat, v: nat, w: nat, total: nat)
    requires |s| == n && LE(s) == v && LE(t) == w && total == v + w * Pow256(n)
    ensures LE(s + t) == total
  {
    LEAppend(s, t);
  }

  lemma RepeatPowers()
    ensures Pow256(1) == 0x100 && Pow256(2) == 0x1_0000
    ensures Pow256(10) == 0x1_0000_0000000000000000
    ensures Pow256(24) == 0x1_0000000000000000_0000000000000000_0000000000000000
  {
    Pow256Add(1, 1);
    Pow256Add(2, 8);
    Pow256Add(8, 8);
    Pow256Add(16, 8);
    Pow256Literals();
  }

  lemma ModulusBytes()
    ensures |FIELD_MODULUS| == FIELD_BYTES && LE(FIELD_MODULUS) == P
  {
    RepeatPowers();
    RepeatValue(0xff, 24);
    RepeatValue(0, 10);
    LESingle(0x1f);
    LESingle(0xf8);
    var ones := Repeat(0xff, 24) + [0x1f];
    Prepend(Repeat(0xff, 24), [0x1f], 24, 0xffffffffffffffff_ffffffffffffffff_ffffffffffffffff, 0x1f,
            0x1f_ffffffffffffffff_ffffffffffffffff_ffffffffffffffff);
    var eight := [0xf8] + ones;
    Prepend([0xf8], ones, 1, 0xf8, LE(ones), 0x1fff_ffffffffffffffff_ffffffffffffffff_fffffffffffffff8);
    var zeros := Repeat(0, 10) + eight;
    Prepend(Repeat(0, 10), eight, 10, 0, LE(eight), LE(eight) * 0x1_0000_0000000000000000);
    assert LE([0xb3, 0x03]) == 0x3b3 by {
      LESingle(0x03);
      assert [0xb3, 0x03][1..] == [0x03];
    }
    Prepend([0xb3, 0x03], zeros, 2, 0x3b3, LE(zeros), P);
  }

  /** The first differing byte from the top decides the order. */
  lemma CompareFromTop(s: seq<Byte>, t: seq<Byte>, n: nat)
    requires |s| == |t| && n < |s| && s[n + 1..] == t[n + 1..] && s[n] != t[n]
    ensures LE(s) > LE(t) <==> s[n] > t[n]
    ensures LE(s) != LE(t)
  {
    var w := Pow256(n);
    assert s == s[..n + 1] + s[n + 1..] && t == t[..n + 1] + t[n + 1..];
    LEAppend(s[..n + 1], s[n + 1..]);
    LEAppend(t[..n + 1], t[n + 1..]);
    PrefixStep(s, n);
    PrefixStep(t, n);
    LEBound(s[..n]);
    LEBound(t[..n]);
    DigitOrder(LE(s[..n]), s[n], LE(t[..n]), t[n], w);
  }

  lemma DigitOrder(a: nat, x: int, b: nat, y: int, w: nat)
    requires a < w && b < w && x != y
    ensures a + x * w > b + y * w <==> x > y
    ensures a + x * w != b + y * w
  {
    if x > y {
      MulMonotone(y + 1, x, w);
    } else {
      MulMonotone(x + 1, y, w);
    }
  }

  /** Is the little-endian value at least the modulus? Compare from the most significant byte down. */
  method AtLeastModulus(output: array<Byte>, modulus: seq<Byte>) returns (atLeast: bool)
    requires output.Length == FIELD_BYTES == |modulus|
    ensures atLeast <==> LE(output[..]) >= LE(modulus)
  {
    atLeast := true;
    var index := FIELD_BYTES;
    while index > 0
      invariant 0 <= index <= FIELD_BYTES && atLeast
      invariant forall k :: index <= k < FIELD_BYTES ==> output[k] == modulus[k]
    {
      if output[index - 1] != modulus[index - 1] {
        assert output[..][index..] == modulus[index..];
        CompareFromTop(output[..], modulus, index - 1);
        return output[index - 1] > modulus[index - 1];
      }
      index := index - 1;
    }
    assert output[..] == modulus;
  }

  lemma BorrowStep(d: int, x: int, y: int, b: int, low: int, borrow: int, w: int, v: int, m: int)
    requires d - b * w == v - m
    requires x - y - b == low - 256 * borrow
    ensures (d + low * w) - borrow * (256 * w) == (v + x * w) - (m + y * w)
  {
    assert (x - y - b) * w == x * w - y * w - b * w;
    assert (low - 256 * borrow) * w == low * w - borrow * (256 * w);
  }

  ghost predicate BorrowInvariant(out: seq<Byte>, start: seq<Byte>, modulus: seq<Byte>, index: nat, borrow: int) {
    && |out| == |start| == |modulus| && index <= |out| && 0 <= borrow <= 1
    && out[index..] == start[index..]
    && LE(out[..index]) - borrow * Pow256(index) == LE(start[..index]) - LE(modulus[..index])
  }

  lemma BorrowKept(out: seq<Byte>, next: seq<Byte>, start: seq<Byte>, modulus: seq<Byte>, index: nat, borrow: int,
                   borrowOut: int)
    requires index < |out| && BorrowInvariant(out, start, modulus, index, borrow)
    requires |next| == |out| && next == out[index := next[index]] && 0 <= borrowOut <= 1
    requires out[index] - modulus[index] - borrow == next[index] - 256 * borrowOut
    ensures BorrowInvariant(next, start, modulus, index + 1, borrowOut)
  {
    assert out[index] == out[index..][0] == start[index..][0] == start[index];
    assert next[index + 1..] == out[index..][1..] == start[index + 1..];
    assert next[..index] == out[..index];
    PrefixStep(next, index);
    PrefixStep(start, index);
    PrefixStep(modulus, index);
    BorrowStep(LE(out[..index]), start[index], modulus[index], borrow, next[index], borrowOut,
               Pow256(index), LE(start[..index]), LE(modulus[..index]));
  }

  /** Subtract p in place with a running byte borrow. */
  method SubtractModulusBytes(output: array<Byte>, modulus: seq<Byte>)
    requires output.Length == FIELD_BYTES == |modulus| && LE(output[..]) >= LE(modulus)
    modifies output
    ensures LE(output[..]) == old(LE(output[..])) - LE(modulus)
  {
    ghost var start := output[..];
    var borrow: int := 0;
    var index := 0;
    BorrowStart(start, modulus);
    hide LE, Pow256, BorrowInvariant;
    while index < FIELD_BYTES
      invariant 0 <= index <= FIELD_BYTES && 0 <= borrow <= 1
      invariant BorrowInvariant(output[..], start, modulus, index, borrow)
    {
      ghost var before, borrowIn := output[..], borrow;
      var subtrahend: int := modulus[index] + borrow;
      var value: int := output[index];
      output[index] := (value - subtrahend) % 256;
      borrow := if value < subtrahend then 1 else 0;
      BorrowKept(before, output[..], start, modulus, index, borrowIn, borrow);
      index := index + 1;
    }
    BorrowEnd(output[..], start, modulus, borrow);
  }

  lemma BorrowStart(start: seq<Byte>, modulus: seq<Byte>)
    requires |start| == |modulus|
    ensures BorrowInvariant(start, start, modulus, 0, 0)
  {
  }

  /** A subtrahend no larger than the minuend leaves no borrow. */
  lemma BorrowEnd(out: seq<Byte>, start: seq<Byte>, modulus: seq<Byte>, borrow: int)
    requires BorrowInvariant(out, start, modulus, |out|, borrow) && LE(start) >= LE(modulus)
    ensures LE(out) == LE(start) - LE(modulus)
  {
    hide LE, Pow256;
    assert out[..|out|] == out && start[..|out|] == start && modulus[..|out|] == modulus;
    LEBound(out);
    NoFinalBorrow(LE(out), borrow, Pow256(|out|), LE(start) - LE(modulus));
  }

  lemma NoFinalBorrow(d: nat, borrow: int, w: nat, difference: nat)
    requires 0 <= borrow <= 1 && d < w && d - borrow * w == difference
    ensures borrow == 0
  {
  }

  /** The byte-wise canonicalizer, in place: it agrees with the limb version on every input. */
  method CanonicalizePublic(input: seq<Byte>, output: array<Byte>)
    requires |input| == FIELD_BYTES == output.Length
    modifies output
    ensures output[..] == CanonicalEncoding(input)
  {
    ModulusBytes();
    forall k | 0 <= k < FIELD_BYTES {
      output[k] := input[k];
    }
    assert output[..] == input;
    output[FIELD_BYTES - 1] := output[FIELD_BYTES - 1] % 32;
    assert output[..] == input[FIELD_BYTES - 1 := input[FIELD_BYTES - 1] % 32];
    MaskTopBits(input);
    ResidueOnce(LE(output[..]));
    var atLeast := AtLeastModulus(output, FIELD_MODULUS);
    if atLeast {
      SubtractModulusBytes(output, FIELD_MODULUS);
    }
    CanonicalValue(input);
    LEInjective(output[..], CanonicalEncoding(input));
  }
}
