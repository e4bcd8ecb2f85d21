// Canonical, lazy and loose field elements over five limbs, and their byte encodings.
module FieldElements {
  import opened Wrappers
  import opened Arithmetic
  import opened Words
  import opened Bytes
  import opened Modular
  import opened LimbArithmetic
  import opened Reduction

  const MODULUS: Limbs :=
    [0x3b3, 0xffff_fff8_0000_0000, 0xffff_ffff_ffff_ffff, 0xffff_ffff_ffff_ffff, 0x1fff_ffff_ffff]
  const MODULUS_TIMES_TWO: Limbs :=
    [0x766, 0xffff_fff0_0000_0000, 0xffff_ffff_ffff_ffff, 0xffff_ffff_ffff_ffff, 0x3fff_ffff_ffff]

  lemma ModulusValue()
    ensures Value(MODULUS) == P
  {
    Val5(MODULUS);
  }

  lemma ModulusTimesTwoValue()
    ensures Value(MODULUS_TIMES_TWO) == 2 * P
  {
    Val5(MODULUS_TIMES_TWO);
  }

  /** Subtract the modulus exactly when the value reaches it. */
  method ConditionalSubtractModulus(input: Limbs) returns (output: Limbs)
    ensures Value(output) == if Value(input) >= P then Value(input) - P else Value(input)
  {
    ModulusValue();
    var reduced, borrow := SubtractLimbs(input, MODULUS);
    output := if borrow == 0 then reduced else input;
  }

  lemma ResidueOnce(v: int)
    requires 0 <= v < 2 * P
    ensures v % P == if v >= P then v - P else v
  {
  }

  /** A sum of two five-limb values below 2^320 leaves no carry. */
  lemma NoCarry(sum: nat, carry: nat)
    requires sum + carry * Pow64(LIMBS) <= 16 * P
    ensures carry == 0
  {
    Pow64Literals();
  }

  /** Limbs of a value below p, below 2p and below 4p. */
  type CanonicalLimbs = s: Limbs | Value(s) < P witness [0, 0, 0, 0, 0]
  type LazyLimbs = s: Limbs | Value(s) < 2 * P witness [0, 0, 0, 0, 0]
  type LooseLimbs = s: Limbs | Value(s) < 4 * P witness [0, 0, 0, 0, 0]

  // ---- Canonical elements ----

  datatype Fe301 = Fe301(limbs: CanonicalLimbs) {
    /** The residue this element stands for. */
    ghost function Int(): int {
      Value(limbs)
    }

    method Add(rhs: Fe301) returns (r: Fe301)
      ensures r.Int() == (Int() + rhs.Int()) % P
    {
      var sum, carry := AddLimbs(limbs, rhs.limbs);
      NoCarry(Value(sum), carry);
      var output := ConditionalSubtractModulus(sum);
      ResidueOnce(Value(sum));
      r := Fe301(output);
    }

    method Sub(rhs: Fe301) returns (r: Fe301)
      ensures r.Int() == (Int() - rhs.Int()) % P
    {
      ModulusValue();
      var difference, borrow := SubtractLimbs(limbs, rhs.limbs);
      var corrected, carry := AddLimbs(difference, MODULUS);
      ValBound(difference, LIMBS);
      ValBound(corrected, LIMBS);
      WrappedDifference(Value(difference), borrow, Value(corrected), carry, Int(), rhs.Int());
      r := Fe301(if borrow == 1 then corrected else difference);
    }

    method Neg() returns (r: Fe301)
      ensures r.Int() == -Int() % P
    {
      ZeroAndOne();
      r := ZERO.Sub(this);
    }

    method Mul(rhs: Fe301) returns (r: Fe301)
      ensures r.Int() == (Int() * rhs.Int()) % P
    {
      var product := MultiplyWide(limbs, rhs.limbs);
      CanonicalProduct(Int(), rhs.Int());
      var reduced := ReduceWideUnreduced(product);
      var output := ConditionalSubtractModulus(reduced);
      ResidueOnce(Value(reduced));
      CongSameResidue(Value(reduced), Value(product));
      r := Fe301(output);
    }

    method MulSmall(value: Word) returns (r: Fe301)
      requires value < 0x1_0000_0000
      ensures r.Int() == (Int() * value) % P
    {
      var product := MultiplyFiveByU32(limbs, value);
      SmallProductBound(Int(), value);
      var reduced := ReduceSmallProductUnreduced(product);
      var output := ConditionalSubtractModulus(reduced);
      ResidueOnce(Value(reduced));
      CongSameResidue(Value(reduced), Value(product));
      r := Fe301(output);
    }

    method Square() returns (r: Fe301)
      ensures r.Int() == (Int() * Int()) % P
    {
      var product := SquareWide(limbs);
      CanonicalProduct(Int(), Int());
      var reduced := ReduceWideUnreduced(product);
      var output := ConditionalSubtractModulus(reduced);
      ResidueOnce(Value(reduced));
      CongSameResidue(Value(reduced), Value(product));
      r := Fe301(output);
    }

    /** Limb-wise equality decides equality of residues. */
    predicate CtEq(rhs: Fe301)
      ensures CtEq(rhs) <==> Int() == rhs.Int()
    {
      LimbsDetermined(limbs, rhs.limbs);
      limbs == rhs.limbs
    }
  }

  const ZERO: Fe301 := Fe301([0, 0, 0, 0, 0])
  const ONE: Fe301 := Fe301([1, 0, 0, 0, 0])

  lemma ZeroAndOne()
    ensures ZERO.Int() == 0 && ONE.Int() == 1
  {
    Val5(ZERO.limbs);
    Val5(ONE.limbs);
  }

  lemma LimbsDetermined(s: seq<Word>, t: seq<Word>)
    requires |s| == |t|
    ensures s == t <==> Value(s) == Value(t)
  {
    if Value(s) == Value(t) {
      ValInjective(s, t, |s|);
      assert s[..|s|] == s && t[..|t|] == t;
    }
  }

  lemma WrappedDifference(difference: nat, borrow: nat, corrected: nat, carry: nat, x: nat, y: nat)
    requires x < P && y < P && borrow <= 1 && carry <= 1
    requires difference - borrow * Pow64(LIMBS) == x - y
    requires corrected + carry * Pow64(LIMBS) == difference + P
    requires corrected < Pow64(LIMBS) && difference < Pow64(LIMBS)
    ensures (if borrow == 1 then corrected else difference) == (x - y) % P
  {
    Pow64Literals();
  }

  lemma CanonicalProduct(x: nat, y: nat)
    requires x < 4 * P && y < 4 * P
    ensures x * y < 16 * P * P
  {
    MulBound(x, 4 * P - 1, y, 4 * P - 1);
  }

  lemma SmallProductBound(x: nat, y: nat)
    requires x < 4 * P && y < 0x1_0000_0000
    ensures x * y < 4 * P * 0x1_0000_0000
  {
    MulBound(x, 4 * P - 1, y, 0xffff_ffff);
  }

  // ---- Lazy elements in [0, 2p) and loose sums and differences in [0, 4p) ----

  datatype Fe301Lazy = Fe301Lazy(limbs: LazyLimbs) {
    ghost function Int(): int {
      Value(limbs)
    }

    static function FromFe301(value: Fe301): (r: Fe301Lazy)
      ensures r.Int() == value.Int()
    {
      Fe301Lazy(value.limbs)
    }

    /** The canonical representative: one conditional subtraction. */
    method Canonical() returns (r: Fe301)
      ensures r.Int() == Int() % P
    {
      var output := ConditionalSubtractModulus(limbs);
      ResidueOnce(Int());
      r := Fe301(output);
    }

    method AddLoose(rhs: Fe301Lazy) returns (r: Fe301LazyLinear)
      ensures r.Int() == Int() + rhs.Int()
    {
      var sum, carry := AddLimbs(limbs, rhs.limbs);
      NoCarry(Value(sum), carry);
      assert carry == 0;
      r := Fe301LazyLinear(sum);
    }

    /** `self + 2p - rhs` */
    method SubLoose(rhs: Fe301Lazy) returns (r: Fe301LazyLinear)
      ensures r.Int() == Int() + 2 * P - rhs.Int()
    {
      ModulusTimesTwoValue();
      var augmented, carry := AddLimbs(limbs, MODULUS_TIMES_TWO);
      NoCarry(Value(augmented), carry);
      assert carry == 0;
      var difference, borrow := SubtractLimbs(augmented, rhs.limbs);
      assert borrow == 0;
      r := Fe301LazyLinear(difference);
    }

    method Mul(rhs: Fe301Lazy) returns (r: Fe301Lazy)
      ensures Cong(r.Int(), Int() * rhs.Int())
    {
      var product := MultiplyWide(limbs, rhs.limbs);
      CanonicalProduct(Int(), rhs.Int());
      var reduced := ReduceWideUnreduced(product);
      r := Fe301Lazy(reduced);
    }

    method Square() returns (r: Fe301Lazy)
      ensures Cong(r.Int(), Int() * Int())
    {
      var product := SquareWide(limbs);
      CanonicalProduct(Int(), Int());
      var reduced := ReduceWideUnreduced(product);
      r := Fe301Lazy(reduced);
    }

    method MulSmall(value: Word) returns (r: Fe301Lazy)
      requires value < 0x1_0000_0000
      ensures Cong(r.Int(), Int() * value)
    {
      var product := MultiplyFiveByU32(limbs, value);
      SmallProductBound(Int(), value);
      var reduced := ReduceSmallProductUnreduced(product);
      r := Fe301Lazy(reduced);
    }

    method IsZero() returns (zero: bool)
      ensures zero <==> Int() % P == 0
    {
      var canonical := Canonical();
      ZeroAndOne();
      zero := canonical.CtEq(ZERO);
    }
  }

  datatype Fe301LazyLinear = Fe301LazyLinear(limbs: LooseLimbs) {
    ghost function Int(): int {
      Value(limbs)
    }

    method Mul(rhs: Fe301LazyLinear) returns (r: Fe301Lazy)
      ensures Cong(r.Int(), Int() * rhs.Int())
    {
      var product := MultiplyWide(limbs, rhs.limbs);
      CanonicalProduct(Int(), rhs.Int());
      var reduced := ReduceWideUnreduced(product);
      r := Fe301Lazy(reduced);
    }

    method Square() returns (r: Fe301Lazy)
      ensures Cong(r.Int(), Int() * Int())
    {
      var product := SquareWide(limbs);
      CanonicalProduct(Int(), Int());
      var reduced := ReduceWideUnreduced(product);
      r := Fe301Lazy(reduced);
    }

    /** Multiply by a reduced ladder value. */
    method MulTight(rhs: Fe301Lazy) returns (r: Fe301Lazy)
      ensures Cong(r.Int(), Int() * rhs.Int())
    {
      var product := MultiplyWide(limbs, rhs.limbs);
      CanonicalProduct(Int(), rhs.Int());
      var reduced := ReduceWideUnreduced(product);
      r := Fe301Lazy(reduced);
    }

    method MulSmall(value: Word) returns (r: Fe301Lazy)
      requires value < 0x1_0000_0000
      ensures Cong(r.Int(), Int() * value)
    {
      var product := MultiplyFiveByU32(limbs, value);
      SmallProductBound(Int(), value);
      var reduced := ReduceSmallProductUnreduced(product);
      r := Fe301Lazy(reduced);
    }

    /** Bring a loose value back under 2p: subtract 2p exactly when it is reached. */
    method Tighten() returns (r: Fe301Lazy)
      ensures r.Int() == if Int() >= 2 * P then Int() - 2 * P else Int()
    {
      ModulusTimesTwoValue();
      var reduced, borrow := SubtractLimbs(limbs, MODULUS_TIMES_TWO);
      r := Fe301Lazy(if borrow == 0 then reduced else limbs);
    }
  }

  // ---- Byte encodings ----

  lemma WeightOfLimb(i: nat)
    ensures Pow256(8 * i) == Pow64(i)
  {
    if i != 0 {
      WeightOfLimb(i - 1);
      Pow256Literals();
      Pow256Add(8, 8 * (i - 1));
    }
  }

  /** A word from its eight little-endian bytes. */
  function WordFromBytes(bytes: seq<Byte>): (w: Word)
    requires |bytes| <= 8
    ensures w == LE(bytes)
  {
    LEBound(bytes);
    Pow256Monotone(|bytes|, 8);
    Pow256Literals();
    LE(bytes)
  }

  lemma Pow256Monotone(m: nat, n: nat)
    requires m <= n
    ensures Pow256(m) <= Pow256(n)
  {
    Pow256Add(n - m, m);
    MulMonotone(1, Pow256(n - m), Pow256(m));
  }

  lemma NextEightBytes(bytes: seq<Byte>, i: nat, v: int, x: Word)
    requires 8 * i + 8 <= |bytes|
    requires v == LE(bytes[..8 * i]) && x == LE(bytes[8 * i..8 * i + 8])
    ensures LE(bytes[..8 * (i + 1)]) == v + x * Pow64(i)
  {
    assert bytes[..8 * (i + 1)] == bytes[..8 * i] + bytes[8 * i..8 * i + 8];
    LEAppend(bytes[..8 * i], bytes[8 * i..8 * i + 8]);
    WeightOfLimb(i);
  }

  method DecodeLimbs(bytes: seq<Byte>) returns (limbs: Limbs)
    requires |bytes| == FIELD_BYTES
    ensures Value(limbs) == LE(bytes)
  {
    var output := new Word[LIMBS](_ => 0);
    var index := 0;
    while index < LIMBS - 1
      invariant 0 <= index <= LIMBS - 1
      invariant Val(output[..], index) == LE(bytes[..8 * index])
    {
      ghost var before := output[..];
      output[index] := WordFromBytes(bytes[8 * index..8 * index + 8]);
      ValStep(before, output[..], index);
      NextEightBytes(bytes, index, Val(before, index), output[index]);
      index := index + 1;
    }
    ghost var before := output[..];
    output[4] := WordFromBytes(bytes[32..]);
    limbs := output[..];
    ValStep(before, limbs, 4);
    LastSixBytes(bytes, Val(before, 4), output[4]);
  }

  lemma LastSixBytes(bytes: seq<Byte>, v: int, x: Word)
    requires |bytes| == FIELD_BYTES && v == LE(bytes[..32]) && x == LE(bytes[32..])
    ensures LE(bytes) == v + x * Pow64(4)
  {
    assert bytes == bytes[..32] + bytes[32..];
    LEAppend(bytes[..32], bytes[32..]);
    WeightOfLimb(4);
  }

  lemma TopLimbBytes(limbs: Limbs)
    requires Value(limbs) < 2 * P
    ensures limbs[4] < Pow256(6)
  {
    Val5(limbs);
    Pow256Literals();
  }

  lemma TruncatedLE(w: Word)
    requires w < Pow256(6)
    ensures LE(ToLE(w, 8)[..6]) == w
  {
    TruncateLE(w, 8, 6);
    LERoundTrip(w, 6);
  }

  lemma AppendEightBytes(encoded: seq<Byte>, x: Word, i: nat)
    requires |encoded| == 8 * i
    ensures LE(encoded + ToLE(x, 8)) == LE(encoded) + x * Pow64(i)
  {
    Pow256Literals();
    AppendLE(encoded, x, 8);
    WeightOfLimb(i);
  }

  lemma AppendTopBytes(encoded: seq<Byte>, limbs: Limbs)
    requires |encoded| == 32 && Value(limbs) < 2 * P
    requires LE(encoded) == Val(limbs, 4)
    ensures LE(encoded + ToLE(limbs[4], 8)[..6]) == Value(limbs)
  {
    TopLimbBytes(limbs);
    TruncatedLE(limbs[4]);
    LEAppend(encoded, ToLE(limbs[4], 8)[..6]);
    WeightOfLimb(4);
  }

  lemma {:induction false} TruncateLE(n: nat, len: nat, short: nat)
    requires short <= len
    ensures ToLE(n, len)[..short] == ToLE(n, short)
  {
    if short != 0 {
      TruncateLE(n / 256, len - 1, short - 1);
      assert ToLE(n, len)[..short] == [n % 256] + ToLE(n / 256, len - 1)[..short - 1];
    }
  }

  /** The unique 38-byte encoding of a canonical element. */
  method ToCanonicalBytes(value: Fe301) returns (encoded: seq<Byte>)
    ensures encoded == ToLE(value.Int(), FIELD_BYTES)
    ensures |encoded| == FIELD_BYTES && LE(encoded) == value.Int()
  {
    encoded := [];
    var index := 0;
    while index < LIMBS - 1
      invariant 0 <= index <= LIMBS - 1
      invariant |encoded| == 8 * index && LE(encoded) == Val(value.limbs, index)
    {
      AppendEightBytes(encoded, value.limbs[index], index);
      encoded := encoded + ToLE(value.limbs[index], 8);
      index := index + 1;
    }
    AppendTopBytes(encoded, value.limbs);
    encoded := encoded + ToLE(value.limbs[4], 8)[..FIELD_BYTES - 32];
    LEEncodingUnique(encoded);
  }

  /** Strict decoding: present exactly for the encodings of values below p. */
  method FromCanonicalBytes(bytes: seq<Byte>) returns (value: Option<Fe301>)
    requires |bytes| == FIELD_BYTES
    ensures value.Some? <==> LE(bytes) < P
    ensures value.Some? ==> value.value.Int() == LE(bytes)
  {
    ModulusValue();
    var limbs := DecodeLimbs(bytes);
    var _, borrow := SubtractLimbs(limbs, MODULUS);
    value := if borrow == 1 then Some(Fe301(limbs)) else None;
  }

  /** `& 0x1f` on the last byte keeps the value modulo 2^301. */
  lemma MaskTopBits(bytes: seq<Byte>)
    requires |bytes| == FIELD_BYTES
    ensures LE(bytes[37 := bytes[37] % 32]) == LE(bytes) % TOP
  {
    LastByte(bytes, bytes[37] % 32, 37);
    Pow256Literals();
    MaskArithmetic(LE(bytes[..37]), bytes[37]);
  }

  lemma MaskArithmetic(low: nat, b: Byte)
    requires low < 0x100_00000000_0000000000000000_0000000000000000_0000000000000000_0000000000000000
    ensures low + (b % 32) * 0x100_00000000_0000000000000000_0000000000000000_0000000000000000_0000000000000000
         == (low + b * 0x100_00000000_0000000000000000_0000000000000000_0000000000000000_0000000000000000)
            % 0x2000_00000000_0000000000000000_0000000000000000_0000000000000000_0000000000000000
  {
    var q, r := b / 32, b % 32;
    assert b == 32 * q + r;
  }

  /** X301 decoding: mask the three unused bits, then one conditional subtraction. */
  method FromX301Bytes(bytes: seq<Byte>) returns (value: Fe301)
    requires |bytes| == FIELD_BYTES
    ensures value.Int() == (LE(bytes) % TOP) % P
  {
    var masked := bytes[FIELD_BYTES - 1 := bytes[FIELD_BYTES - 1] % 32];
    MaskTopBits(bytes);
    var limbs := DecodeLimbs(masked);
    var reduced := ConditionalSubtractModulus(limbs);
    ResidueOnce(Value(limbs));
    value := Fe301(reduced);
  }

  // ---- Inversion ----

  /** Bezout coefficients of both remainders, and of z and p over the remainders. */
  ghost predicate EuclidInvariant(z: int, r0: int, r1: int, s0: int, s1: int, z0: int, z1: int, p0: int, p1: int) {
    && r0 > 0 && r1 >= 0
    && Cong(z * s0, r0) && Cong(z * s1, r1)
    && z == z0 * r0 + z1 * r1 && P == p0 * r0 + p1 * r1
  }

  lemma EuclidStep(z: int, r0: int, r1: int, s0: int, s1: int, z0: int, z1: int, p0: int, p1: int)
    requires r1 > 0 && EuclidInvariant(z, r0, r1, s0, s1, z0, z1, p0, p1)
    ensures EuclidInvariant(z, r1, r0 % r1, s1, s0 - r0 / r1 * s1, z0 * (r0 / r1) + z1, z0, p0 * (r0 / r1) + p1, p0)
  {
    hide EuclidInvariant;
    Divide(r0, r1);
    Commute(r0 / r1, r1);
    EuclidStepBy(z, r0, r1, s0, s1, z0, z1, p0, p1, r0 / r1, r0 % r1);
  }

  lemma EuclidStepBy(z: int, r0: int, r1: int, s0: int, s1: int, z0: int, z1: int, p0: int, p1: int, q: int, r: int)
    requires r1 > 0 && EuclidInvariant(z, r0, r1, s0, s1, z0, z1, p0, p1)
    requires r == r0 - q * r1 && r >= 0
    ensures EuclidInvariant(z, r1, r, s1, s0 - q * s1, z0 * q + z1, z0, p0 * q + p1, p0)
  {
    hide Residue;
    CongMul(q, q, z * s1, r1);
    CongSub(z * s0, r0, q * (z * s1), q * r1);
    CombineStep(z, s0, s1, q);
    Recombine(z0, z1, r0, r1, q);
    Recombine(p0, p1, r0, r1, q);
  }

  /** Inverse of a residue modulo p by the extended Euclidean algorithm. */
  method InvertResidue(z: int) returns (present: bool, inverse: int)
    requires 0 <= z < P
    ensures 0 <= inverse < P
    ensures present ==> Cong(z * inverse, 1)
    ensures !present ==> !IsUnit(z)
  {
    var r0, r1, s0, s1 := P, z, 0, 1;
    ghost var z0, z1, p0, p1 := 0, 1, 1, 0;
    CongIntro(0, P, -1);
    while r1 != 0
      invariant EuclidInvariant(z, r0, r1, s0, s1, z0, z1, p0, p1)
      decreases r1
    {
      EuclidStep(z, r0, r1, s0, s1, z0, z1, p0, p1);
      Divide(r0, r1);
      var q := r0 / r1;
      z0, z1, p0, p1 := z0 * q + z1, z0, p0 * q + p1, p0;
      r0, r1, s0, s1 := r1, r0 % r1, s1, s0 - q * s1;
    }
    present := r0 == 1;
    inverse := s0 % P;
    CongMod(s0);
    CongMul(z, z, inverse, s0);
    CongTrans(z * inverse, z * s0, r0);
    if !present {
      NoInverse(z, z0, p0, r0);
    }
  }

  lemma CombineStep(z: int, s0: int, s1: int, q: int)
    ensures z * s0 - q * (z * s1) == z * (s0 - q * s1)
  {
  }

  lemma Recombine(x: int, y: int, r0: int, r1: int, q: int)
    ensures x * r0 + y * r1 == (x * q + y) * r1 + x * (r0 - q * r1)
  {
  }

  /** A common divisor of z and p above one leaves z without an inverse. */
  lemma NoInverse(z: int, a: int, b: int, g: int)
    requires g > 1 && z == a * g && P == b * g
    ensures !IsUnit(z)
  {
    if IsUnit(z) {
      var w :| Cong(z * w, 1);
      var k := CongQuotient(z * w, 1);
      assert (a * w - k * b) * g == 1 by {
        assert (a * w - k * b) * g == (a * g) * w - k * (b * g);
      }
      NoUnitDivisor(a * w - k * b, g);
    }
  }

  lemma NoUnitDivisor(x: int, g: int)
    requires g > 1
    ensures x * g != 1
  {
    if x >= 1 {
      MulMonotone(1, x, g);
    } else {
      MulMonotone(x, 0, g);
    }
  }

  /** Inversion through the canonical encoding, as the limb type calls its integer backend. */
  method Invert(value: Fe301) returns (present: bool, inverse: Fe301)
    ensures present ==> Cong(value.Int() * inverse.Int(), 1)
    ensures !present ==> !IsUnit(value.Int())
  {
    var encoded := ToCanonicalBytes(value);
    var residue;
    present, residue := InvertResidue(LE(encoded));
    Pow256Literals();
    LERoundTrip(residue, FIELD_BYTES);
    var decoded := FromCanonicalBytes(ToLE(residue, FIELD_BYTES));
    inverse := decoded.value;
  }
}
