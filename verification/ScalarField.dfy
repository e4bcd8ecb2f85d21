// Scalars modulo the group order L: encoding, wide reduction, addition and multiplication.
module ScalarField {
  import opened Arithmetic
  import opened Wrappers
  import opened Bytes
  import opened Groups
  import opened Scalars

  const HASH_BYTES: nat := 76

  type Scalar = n: nat | n < L witness 0

  /** The canonical integer below L, or nothing. */
  function FromCanonicalBytes(bytes: seq<Byte>): (r: Option<Scalar>)
    requires |bytes| == FIELD_BYTES
    ensures r == None <==> LE(bytes) >= L
    ensures r.Some? ==> ToLE(r.value, FIELD_BYTES) == bytes
  {
    LEEncodingUnique(bytes);
    if LE(bytes) < L then Some(LE(bytes)) else None
  }

  function ReducePrunedLe(bytes: seq<Byte>): Scalar
    requires |bytes| == FIELD_BYTES
  {
    LE(bytes) % L
  }

  function Add(x: Scalar, y: Scalar): Scalar {
    (x + y) % L
  }

  function Multiply(x: Scalar, y: Scalar): Scalar {
    x * y % L
  }

  /** Two 304-bit chunks, reduced separately and recombined at the residue of 2^304. */
  function ReduceHashLe(bytes: seq<Byte>): Scalar
    requires |bytes| == HASH_BYTES
  {
    var low := LE(bytes[..FIELD_BYTES]) % L;
    var high := LE(bytes[FIELD_BYTES..]) % L;
    Add(Multiply(high, Pow256(FIELD_BYTES) % L), low)
  }

  lemma ModOfSum(x: int, y: int, m: int)
    requires m > 0
    ensures (x % m + y) % m == (x + y) % m
  {
    var q := x / m;
    var p, r := (x % m + y) / m, (x % m + y) % m;
    assert x + y == m * (q + p) + r;
    QuotientUnique(x + y, m, q + p, r);
  }

  lemma ModOfProduct(x: int, y: int, m: int)
    requires m > 0
    ensures (x % m) * y % m == x * y % m
  {
    var q, r := x / m, x % m;
    assert x == m * q + r;
    var p, s := r * y / m, r * y % m;
    assert x * y == m * (q * y + p) + s by {
      assert x * y == m * (q * y) + r * y;
    }
    QuotientUnique(x * y, m, q * y + p, s);
  }

  /** The chunked reduction is the reduction of the whole 608-bit integer. */
  lemma ReduceHashIsMod(bytes: seq<Byte>)
    requires |bytes| == HASH_BYTES
    ensures ReduceHashLe(bytes) == LE(bytes) % L
  {
    var low, high := LE(bytes[..FIELD_BYTES]), LE(bytes[FIELD_BYTES..]);
    hide LE, Pow256, Add, Multiply;
    HashValue(bytes);
    ChunksModOrder(low, high, Pow256(FIELD_BYTES), LE(bytes));
  }

  lemma HashValue(bytes: seq<Byte>)
    requires |bytes| == HASH_BYTES
    ensures LE(bytes) == LE(bytes[..FIELD_BYTES]) + LE(bytes[FIELD_BYTES..]) * Pow256(FIELD_BYTES)
  {
    hide LE, Pow256;
    assert bytes == bytes[..FIELD_BYTES] + bytes[FIELD_BYTES..];
    LEAppend(bytes[..FIELD_BYTES], bytes[FIELD_BYTES..]);
  }

  lemma ChunksModOrder(low: nat, high: nat, radix: nat, total: nat)
    requires total == low + high * radix
    ensures Add(Multiply(high % L, radix % L), low % L) == total % L
  {
    CombineChunks(low, high, radix, L);
  }

  lemma CombineChunks(low: nat, high: nat, radix: nat, m: int)
    requires m > 0
    ensures ((high % m) * (radix % m) % m + low % m) % m == (low + high * radix) % m
  {
    ModOfProduct(high, radix % m, m);
    ModOfProduct(radix, high, m);
    assert high * (radix % m) == (radix % m) * high && radix * high == high * radix;
    ModOfSum(high * radix, low % m, m);
    ModOfSum(low, high * radix, m);
  }

  // ---- Writing canonical bytes word by word ----

  /** The integer without its low `a` bytes. */
  function HighPart(n: nat, a: nat): nat {
    if a == 0 then n else HighPart(n / 256, a - 1)
  }

  lemma {:induction false} ToLESplit(n: nat, a: nat, b: nat)
    ensures ToLE(n, a + b) == ToLE(n, a) + ToLE(HighPart(n, a), b)
  {
    if a != 0 {
      ToLESplit(n / 256, a - 1, b);
    }
  }

  lemma {:induction false} ToLELow(n: nat, k: nat, len: nat)
    requires len <= k
    ensures ToLE(n % Pow256(k), len) == ToLE(n, len)
  {
    if len != 0 {
      ToLELow(n / 256, k - 1, len - 1);
      LowDigit(n, Pow256(k - 1));
    }
  }

  lemma LowDigit(n: nat, m: nat)
    requires m > 0
    ensures n % (256 * m) % 256 == n % 256 && n % (256 * m) / 256 == n / 256 % m
  {
    var h, b := n / 256, n % 256;
    var q, r := h / m, h % m;
    assert n == (256 * m) * q + (256 * r + b);
    MixedDigits(256, m, b, r);
    QuotientUnique(n, 256 * m, q, 256 * r + b);
  }

  lemma ToLEPrefix(n: nat, len: nat, take: nat)
    requires take <= len
    ensures ToLE(n, len)[..take] == ToLE(n, take)
  {
    ToLESplit(n, take, len - take);
  }

  lemma EmptyEncoding(n: nat)
    ensures ToLE(n, 0) == []
  {
  }

  /** Word `i` of the five-word integer. */
  function WordOf(n: nat, i: nat): nat {
    HighPart(n, 8 * i) % Pow256(8)
  }

  /** Five little-endian words, the last one cut to six bytes. */
  method WriteCanonicalBytes(scalar: Scalar) returns (encoded: seq<Byte>)
    ensures encoded == ToLE(scalar, FIELD_BYTES) && LE(encoded) == scalar
  {
    hide HighPart, Pow256, ToLE, LE;
    var output := new Byte[FIELD_BYTES](_ => 0);
    var wordIndex, offset := 0, 0;
    EmptyEncoding(scalar);
    while offset < FIELD_BYTES
      invariant 0 <= offset <= FIELD_BYTES
      invariant offset < FIELD_BYTES ==> offset == 8 * wordIndex
      invariant output[..offset] == ToLE(scalar, offset)
    {
      var word := ToLE(WordOf(scalar, wordIndex), 8);
      var take := if FIELD_BYTES - offset < 8 then FIELD_BYTES - offset else 8;
      ToLEPrefix(WordOf(scalar, wordIndex), 8, take);
      ToLELow(HighPart(scalar, offset), 8, take);
      ToLESplit(scalar, offset, take);
      ghost var before := output[..offset];
      forall k | 0 <= k < take {
        output[offset + k] := word[k];
      }
      assert output[..offset + take] == before + word[..take];
      offset := offset + take;
      wordIndex := wordIndex + 1;
    }
    encoded := output[..];
    assert encoded == output[..offset];
    ScalarRoundTrip(scalar);
  }

  lemma ScalarRoundTrip(scalar: Scalar)
    ensures LE(ToLE(scalar, FIELD_BYTES)) == scalar
  {
    Pow256Literals();
    LERoundTrip(scalar, FIELD_BYTES);
  }
}
