// Ed301 signatures over an abstract group, hash and point encoding.
module Signature {
  import opened Arithmetic
  import opened Wrappers
  import opened Words
  import opened Bytes
  import opened Groups
  import opened Scalars
  import opened FixedBase
  import opened Straus
  import opened Schedules
  import opened ScalarField

  type Digest = h: seq<Byte> | |h| == 76 witness seq(76, _ => 0)

  type PointEncoding = e: seq<Byte> | |e| == 38 witness seq(38, _ => 0)

  datatype SignatureError = InvalidSeedLength | InvalidPublicKey | InvalidSignature | InternalFailure

  /** The group with its base point, the point encoding and the hash, the last two arbitrary functions. */
  datatype Suite<!T> = Suite(g: Group<T>, base: T, encode: T -> PointEncoding,
                             decode: PointEncoding -> Option<T>, hash: seq<Byte> -> Digest) {
    /** The scalar a transcript hashes to. */
    function HashToScalar(transcript: seq<Byte>): Scalar {
      ReduceHashLe(hash(transcript))
    }

    function Challenge(commitment: PointEncoding, publicKey: PointEncoding, message: seq<Byte>): Scalar {
      HashToScalar(commitment + publicKey + message)
    }
  }

  /** What is asked of the curve: group laws, a base point of order L, and decoding inverts encoding. */
  ghost predicate ValidSuite<T(!new)>(s: Suite<T>) {
    && IsAbelianGroup(s.g) && HasOrder(s.g, s.base, L)
    && forall p: T :: s.decode(s.encode(p)) == Some(p)
  }

  // ---- The verification equation ----

  /** `[4]([S]B - [k]A - R) = O` */
  ghost predicate Equation<T>(s: Suite<T>, key: T, challenge: nat, commitment: T, response: nat) {
    Mul(s.g, 4, s.g.Sub(s.g.Sub(Mul(s.g, response, s.base), Mul(s.g, challenge, key)), commitment)) == s.g.zero
  }

  /** Acceptance of wire bytes: a strict public key, a canonical signature, and the equation. */
  ghost predicate Accepts<T>(s: Suite<T>, publicKey: seq<Byte>, message: seq<Byte>, signature: seq<Byte>) {
    && |publicKey| == FIELD_BYTES && |signature| == HASH_BYTES
    && s.decode(publicKey).Some? && StrictPoint(s, s.decode(publicKey).value)
    && s.decode(signature[..FIELD_BYTES]).Some? && LE(signature[FIELD_BYTES..]) < L
    && Equation(s, s.decode(publicKey).value, s.Challenge(signature[..FIELD_BYTES], publicKey, message),
                s.decode(signature[..FIELD_BYTES]).value, LE(signature[FIELD_BYTES..]))
  }

  lemma ChallengeIs<T>(s: Suite<T>, commitment: PointEncoding, publicKey: PointEncoding, message: seq<Byte>)
    ensures s.Challenge(commitment, publicKey, message) == LE(s.hash(commitment + publicKey + message)) % L
  {
    ReduceHashIsMod(s.hash(commitment + publicKey + message));
  }

  lemma NonceIs<T>(s: Suite<T>, transcript: seq<Byte>)
    ensures s.HashToScalar(transcript) == LE(s.hash(transcript)) % L
  {
    ReduceHashIsMod(s.hash(transcript));
  }

  /** Acceptance on the bytes: lengths, decoding, a strict key, a reduced response, the cofactored equation. */
  lemma AcceptsExactly<T(!new)>(s: Suite<T>, publicKey: seq<Byte>, message: seq<Byte>, signature: seq<Byte>)
    ensures Accepts(s, publicKey, message, signature)
      <==> |publicKey| == 38 && |signature| == 76
           && s.decode(publicKey).Some? && s.decode(signature[..38]).Some? && LE(signature[38..]) < L
           && (var key, commitment := s.decode(publicKey).value, s.decode(signature[..38]).value;
               var challenge := LE(s.hash(signature[..38] + publicKey + message)) % L;
               key != s.g.zero && Mul(s.g, L, key) == s.g.zero
               && Mul(s.g, 4, s.g.add(s.g.add(Mul(s.g, LE(signature[38..]), s.base), s.g.neg(Mul(s.g, challenge, key))),
                                      s.g.neg(commitment))) == s.g.zero)
  {
    hide Mul, LE;
    if |publicKey| == 38 && |signature| == 76 {
      ChallengeIs(s, signature[..38], publicKey, message);
    }
  }

  /** A nonidentity point killed by L. */
  ghost predicate StrictPoint<T>(s: Suite<T>, p: T) {
    p != s.g.zero && Mul(s.g, L, p) == s.g.zero
  }

  lemma SubSelf<T(!new)>(g: Group<T>, x: T, y: T)
    requires IsAbelianGroup(g)
    ensures g.Sub(x, g.add(x, y)) == g.neg(y)
  {
    hide IsAbelianGroup;
    NegAdd(g, x, y);
    Associative(g, x, g.neg(x), g.neg(y));
    Inverse(g, x);
    Identity(g, g.neg(y));
  }

  /** `[S]B - [k]A = [r]B` when S = r + ks modulo L and A = [s]B. */
  lemma ResponseTelescopes<T(!new)>(g: Group<T>, base: T, nonce: Scalar, challenge: Scalar, secret: Scalar)
    requires IsAbelianGroup(g) && Mul(g, L, base) == g.zero
    ensures g.Sub(Mul(g, Add(nonce, Multiply(challenge, secret)), base),
                  Mul(g, challenge, Mul(g, secret, base))) == Mul(g, nonce, base)
  {
    hide IsAbelianGroup, Mul;
    var product := challenge * secret;
    MulMul(g, challenge, secret, base);
    MulModOrder(g, product, L, base);
    MulModOrder(g, nonce + product % L, L, base);
    MulAdd(g, nonce, product % L, base);
    Cancel(g, Mul(g, nonce, base), Mul(g, product, base));
  }

  /**
   * Completeness with a torsion shift: a response computed for the commitment `[r]B + T`, 4T = O,
   * satisfies the equation. An honest signature is the case T = O.
   */
  lemma ShiftedCommitmentVerifies<T(!new)>(s: Suite<T>, nonce: Scalar, challenge: Scalar, secret: Scalar, torsion: T)
    requires IsAbelianGroup(s.g) && Mul(s.g, L, s.base) == s.g.zero && Mul(s.g, 4, torsion) == s.g.zero
    ensures Equation(s, Mul(s.g, secret, s.base), challenge, s.g.add(Mul(s.g, nonce, s.base), torsion),
                     Add(nonce, Multiply(challenge, secret)))
  {
    hide IsAbelianGroup, Mul, Add, Multiply;
    ResponseTelescopes(s.g, s.base, nonce, challenge, secret);
    SubSelf(s.g, Mul(s.g, nonce, s.base), torsion);
    FourKills(s.g, torsion);
  }

  lemma FourKills<T(!new)>(g: Group<T>, torsion: T)
    requires IsAbelianGroup(g) && Mul(g, 4, torsion) == g.zero
    ensures Mul(g, 4, g.neg(torsion)) == g.zero
  {
    hide IsAbelianGroup, Mul;
    MulOne(g, torsion);
    MulNeg(g, 1, torsion);
    MulMul(g, 4, -1, torsion);
    MulNeg(g, 4, torsion);
    NegZero(g);
  }

  /** Four is invertible modulo L. */
  lemma FourTimes(n: int)
    requires 4 * n % L == 0
    ensures n % L == 0
  {
    var q := 4 * n / L;
    var w := (L + 1) / 4;
    assert 4 * n == L * q;
    assert n == L * (q * w - n) by {
      assert (4 * w) * n == (L + 1) * n == L * n + n;
      assert (4 * n) * w == L * (q * w);
      assert (4 * w) * n == (4 * n) * w;
    }
    MultipleOf(q * w - n, L);
  }

  lemma DifferenceOfScalars(x: Scalar, y: Scalar)
    requires (x - y) % L == 0
    ensures x == y
  {
  }

  /** The response is unique: one commitment, challenge and key admit one scalar below L. */
  lemma ResponseUnique<T(!new)>(s: Suite<T>, key: T, challenge: nat, commitment: T, x: Scalar, y: Scalar)
    requires IsAbelianGroup(s.g) && HasOrder(s.g, s.base, L)
    requires Equation(s, key, challenge, commitment, x) && Equation(s, key, challenge, commitment, y)
    ensures x == y
  {
    hide IsAbelianGroup, HasOrder, Mul;
    var g, rest := s.g, s.g.neg(Mul(s.g, challenge, key));
    SplitEquation(s, key, challenge, commitment, x);
    SplitEquation(s, key, challenge, commitment, y);
    CancelRight(g, Mul(g, 4 * x, s.base), Mul(g, 4 * y, s.base), Rest(s, key, challenge, commitment));
    MulAdd(g, 4 * x - 4 * y, 4 * y, s.base);
    Identity(g, Mul(g, 4 * y, s.base));
    CancelRight(g, Mul(g, 4 * x - 4 * y, s.base), g.zero, Mul(g, 4 * y, s.base));
    OrderDivides(g, s.base, 4 * (x - y));
    FourTimes(x - y);
    DifferenceOfScalars(x, y);
  }

  /** The part of the equation that does not depend on the response. */
  ghost function Rest<T>(s: Suite<T>, key: T, challenge: nat, commitment: T): T {
    Mul(s.g, 4, s.g.add(s.g.neg(Mul(s.g, challenge, key)), s.g.neg(commitment)))
  }

  lemma SplitEquation<T(!new)>(s: Suite<T>, key: T, challenge: nat, commitment: T, response: nat)
    requires IsAbelianGroup(s.g)
    ensures Equation(s, key, challenge, commitment, response)
       <==> s.g.add(Mul(s.g, 4 * response, s.base), Rest(s, key, challenge, commitment)) == s.g.zero
  {
    hide IsAbelianGroup, Mul;
    var a, b, c := Mul(s.g, response, s.base), s.g.neg(Mul(s.g, challenge, key)), s.g.neg(commitment);
    Associative(s.g, a, b, c);
    MulSum(s.g, 4, a, s.g.add(b, c));
    MulMul(s.g, 4, response, s.base);
  }

  lemma CancelRight<T(!new)>(g: Group<T>, x: T, y: T, z: T)
    requires IsAbelianGroup(g) && g.add(x, z) == g.add(y, z)
    ensures x == y
  {
    hide IsAbelianGroup;
    Cancel(g, x, z);
    Cancel(g, y, z);
  }

  // ---- Keys ----

  /** The two static tables of the base point. */
  datatype Tables<T> = Tables(rows: seq<T>, odd: seq<T>)

  ghost predicate ValidTables<T>(s: Suite<T>, tables: Tables<T>) {
    IsBaseTable(s.g, s.base, tables.rows) && IsOddTable(s.g, s.base, tables.odd)
  }

  datatype ExpandedSigningKey<T> =
    ExpandedSigningKey(reducedScalar: Scalar, prefix: PointEncoding, publicKey: PointEncoding, publicPoint: T)

  /** The key a seed expands to. */
  ghost function KeyOfSeed<T>(s: Suite<T>, seed: PointEncoding): ExpandedSigningKey<T> {
    var h := s.hash(seed);
    var secret := ClampInteger(LE(h[..FIELD_BYTES]));
    var point := Mul(s.g, secret, s.base);
    ExpandedSigningKey(secret % L, h[FIELD_BYTES..], s.encode(point), point)
  }

  /** Hash, prune in place, multiply the base point. */
  method Derive<T(!new, ==)>(s: Suite<T>, tables: Tables<T>, seed: PointEncoding)
    returns (r: Result<ExpandedSigningKey<T>, SignatureError>)
    requires IsAbelianGroup(s.g) && ValidTables(s, tables)
    ensures r == if KeyOfSeed(s, seed).publicPoint == s.g.zero then Err(InternalFailure) else Ok(KeyOfSeed(s, seed))
    ensures var k := ClampInteger(LE(s.hash(seed)[..38]));
      && (r.Err? <==> Mul(s.g, k, s.base) == s.g.zero)
      && (r.Err? ==> r.error == InternalFailure)
      && (r.Ok? ==> r.value.publicPoint == Mul(s.g, k, s.base) && r.value.publicKey == s.encode(Mul(s.g, k, s.base))
                    && r.value.reducedScalar == k % L && r.value.prefix == s.hash(seed)[38..])
  {
    hide IsAbelianGroup, HasOrder, IsBaseTable, IsOddTable, Mul, LE;
    var expandedHash := s.hash(seed);
    var prunedScalar := new Byte[FIELD_BYTES](k requires 0 <= k < FIELD_BYTES => expandedHash[k]);
    assert prunedScalar[..] == expandedHash[..FIELD_BYTES];
    prunedScalar[0] := prunedScalar[0] - prunedScalar[0] % 4;
    prunedScalar[FIELD_BYTES - 1] := prunedScalar[FIELD_BYTES - 1] % 16 + 16;
    var pruned := prunedScalar[..];
    ClampBytes(expandedHash[..FIELD_BYTES], pruned);
    var prefix := expandedHash[FIELD_BYTES..];
    var reducedScalar := ReducePrunedLe(pruned);
    var publicPoint := ScalarMulBaseEncoded(s.g, s.base, tables.rows, pruned);
    if publicPoint == s.g.zero {
      return Err(InternalFailure);
    }
    r := Ok(ExpandedSigningKey(reducedScalar, prefix, s.encode(publicPoint), publicPoint));
  }

  // ---- Signing ----

  datatype Signed<T> =
    Signed(encoded: Digest, commitmentEncoding: PointEncoding, commitment: T, response: Scalar)

  /** The signature of a message under a key with a shifted commitment; the shipped signer uses T = O. */
  ghost function SignatureOf<T>(s: Suite<T>, key: ExpandedSigningKey<T>, message: seq<Byte>, torsion: T): Signed<T> {
    var nonce := s.HashToScalar(key.prefix + message);
    var commitment := s.g.add(Mul(s.g, nonce, s.base), torsion);
    var encoding := s.encode(commitment);
    var challenge := s.Challenge(encoding, key.publicKey, message);
    var response := Add(nonce, Multiply(challenge, key.reducedScalar));
    Signed(encoding + ToLE(response, FIELD_BYTES), encoding, commitment, response)
  }

  /** The two halves of a signature, in terms of the hash. */
  lemma SignatureIs<T>(s: Suite<T>, key: ExpandedSigningKey<T>, message: seq<Byte>, torsion: T)
    ensures var signed := SignatureOf(s, key, message, torsion);
      var n := LE(s.hash(key.prefix + message)) % L;
      var challenge := LE(s.hash(signed.encoded[..38] + key.publicKey + message)) % L;
      && signed.commitment == s.g.add(Mul(s.g, n, s.base), torsion)
      && signed.encoded[..38] == s.encode(signed.commitment)
      && LE(signed.encoded[38..]) == (n + challenge * key.reducedScalar) % L
      && signed.commitmentEncoding == signed.encoded[..38] && signed.response == LE(signed.encoded[38..])
  {
    hide Mul, LE, ToLE;
    var signed := SignatureOf(s, key, message, torsion);
    var nonce := s.HashToScalar(key.prefix + message);
    NonceIs(s, key.prefix + message);
    assert signed.encoded[..38] == signed.commitmentEncoding;
    assert signed.encoded[38..] == ToLE(signed.response, FIELD_BYTES);
    ChallengeIs(s, signed.commitmentEncoding, key.publicKey, message);
    ScalarRoundTrip(signed.response);
    ResponseIs(nonce, s.Challenge(signed.commitmentEncoding, key.publicKey, message), key.reducedScalar);
  }

  lemma ResponseIs(nonce: Scalar, challenge: Scalar, secret: Scalar)
    ensures Add(nonce, Multiply(challenge, secret)) == (nonce + challenge * secret) % L
  {
    ModOfSum(challenge * secret, nonce, L);
  }

  method SignExpanded<T(!new)>(s: Suite<T>, tables: Tables<T>, key: ExpandedSigningKey<T>, message: seq<Byte>)
    returns (r: Result<Signed<T>, SignatureError>)
    requires ValidSuite(s) && ValidTables(s, tables)
    ensures r == Ok(SignatureOf(s, key, message, s.g.zero))
    ensures r.Ok? && r.value.commitmentEncoding == r.value.encoded[..38]
    ensures r.value.response == LE(r.value.encoded[38..])
    ensures var n := LE(s.hash(key.prefix + message)) % L;
      var challenge := LE(s.hash(r.value.encoded[..38] + key.publicKey + message)) % L;
      && r.value.commitment == Mul(s.g, n, s.base) && r.value.encoded[..38] == s.encode(Mul(s.g, n, s.base))
      && LE(r.value.encoded[38..]) == (n + challenge * key.reducedScalar) % L
  {
    hide IsAbelianGroup, HasOrder, IsBaseTable, IsOddTable, Mul, LE, ToLE, Add, Multiply, ReduceHashLe;
    var nonce := s.HashToScalar(key.prefix + message);
    var nonceBytes := WriteCanonicalBytes(nonce);
    NonceIs(s, key.prefix + message);
    BelowTop(nonce);
    var commitmentPoint := ScalarMulBaseEncoded(s.g, s.base, tables.rows, nonceBytes);
    Identity(s.g, commitmentPoint);
    var commitment := s.encode(commitmentPoint);
    var challenge := s.Challenge(commitment, key.publicKey, message);
    var secretResponseTerm := Multiply(challenge, key.reducedScalar);
    var response := Add(nonce, secretResponseTerm);
    var responseBytes := WriteCanonicalBytes(response);
    r := Ok(Signed(commitment + responseBytes, commitment, commitmentPoint, response));
    SignatureIs(s, key, message, s.g.zero);
  }

  lemma BelowTop(n: Scalar)
    ensures n < 8 * TOP_BIT
  {
  }

  // ---- Verification ----

  datatype VerifyingKey<T> = VerifyingKey(encoded: PointEncoding, oddMultiples: seq<T>)

  method VerifyParsed<T(!new, ==)>(s: Suite<T>, tables: Tables<T>, key: VerifyingKey<T>, message: seq<Byte>,
                                   signature: Signed<T>, ghost point: T) returns (ok: bool)
    requires ValidSuite(s) && ValidTables(s, tables) && IsOddTable(s.g, point, key.oddMultiples)
    ensures ok <==> Equation(s, point, s.Challenge(signature.commitmentEncoding, key.encoded, message),
                             signature.commitment, signature.response)
    ensures var challenge := LE(s.hash(signature.commitmentEncoding + key.encoded + message)) % L;
      ok <==> Mul(s.g, 4, s.g.add(s.g.add(Mul(s.g, signature.response, s.base), s.g.neg(Mul(s.g, challenge, point))),
                                  s.g.neg(signature.commitment))) == s.g.zero
  {
    hide IsAbelianGroup, HasOrder, IsBaseTable, IsOddTable, Mul, LE;
    ChallengeIs(s, signature.commitmentEncoding, key.encoded, message);
    var challenge := s.Challenge(signature.commitmentEncoding, key.encoded, message);
    var difference := VartimeDoubleScalarMulBasepoint(s.g, signature.response, challenge, tables.odd,
                                                      key.oddMultiples, s.base, point);
    var sum := s.g.add(difference, s.g.neg(signature.commitment));
    var equation := s.g.Double(s.g.Double(sum));
    MulOne(s.g, sum);
    MulDouble(s.g, 2, sum);
    ok := equation == s.g.zero;
  }

  /** Parse a public key: canonical, nonidentity, in the subgroup. */
  method VerifyingKeyFromBytes<T(!new, ==)>(s: Suite<T>, bytes: seq<Byte>)
    returns (r: Result<VerifyingKey<T>, SignatureError>)
    requires ValidSuite(s)
    ensures r.Ok? <==> |bytes| == 38 && s.decode(bytes).Some?
                       && s.decode(bytes).value != s.g.zero && Mul(s.g, L, s.decode(bytes).value) == s.g.zero
    ensures r.Ok? ==> r.value.encoded == bytes && IsOddTable(s.g, s.decode(bytes).value, r.value.oddMultiples)
    ensures r.Err? ==> r.error == InvalidPublicKey
  {
    hide IsAbelianGroup, HasOrder, IsOddTable, Mul;
    if |bytes| != FIELD_BYTES {
      return Err(InvalidPublicKey);
    }
    var decoded := s.decode(bytes);
    if decoded.None? {
      return Err(InvalidPublicKey);
    }
    var point := decoded.value;
    if point == s.g.zero {
      return Err(InvalidPublicKey);
    }
    var oddMultiples := BuildOddTable(s.g, point);
    var inSubgroup := IsPrimeSubgroupWithTable(s.g, point, oddMultiples);
    if !inSubgroup {
      return Err(InvalidPublicKey);
    }
    r := Ok(VerifyingKey(bytes, oddMultiples));
  }

  /** Parse a signature: any decodable commitment, a response below L. */
  method SignatureFromBytes<T(!new)>(s: Suite<T>, bytes: seq<Byte>) returns (r: Result<Signed<T>, SignatureError>)
    ensures r.Ok? <==> |bytes| == HASH_BYTES && s.decode(bytes[..FIELD_BYTES]).Some? && LE(bytes[FIELD_BYTES..]) < L
    ensures r.Ok? ==> r.value == Signed(bytes, bytes[..FIELD_BYTES], s.decode(bytes[..FIELD_BYTES]).value,
                                        LE(bytes[FIELD_BYTES..]))
    ensures r.Err? ==> r.error == InvalidSignature
  {
    hide LE;
    if |bytes| != HASH_BYTES {
      return Err(InvalidSignature);
    }
    var commitment := s.decode(bytes[..FIELD_BYTES]);
    if commitment.None? {
      return Err(InvalidSignature);
    }
    var response := FromCanonicalBytes(bytes[FIELD_BYTES..]);
    if response.None? {
      return Err(InvalidSignature);
    }
    ScalarOf(bytes[FIELD_BYTES..], response.value);
    r := Ok(Signed(bytes, bytes[..FIELD_BYTES], commitment.value, response.value));
  }

  lemma ScalarOf(bytes: seq<Byte>, n: Scalar)
    requires |bytes| == FIELD_BYTES && FromCanonicalBytes(bytes) == Some(n)
    ensures LE(bytes) == n
  {
  }

  /** One fail-closed answer over wire bytes: exactly the acceptance predicate. */
  method Verify<T(!new, ==)>(s: Suite<T>, tables: Tables<T>, publicKey: seq<Byte>, message: seq<Byte>,
                             signature: seq<Byte>) returns (ok: bool)
    requires ValidSuite(s) && ValidTables(s, tables)
    ensures ok <==> Accepts(s, publicKey, message, signature)
    ensures ok
      <==> |publicKey| == 38 && |signature| == 76
           && s.decode(publicKey).Some? && s.decode(signature[..38]).Some? && LE(signature[38..]) < L
           && (var key, commitment := s.decode(publicKey).value, s.decode(signature[..38]).value;
               var challenge := LE(s.hash(signature[..38] + publicKey + message)) % L;
               key != s.g.zero && Mul(s.g, L, key) == s.g.zero
               && Mul(s.g, 4, s.g.add(s.g.add(Mul(s.g, LE(signature[38..]), s.base), s.g.neg(Mul(s.g, challenge, key))),
                                      s.g.neg(commitment))) == s.g.zero)
  {
    hide IsAbelianGroup, HasOrder, IsBaseTable, IsOddTable, Mul, LE, Equation, StrictPoint;
    AcceptsExactly(s, publicKey, message, signature);
    var key := VerifyingKeyFromBytes(s, publicKey);
    if key.Err? {
      return false;
    }
    var parsed := SignatureFromBytes(s, signature);
    if parsed.Err? {
      return false;
    }
    ok := VerifyParsed(s, tables, key.value, message, parsed.value, s.decode(publicKey).value);
  }

  /** The public half of a seed's key is a strict point. */
  lemma SeedKeyStrict<T(!new)>(s: Suite<T>, seed: PointEncoding)
    requires ValidSuite(s)
    ensures StrictPoint(s, KeyOfSeed(s, seed).publicPoint)
    ensures KeyOfSeed(s, seed).publicPoint == Mul(s.g, KeyOfSeed(s, seed).reducedScalar, s.base)
  {
    hide IsAbelianGroup, Mul, LE;
    var secret := ClampInteger(LE(s.hash(seed)[..FIELD_BYTES]));
    ClampedMultipleNotIdentity(s.g, secret, s.base);
    MulModOrder(s.g, secret, L, s.base);
    MulMul(s.g, L, secret, s.base);
    MulMul(s.g, secret, L, s.base);
    assert L * secret == secret * L;
    MulZero(s.g, secret);
  }

  /**
   * Every signature a seed can make is accepted, for every hash; and so is the same computation with any
   * point T, 4T = O, added to the commitment.
   */
  lemma SignaturesAccepted<T(!new)>(s: Suite<T>, seed: PointEncoding, message: seq<Byte>, torsion: T)
    requires ValidSuite(s) && Mul(s.g, 4, torsion) == s.g.zero
    ensures Accepts(s, KeyOfSeed(s, seed).publicKey, message,
                    SignatureOf(s, KeyOfSeed(s, seed), message, torsion).encoded)
  {
    hide IsAbelianGroup, HasOrder, Mul, LE, ToLE, Equation, StrictPoint, Add, Multiply;
    var key := KeyOfSeed(s, seed);
    var signature := SignatureOf(s, key, message, torsion);
    SeedKeyStrict(s, seed);
    ScalarRoundTrip(signature.response);
    BaseKilled(s);
    assert signature.encoded[..FIELD_BYTES] == signature.commitmentEncoding;
    assert signature.encoded[FIELD_BYTES..] == ToLE(signature.response, FIELD_BYTES);
    ShiftedCommitmentVerifies(s, s.HashToScalar(key.prefix + message),
                              s.Challenge(signature.commitmentEncoding, key.publicKey, message),
                              key.reducedScalar, torsion);
  }

  lemma BaseKilled<T>(s: Suite<T>)
    requires HasOrder(s.g, s.base, L)
    ensures Mul(s.g, L, s.base) == s.g.zero
  {
  }

  /** Sign from a seed: the bytes are accepted under the seed's public key. */
  method Sign<T(!new, ==)>(s: Suite<T>, tables: Tables<T>, seed: seq<Byte>, message: seq<Byte>)
    returns (r: Result<Digest, SignatureError>)
    requires ValidSuite(s) && ValidTables(s, tables)
    ensures |seed| != FIELD_BYTES ==> r == Err(InvalidSeedLength)
    ensures |seed| == FIELD_BYTES ==> r.Ok? && Accepts(s, KeyOfSeed(s, seed).publicKey, message, r.value)
    ensures |seed| == FIELD_BYTES ==>
      (var h := s.hash(seed);
       var k := ClampInteger(LE(h[..38]));
       var n := LE(s.hash(h[38..] + message)) % L;
       var challenge := LE(s.hash(r.value[..38] + s.encode(Mul(s.g, k, s.base)) + message)) % L;
       && KeyOfSeed(s, seed).publicKey == s.encode(Mul(s.g, k, s.base))
       && r.value[..38] == s.encode(Mul(s.g, n, s.base)) && LE(r.value[38..]) == (n + challenge * (k % L)) % L)
  {
    hide IsAbelianGroup, HasOrder, IsBaseTable, IsOddTable, Mul, LE, Accepts, StrictPoint, KeyOfSeed;
    if |seed| != FIELD_BYTES {
      return Err(InvalidSeedLength);
    }
    var key := Derive(s, tables, seed);
    SeedKeyStrict(s, seed);
    NotIdentity(s, KeyOfSeed(s, seed).publicPoint);
    var signature := SignExpanded(s, tables, key.value, message);
    FourZero(s.g);
    SignaturesAccepted(s, seed, message, s.g.zero);
    r := Ok(signature.value.encoded);
  }

  lemma NotIdentity<T>(s: Suite<T>, p: T)
    requires StrictPoint(s, p)
    ensures p != s.g.zero
  {
  }

  lemma FourZero<T(!new)>(g: Group<T>)
    requires IsAbelianGroup(g)
    ensures Mul(g, 4, g.zero) == g.zero
  {
    hide IsAbelianGroup;
    MulZero(g, 4);
  }

  // ---- The hypotheses have a model ----

  function EncodeElement(x: Element): PointEncoding {
    ToLE(x.prime + L * x.torsion, FIELD_BYTES)
  }

  function DecodeElement(e: PointEncoding): Option<Element> {
    if LE(e) < 4 * L then Some(Pair(LE(e) % L, LE(e) / L)) else None
  }

  lemma ElementRoundTrip(x: Element)
    ensures DecodeElement(EncodeElement(x)) == Some(x)
  {
    hide LE, ToLE;
    Pow256Literals();
    LERoundTrip(x.prime + L * x.torsion, FIELD_BYTES);
    QuotientUnique(x.prime + L * x.torsion, L, x.torsion, x.prime);
  }

  function ProductSuite(hash: seq<Byte> -> Digest): Suite<Element> {
    Suite(ProductGroup(), Pair(1, 0), (x: Element) => EncodeElement(x), (e: PointEncoding) => DecodeElement(e), hash)
  }

  lemma GeneratorMultiple(k: nat)
    requires 0 < k <= L
    ensures Mul(ProductGroup(), k, Pair(1, 0)) == ProductGroup().zero <==> k == L
  {
    hide Mul;
    ProductGroupMultiples(k, Pair(1, 0));
    assert k * 0 == 0;
  }

  lemma GeneratorOrder()
    ensures HasOrder(ProductGroup(), Pair(1, 0), L)
  {
    hide Mul, ProductGroup;
    forall k: int | 0 < k <= L
      ensures Mul(ProductGroup(), k, Pair(1, 0)) == ProductGroup().zero <==> k == L
    {
      GeneratorMultiple(k);
    }
  }

  /** Over Z_L x Z_4, with any hash, every hypothesis holds. */
  lemma ProductSuiteIsValid(hash: seq<Byte> -> Digest)
    ensures ValidSuite(ProductSuite(hash))
  {
    ProductGroupIsAbelian();
    GeneratorOrder();
    hide IsAbelianGroup, HasOrder, EncodeElement, DecodeElement;
    forall p: Element
      ensures ProductSuite(hash).decode(ProductSuite(hash).encode(p)) == Some(p)
    {
      ElementRoundTrip(p);
    }
  }
}
