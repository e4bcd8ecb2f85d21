// The curve's own X301 functions meet what the key objects and the hybrid KEM ask of their backend.
module CurveBackend {
  import opened Wrappers
  import opened Bytes
  import opened Modular
  import opened LadderSpec
  import opened CurveGroup
  import opened X301Core
  import LadderOnCurve
  import Scalars
  import opened PublicKeys
  import opened KeyObjects
  import opened HybridKem

  /** A result as an optional 38-byte value. */
  ghost function AsKey(r: Result<seq<Byte>, X301Error>): Option<KeyBytes> {
    if r.Ok? && |r.value| == 38 then Some(r.value) else None
  }

  /** X301 public keys and shared secrets on the curve. */
  ghost function X301Backend(): Backend {
    Backend((s: KeyBytes) => AsKey(PublicKeyOf(s)), (s: KeyBytes, p: KeyBytes) => AsKey(ReferenceX301(s, p)))
  }

  lemma OutputShape(p: Point)
    requires OutputOf(p).Ok?
    ensures |OutputOf(p).value| == FIELD_BYTES && LE(OutputOf(p).value) < P
  {
    hide Residue;
    Pow256Literals();
    LERoundTrip(p.x * InverseOf(p.z) % P, FIELD_BYTES);
  }

  lemma BackendDerivesCanonical()
    ensures DerivesCanonical(X301Backend())
  {
    hide OutputOf, ReferenceX301, LE, LadderOnCurve.U, LadderOnCurve.Multiple, Base;
    forall secret: KeyBytes | X301Backend().publicFromSecret(secret).Some?
      ensures LE(X301Backend().publicFromSecret(secret).value) < P
    {
      OutputShape(LadderOnCurve.U(LadderOnCurve.Multiple(Scalars.ClampInteger(LE(secret)), Base())));
    }
  }

  /** Key agreement holds, so the KEM's hypothesis on X301 does. */
  lemma BackendCommutes()
    requires CurveFacts()
    ensures Commutes(X301Backend())
  {
    hide PublicKeyOf, ReferenceX301, CurveFacts;
    forall a: KeyBytes, b: KeyBytes
      | X301Backend().publicFromSecret(a).Some? && X301Backend().publicFromSecret(b).Some?
      ensures X301Backend().sharedSecret(a, X301Backend().publicFromSecret(b).value)
           == X301Backend().sharedSecret(b, X301Backend().publicFromSecret(a).value)
    {
      SharedSecretsAgree(a, b);
    }
  }
}
