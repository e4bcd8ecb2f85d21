// The X301MLKEM1024 key and KEM objects: life cycle, buffers, release of temporaries, and round trip.
module HybridKem {
  import opened Wrappers
  import opened Bytes
  import opened Canonicalization
  import opened KeyObjects

  const ML_PUBLIC_BYTES: nat := 1568
  const ML_CIPHERTEXT_BYTES: nat := 1568
  const ML_SECRET_BYTES: nat := 32
  const HYBRID_PUBLIC_BYTES: nat := 1606
  const HYBRID_CIPHERTEXT_BYTES: nat := 1606
  const HYBRID_SECRET_BYTES: nat := 70

  /** What a call may put in a buffer of the ML-KEM size; the length it reports may be shorter. */
  type Ciphertext = c: seq<Byte> | |c| <= 1568 witness []

  type Secret = s: seq<Byte> | |s| <= 32 witness []

  /** ML-KEM-1024 as found in the library: any of these may fail. */
  datatype Kem = Kem(acceptsPublic: seq<Byte> -> bool,
                     encapsulate: (seq<Byte>, nat) -> Option<(Ciphertext, Secret)>,
                     decapsulate: (seq<Byte>, seq<Byte>) -> Option<Secret>)

  // ---- What the two operations compute ----

  /** The X301 half of an encapsulation: an ephemeral public key and the secret shared with the peer. */
  function EphemeralPart(backend: Backend, random: Random, peer: KeyBytes): Option<(KeyBytes, KeyBytes)> {
    if !random.Filled? then None
    else
      var public := backend.publicFromSecret(random.secret);
      var shared := backend.sharedSecret(random.secret, peer);
      if public.None? || shared.None? then None else Some((public.value, shared.value))
  }

  /** ML-KEM part first, X301 part last, in both outputs. */
  function Encapsulation(backend: Backend, kem: Kem, mlPublic: seq<Byte>, peer: KeyBytes, coins: nat, random: Random)
    : (r: Option<(seq<Byte>, seq<Byte>)>)
    ensures r.Some? ==> |r.value.0| == HYBRID_CIPHERTEXT_BYTES && |r.value.1| == HYBRID_SECRET_BYTES
  {
    var ml := kem.encapsulate(mlPublic, coins);
    var x := EphemeralPart(backend, random, peer);
    if ml.None? || |ml.value.0| != ML_CIPHERTEXT_BYTES || |ml.value.1| != ML_SECRET_BYTES || x.None? then None
    else Some((ml.value.0 + x.value.0, ml.value.1 + x.value.1))
  }

  function Decapsulation(backend: Backend, kem: Kem, mlPrivate: seq<Byte>, private: KeyBytes, ciphertext: seq<Byte>)
    : (r: Option<seq<Byte>>)
    requires |ciphertext| == HYBRID_CIPHERTEXT_BYTES
    ensures r.Some? ==> |r.value| == HYBRID_SECRET_BYTES
  {
    var ml := kem.decapsulate(mlPrivate, ciphertext[..ML_CIPHERTEXT_BYTES]);
    if ml.None? || |ml.value| != ML_SECRET_BYTES then None
    else
      var shared := backend.sharedSecret(private, CanonicalEncoding(ciphertext[ML_CIPHERTEXT_BYTES..]));
      if shared.None? then None else Some(ml.value + shared.value)
  }

  /** The X301 hypothesis: both sides of an exchange agree, refusals included. */
  ghost predicate Commutes(backend: Backend) {
    forall a: KeyBytes, b: KeyBytes ::
      backend.publicFromSecret(a).Some? && backend.publicFromSecret(b).Some? ==>
        backend.sharedSecret(a, backend.publicFromSecret(b).value)
        == backend.sharedSecret(b, backend.publicFromSecret(a).value)
  }

  /** The ML-KEM hypothesis for one key pair. */
  ghost predicate KemCorrect(kem: Kem, mlPublic: seq<Byte>, mlPrivate: seq<Byte>) {
    forall coins: nat :: kem.encapsulate(mlPublic, coins).Some?
      ==> kem.decapsulate(mlPrivate, kem.encapsulate(mlPublic, coins).value.0)
          == Some(kem.encapsulate(mlPublic, coins).value.1)
  }

  /** Decapsulation inverts encapsulation under the key pair it was made for. */
  lemma DecapsulateInverts(backend: Backend, kem: Kem, mlPublic: seq<Byte>, mlPrivate: seq<Byte>,
                           private: KeyBytes, coins: nat, random: Random)
    requires DerivesCanonical(backend) && Commutes(backend) && KemCorrect(kem, mlPublic, mlPrivate)
    requires backend.publicFromSecret(private).Some?
    requires Encapsulation(backend, kem, mlPublic, backend.publicFromSecret(private).value, coins, random).Some?
    ensures var sent := Encapsulation(backend, kem, mlPublic, backend.publicFromSecret(private).value, coins, random);
            Decapsulation(backend, kem, mlPrivate, private, sent.value.0) == Some(sent.value.1)
  {
    var ml := kem.encapsulate(mlPublic, coins).value;
    var public := backend.publicFromSecret(random.secret).value;
    var ciphertext := ml.0 + public;
    assert ciphertext[..ML_CIPHERTEXT_BYTES] == ml.0 && ciphertext[ML_CIPHERTEXT_BYTES..] == public;
    CanonicalExactlyBelowP(public);
  }

  // ---- Owned resources ----

  /** Objects that have been obtained and not yet released. */
  class Ledger {
    ghost var live: set<object>

    method Acquire(o: object?)
      requires o != null ==> o !in live
      modifies this
      ensures live == old(live) + Handle(o)
    {
      live := live + Handle(o);
    }

    /** Releasing nothing is allowed; releasing an object twice is not. */
    method Release(o: object?)
      requires o != null ==> o in live
      modifies this
      ensures live == old(live) - Handle(o)
    {
      live := live - Handle(o);
    }
  }

  ghost function Handle(o: object?): set<object> {
    if o == null then {} else {o}
  }

  /** A library key object. */
  class MlKey {
    const public: seq<Byte>
    const private: Option<seq<Byte>>

    constructor (public: seq<Byte>, private: Option<seq<Byte>>)
      ensures this.public == public && this.private == private
    {
      this.public := public;
      this.private := private;
    }
  }

  class MlContext {
    constructor ()
    {
    }
  }

  class Provider {
    const backend: Backend
    const kem: Kem
    const ledger: Ledger

    constructor (backend: Backend, kem: Kem, ledger: Ledger)
      ensures this.backend == backend && this.kem == kem && this.ledger == ledger
    {
      this.backend := backend;
      this.kem := kem;
      this.ledger := ledger;
    }

    ghost predicate Valid() {
      DerivesCanonical(backend)
    }

    /** Import an ML-KEM public key; the library may refuse. */
    method ImportMlPublic(bytes: seq<Byte>, available: bool) returns (key: MlKey?)
      requires |bytes| == ML_PUBLIC_BYTES
      modifies ledger
      ensures key != null <==> available && kem.acceptsPublic(bytes)
      ensures key != null ==> fresh(key) && key.public == bytes && key.private == None
      ensures ledger.live == old(ledger.live) + Handle(key)
    {
      if !available || !kem.acceptsPublic(bytes) {
        return null;
      }
      key := new MlKey(bytes, None);
      ledger.Acquire(key);
    }

    /** A fresh X301 key with no components. */
    method NewX301(available: bool) returns (key: X301Key?)
      requires Valid()
      modifies ledger
      ensures key != null <==> available
      ensures key != null ==> fresh(key) && key.Valid() && key.backend == backend && key.State() == EMPTY_KEY
      ensures ledger.live == old(ledger.live) + Handle(key)
    {
      if !available {
        return null;
      }
      key := new X301Key(backend, EMPTY_KEY);
      ledger.Acquire(key);
    }

    method GenerateX301(random: Random) returns (key: X301Key?)
      requires Valid()
      modifies ledger
      ensures key != null <==> random.Filled? && backend.publicFromSecret(random.secret).Some?
      ensures key != null ==> fresh(key) && key.Valid() && key.backend == backend
      ensures key != null ==> key.State() == KeyState(Some(random.secret), backend.publicFromSecret(random.secret))
      ensures ledger.live == old(ledger.live) + Handle(key)
    {
      key := Generate(backend, random);
      ledger.Acquire(key);
    }

    method NewExchange(available: bool) returns (exchange: X301Exchange?)
      modifies ledger
      ensures exchange != null <==> available
      ensures exchange != null ==> fresh(exchange) && exchange.Valid() && exchange.backend == backend
      ensures exchange != null ==> exchange.calls == []
      ensures ledger.live == old(ledger.live) + Handle(exchange)
    {
      if !available {
        return null;
      }
      exchange := new X301Exchange(backend);
      ledger.Acquire(exchange);
    }

    method NewMlContext(available: bool) returns (context: MlContext?)
      modifies ledger
      ensures context != null <==> available
      ensures context != null ==> fresh(context)
      ensures ledger.live == old(ledger.live) + Handle(context)
    {
      if !available {
        return null;
      }
      context := new MlContext();
      ledger.Acquire(context);
    }
  }

  // ---- Keys ----

  datatype Status = EMPTY | PUBLIC | PRIVATE

  /** The encoded-public-key parameter of a call. */
  datatype PublicParam = Absent | Malformed | Octets(bytes: seq<Byte>)

  class HybridKey {
    const provider: Provider
    var x301: X301Key?
    var mlkem: MlKey?
    var status: Status

    /** Outside EMPTY both components are there; a private key has both private halves. */
    ghost predicate Valid()
      reads this, x301
    {
      && provider.Valid()
      && (status == EMPTY ==> x301 == null && mlkem == null)
      && (status != EMPTY ==> x301 != null && mlkem != null && x301.Valid() && x301.backend == provider.backend
                              && x301.public.Some? && |mlkem.public| == ML_PUBLIC_BYTES)
      && (status == PRIVATE ==> x301.private.Some? && mlkem.private.Some?)
    }

    constructor (provider: Provider)
      requires provider.Valid()
      ensures Valid() && this.provider == provider && status == EMPTY
    {
      this.provider := provider;
      x301 := null;
      mlkem := null;
      status := EMPTY;
    }

    /** Take an encoded public key. Only an empty key accepts one, and a refusal leaves no object behind. */
    method SetParams(param: PublicParam, mlAvailable: bool, x301Available: bool) returns (ok: bool)
      requires Valid() && (param.Octets? ==> |param.bytes| == HYBRID_PUBLIC_BYTES)
      modifies this, provider.ledger
      ensures Valid()
      ensures ok <==> old(status) == EMPTY && !param.Malformed?
                      && (param.Octets? ==> mlAvailable && x301Available
                                            && provider.kem.acceptsPublic(param.bytes[..ML_PUBLIC_BYTES]))
      ensures ok && param.Octets? ==> status == PUBLIC && mlkem.public == param.bytes[..ML_PUBLIC_BYTES]
      ensures ok && param.Octets? ==> x301.State() == KeyState(None,
                                                               Some(CanonicalEncoding(param.bytes[ML_PUBLIC_BYTES..])))
      ensures ok && param.Octets? ==> provider.ledger.live == old(provider.ledger.live) + {mlkem, x301}
      ensures !ok || param.Absent? ==> status == old(status) && x301 == old(x301) && mlkem == old(mlkem)
      ensures !ok || param.Absent? ==> provider.ledger.live == old(provider.ledger.live)
    {
      if status != EMPTY || param.Malformed? {
        return false;
      }
      if param.Absent? {
        return true;
      }
      var importedMl := provider.ImportMlPublic(param.bytes[..ML_PUBLIC_BYTES], mlAvailable);
      var newX301 := provider.NewX301(x301Available);
      ok := false;
      label cleanup: {
        if importedMl == null {
          break cleanup;
        }
        if newX301 == null {
          break cleanup;
        }
        var accepted := newX301.SetEncodedPublic(Buffer(param.bytes[ML_PUBLIC_BYTES..]));
        if !accepted {
          break cleanup;
        }
        mlkem := importedMl;
        x301 := newX301;
        status := PUBLIC;
        importedMl := null;
        newX301 := null;
        ok := true;
      }
      provider.ledger.Release(importedMl);
      provider.ledger.Release(newX301);
    }

    predicate Has(private: bool, public: bool)
      reads this
    {
      (private ==> status == PRIVATE) && (public ==> status != EMPTY)
    }

    /** The 1606-byte encoding, ML-KEM part first; available exactly outside EMPTY. */
    method EncodedPublic() returns (r: Option<seq<Byte>>)
      requires Valid()
      ensures r.Some? <==> status != EMPTY
      ensures r.Some? ==> r.value == mlkem.public + x301.public.value && |r.value| == HYBRID_PUBLIC_BYTES
    {
      if status == EMPTY {
        return None;
      }
      var buffer := new Byte[38](_ => 0);
      var ok := x301.GetPublic(buffer);
      assert ok && buffer[..] == x301.public.value;
      r := Some(mlkem.public + buffer[..]);
    }
  }

  /** What the library's key generation returns. */
  datatype MlPair = MlPair(public: seq<Byte>, private: seq<Byte>)

  /** The objects a key owns, itself included. */
  ghost function Owned(key: HybridKey): set<object>
    reads key
  {
    {key} + Handle(key.x301) + Handle(key.mlkem)
  }

  method NewKey(provider: Provider, available: bool) returns (key: HybridKey?)
    requires provider.Valid()
    modifies provider.ledger
    ensures key != null <==> available
    ensures key != null ==> fresh(key) && key.Valid() && key.provider == provider && key.status == EMPTY
    ensures provider.ledger.live == old(provider.ledger.live) + Handle(key)
  {
    if !available {
      return null;
    }
    key := new HybridKey(provider);
    provider.ledger.Acquire(key);
  }

  method FreeKey(key: HybridKey?)
    requires key != null ==> Owned(key) <= key.provider.ledger.live
    requires key != null ==> key.x301 == null || key.mlkem == null || key.x301 as object != key.mlkem as object
    modifies if key == null then {} else {key.provider.ledger}
    ensures key != null ==> key.provider.ledger.live == old(key.provider.ledger.live) - Owned(key)
  {
    if key == null {
      return;
    }
    key.provider.ledger.Release(key.x301);
    key.provider.ledger.Release(key.mlkem);
    key.provider.ledger.Release(key);
  }

  /** Generation yields a whole private key, an empty key when only parameters are asked for, or nothing at all. */
  method Gen(provider: Provider, keypair: bool, available: bool, random: Random, mlPair: Option<MlPair>)
    returns (key: HybridKey?)
    requires provider.Valid() && (mlPair.Some? ==> |mlPair.value.public| == ML_PUBLIC_BYTES)
    modifies provider.ledger
    ensures key != null <==>
      available && (keypair ==>
        mlPair.Some? && random.Filled? && provider.backend.publicFromSecret(random.secret).Some?)
    ensures key != null ==> fresh(key) && key.Valid() && key.provider == provider
    ensures key != null ==> key.status == if keypair then PRIVATE else EMPTY
    ensures key != null && keypair ==>
      key.x301.State() == KeyState(Some(random.secret), provider.backend.publicFromSecret(random.secret))
    ensures key != null && keypair ==>
      key.mlkem.public == mlPair.value.public && key.mlkem.private == Some(mlPair.value.private)
    ensures provider.ledger.live == old(provider.ledger.live) + if key == null then {} else Owned(key)
  {
    key := NewKey(provider, available);
    if key == null || !keypair {
      return;
    }
    var x301 := provider.GenerateX301(random);
    key.x301 := x301;
    var mlkem: MlKey? := null;
    if mlPair.Some? {
      mlkem := new MlKey(mlPair.value.public, Some(mlPair.value.private));
    }
    provider.ledger.Acquire(mlkem);
    key.mlkem := mlkem;
    if key.x301 == null || key.mlkem == null {
      FreeKey(key);
      key := null;
    } else {
      key.status := PRIVATE;
    }
  }

  // ---- KEM contexts ----

  datatype Operation = NONE | ENCAPSULATE | DECAPSULATE

  /** A caller's length variable. */
  class Cell {
    var value: nat
  }

  /** Whether the library objects an operation asks for can be made. */
  datatype World = World(context: bool, initialized: bool, key: bool, exchange: bool)

  class KemContext {
    const provider: Provider
    var key: HybridKey?
    var operation: Operation

    /** An initialized context holds a key that can serve its operation. */
    ghost predicate Valid()
      reads this, key, if key == null then {} else {key.x301}
    {
      && provider.Valid()
      && (operation != NONE ==> key != null && key.Valid() && key.provider == provider && key.status != EMPTY)
      && (operation == DECAPSULATE ==> key.status == PRIVATE)
    }

    constructor (provider: Provider)
      requires provider.Valid()
      ensures Valid() && this.provider == provider && operation == NONE && key == null
    {
      this.provider := provider;
      key := null;
      operation := NONE;
    }

    /** Attach a key; a refused call leaves the context as it was. */
    method Init(newKey: HybridKey?, parametersGiven: bool, newOperation: Operation) returns (ok: bool)
      requires Valid() && newOperation != NONE && (newKey != null ==> newKey.Valid())
      modifies this
      ensures Valid()
      ensures ok <==> !parametersGiven && newKey != null && newKey.provider == provider && newKey.status != EMPTY
                      && (newOperation == DECAPSULATE ==> newKey.status == PRIVATE)
      ensures key == (if ok then newKey else old(key)) && operation == if ok then newOperation else old(operation)
    {
      if parametersGiven {
        return false;
      }
      if newKey == null || newKey.provider != provider
         || (newOperation == ENCAPSULATE && newKey.status == EMPTY)
         || (newOperation == DECAPSULATE && newKey.status != PRIVATE) {
        return false;
      }
      key := newKey;
      operation := newOperation;
      ok := true;
    }
  }

  /** An init and a peer in that order are the whole snapshot. */
  lemma Snapshots(calls: seq<Call>, private: Option<KeyBytes>, public: Option<KeyBytes>)
    requires calls == [] + [Call.Init(private)] + [Call.SetPeer(public)] && private.Some? && public.Some?
    ensures Run(calls) == ExchangeState(private, public)
  {
    assert calls[..1] == [Call.Init(private)] && calls[..1][..0] == [];
    assert Run(calls[..1]) == Step(Run([]), Call.Init(private));
  }

  lemma Started(calls: seq<Call>, private: Option<KeyBytes>)
    requires calls == [] + [Call.Init(private)] && private.Some?
    ensures Run(calls) == ExchangeState(private, None)
  {
    assert calls[..0] == [];
  }

  /** Init, peer and derive on a fresh exchange. */
  method DeriveWith(exchange: X301Exchange, own: X301Key, peer: X301Key, output: array<Byte>) returns (ok: bool)
    requires exchange.Valid() && exchange.calls == [] && own.Valid() && peer.Valid() && output.Length == 38
    requires own.private.Some?
    modifies exchange, output
    ensures ok <==> peer.public.Some?
                    && exchange.backend.sharedSecret(own.private.value, peer.public.value).Some?
    ensures ok ==> output[..] == exchange.backend.sharedSecret(own.private.value, peer.public.value).value
  {
    hide DerivesCanonical, Consistent, Run;
    var started := exchange.Init(own);
    Started(exchange.calls, own.private);
    var peered := exchange.SetPeer(peer);
    if !started || !peered {
      return false;
    }
    Snapshots(exchange.calls, own.private, peer.public);
    ok := exchange.Derive(output);
  }

  /** Both objects are obtained before either is checked, and both are released on every path. */
  method EncapsulateX301(provider: Provider, peer: X301Key, random: Random, available: bool)
    returns (r: Option<(KeyBytes, KeyBytes)>)
    requires provider.Valid() && peer.Valid() && peer.public.Some?
    modifies provider.ledger
    ensures r == if available then EphemeralPart(provider.backend, random, peer.public.value) else None
    ensures provider.ledger.live == old(provider.ledger.live)
  {
    hide DerivesCanonical, Consistent, Run;
    var serverX301 := provider.GenerateX301(random);
    var exchange := provider.NewExchange(available);
    r := None;
    label cleanup: {
      if serverX301 == null || exchange == null {
        break cleanup;
      }
      var public := new Byte[38](_ => 0);
      var shared := new Byte[38](_ => 0);
      var gotPublic := serverX301.GetPublic(public);
      assert public[..] == serverX301.public.value;
      var derived := DeriveWith(exchange, serverX301, peer, shared);
      if !gotPublic || !derived {
        break cleanup;
      }
      r := Some((public[..], shared[..]));
    }
    provider.ledger.Release(exchange);
    provider.ledger.Release(serverX301);
  }

  // ---- The two operations ----

  /** What the attached key encapsulates to. */
  ghost function Sent(context: KemContext, coins: nat, random: Random): Option<(seq<Byte>, seq<Byte>)>
    requires context.Valid() && context.operation == ENCAPSULATE
    reads context, context.key, context.key.x301
  {
    Encapsulation(context.provider.backend, context.provider.kem, context.key.mlkem.public,
                  context.key.x301.public.value, coins, random)
  }

  /** What the attached key decapsulates a ciphertext to. */
  /** The two halves of both outputs, in terms of the two key-establishment schemes. */
  lemma SentIs(context: KemContext, coins: nat, random: Random)
    requires context.Valid() && context.operation == ENCAPSULATE
    ensures var kem, backend := context.provider.kem, context.provider.backend;
      var ml, peer := kem.encapsulate(context.key.mlkem.public, coins), context.key.x301.public.value;
      && (Sent(context, coins, random).Some?
          <==> ml.Some? && |ml.value.0| == 1568 && |ml.value.1| == 32
               && random.Filled? && backend.publicFromSecret(random.secret).Some?
               && backend.sharedSecret(random.secret, peer).Some?)
      && (Sent(context, coins, random).Some? ==>
          (var (ciphertext, secret) := Sent(context, coins, random).value;
           && |ciphertext| == 1606 && |secret| == 70
           && ml == Some((ciphertext[..1568], secret[..32]))
           && backend.publicFromSecret(random.secret) == Some(ciphertext[1568..])
           && backend.sharedSecret(random.secret, peer) == Some(secret[32..])))
  {
  }

  lemma ReceivedIs(context: KemContext, ciphertext: seq<Byte>)
    requires context.Valid() && context.operation == DECAPSULATE && |ciphertext| == HYBRID_CIPHERTEXT_BYTES
    ensures var ml := context.provider.kem.decapsulate(context.key.mlkem.private.value, ciphertext[..1568]);
      var shared := context.provider.backend.sharedSecret(context.key.x301.private.value,
                                                          CanonicalEncoding(ciphertext[1568..]));
      && (Received(context, ciphertext).Some? <==> ml.Some? && |ml.value| == 32 && shared.Some?)
      && (Received(context, ciphertext).Some? ==>
          (var secret := Received(context, ciphertext).value;
           |secret| == 70 && ml == Some(secret[..32]) && shared == Some(secret[32..])))
  {
  }

  ghost function Received(context: KemContext, ciphertext: seq<Byte>): Option<seq<Byte>>
    requires context.Valid() && context.operation == DECAPSULATE && |ciphertext| == HYBRID_CIPHERTEXT_BYTES
    reads context, context.key, context.key.x301
  {
    Decapsulation(context.provider.backend, context.provider.kem, context.key.mlkem.private.value,
                  context.key.x301.private.value, ciphertext)
  }

  /** Copy a whole result to the front of a caller's buffer. */
  method CopyOut(target: array<Byte>, value: seq<Byte>)
    requires |value| <= target.Length
    modifies target
    ensures target[..|value|] == value && target[|value|..] == old(target[|value|..])
  {
    forall i | 0 <= i < |value| {
      target[i] := value[i];
    }
  }

  /** Every library object and temporary of one encapsulation, with the result they lead to. */
  method ComputeEncapsulation(context: KemContext, coins: nat, random: Random, world: World)
    returns (r: Option<(seq<Byte>, seq<Byte>)>)
    requires context.Valid() && context.operation == ENCAPSULATE
    modifies context.provider.ledger
    ensures r == if world.context && world.initialized && world.exchange then Sent(context, coins, random) else None
    ensures context.provider.ledger.live == old(context.provider.ledger.live)
  {
    hide DerivesCanonical, Consistent, EphemeralPart;
    var provider := context.provider;
    var mlContext := provider.NewMlContext(world.context);
    r := None;
    label cleanup: {
      if mlContext == null || !world.initialized {
        break cleanup;
      }
      var ml := provider.kem.encapsulate(context.key.mlkem.public, coins);
      if ml.None? || |ml.value.0| != ML_CIPHERTEXT_BYTES || |ml.value.1| != ML_SECRET_BYTES {
        break cleanup;
      }
      var x := EncapsulateX301(provider, context.key.x301, random, world.exchange);
      if x.None? {
        break cleanup;
      }
      r := Some((ml.value.0 + x.value.0, ml.value.1 + x.value.1));
    }
    provider.ledger.Release(mlContext);
  }

  /**
   * Encapsulate: without a ciphertext buffer report the sizes; otherwise write the whole 1606-byte ciphertext and
   * the whole 70-byte secret, or leave both buffers alone. A failure changes the lengths only to report the sizes
   * when a buffer is too small.
   */
  method Encapsulate(context: KemContext, ciphertext: array?<Byte>, ciphertextLength: Cell?,
                     sharedSecret: array?<Byte>, sharedSecretLength: Cell?, coins: nat, random: Random, world: World)
    returns (ok: bool)
    requires context.Valid()
    requires ciphertext != null ==> ciphertext != sharedSecret
    requires ciphertextLength != null ==> ciphertextLength != sharedSecretLength
    requires ciphertext != null && ciphertextLength != null ==> ciphertextLength.value <= ciphertext.Length
    requires sharedSecret != null && sharedSecretLength != null ==> sharedSecretLength.value <= sharedSecret.Length
    modifies context.provider.ledger, Handle(ciphertext), Handle(sharedSecret)
    modifies Handle(ciphertextLength), Handle(sharedSecretLength)
    ensures context.provider.ledger.live == old(context.provider.ledger.live)
    ensures ciphertext == null ==>
      (ok <==> context.operation == ENCAPSULATE && (ciphertextLength != null || sharedSecretLength != null))
    ensures ciphertext != null ==>
      (ok <==> context.operation == ENCAPSULATE && sharedSecret != null
               && ciphertextLength != null && old(ciphertextLength.value) >= HYBRID_CIPHERTEXT_BYTES
               && sharedSecretLength != null && old(sharedSecretLength.value) >= HYBRID_SECRET_BYTES
               && world.context && world.initialized && world.exchange
               && (var ml := context.provider.kem.encapsulate(context.key.mlkem.public, coins);
                   ml.Some? && |ml.value.0| == 1568 && |ml.value.1| == 32)
               && random.Filled? && context.provider.backend.publicFromSecret(random.secret).Some?
               && context.provider.backend.sharedSecret(random.secret, context.key.x301.public.value).Some?)
    ensures ok && ciphertext != null ==>
      (var backend, ml := context.provider.backend, context.provider.kem.encapsulate(context.key.mlkem.public, coins);
       && ml == Some((ciphertext[..1568], sharedSecret[..32]))
       && backend.publicFromSecret(random.secret) == Some(ciphertext[1568..1606])
       && backend.sharedSecret(random.secret, context.key.x301.public.value) == Some(sharedSecret[32..70])
       && ciphertext[1606..] == old(ciphertext[1606..]) && sharedSecret[70..] == old(sharedSecret[70..]))
    ensures ok && ciphertext != null ==>
      Sent(context, coins, random) == Some((ciphertext[..1606], sharedSecret[..70]))
    ensures ok && ciphertextLength != null ==> ciphertextLength.value == HYBRID_CIPHERTEXT_BYTES
    ensures ok && sharedSecretLength != null ==> sharedSecretLength.value == HYBRID_SECRET_BYTES
    ensures !ok && ciphertextLength != null ==>
      ciphertextLength.value ==
        (if context.operation == ENCAPSULATE && ciphertext != null && sharedSecret != null && sharedSecretLength != null
            && old(ciphertextLength.value < HYBRID_CIPHERTEXT_BYTES || sharedSecretLength.value < HYBRID_SECRET_BYTES)
         then HYBRID_CIPHERTEXT_BYTES else old(ciphertextLength.value))
    ensures !ok && sharedSecretLength != null ==>
      sharedSecretLength.value ==
        (if context.operation == ENCAPSULATE && ciphertext != null && sharedSecret != null && ciphertextLength != null
            && old(ciphertextLength.value < HYBRID_CIPHERTEXT_BYTES || sharedSecretLength.value < HYBRID_SECRET_BYTES)
         then HYBRID_SECRET_BYTES else old(sharedSecretLength.value))
    ensures !ok && ciphertext != null ==> ciphertext[..] == old(ciphertext[..])
    ensures (!ok || ciphertext == null) && sharedSecret != null ==> sharedSecret[..] == old(sharedSecret[..])
  {
    hide DerivesCanonical, Consistent, Encapsulation;
    if context.operation != ENCAPSULATE || context.key == null {
      return false;
    }
    if ciphertext == null {
      if ciphertextLength == null && sharedSecretLength == null {
        return false;
      }
      if ciphertextLength != null {
        ciphertextLength.value := HYBRID_CIPHERTEXT_BYTES;
      }
      if sharedSecretLength != null {
        sharedSecretLength.value := HYBRID_SECRET_BYTES;
      }
      return true;
    }
    if ciphertextLength == null || sharedSecret == null || sharedSecretLength == null {
      return false;
    }
    if ciphertextLength.value < HYBRID_CIPHERTEXT_BYTES || sharedSecretLength.value < HYBRID_SECRET_BYTES {
      ciphertextLength.value := HYBRID_CIPHERTEXT_BYTES;
      sharedSecretLength.value := HYBRID_SECRET_BYTES;
      return false;
    }
    SentIs(context, coins, random);
    var computed := ComputeEncapsulation(context, coins, random, world);
    if computed.None? {
      return false;
    }
    CopyOut(ciphertext, computed.value.0);
    CopyOut(sharedSecret, computed.value.1);
    ciphertextLength.value := HYBRID_CIPHERTEXT_BYTES;
    sharedSecretLength.value := HYBRID_SECRET_BYTES;
    assert ciphertext[..1568] == ciphertext[..1606][..1568] && ciphertext[1568..1606] == ciphertext[..1606][1568..];
    assert sharedSecret[..32] == sharedSecret[..70][..32] && sharedSecret[32..70] == sharedSecret[..70][32..];
    ok := true;
  }

  /** The X301 half of a decapsulation, over a peer key and an exchange that are both released again. */
  method DecapsulateX301(provider: Provider, own: X301Key, encoded: KeyBytes, world: World)
    returns (r: Option<KeyBytes>)
    requires provider.Valid() && own.Valid() && own.private.Some?
    modifies provider.ledger
    ensures r == if world.key && world.exchange
                 then provider.backend.sharedSecret(own.private.value, CanonicalEncoding(encoded)) else None
    ensures provider.ledger.live == old(provider.ledger.live)
  {
    hide DerivesCanonical, Consistent, Run;
    var peerX301 := provider.NewX301(world.key);
    var exchange := provider.NewExchange(world.exchange);
    r := None;
    label cleanup: {
      if peerX301 == null || exchange == null {
        break cleanup;
      }
      var accepted := peerX301.SetEncodedPublic(Buffer(encoded));
      assert accepted && peerX301.public == Some(CanonicalEncoding(encoded));
      var shared := new Byte[38](_ => 0);
      var derived := DeriveWith(exchange, own, peerX301, shared);
      if !derived {
        break cleanup;
      }
      r := Some(shared[..]);
    }
    provider.ledger.Release(exchange);
    provider.ledger.Release(peerX301);
  }

  method ComputeDecapsulation(context: KemContext, ciphertext: seq<Byte>, world: World) returns (r: Option<seq<Byte>>)
    requires context.Valid() && context.operation == DECAPSULATE && |ciphertext| == HYBRID_CIPHERTEXT_BYTES
    modifies context.provider.ledger
    ensures r == if world.context && world.initialized && world.key && world.exchange
                 then Received(context, ciphertext) else None
    ensures context.provider.ledger.live == old(context.provider.ledger.live)
  {
    hide DerivesCanonical, Consistent;
    var provider := context.provider;
    var mlContext := provider.NewMlContext(world.context);
    r := None;
    label cleanup: {
      if mlContext == null || !world.initialized {
        break cleanup;
      }
      var ml := provider.kem.decapsulate(context.key.mlkem.private.value, ciphertext[..ML_CIPHERTEXT_BYTES]);
      if ml.None? || |ml.value| != ML_SECRET_BYTES {
        break cleanup;
      }
      var x := DecapsulateX301(provider, context.key.x301, ciphertext[ML_CIPHERTEXT_BYTES..], world);
      if x.None? {
        break cleanup;
      }
      r := Some(ml.value + x.value);
    }
    provider.ledger.Release(mlContext);
  }

  /**
   * Decapsulate: report the size, or write the whole 70-byte secret, or leave the buffer alone. A failure changes the
   * length only to report the size when the buffer is too small.
   */
  method Decapsulate(context: KemContext, sharedSecret: array?<Byte>, sharedSecretLength: Cell?,
                     ciphertext: Option<seq<Byte>>, world: World) returns (ok: bool)
    requires context.Valid()
    requires sharedSecret != null && sharedSecretLength != null ==> sharedSecretLength.value <= sharedSecret.Length
    modifies context.provider.ledger, Handle(sharedSecret), Handle(sharedSecretLength)
    ensures context.provider.ledger.live == old(context.provider.ledger.live)
    ensures sharedSecret == null ==> (ok <==> context.operation == DECAPSULATE && sharedSecretLength != null)
    ensures sharedSecret != null ==>
      (ok <==> context.operation == DECAPSULATE && sharedSecretLength != null
               && ciphertext.Some? && |ciphertext.value| == HYBRID_CIPHERTEXT_BYTES
               && old(sharedSecretLength.value) >= HYBRID_SECRET_BYTES
               && world.context && world.initialized && world.key && world.exchange
               && (var private := context.key.mlkem.private.value;
                   var ml := context.provider.kem.decapsulate(private, ciphertext.value[..1568]);
                   ml.Some? && |ml.value| == 32)
               && context.provider.backend.sharedSecret(context.key.x301.private.value,
                                                        CanonicalEncoding(ciphertext.value[1568..])).Some?)
    ensures ok && sharedSecret != null ==>
      (var own, peer := context.key.x301.private.value, CanonicalEncoding(ciphertext.value[1568..]);
       && context.provider.kem.decapsulate(context.key.mlkem.private.value, ciphertext.value[..1568])
          == Some(sharedSecret[..32])
       && context.provider.backend.sharedSecret(own, peer) == Some(sharedSecret[32..70])
       && sharedSecret[70..] == old(sharedSecret[70..]))
    ensures ok && sharedSecret != null ==> Received(context, ciphertext.value) == Some(sharedSecret[..70])
    ensures ok ==> sharedSecretLength.value == HYBRID_SECRET_BYTES
    ensures !ok && sharedSecretLength != null ==>
      sharedSecretLength.value ==
        (if context.operation == DECAPSULATE && sharedSecret != null
            && ciphertext.Some? && |ciphertext.value| == HYBRID_CIPHERTEXT_BYTES
            && old(sharedSecretLength.value) < HYBRID_SECRET_BYTES
         then HYBRID_SECRET_BYTES else old(sharedSecretLength.value))
    ensures !ok && sharedSecret != null ==> sharedSecret[..] == old(sharedSecret[..])
  {
    if context.operation != DECAPSULATE || context.key == null {
      return false;
    }
    if sharedSecret == null {
      if sharedSecretLength == null {
        return false;
      }
      sharedSecretLength.value := HYBRID_SECRET_BYTES;
      return true;
    }
    if sharedSecretLength == null || ciphertext.None? || |ciphertext.value| != HYBRID_CIPHERTEXT_BYTES {
      return false;
    }
    if sharedSecretLength.value < HYBRID_SECRET_BYTES {
      sharedSecretLength.value := HYBRID_SECRET_BYTES;
      return false;
    }
    ReceivedIs(context, ciphertext.value);
    var computed := ComputeDecapsulation(context, ciphertext.value, world);
    if computed.None? {
      return false;
    }
    CopyOut(sharedSecret, computed.value);
    sharedSecretLength.value := HYBRID_SECRET_BYTES;
    assert sharedSecret[..32] == sharedSecret[..70][..32] && sharedSecret[32..70] == sharedSecret[..70][32..];
    ok := true;
  }

  /**
   * A sender who imported the receiver's encoded public key sends what the receiver recovers: the two contexts
   * agree on the secret for every encapsulation that succeeds.
   */
  lemma SentIsReceived(sender: KemContext, receiver: KemContext, coins: nat, random: Random)
    requires sender.Valid() && sender.operation == ENCAPSULATE
    requires receiver.Valid() && receiver.operation == DECAPSULATE && receiver.provider == sender.provider
    requires Commutes(sender.provider.backend)
    requires KemCorrect(sender.provider.kem, receiver.key.mlkem.public, receiver.key.mlkem.private.value)
    requires sender.key.mlkem.public == receiver.key.mlkem.public
    requires sender.key.x301.public == Some(CanonicalEncoding(receiver.key.x301.public.value))
    requires Sent(sender, coins, random).Some?
    ensures Received(receiver, Sent(sender, coins, random).value.0) == Some(Sent(sender, coins, random).value.1)
  {
    hide Encapsulation, Decapsulation, CanonicalEncoding;
    CanonicalExactlyBelowP(receiver.key.x301.public.value);
    DecapsulateInverts(sender.provider.backend, sender.provider.kem, receiver.key.mlkem.public,
                       receiver.key.mlkem.private.value, receiver.key.x301.private.value, coins, random);
  }
}
