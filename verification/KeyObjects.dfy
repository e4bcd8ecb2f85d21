// The provider's key and exchange objects as state machines over optional components.
module KeyObjects {
  import opened Wrappers
  import opened Bytes
  import opened Modular
  import opened Canonicalization

  type KeyBytes = s: seq<Byte> | |s| == 38 witness seq(38, _ => 0)

  /** The two X301 functions the objects call; either may refuse. */
  datatype Backend = Backend(publicFromSecret: KeyBytes -> Option<KeyBytes>,
                             sharedSecret: (KeyBytes, KeyBytes) -> Option<KeyBytes>)

  /** Derived public keys are canonical encodings. */
  ghost predicate DerivesCanonical(backend: Backend) {
    forall secret: KeyBytes :: backend.publicFromSecret(secret).Some?
      ==> LE(backend.publicFromSecret(secret).value) < P
  }

  /** A caller's pointer and length. */
  datatype Input = Null(length: nat) | Buffer(bytes: seq<Byte>)

  /** Absent, malformed (`None`), or exactly 38 bytes. */
  function ReadOptionalSecret(input: Input): Option<Option<KeyBytes>> {
    match input
    case Null(length) => if length == 0 then Some(None) else None
    case Buffer(bytes) => if |bytes| == 38 then Some(Some(bytes)) else None
  }

  /** As for secrets, canonicalized. */
  function ReadOptionalPublic(input: Input): Option<Option<KeyBytes>> {
    match input
    case Null(length) => if length == 0 then Some(None) else None
    case Buffer(bytes) => if |bytes| == 38 then Some(Some(CanonicalEncoding(bytes))) else None
  }

  method ReadPublic(input: Input) returns (r: Option<Option<KeyBytes>>)
    ensures r == ReadOptionalPublic(input)
  {
    match input {
      case Null(length) =>
        r := if length == 0 then Some(None) else None;
      case Buffer(bytes) =>
        var canonical := CanonicalizePublicEncoding(bytes);
        r := if canonical.Ok? then Some(Some(canonical.value)) else None;
    }
  }

  /** Copy out only when the buffer is there and long enough; longer buffers keep their tail. */
  method WriteExact(output: array?<Byte>, value: KeyBytes) returns (ok: bool)
    modifies if output == null then {} else {output}
    ensures ok <==> output != null && output.Length >= 38
    ensures ok ==> output[..] == value + old(output[38..])
    ensures !ok && output != null ==> output[..] == old(output[..])
  {
    if output == null || output.Length < 38 {
      return false;
    }
    forall i | 0 <= i < 38 {
      output[i] := value[i];
    }
    ok := true;
  }

  // ---- Keys ----

  /** The value of a key object. */
  datatype KeyState = KeyState(private: Option<KeyBytes>, public: Option<KeyBytes>)

  const EMPTY_KEY: KeyState := KeyState(None, None)

  /** Public keys are canonical, secrets derive, and the two components agree. */
  ghost predicate Consistent(backend: Backend, key: KeyState) {
    && (key.public.Some? ==> LE(key.public.value) < P)
    && (key.private.Some? ==> backend.publicFromSecret(key.private.value).Some?)
    && (key.private.Some? && key.public.Some? ==> backend.publicFromSecret(key.private.value) == key.public)
  }

  /** What an import stores, or nothing when it is refused. */
  function Imported(backend: Backend, private: Input, public: Input): Option<KeyState> {
    var secret, encoded := ReadOptionalSecret(private), ReadOptionalPublic(public);
    if secret.None? || encoded.None? || (secret.value.None? && encoded.value.None?) then None
    else if secret.value.None? then Some(KeyState(None, encoded.value))
    else
      var derived := backend.publicFromSecret(secret.value.value);
      if derived.None? || (encoded.value.Some? && encoded.value != derived) then None
      else Some(KeyState(secret.value, derived))
  }

  /** An encoded public key is taken unless it disagrees with a component that is already there. */
  function PublicTaken(backend: Backend, key: KeyState, public: Input): Option<KeyState> {
    var encoded := ReadOptionalPublic(public);
    if encoded.None? || encoded.value.None? then None
    else if key.private.Some? && backend.publicFromSecret(key.private.value) != encoded.value then None
    else if key.public.Some? && key.public != encoded.value then None
    else Some(key.(public := encoded.value))
  }

  /** Whatever an import stores is consistent and not empty. */
  lemma ImportConsistent(backend: Backend, private: Input, public: Input)
    requires DerivesCanonical(backend) && Imported(backend, private, public).Some?
    ensures Consistent(backend, Imported(backend, private, public).value)
    ensures Imported(backend, private, public).value.public.Some?
  {
    if public.Buffer? && |public.bytes| == 38 {
      CanonicalValue(public.bytes);
    }
  }

  lemma TakenConsistent(backend: Backend, key: KeyState, public: Input)
    requires Consistent(backend, key) && PublicTaken(backend, key, public).Some?
    ensures Consistent(backend, PublicTaken(backend, key, public).value)
  {
    CanonicalValue(public.bytes);
  }

  /**
   * Encodings of one public value are one key: importing any alias stores the same state.
   */
  lemma AliasesImportAlike(backend: Backend, private: Input, first: seq<Byte>, second: seq<Byte>)
    requires |first| == 38 && |second| == 38
    requires Cong(MaskedValue(first), MaskedValue(second))
    ensures Imported(backend, private, Buffer(first)) == Imported(backend, private, Buffer(second))
  {
    CanonicalDecidesCongruence(first, second);
  }

  datatype Random = NoCallback | Refused | Filled(secret: KeyBytes)

  class X301Key {
    const backend: Backend
    var private: Option<KeyBytes>
    var public: Option<KeyBytes>

    ghost predicate Valid()
      reads this
    {
      DerivesCanonical(backend) && Consistent(backend, State())
    }

    function State(): KeyState
      reads this
    {
      KeyState(private, public)
    }

    constructor (backend: Backend, state: KeyState)
      requires DerivesCanonical(backend) && Consistent(backend, state)
      ensures Valid() && this.backend == backend && State() == state
    {
      this.backend := backend;
      private := state.private;
      public := state.public;
    }

    /**
     * A secret is stored with its derived public key, against which a public buffer beside it is checked; a public
     * buffer alone is stored in canonical form. Absent means null with length zero.
     */
    method Import(privateInput: Input, publicInput: Input) returns (ok: bool)
      requires Valid()
      modifies this
      ensures Valid()
      ensures ok <==> Imported(backend, privateInput, publicInput).Some?
      ensures State() == if ok then Imported(backend, privateInput, publicInput).value else old(State())
      ensures privateInput.Buffer? && |privateInput.bytes| == 38 && publicInput == Null(0) ==>
        (ok <==> backend.publicFromSecret(privateInput.bytes).Some?)
      ensures privateInput.Buffer? && |privateInput.bytes| == 38 && publicInput.Buffer? && |publicInput.bytes| == 38 ==>
        (ok <==> backend.publicFromSecret(privateInput.bytes) == Some(CanonicalEncoding(publicInput.bytes)))
      ensures privateInput == Null(0) && publicInput.Buffer? && |publicInput.bytes| == 38 ==> ok
      ensures ok && privateInput.Buffer? ==>
        private == Some(privateInput.bytes) && public == backend.publicFromSecret(privateInput.bytes)
      ensures ok && !privateInput.Buffer? ==> private == None && public == Some(CanonicalEncoding(publicInput.bytes))
      ensures ok ==> privateInput == Null(0) || (privateInput.Buffer? && |privateInput.bytes| == 38)
      ensures ok ==> publicInput == Null(0) || (publicInput.Buffer? && |publicInput.bytes| == 38)
      ensures ok ==> privateInput.Buffer? || publicInput.Buffer?
      ensures !ok ==> private == old(private) && public == old(public)
    {
      hide DerivesCanonical;
      var rawPrivate := ReadOptionalSecret(privateInput);
      if rawPrivate.None? {
        return false;
      }
      var rawPublic := ReadPublic(publicInput);
      if rawPublic.None? {
        return false;
      }
      if rawPrivate.value.None? && rawPublic.value.None? {
        return false;
      }
      var derived: Option<KeyBytes> := None;
      if rawPrivate.value.Some? {
        derived := backend.publicFromSecret(rawPrivate.value.value);
        if derived.None? {
          return false;
        }
      }
      if rawPublic.value.Some? && derived.Some? && derived != rawPublic.value {
        return false;
      }
      private := rawPrivate.value;
      public := if derived.Some? then derived else rawPublic.value;
      ImportConsistent(backend, privateInput, publicInput);
      ok := true;
    }

    method SetEncodedPublic(publicInput: Input) returns (ok: bool)
      requires Valid()
      modifies this`public
      ensures Valid()
      ensures ok <==> PublicTaken(backend, old(State()), publicInput).Some?
      ensures State() == if ok then PublicTaken(backend, old(State()), publicInput).value else old(State())
      ensures ok <==>
        publicInput.Buffer? && |publicInput.bytes| == 38
        && (private.Some? ==> backend.publicFromSecret(private.value) == Some(CanonicalEncoding(publicInput.bytes)))
        && (old(public).Some? ==> old(public) == Some(CanonicalEncoding(publicInput.bytes)))
      ensures public == if ok then Some(CanonicalEncoding(publicInput.bytes)) else old(public)
    {
      var encoded := ReadPublic(publicInput);
      if encoded.None? || encoded.value.None? {
        return false;
      }
      if private.Some? {
        var derived := backend.publicFromSecret(private.value);
        if derived.None? || derived != encoded.value {
          return false;
        }
      }
      if public.Some? && public != encoded.value {
        return false;
      }
      TakenConsistent(backend, State(), publicInput);
      public := encoded.value;
      ok := true;
    }

    /** Keep the requested components of a copy. */
    method Duplicate(includePrivate: bool, includePublic: bool) returns (copy: X301Key)
      requires Valid()
      ensures fresh(copy) && copy.Valid() && copy.backend == backend
      ensures copy.State() == KeyState(if includePrivate then private else None, if includePublic then public else None)
    {
      copy := new X301Key(backend, KeyState(if includePrivate then private else None,
                                            if includePublic then public else None));
    }

    predicate Has(requirePrivate: bool, requirePublic: bool)
      reads this
    {
      (requirePrivate ==> private.Some?) && (requirePublic ==> public.Some?)
    }

    /** Re-deriving and re-checking never refuses what a key holds: validation asks only for presence. */
    method Validate(validatePrivate: bool, validatePublic: bool) returns (ok: bool)
      requires Valid()
      ensures ok <==> (validatePrivate ==> private.Some?) && (validatePublic ==> public.Some?)
    {
      var derived: Option<KeyBytes> := None;
      if validatePrivate {
        if private.None? {
          return false;
        }
        derived := backend.publicFromSecret(private.value);
        assert derived.Some?;
      }
      if validatePublic {
        if public.None? {
          return false;
        }
        assert derived.Some? ==> derived == public;
      }
      ok := true;
    }

    method Matches(other: X301Key, matchPrivate: bool, matchPublic: bool) returns (ok: bool)
      ensures ok <==> ((matchPrivate ==> private.Some? && private == other.private)
                       && (matchPublic ==> public.Some? && public == other.public))
    {
      if matchPrivate && (private.None? || other.private.None? || private != other.private) {
        return false;
      }
      if matchPublic && (public.None? || other.public.None? || public != other.public) {
        return false;
      }
      ok := true;
    }

    method GetPublic(output: array?<Byte>) returns (ok: bool)
      modifies if output == null then {} else {output}
      ensures ok <==> public.Some? && output != null && output.Length >= 38
      ensures ok ==> output[..] == public.value + old(output[38..])
      ensures !ok && output != null ==> output[..] == old(output[..])
    {
      if public.None? {
        return false;
      }
      ok := WriteExact(output, public.value);
    }

    method GetPrivate(output: array?<Byte>) returns (ok: bool)
      modifies if output == null then {} else {output}
      ensures ok <==> private.Some? && output != null && output.Length >= 38
      ensures ok ==> output[..] == private.value + old(output[38..])
      ensures !ok && output != null ==> output[..] == old(output[..])
    {
      if private.None? {
        return false;
      }
      ok := WriteExact(output, private.value);
    }
  }

  /** One random fill, one derivation; the new key holds both components. */
  method Generate(backend: Backend, random: Random) returns (key: X301Key?)
    requires DerivesCanonical(backend)
    ensures key != null <==> random.Filled? && backend.publicFromSecret(random.secret).Some?
    ensures key != null ==> fresh(key) && key.Valid() && key.backend == backend
    ensures key != null ==> key.State() == KeyState(Some(random.secret), backend.publicFromSecret(random.secret))
  {
    if !random.Filled? {
      return null;
    }
    var public := backend.publicFromSecret(random.secret);
    if public.None? {
      return null;
    }
    key := new X301Key(backend, KeyState(Some(random.secret), public));
  }

  // ---- Exchanges ----

  /** A call on an exchange: what the key it was given held at that moment. */
  datatype Call = Init(private: Option<KeyBytes>) | SetPeer(public: Option<KeyBytes>)

  datatype ExchangeState = ExchangeState(private: Option<KeyBytes>, peer: Option<KeyBytes>)

  /** One call; refused calls leave the state alone. */
  function Step(s: ExchangeState, call: Call): ExchangeState {
    match call
    case Init(private) => if private.Some? then ExchangeState(private, None) else s
    case SetPeer(public) => if s.private.Some? && public.Some? then s.(peer := public) else s
  }

  function Run(calls: seq<Call>): ExchangeState {
    if |calls| == 0 then ExchangeState(None, None)
    else Step(Run(calls[..|calls| - 1]), calls[|calls| - 1])
  }

  /** Call `i` is an accepted init with no accepted init after it. */
  ghost predicate LastInit(calls: seq<Call>, i: int) {
    && 0 <= i < |calls| && calls[i].Init? && calls[i].private.Some?
    && forall k :: i < k < |calls| && calls[k].Init? ==> calls[k].private.None?
  }

  /** Call `j` is a peer with a public key after `i`, and the last one. */
  ghost predicate LastPeer(calls: seq<Call>, i: int, j: int) {
    && i < j < |calls| && 0 <= j && calls[j].SetPeer? && calls[j].public.Some?
    && forall k :: j < k < |calls| && calls[k].SetPeer? ==> calls[k].public.None?
  }

  /** No init was accepted. */
  ghost predicate NeverInitialized(calls: seq<Call>) {
    forall k :: 0 <= k < |calls| && calls[k].Init? ==> calls[k].private.None?
  }

  ghost predicate NoPeerAfter(calls: seq<Call>, i: int) {
    forall k :: i < k < |calls| && 0 <= k && calls[k].SetPeer? ==> calls[k].public.None?
  }

  /**
   * In every run the state is the snapshot of the last accepted init and of the last peer after it:
   * nothing earlier, and no later change of the keys involved, has any influence.
   */
  lemma {:induction false} StateIsSnapshot(calls: seq<Call>)
    ensures Run(calls).private.None? <==> NeverInitialized(calls)
    ensures Run(calls).private.None? ==> Run(calls).peer.None?
    ensures forall i :: LastInit(calls, i) ==> Run(calls).private == calls[i].private
    ensures forall i, j :: LastInit(calls, i) && LastPeer(calls, i, j) ==> Run(calls).peer == calls[j].public
    ensures forall i :: LastInit(calls, i) && NoPeerAfter(calls, i) ==> Run(calls).peer.None?
  {
    if |calls| != 0 {
      var n := |calls| - 1;
      var before, call := calls[..n], calls[n];
      StateIsSnapshot(before);
      if call.Init? && call.private.Some? {
        assert LastInit(calls, n);
        forall i | LastInit(calls, i)
          ensures i == n
        {
        }
      } else {
        forall i | LastInit(calls, i)
          ensures LastInit(before, i) && calls[i] == before[i]
        {
        }
        assert NeverInitialized(before) <==> NeverInitialized(calls);
        PeerStep(calls, n);
      }
    }
  }

  /** A call that is no accepted init moves the peer only when it supplies one. */
  lemma PeerStep(calls: seq<Call>, n: nat)
    requires n == |calls| - 1 && !(calls[n].Init? && calls[n].private.Some?)
    ensures forall i, j :: LastInit(calls, i) && LastPeer(calls, i, j) && j < n ==> LastPeer(calls[..n], i, j)
    ensures forall i :: LastInit(calls, i) && NoPeerAfter(calls, i) ==> NoPeerAfter(calls[..n], i)
    ensures forall i, j :: LastPeer(calls, i, j) && calls[n].SetPeer? && calls[n].public.Some? ==> j == n
    ensures forall i :: LastInit(calls, i) ==> i < n
  {
  }

  class X301Exchange {
    const backend: Backend
    var private: Option<KeyBytes>
    var peerPublic: Option<KeyBytes>
    ghost var calls: seq<Call>

    /** The fields are the run of the calls so far; a peer implies a secret, and is canonical. */
    ghost predicate Valid()
      reads this
    {
      && Run(calls) == State()
      && (peerPublic.Some? ==> private.Some? && LE(peerPublic.value) < P)
    }

    function State(): ExchangeState
      reads this
    {
      ExchangeState(private, peerPublic)
    }

    constructor (backend: Backend)
      ensures Valid() && this.backend == backend && calls == [] && State() == ExchangeState(None, None)
    {
      this.backend := backend;
      private := None;
      peerPublic := None;
      calls := [];
    }

    /** Snapshot the secret of a key and forget any peer. */
    method Init(key: X301Key) returns (ok: bool)
      requires Valid()
      modifies this
      ensures Valid() && calls == old(calls) + [Call.Init(key.private)]
      ensures ok <==> key.private.Some?
      ensures ok ==> private == key.private && peerPublic == None
      ensures !ok ==> private == old(private) && peerPublic == old(peerPublic)
    {
      calls := calls + [Call.Init(key.private)];
      assert calls[..|calls| - 1] == old(calls);
      if key.private.None? {
        return false;
      }
      private := key.private;
      peerPublic := None;
      ok := true;
    }

    /** Snapshot the public key of a peer. */
    method SetPeer(peer: X301Key) returns (ok: bool)
      requires Valid() && peer.Valid()
      modifies this
      ensures Valid() && calls == old(calls) + [Call.SetPeer(peer.public)]
      ensures ok <==> old(private).Some? && peer.public.Some?
      ensures private == old(private) && peerPublic == if ok then peer.public else old(peerPublic)
    {
      calls := calls + [Call.SetPeer(peer.public)];
      assert calls[..|calls| - 1] == old(calls);
      if private.None? {
        return false;
      }
      if peer.public.None? {
        return false;
      }
      peerPublic := peer.public;
      ok := true;
    }

    /** The shared secret of the two snapshots, written whole or not at all. */
    method Derive(output: array?<Byte>) returns (ok: bool)
      requires Valid()
      modifies if output == null then {} else {output}
      ensures ok <==> Shared(backend, Run(calls)).Some? && output != null && output.Length >= 38
      ensures ok ==> output[..] == Shared(backend, Run(calls)).value + old(output[38..])
      ensures ok <==>
        private.Some? && peerPublic.Some? && output != null && output.Length >= 38
        && backend.sharedSecret(private.value, peerPublic.value).Some?
      ensures ok ==> output[..] == backend.sharedSecret(private.value, peerPublic.value).value + old(output[38..])
      ensures !ok && output != null ==> output[..] == old(output[..])
    {
      if private.None? || peerPublic.None? {
        return false;
      }
      var shared := backend.sharedSecret(private.value, peerPublic.value);
      if shared.None? {
        return false;
      }
      ok := WriteExact(output, shared.value);
    }

    method Duplicate() returns (copy: X301Exchange)
      requires Valid()
      ensures fresh(copy) && copy.Valid() && copy.backend == backend && copy.calls == calls
    {
      copy := new X301Exchange(backend);
      copy.private := private;
      copy.peerPublic := peerPublic;
      copy.calls := calls;
    }
  }

  function Shared(backend: Backend, s: ExchangeState): Option<KeyBytes> {
    if s.private.Some? && s.peer.Some? then backend.sharedSecret(s.private.value, s.peer.value) else None
  }
}
