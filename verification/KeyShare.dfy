// The TLS 1.3 ClientHello key-share locator and the rewriter that shrinks the hybrid share.
module KeyShare {
  import opened Wrappers
  import opened Bytes

  const GROUP_ID: nat := 0xFE2E
  const KEY_SHARE_EXTENSION: nat := 51
  const HYBRID_BYTES: nat := 1606
  const FOREIGN_BYTES: nat := 1216
  const REMOVED: nat := 390

  datatype MutationError =
    | Truncated(part: string)
    | WrongHandshakeType
    | FragmentedHandshake
    | TrailingAfterExtensions
    | ExtensionOverrun
    | TrailingAfterShares
    | MalformedEntryBoundary
    | MalformedExtensionBoundary
    | ShareCount(count: nat)
    | LengthOutOfRange
    | NotHybridShare

  datatype ShareLocation = ShareLocation(keyStart: nat, keyEnd: nat, keyLengthOffset: nat, sharesLengthOffset: nat,
                                         extensionLengthOffset: nat, extensionsLengthOffset: nat)

  type Parsed = Result<seq<ShareLocation>, MutationError>

  // ---- Reading ----

  /** Big-endian integer of `width` bytes at `offset`. */
  function ReadInt(data: seq<Byte>, offset: nat, width: nat): nat
    requires offset + width <= |data|
  {
    if width == 0 then 0 else 256 * ReadInt(data, offset, width - 1) + data[offset + width - 1]
  }

  function Reversed(s: seq<Byte>): seq<Byte> {
    seq(|s|, i requires 0 <= i < |s| => s[|s| - 1 - i])
  }

  /** The first byte is the most significant: the value of the reversed, little-endian bytes. */
  lemma {:induction false} ReadIntIsBigEndian(data: seq<Byte>, offset: nat, width: nat)
    requires offset + width <= |data|
    ensures ReadInt(data, offset, width) == LE(Reversed(data[offset..offset + width]))
  {
    if width != 0 {
      ReadIntIsBigEndian(data, offset, width - 1);
      var s := data[offset..offset + width];
      var shorter := data[offset..offset + width - 1];
      assert forall i :: 0 <= i < |shorter| ==> s[i] == shorter[i];
      assert Reversed(s)[1..] == Reversed(shorter);
    }
  }

  /** Bounds of the length-prefixed vector at `offset`, checked against the whole message only. */
  function VectorBounds(data: seq<Byte>, offset: nat, width: nat, part: string): (r: Result<(nat, nat), MutationError>)
    ensures r.Ok? ==> offset + width == r.value.0 <= r.value.1 <= |data|
    ensures r.Ok? ==> r.value.1 == r.value.0 + ReadInt(data, offset, width)
  {
    if offset + width > |data| then Err(Truncated(part + " length"))
    else
      var end := offset + width + ReadInt(data, offset, width);
      if end > |data| then Err(Truncated(part)) else Ok((offset + width, end))
  }

  function Prepend(head: seq<ShareLocation>, tail: Parsed): Parsed {
    if tail.Ok? then Ok(head + tail.value) else tail
  }

  // ---- The grammar, as functions of the offset ----

  /** The matching entries from `entry` to `end`. */
  function Entries(m: seq<Byte>, entry: nat, end: nat, sharesOffset: nat, extensionOffset: nat, extensionsOffset: nat)
    : Parsed
    decreases |m| - entry
  {
    if entry >= end then (if entry == end then Ok([]) else Err(MalformedEntryBoundary))
    else if entry + 4 > |m| then Err(Truncated("client KeyShareEntry"))
    else
      var bounds := VectorBounds(m, entry + 2, 2, "client key_exchange");
      if bounds.Err? then Err(bounds.error)
      else
        Prepend(EntryMatch(m, entry, bounds.value, sharesOffset, extensionOffset, extensionsOffset),
                Entries(m, bounds.value.1, end, sharesOffset, extensionOffset, extensionsOffset))
  }

  function EntryMatch(m: seq<Byte>, entry: nat, key: (nat, nat), sharesOffset: nat, extensionOffset: nat,
                      extensionsOffset: nat): seq<ShareLocation>
    requires entry + 2 <= |m|
  {
    if ReadInt(m, entry, 2) == GROUP_ID
    then [ShareLocation(key.0, key.1, entry + 2, sharesOffset, extensionOffset, extensionsOffset)]
    else []
  }

  /** The matches of one extension body. */
  function Body(m: seq<Byte>, kind: nat, body: (nat, nat), extensionOffset: nat, extensionsOffset: nat): Parsed {
    if kind != KEY_SHARE_EXTENSION then Ok([])
    else
      var shares := VectorBounds(m, body.0, 2, "client_shares");
      if shares.Err? then Err(shares.error)
      else if shares.value.1 != body.1 then Err(TrailingAfterShares)
      else Entries(m, shares.value.0, shares.value.1, body.0, extensionOffset, extensionsOffset)
  }

  /** The matches of the extensions from `offset` to `end`. */
  function Extensions(m: seq<Byte>, offset: nat, end: nat, extensionsOffset: nat): Parsed
    decreases |m| - offset
  {
    if offset >= end then (if offset == end then Ok([]) else Err(MalformedExtensionBoundary))
    else if offset + 4 > |m| then Err(Truncated("extension header"))
    else
      var body := VectorBounds(m, offset + 2, 2, "extension");
      if body.Err? then Err(body.error)
      else if body.value.1 > end then Err(ExtensionOverrun)
      else
        var here := Body(m, ReadInt(m, offset, 2), body.value, offset + 2, extensionsOffset);
        if here.Err? then here
        else Prepend(here.value, Extensions(m, body.value.1, end, extensionsOffset))
  }

  function Framing(m: seq<Byte>, expectedType: Byte): Option<MutationError> {
    if |m| < 4 then Some(Truncated("ClientHello framing"))
    else if m[0] != expectedType then Some(WrongHandshakeType)
    else if ReadInt(m, 1, 3) + 4 != |m| then Some(FragmentedHandshake)
    else None
  }

  /** Offset of the extensions length: past the random, the session, the suites and the compression methods. */
  function Preamble(m: seq<Byte>): Result<nat, MutationError> {
    if 38 > |m| then Err(Truncated("ClientHello fixed fields"))
    else
      var session := VectorBounds(m, 38, 1, "legacy_session_id");
      if session.Err? then Err(session.error)
      else
        var suites := VectorBounds(m, session.value.1, 2, "cipher_suites");
        if suites.Err? then Err(suites.error)
        else
          var compression := VectorBounds(m, suites.value.1, 1, "compression_methods");
          if compression.Err? then Err(compression.error) else Ok(compression.value.1)
  }

  /** The extensions block must end the message. */
  function AllShares(m: seq<Byte>, extensionsOffset: nat): Parsed {
    var extensions := VectorBounds(m, extensionsOffset, 2, "ClientHello extensions");
    if extensions.Err? then Err(extensions.error)
    else if extensions.value.1 != |m| then Err(TrailingAfterExtensions)
    else Extensions(m, extensions.value.0, extensions.value.1, extensionsOffset)
  }

  /** Where the one X301MLKEM1024 client share is, or why there is none. */
  function ClientShare(m: seq<Byte>): Result<ShareLocation, MutationError> {
    var framing := Framing(m, 1);
    if framing.Some? then Err(framing.value)
    else
      var preamble := Preamble(m);
      if preamble.Err? then Err(preamble.error)
      else
        var matches := AllShares(m, preamble.value);
        if matches.Err? then Err(matches.error)
        else if |matches.value| != 1 then Err(ShareCount(|matches.value|))
        else Ok(matches.value[0])
  }

  // ---- The locator as written: nested loops over one offset ----

  lemma PrependNothing(r: Parsed)
    ensures Prepend([], r) == r
  {
    if r.Ok? {
      assert [] + r.value == r.value;
    }
  }

  lemma PrependTwice(head: seq<ShareLocation>, more: seq<ShareLocation>, r: Parsed)
    ensures Prepend(head, Prepend(more, r)) == Prepend(head + more, r)
  {
    if r.Ok? {
      assert head + (more + r.value) == (head + more) + r.value;
    }
  }

  method FindEntries(m: seq<Byte>, bodyStart: nat, bodyEnd: nat, extensionOffset: nat, extensionsOffset: nat)
    returns (r: Parsed)
    ensures r == Body(m, KEY_SHARE_EXTENSION, (bodyStart, bodyEnd), extensionOffset, extensionsOffset)
  {
    var shares := VectorBounds(m, bodyStart, 2, "client_shares");
    if shares.Err? {
      return Err(shares.error);
    }
    var (entriesStart, entriesEnd) := shares.value;
    if entriesEnd != bodyEnd {
      return Err(TrailingAfterShares);
    }
    var matches := [];
    var entry := entriesStart;
    ghost var whole := Entries(m, entriesStart, entriesEnd, bodyStart, extensionOffset, extensionsOffset);
    PrependNothing(whole);
    while entry < entriesEnd
      invariant entry <= |m|
      invariant whole == Prepend(matches, Entries(m, entry, entriesEnd, bodyStart, extensionOffset, extensionsOffset))
      decreases |m| - entry
    {
      if entry + 4 > |m| {
        return Err(Truncated("client KeyShareEntry"));
      }
      var group := ReadInt(m, entry, 2);
      var key := VectorBounds(m, entry + 2, 2, "client key_exchange");
      if key.Err? {
        return Err(key.error);
      }
      var (keyStart, keyEnd) := key.value;
      ghost var more := EntryMatch(m, entry, key.value, bodyStart, extensionOffset, extensionsOffset);
      PrependTwice(matches, more, Entries(m, keyEnd, entriesEnd, bodyStart, extensionOffset, extensionsOffset));
      if group == GROUP_ID {
        matches := matches
          + [ShareLocation(keyStart, keyEnd, entry + 2, bodyStart, extensionOffset, extensionsOffset)];
      } else {
        assert matches + more == matches;
      }
      entry := keyEnd;
    }
    if entry != entriesEnd {
      return Err(MalformedEntryBoundary);
    }
    assert matches + [] == matches;
    r := Ok(matches);
  }

  method FindClientShare(m: seq<Byte>) returns (r: Result<ShareLocation, MutationError>)
    ensures r == ClientShare(m)
  {
    hide Entries, Body, VectorBounds, ReadInt;
    var framing := Framing(m, 1);
    if framing.Some? {
      return Err(framing.value);
    }
    var preamble := Preamble(m);
    if preamble.Err? {
      return Err(preamble.error);
    }
    var extensionsLengthOffset := preamble.value;
    var extensions := VectorBounds(m, extensionsLengthOffset, 2, "ClientHello extensions");
    if extensions.Err? {
      return Err(extensions.error);
    }
    var (extensionsStart, extensionsEnd) := extensions.value;
    if extensionsEnd != |m| {
      return Err(TrailingAfterExtensions);
    }
    var matches := [];
    var offset := extensionsStart;
    ghost var whole := Extensions(m, extensionsStart, extensionsEnd, extensionsLengthOffset);
    PrependNothing(whole);
    while offset < extensionsEnd
      invariant offset <= |m|
      invariant whole == Prepend(matches, Extensions(m, offset, extensionsEnd, extensionsLengthOffset))
      decreases |m| - offset
    {
      if offset + 4 > |m| {
        return Err(Truncated("extension header"));
      }
      var extensionType := ReadInt(m, offset, 2);
      var body := VectorBounds(m, offset + 2, 2, "extension");
      if body.Err? {
        return Err(body.error);
      }
      var (bodyStart, bodyEnd) := body.value;
      if bodyEnd > extensionsEnd {
        return Err(ExtensionOverrun);
      }
      var here: Parsed := Ok([]);
      if extensionType == KEY_SHARE_EXTENSION {
        here := FindEntries(m, bodyStart, bodyEnd, offset + 2, extensionsLengthOffset);
        if here.Err? {
          return Err(here.error);
        }
      }
      OtherBody(m, extensionType, body.value, offset + 2, extensionsLengthOffset);
      PrependTwice(matches, here.value, Extensions(m, bodyEnd, extensionsEnd, extensionsLengthOffset));
      matches := matches + here.value;
      offset := bodyEnd;
    }
    if offset != extensionsEnd {
      return Err(MalformedExtensionBoundary);
    }
    assert matches + [] == matches;
    if |matches| != 1 {
      return Err(ShareCount(|matches|));
    }
    r := Ok(matches[0]);
  }

  lemma OtherBody(m: seq<Byte>, kind: nat, body: (nat, nat), extensionOffset: nat, extensionsOffset: nat)
    ensures kind != KEY_SHARE_EXTENSION ==> Body(m, kind, body, extensionOffset, extensionsOffset) == Ok([])
  {
  }

  // ---- Where a located share sits ----

  /** The key of an entry between `from` and `end`. */
  ghost predicate KeyPlaced(m: seq<Byte>, loc: ShareLocation, from: nat, end: nat) {
    && from + 2 <= loc.keyLengthOffset && loc.keyStart == loc.keyLengthOffset + 2
    && loc.keyEnd <= end && loc.keyEnd <= |m| && loc.keyStart <= |m|
    && loc.keyEnd == loc.keyStart + ReadInt(m, loc.keyLengthOffset, 2)
  }

  lemma {:induction false} EntriesPlaced(m: seq<Byte>, entry: nat, end: nat, s: nat, x: nat, e: nat)
    requires Entries(m, entry, end, s, x, e).Ok?
    ensures entry <= end
    ensures forall loc :: loc in Entries(m, entry, end, s, x, e).value ==>
         KeyPlaced(m, loc, entry, end)
         && loc.sharesLengthOffset == s && loc.extensionLengthOffset == x && loc.extensionsLengthOffset == e
    decreases |m| - entry
  {
    if entry < end {
      var key := VectorBounds(m, entry + 2, 2, "client key_exchange").value;
      EntriesPlaced(m, key.1, end, s, x, e);
    }
  }

  /** The four nested lengths around the key, between `from` and `end`. */
  ghost predicate ShareNested(m: seq<Byte>, loc: ShareLocation, from: nat, end: nat) {
    && from + 2 <= loc.extensionLengthOffset && loc.sharesLengthOffset == loc.extensionLengthOffset + 2
    && KeyPlaced(m, loc, loc.sharesLengthOffset + 2, end)
    && KeyPlaced(m, loc, loc.sharesLengthOffset + 2,
                 loc.sharesLengthOffset + 2 + ReadInt(m, loc.sharesLengthOffset, 2))
    && loc.sharesLengthOffset + 2 + ReadInt(m, loc.sharesLengthOffset, 2)
       == loc.extensionLengthOffset + 2 + ReadInt(m, loc.extensionLengthOffset, 2) <= end
  }

  lemma {:induction false} ExtensionsNested(m: seq<Byte>, offset: nat, end: nat, e: nat)
    requires Extensions(m, offset, end, e).Ok? && end <= |m|
    ensures offset <= end
    ensures forall loc :: loc in Extensions(m, offset, end, e).value ==>
         ShareNested(m, loc, offset, end) && loc.extensionsLengthOffset == e
    decreases |m| - offset
  {
    if offset < end {
      var body := VectorBounds(m, offset + 2, 2, "extension").value;
      var kind := ReadInt(m, offset, 2);
      ExtensionsNested(m, body.1, end, e);
      if kind == KEY_SHARE_EXTENSION {
        var shares := VectorBounds(m, body.0, 2, "client_shares").value;
        EntriesPlaced(m, shares.0, shares.1, body.0, offset + 2, e);
      }
    }
  }

  /** All five enclosing lengths agree with the position of the key. */
  ghost predicate Located(m: seq<Byte>, loc: ShareLocation) {
    && |m| >= 42 && 38 < loc.extensionsLengthOffset <= |m| - 2
    && ReadInt(m, 1, 3) + 4 == |m|
    && loc.extensionsLengthOffset + 2 + ReadInt(m, loc.extensionsLengthOffset, 2) == |m|
    && ShareNested(m, loc, loc.extensionsLengthOffset + 2, |m|)
  }

  /** A share that is found is nested consistently. */
  lemma FoundIsLocated(m: seq<Byte>)
    requires ClientShare(m).Ok?
    ensures Located(m, ClientShare(m).value)
  {
    hide Extensions, ReadInt;
    var e := Preamble(m).value;
    ExtensionsNested(m, e + 2, |m|, e);
  }

  // ---- The rewriter ----

  function ToBE(n: nat, width: nat): (s: seq<Byte>)
    ensures |s| == width
  {
    if width == 0 then [] else ToBE(n / 256, width - 1) + [n % 256]
  }

  lemma {:induction false} ToBEIsBigEndian(n: nat, width: nat)
    ensures ToBE(n, width) == Reversed(ToLE(n, width))
  {
    if width != 0 {
      ToBEIsBigEndian(n / 256, width - 1);
      assert ToLE(n, width) == [n % 256] + ToLE(n / 256, width - 1);
    }
  }

  function Overwrite(data: seq<Byte>, offset: nat, bytes: seq<Byte>): (r: seq<Byte>)
    requires offset + |bytes| <= |data|
    ensures |r| == |data|
  {
    data[..offset] + bytes + data[offset + |bytes|..]
  }

  lemma {:induction false} ReadBack(data: seq<Byte>, offset: nat, n: nat, width: nat)
    requires offset + width <= |data| && n < Pow256(width)
    requires forall i :: offset <= i < offset + width ==> data[i] == ToBE(n, width)[i - offset]
    ensures ReadInt(data, offset, width) == n
  {
    if width != 0 {
      assert forall i :: 0 <= i < width - 1 ==> ToBE(n, width)[i] == ToBE(n / 256, width - 1)[i];
      assert data[offset + width - 1] == n % 256;
      ReadBack(data, offset, n / 256, width - 1);
    }
  }

  lemma {:induction false} SameInt(m: seq<Byte>, o: seq<Byte>, i: nat, j: nat, width: nat)
    requires i + width <= |m| && j + width <= |o|
    requires forall k :: j <= k < j + width ==> o[k] == m[k - j + i]
    ensures ReadInt(o, j, width) == ReadInt(m, i, width)
  {
    if width != 0 {
      SameInt(m, o, i, j, width - 1);
      assert o[j + width - 1] == m[i + width - 1];
    }
  }

  /** Writing one length changes that field and nothing else. */
  ghost predicate LengthWritten(before: seq<Byte>, after: seq<Byte>, offset: nat, width: nat, value: nat) {
    && |after| == |before| && offset + width <= |before|
    && ReadInt(after, offset, width) == value
    && forall i :: 0 <= i < |before| && !(offset <= i < offset + width) ==> after[i] == before[i]
  }

  class MessageBuffer {
    var data: seq<Byte>

    constructor (message: seq<Byte>)
      ensures data == message
    {
      data := message;
    }

    method DeleteRange(start: nat, end: nat)
      requires start <= end <= |data|
      modifies this
      ensures data == old(data)[..start] + old(data)[end..]
    {
      data := data[..start] + data[end..];
    }

    method SetLength(offset: nat, width: nat, value: int) returns (error: Option<MutationError>)
      requires offset + width <= |data|
      modifies this
      ensures value < 0 || value >= Pow256(width) ==> error == Some(LengthOutOfRange) && data == old(data)
      ensures 0 <= value < Pow256(width) ==> error == None && LengthWritten(old(data), data, offset, width, value)
    {
      if value < 0 || value >= Pow256(width) {
        return Some(LengthOutOfRange);
      }
      data := Overwrite(data, offset, ToBE(value, width));
      ReadBack(data, offset, value, width);
      error := None;
    }
  }

  predicate LengthByte(loc: ShareLocation, i: nat) {
    || 1 <= i < 4
    || loc.extensionsLengthOffset <= i < loc.extensionsLengthOffset + 2
    || loc.extensionLengthOffset <= i < loc.extensionLengthOffset + 2
    || loc.sharesLengthOffset <= i < loc.sharesLengthOffset + 2
    || loc.keyLengthOffset <= i < loc.keyLengthOffset + 2
  }

  /** `o` is `m` with the located key cut to its first 1216 bytes and the five lengths adjusted. */
  ghost predicate Resized(m: seq<Byte>, o: seq<Byte>, loc: ShareLocation) {
    && Located(m, loc) && loc.keyEnd == loc.keyStart + HYBRID_BYTES
    && |o| + REMOVED == |m|
    && (forall i :: 0 <= i < loc.keyStart + FOREIGN_BYTES && !LengthByte(loc, i) ==> o[i] == m[i])
    && (forall i :: loc.keyEnd - REMOVED <= i < |o| ==> o[i] == m[i + REMOVED])
    && ReadInt(o, loc.keyLengthOffset, 2) == FOREIGN_BYTES
    && ReadInt(o, loc.sharesLengthOffset, 2) + REMOVED == ReadInt(m, loc.sharesLengthOffset, 2)
    && ReadInt(o, loc.extensionLengthOffset, 2) + REMOVED == ReadInt(m, loc.extensionLengthOffset, 2)
    && ReadInt(o, loc.extensionsLengthOffset, 2) + REMOVED == ReadInt(m, loc.extensionsLengthOffset, 2)
    && ReadInt(o, 1, 3) + REMOVED == ReadInt(m, 1, 3)
  }

  /** The message with 390 bytes of the key gone, before any length is adjusted. */
  ghost predicate Shortened(m: seq<Byte>, d: seq<Byte>, loc: ShareLocation) {
    && Located(m, loc) && loc.keyEnd == loc.keyStart + HYBRID_BYTES && |d| + REMOVED == |m|
    && (forall i :: 0 <= i < loc.keyStart + FOREIGN_BYTES ==> d[i] == m[i])
    && (forall i :: loc.keyStart + FOREIGN_BYTES <= i < |d| ==> d[i] == m[i + REMOVED])
  }

  /** A field below the key reads the same in two buffers that agree on it. */
  lemma SameField(m: seq<Byte>, o: seq<Byte>, offset: nat, width: nat)
    requires offset + width <= |m| && offset + width <= |o|
    requires forall k :: offset <= k < offset + width ==> o[k] == m[k]
    ensures ReadInt(o, offset, width) == ReadInt(m, offset, width)
  {
    SameInt(m, o, offset, offset, width);
  }

  /** A two- or three-byte length is in range. */
  lemma IntBound(data: seq<Byte>, offset: nat, width: nat)
    requires offset + width <= |data|
    ensures ReadInt(data, offset, width) < Pow256(width)
  {
  }

  /** The fields written one after another give the resized message. */
  lemma FieldsWritten(m: seq<Byte>, d: seq<seq<Byte>>, loc: ShareLocation)
    requires |d| == 6 && Shortened(m, d[0], loc)
    requires LengthWritten(d[0], d[1], loc.keyLengthOffset, 2, FOREIGN_BYTES)
    requires LengthWritten(d[1], d[2], loc.sharesLengthOffset, 2, ReadInt(m, loc.sharesLengthOffset, 2) - REMOVED)
    requires LengthWritten(d[2], d[3], loc.extensionLengthOffset, 2, ReadInt(m, loc.extensionLengthOffset, 2) - REMOVED)
    requires LengthWritten(d[3], d[4], loc.extensionsLengthOffset, 2, ReadInt(m, loc.extensionsLengthOffset,
                                                                              2) - REMOVED)
    requires LengthWritten(d[4], d[5], 1, 3, ReadInt(m, 1, 3) - REMOVED)
    ensures Resized(m, d[5], loc)
  {
    hide ReadInt;
    SameField(d[1], d[5], loc.keyLengthOffset, 2);
    SameField(d[2], d[5], loc.sharesLengthOffset, 2);
    SameField(d[3], d[5], loc.extensionLengthOffset, 2);
    SameField(d[4], d[5], loc.extensionsLengthOffset, 2);
  }

  /** Subtract the removed bytes from one two-byte length. */
  method ShrinkLength(buffer: MessageBuffer, offset: nat, ghost before: seq<Byte>)
    requires offset + 2 <= |buffer.data| && offset + 2 <= |before|
    requires forall k :: offset <= k < offset + 2 ==> buffer.data[k] == before[k]
    requires ReadInt(before, offset, 2) >= REMOVED
    modifies buffer
    ensures LengthWritten(old(buffer.data), buffer.data, offset, 2, ReadInt(before, offset, 2) - REMOVED)
  {
    SameField(before, buffer.data, offset, 2);
    IntBound(before, offset, 2);
    var oldValue := ReadInt(buffer.data, offset, 2);
    var error := buffer.SetLength(offset, 2, oldValue - REMOVED);
    assert error == None;
  }

  /** A ClientHello with one X301MLKEM1024 share of 1606 bytes. */
  predicate HoldsHybrid(m: seq<Byte>) {
    ClientShare(m).Ok? && ClientShare(m).value.keyEnd == ClientShare(m).value.keyStart + HYBRID_BYTES
  }

  /**
   * Cut the hybrid share to a foreign size. It fails exactly when no single share is found or the share is not
   * 1606 bytes; no length adjustment can be out of range.
   */
  method ReplaceWithForeignSize(message: seq<Byte>) returns (r: Result<seq<Byte>, MutationError>)
    ensures ClientShare(message).Err? ==> r == Err(ClientShare(message).error)
    ensures ClientShare(message).Ok? && !HoldsHybrid(message) ==> r == Err(NotHybridShare)
    ensures HoldsHybrid(message) ==> r.Ok? && Resized(message, r.value, ClientShare(message).value)
    ensures HoldsHybrid(message) ==>
      (var loc := ClientShare(message).value;
       && |message| == |r.value| + 390 && loc.keyEnd == loc.keyStart + 1606 <= |message|
       && r.value[loc.keyStart..loc.keyStart + 1216] == message[loc.keyStart..loc.keyStart + 1216]
       && r.value[loc.keyStart + 1216..] == message[loc.keyEnd..]
       && (forall i :: 0 <= i < loc.keyStart && !LengthByte(loc, i) ==> r.value[i] == message[i])
       && ReadInt(r.value, loc.keyLengthOffset, 2) == 1216
       && ReadInt(r.value, loc.sharesLengthOffset, 2) == ReadInt(message, loc.sharesLengthOffset, 2) - 390
       && ReadInt(r.value, loc.extensionLengthOffset, 2) == ReadInt(message, loc.extensionLengthOffset, 2) - 390
       && ReadInt(r.value, loc.extensionsLengthOffset, 2) == ReadInt(message, loc.extensionsLengthOffset, 2) - 390
       && ReadInt(r.value, 1, 3) == |r.value| - 4)
  {
    hide ReadInt, Pow256, ClientShare, Resized;
    var buffer := new MessageBuffer(message);
    var found := FindClientShare(message);
    if found.Err? {
      return Err(found.error);
    }
    var location := found.value;
    FoundIsLocated(message);
    if location.keyEnd - location.keyStart != HYBRID_BYTES {
      return Err(NotHybridShare);
    }
    buffer.DeleteRange(location.keyStart + FOREIGN_BYTES, location.keyEnd);
    ghost var d0 := buffer.data;
    SmallWidths();
    var error := buffer.SetLength(location.keyLengthOffset, 2, FOREIGN_BYTES);
    assert error == None;
    ghost var d1 := buffer.data;
    ShrinkLength(buffer, location.sharesLengthOffset, message);
    ghost var d2 := buffer.data;
    ShrinkLength(buffer, location.extensionLengthOffset, message);
    ghost var d3 := buffer.data;
    ShrinkLength(buffer, location.extensionsLengthOffset, message);
    ghost var d4 := buffer.data;
    IntBound(message, 1, 3);
    error := buffer.SetLength(1, 3, |buffer.data| - 4);
    assert error == None;
    FieldsWritten(message, [d0, d1, d2, d3, d4, buffer.data], location);
    r := Ok(buffer.data);
    ResizedBytes(message, r.value, location);
  }

  /** The rewriting, byte by byte and length by length. */
  lemma ResizedBytes(m: seq<Byte>, o: seq<Byte>, loc: ShareLocation)
    requires Resized(m, o, loc)
    ensures |m| == |o| + 390 && loc.keyEnd == loc.keyStart + 1606 <= |m|
    ensures o[loc.keyStart..loc.keyStart + 1216] == m[loc.keyStart..loc.keyStart + 1216]
    ensures o[loc.keyStart + 1216..] == m[loc.keyEnd..]
    ensures forall i :: 0 <= i < loc.keyStart && !LengthByte(loc, i) ==> o[i] == m[i]
    ensures loc.keyLengthOffset + 2 <= |o| && loc.sharesLengthOffset + 2 <= |o|
    ensures loc.extensionLengthOffset + 2 <= |o| && loc.extensionsLengthOffset + 2 <= |o| && 4 <= |o|
    ensures ReadInt(o, loc.keyLengthOffset, 2) == 1216
    ensures ReadInt(o, loc.sharesLengthOffset, 2) == ReadInt(m, loc.sharesLengthOffset, 2) - 390
    ensures ReadInt(o, loc.extensionLengthOffset, 2) == ReadInt(m, loc.extensionLengthOffset, 2) - 390
    ensures ReadInt(o, loc.extensionsLengthOffset, 2) == ReadInt(m, loc.extensionsLengthOffset, 2) - 390
    ensures ReadInt(o, 1, 3) == |o| - 4
  {
    hide ReadInt;
    KeyKept(m, o, loc);
  }

  lemma SmallWidths()
    ensures Pow256(2) == 0x1_0000
  {
  }

  // ---- The output parses again, to the same place ----

  function Resize(loc: ShareLocation): ShareLocation {
    loc.(keyEnd := loc.keyStart + FOREIGN_BYTES)
  }

  /** A field past the cut reads the same 390 bytes earlier. */
  lemma ShiftedField(m: seq<Byte>, o: seq<Byte>, loc: ShareLocation, offset: nat, width: nat)
    requires Resized(m, o, loc) && loc.keyEnd <= offset && offset + width <= |m|
    ensures ReadInt(o, offset - REMOVED, width) == ReadInt(m, offset, width)
  {
    hide ReadInt;
    SameInt(m, o, offset, offset - REMOVED, width);
  }

  /** Entries after the share: still none of them match. */
  lemma {:induction false} EntriesShifted(m: seq<Byte>, o: seq<Byte>, loc: ShareLocation, entry: nat, end: nat,
                                          s: nat, x: nat, e: nat, s': nat, x': nat)
    requires Resized(m, o, loc) && loc.keyEnd <= entry && end <= |m|
    requires Entries(m, entry, end, s, x, e) == Ok([])
    ensures Entries(o, entry - REMOVED, end - REMOVED, s', x', e) == Ok([])
    decreases |m| - entry
  {
    hide ReadInt, Resized;
    EntriesPlaced(m, entry, end, s, x, e);
    if entry < end {
      var key := VectorBounds(m, entry + 2, 2, "client key_exchange").value;
      EntriesPlaced(m, key.1, end, s, x, e);
      ShiftedSize(m, o, loc);
      ShiftedField(m, o, loc, entry, 2);
      ShiftedField(m, o, loc, entry + 2, 2);
      EntriesShifted(m, o, loc, key.1, end, s, x, e, s', x');
    }
  }

  lemma ShiftedSize(m: seq<Byte>, o: seq<Byte>, loc: ShareLocation)
    requires Resized(m, o, loc)
    ensures |o| + REMOVED == |m| && loc.keyEnd == loc.keyStart + HYBRID_BYTES && loc.keyEnd <= |m|
  {
  }

  /** Extensions after the one that holds the share. */
  lemma {:induction false} ExtensionsShifted(m: seq<Byte>, o: seq<Byte>, loc: ShareLocation, offset: nat, e: nat)
    requires Resized(m, o, loc) && loc.keyEnd <= offset && Extensions(m, offset, |m|, e) == Ok([])
    ensures Extensions(o, offset - REMOVED, |o|, e) == Ok([])
    decreases |m| - offset
  {
    hide ReadInt, Resized, Entries;
    ShiftedSize(m, o, loc);
    if offset < |m| {
      var body := VectorBounds(m, offset + 2, 2, "extension").value;
      ShiftedField(m, o, loc, offset, 2);
      ShiftedField(m, o, loc, offset + 2, 2);
      ExtensionsShifted(m, o, loc, body.1, e);
      if ReadInt(m, offset, 2) == KEY_SHARE_EXTENSION {
        var shares := VectorBounds(m, body.0, 2, "client_shares").value;
        ShiftedField(m, o, loc, body.0, 2);
        EntriesShifted(m, o, loc, shares.0, shares.1, body.0, offset + 2, e, body.0 - REMOVED, offset + 2 - REMOVED);
      }
    }
  }

  /** A field below the key that is not one of the adjusted lengths reads the same. */
  lemma KeptField(m: seq<Byte>, o: seq<Byte>, loc: ShareLocation, offset: nat, width: nat)
    requires Resized(m, o, loc) && offset + width <= loc.keyStart
    requires forall k :: offset <= k < offset + width ==> !LengthByte(loc, k)
    ensures offset + width <= |o| && ReadInt(o, offset, width) == ReadInt(m, offset, width)
  {
    hide ReadInt;
    SameField(m, o, offset, width);
  }

  /** Entries of an earlier key-share extension: unchanged. */
  lemma {:induction false} EntriesKept(m: seq<Byte>, o: seq<Byte>, loc: ShareLocation, entry: nat, end: nat,
                                       s: nat, x: nat, e: nat)
    requires Resized(m, o, loc) && loc.extensionsLengthOffset + 2 <= entry && end <= loc.extensionLengthOffset
    requires Entries(m, entry, end, s, x, e).Ok?
    ensures Entries(o, entry, end, s, x, e) == Entries(m, entry, end, s, x, e)
    decreases |m| - entry
  {
    hide ReadInt;
    EntriesPlaced(m, entry, end, s, x, e);
    if entry < end {
      var key := VectorBounds(m, entry + 2, 2, "client key_exchange").value;
      EntriesPlaced(m, key.1, end, s, x, e);
      KeptField(m, o, loc, entry, 2);
      KeptField(m, o, loc, entry + 2, 2);
      EntriesKept(m, o, loc, key.1, end, s, x, e);
    }
  }

  /** The entries around the share: the same match, shorter, and an end 390 bytes earlier. */
  lemma {:induction false} EntriesTarget(m: seq<Byte>, o: seq<Byte>, loc: ShareLocation, entry: nat, end: nat,
                                         s: nat, x: nat, e: nat)
    requires Resized(m, o, loc) && loc.sharesLengthOffset + 2 <= entry && end <= |m|
    requires Entries(m, entry, end, s, x, e) == Ok([loc])
    ensures end >= REMOVED && Entries(o, entry, end - REMOVED, s, x, e) == Ok([Resize(loc)])
    decreases |m| - entry
  {
    hide ReadInt, Resized;
    ResizedFacts(m, o, loc);
    EntriesPlaced(m, entry, end, s, x, e);
    assert loc in Entries(m, entry, end, s, x, e).value;
    var key := VectorBounds(m, entry + 2, 2, "client key_exchange").value;
    var rest := Entries(m, key.1, end, s, x, e);
    EntriesPlaced(m, key.1, end, s, x, e);
    if ReadInt(m, entry, 2) == GROUP_ID {
      SingleMatch(EntryMatch(m, entry, key, s, x, e), rest.value, loc);
      EntryTarget(m, o, loc, entry, end, s, x, e);
    } else {
      assert [] + rest.value == rest.value;
      assert loc in rest.value;
      KeptField(m, o, loc, entry, 2);
      KeptField(m, o, loc, entry + 2, 2);
      EntriesTarget(m, o, loc, key.1, end, s, x, e);
      assert [] + [Resize(loc)] == [Resize(loc)];
    }
  }

  /** The entry that holds the share, then entries without a match. */
  lemma EntryTarget(m: seq<Byte>, o: seq<Byte>, loc: ShareLocation, entry: nat, end: nat, s: nat, x: nat, e: nat)
    requires entry + 4 <= loc.keyEnd <= end <= |m| && s + 2 <= entry
    requires Resized(m, o, loc) && ReadInt(m, entry, 2) == GROUP_ID
             && loc == ShareLocation(entry + 4, loc.keyEnd, entry + 2, s, x, e)
    requires Entries(m, loc.keyEnd, end, s, x, e) == Ok([])
    ensures Entries(o, entry, end - REMOVED, s, x, e) == Ok([Resize(loc)])
  {
    hide ReadInt, Resized;
    ResizedFacts(m, o, loc);
    KeptField(m, o, loc, entry, 2);
    EntriesShifted(m, o, loc, loc.keyEnd, end, s, x, e, s, x);
    assert [Resize(loc)] + [] == [Resize(loc)];
  }

  lemma SingleMatch(here: seq<ShareLocation>, rest: seq<ShareLocation>, loc: ShareLocation)
    requires here + rest == [loc]
    ensures (here == [loc] && rest == []) || (here == [] && rest == [loc])
  {
    assert |here| + |rest| == 1;
    if |here| == 1 {
      assert here[0] == (here + rest)[0];
    } else {
      assert rest[0] == (here + rest)[0];
    }
  }

  /** The extensions around the share. */
  lemma {:induction false} ExtensionsTarget(m: seq<Byte>, o: seq<Byte>, loc: ShareLocation, offset: nat, e: nat)
    requires Resized(m, o, loc) && e == loc.extensionsLengthOffset && e + 2 <= offset
    requires Extensions(m, offset, |m|, e) == Ok([loc])
    ensures Extensions(o, offset, |o|, e) == Ok([Resize(loc)])
    decreases |m| - offset
  {
    hide ReadInt, Entries, Resized;
    ResizedFacts(m, o, loc);
    ExtensionsNested(m, offset, |m|, e);
    assert loc in Extensions(m, offset, |m|, e).value;
    var body := VectorBounds(m, offset + 2, 2, "extension").value;
    var kind := ReadInt(m, offset, 2);
    var here := Body(m, kind, body, offset + 2, e);
    var rest := Extensions(m, body.1, |m|, e);
    ExtensionsNested(m, body.1, |m|, e);
    SingleMatch(here.value, rest.value, loc);
    KeptField(m, o, loc, offset, 2);
    if here.value == [loc] {
      ExtensionTarget(m, o, loc, body.1, offset, e);
    } else {
      assert loc in rest.value;
      KeptField(m, o, loc, offset + 2, 2);
      BodyKept(m, o, loc, kind, body, offset, e);
      ExtensionsTarget(m, o, loc, body.1, e);
      assert [] + [Resize(loc)] == [Resize(loc)];
    }
  }

  /** The extension that holds the share, then extensions without one. */
  lemma ExtensionTarget(m: seq<Byte>, o: seq<Byte>, loc: ShareLocation, end: nat, offset: nat, e: nat)
    requires offset + 4 <= end <= |m| && end == offset + 4 + ReadInt(m, offset + 2, 2)
    requires Resized(m, o, loc) && e == loc.extensionsLengthOffset && e + 2 <= offset
    requires ReadInt(m, offset, 2) == KEY_SHARE_EXTENSION
    requires Body(m, KEY_SHARE_EXTENSION, (offset + 4, end), offset + 2, e) == Ok([loc])
    requires Extensions(m, end, |m|, e) == Ok([])
    ensures Extensions(o, offset, |o|, e) == Ok([Resize(loc)])
  {
    hide ReadInt, Entries, Resized, Body;
    ResizedFacts(m, o, loc);
    BodyTarget(m, o, loc, (offset + 4, end), offset, e);
    KeptField(m, o, loc, offset, 2);
    ExtensionsShifted(m, o, loc, end, e);
    assert [Resize(loc)] + [] == [Resize(loc)];
  }

  /** The parts of the relation the extension walk uses. */
  lemma ResizedFacts(m: seq<Byte>, o: seq<Byte>, loc: ShareLocation)
    requires Resized(m, o, loc)
    ensures |o| + REMOVED == |m| && Located(m, loc) && loc.keyEnd == loc.keyStart + HYBRID_BYTES
    ensures ReadInt(o, loc.keyLengthOffset, 2) == FOREIGN_BYTES
    ensures ReadInt(o, loc.sharesLengthOffset, 2) + REMOVED == ReadInt(m, loc.sharesLengthOffset, 2)
    ensures ReadInt(o, loc.extensionLengthOffset, 2) + REMOVED == ReadInt(m, loc.extensionLengthOffset, 2)
    ensures ReadInt(o, loc.extensionsLengthOffset, 2) + REMOVED == ReadInt(m, loc.extensionsLengthOffset, 2)
    ensures ReadInt(o, 1, 3) + REMOVED == ReadInt(m, 1, 3)
  {
  }

  /** The extension that holds the share, with its shorter body. */
  lemma BodyTarget(m: seq<Byte>, o: seq<Byte>, loc: ShareLocation, body: (nat, nat), offset: nat, e: nat)
    requires Resized(m, o, loc) && e == loc.extensionsLengthOffset && e + 2 <= offset
    requires offset + 4 == body.0 <= body.1 <= |m| && body.1 == body.0 + ReadInt(m, offset + 2, 2)
    requires Body(m, KEY_SHARE_EXTENSION, body, offset + 2, e) == Ok([loc])
    ensures body.1 >= REMOVED && loc.extensionLengthOffset == offset + 2 && loc.keyEnd <= body.1
    ensures Body(o, KEY_SHARE_EXTENSION, (body.0, body.1 - REMOVED), offset + 2, e) == Ok([Resize(loc)])
  {
    hide ReadInt, Entries, Resized;
    ResizedFacts(m, o, loc);
    var shares := VectorBounds(m, body.0, 2, "client_shares").value;
    EntriesPlaced(m, shares.0, shares.1, body.0, offset + 2, e);
    assert loc in Entries(m, shares.0, shares.1, body.0, offset + 2, e).value;
    EntriesTarget(m, o, loc, shares.0, shares.1, body.0, offset + 2, e);
  }

  /** An earlier extension, whatever its kind. */
  lemma BodyKept(m: seq<Byte>, o: seq<Byte>, loc: ShareLocation, kind: nat, body: (nat, nat), offset: nat, e: nat)
    requires Resized(m, o, loc) && e == loc.extensionsLengthOffset && e + 2 <= offset
    requires offset + 4 == body.0 <= body.1 && body.1 + 2 <= loc.extensionLengthOffset
    requires Body(m, kind, body, offset + 2, e).Ok?
    ensures Body(o, kind, body, offset + 2, e) == Body(m, kind, body, offset + 2, e)
  {
    hide ReadInt, Entries, Resized;
    ResizedFacts(m, o, loc);
    if kind == KEY_SHARE_EXTENSION {
      var shares := VectorBounds(m, body.0, 2, "client_shares").value;
      KeptField(m, o, loc, body.0, 2);
      EntriesKept(m, o, loc, shares.0, shares.1, body.0, offset + 2, e);
    }
  }

  /** The preamble lies below every adjusted length but the framing. */
  lemma PreambleKept(m: seq<Byte>, o: seq<Byte>, loc: ShareLocation)
    requires Resized(m, o, loc) && Preamble(m) == Ok(loc.extensionsLengthOffset)
    ensures Preamble(o) == Preamble(m)
  {
    hide ReadInt, Resized;
    ResizedFacts(m, o, loc);
    var session := VectorBounds(m, 38, 1, "legacy_session_id").value;
    KeptField(m, o, loc, 38, 1);
    var suites := VectorBounds(m, session.1, 2, "cipher_suites").value;
    KeptField(m, o, loc, session.1, 2);
    KeptField(m, o, loc, suites.1, 1);
  }

  lemma TypeKept(m: seq<Byte>, o: seq<Byte>, loc: ShareLocation)
    requires Resized(m, o, loc)
    ensures o[0] == m[0]
  {
    assert !LengthByte(loc, 0);
  }

  /** The resized message is found well formed again, with its share at the same offsets and 1216 bytes long. */
  lemma ReparsesToSameOffsets(m: seq<Byte>, o: seq<Byte>)
    requires HoldsHybrid(m) && Resized(m, o, ClientShare(m).value)
    ensures ClientShare(o) == Ok(Resize(ClientShare(m).value))
    ensures Located(o, Resize(ClientShare(m).value))
    ensures var loc := ClientShare(m).value;
            o[loc.keyStart..loc.keyStart + FOREIGN_BYTES] == m[loc.keyStart..loc.keyStart + FOREIGN_BYTES]
  {
    hide ReadInt, Extensions, Resized;
    var loc := ClientShare(m).value;
    FoundIsLocated(m);
    ResizedFacts(m, o, loc);
    var e := Preamble(m).value;
    ExtensionsNested(m, e + 2, |m|, e);
    assert AllShares(m, e).value == [loc];
    PreambleKept(m, o, loc);
    TypeKept(m, o, loc);
    ExtensionsTarget(m, o, loc, e + 2, e);
    FoundIsLocated(o);
    KeyKept(m, o, loc);
  }

  lemma KeyKept(m: seq<Byte>, o: seq<Byte>, loc: ShareLocation)
    requires Resized(m, o, loc)
    ensures loc.keyStart + FOREIGN_BYTES <= |o|
    ensures o[loc.keyStart..loc.keyStart + FOREIGN_BYTES] == m[loc.keyStart..loc.keyStart + FOREIGN_BYTES]
  {
    hide ReadInt;
  }
}
