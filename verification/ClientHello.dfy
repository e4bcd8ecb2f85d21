// The wire form of a ClientHello: what the key-share locator accepts is exactly what a well-formed value serializes to.
module ClientHello {
  import opened Wrappers
  import opened Bytes
  import opened KeyShare

  datatype Entry = Entry(group: nat, key: seq<Byte>)

  datatype Extension = Other(kind: nat, body: seq<Byte>) | Shares(entries: seq<Entry>)

  /** `fixed` is the legacy version and the random. */
  datatype Hello = Hello(fixed: seq<Byte>, session: seq<Byte>, suites: seq<Byte>, compression: seq<Byte>,
                         extensions: seq<Extension>)

  // ---- Serialization ----

  function Vector(bytes: seq<Byte>, width: nat): seq<Byte> {
    ToBE(|bytes|, width) + bytes
  }

  function SerializeEntry(e: Entry): seq<Byte> {
    ToBE(e.group, 2) + Vector(e.key, 2)
  }

  function SerializeEntries(es: seq<Entry>): seq<Byte> {
    if |es| == 0 then [] else SerializeEntry(es[0]) + SerializeEntries(es[1..])
  }

  function Kind(x: Extension): nat {
    if x.Other? then x.kind else KEY_SHARE_EXTENSION
  }

  function ExtensionBody(x: Extension): seq<Byte> {
    if x.Other? then x.body else Vector(SerializeEntries(x.entries), 2)
  }

  function SerializeExtension(x: Extension): seq<Byte> {
    ToBE(Kind(x), 2) + Vector(ExtensionBody(x), 2)
  }

  function SerializeExtensions(xs: seq<Extension>): seq<Byte> {
    if |xs| == 0 then [] else SerializeExtension(xs[0]) + SerializeExtensions(xs[1..])
  }

  function Prefix(h: Hello): seq<Byte> {
    h.fixed + Vector(h.session, 1) + Vector(h.suites, 2) + Vector(h.compression, 1)
  }

  function Serialize(h: Hello): seq<Byte> {
    [1] + Vector(Prefix(h) + Vector(SerializeExtensions(h.extensions), 2), 3)
  }

  // ---- Well-formed values ----

  predicate EntriesFit(es: seq<Entry>) {
    forall i :: 0 <= i < |es| ==> es[i].group < 0x1_0000 && |es[i].key| < 0x1_0000
  }

  /** The key-share extension is never an opaque one, and every length has room. */
  predicate ExtensionFits(x: Extension) {
    && |ExtensionBody(x)| < 0x1_0000
    && (x.Other? ==> x.kind < 0x1_0000 && x.kind != KEY_SHARE_EXTENSION)
    && (x.Shares? ==> EntriesFit(x.entries))
  }

  predicate WellFormed(h: Hello) {
    && |h.fixed| == 34 && |h.session| < 0x100 && |h.suites| < 0x1_0000 && |h.compression| < 0x100
    && |SerializeExtensions(h.extensions)| < 0x1_0000
    && forall i :: 0 <= i < |h.extensions| ==> ExtensionFits(h.extensions[i])
  }

  // ---- Where the matching shares are ----

  function EntryLocations(es: seq<Entry>, at: nat, s: nat, x: nat, e: nat): seq<ShareLocation> {
    if |es| == 0 then []
    else
      var end := at + 4 + |es[0].key|;
      (if es[0].group == GROUP_ID then [ShareLocation(at + 4, end, at + 2, s, x, e)] else [])
      + EntryLocations(es[1..], end, s, x, e)
  }

  function BodyLocations(x: Extension, at: nat, e: nat): seq<ShareLocation> {
    if x.Other? then [] else EntryLocations(x.entries, at + 6, at + 4, at + 2, e)
  }

  function ExtensionLocations(xs: seq<Extension>, at: nat, e: nat): seq<ShareLocation> {
    if |xs| == 0 then []
    else BodyLocations(xs[0], at, e) + ExtensionLocations(xs[1..], at + 4 + |ExtensionBody(xs[0])|, e)
  }

  /** The matching shares of a value, at the offsets its serialization gives them. */
  function Locations(h: Hello): seq<ShareLocation> {
    var e := 4 + |Prefix(h)|;
    ExtensionLocations(h.extensions, e + 2, e)
  }

  // ---- Fields ----

  /** `bytes` stand at `at` in `m`. */
  ghost predicate At(m: seq<Byte>, at: nat, bytes: seq<Byte>) {
    at + |bytes| <= |m| && m[at..at + |bytes|] == bytes
  }

  lemma AtParts(m: seq<Byte>, at: nat, a: seq<Byte>, b: seq<Byte>)
    ensures At(m, at, a + b) <==> At(m, at, a) && At(m, at + |a|, b)
  {
    if At(m, at, a + b) {
      assert m[at..at + |a|] == m[at..at + |a + b|][..|a|] == a;
      assert m[at + |a|..at + |a + b|] == m[at..at + |a + b|][|a|..] == b;
    }
    if At(m, at, a) && At(m, at + |a|, b) {
      assert m[at..at + |a + b|] == m[at..at + |a|] + m[at + |a|..at + |a| + |b|];
    }
  }

  lemma Widths()
    ensures Pow256(1) == 0x100 && Pow256(2) == 0x1_0000 && Pow256(3) == 0x100_0000
  {
    assert Pow256(0) == 1;
  }

  lemma FieldReads(m: seq<Byte>, at: nat, n: nat, width: nat)
    requires At(m, at, ToBE(n, width)) && n < Pow256(width)
    ensures ReadInt(m, at, width) == n
  {
    forall i | at <= i < at + width
      ensures m[i] == ToBE(n, width)[i - at]
    {
      assert m[i] == m[at..at + width][i - at];
    }
    ReadBack(m, at, n, width);
  }

  lemma {:induction false} FieldWrites(m: seq<Byte>, at: nat, width: nat)
    requires at + width <= |m|
    ensures At(m, at, ToBE(ReadInt(m, at, width), width)) && ReadInt(m, at, width) < Pow256(width)
  {
    if width != 0 {
      FieldWrites(m, at, width - 1);
      var n := ReadInt(m, at, width);
      var last := m[at + width - 1];
      assert n % 256 == last && n / 256 == ReadInt(m, at, width - 1);
      assert m[at..at + width] == m[at..at + width - 1] + [last];
    }
  }

  lemma VectorReads(m: seq<Byte>, at: nat, bytes: seq<Byte>, width: nat, part: string)
    requires At(m, at, Vector(bytes, width)) && |bytes| < Pow256(width)
    ensures VectorBounds(m, at, width, part) == Ok((at + width, at + width + |bytes|))
    ensures At(m, at + width, bytes)
  {
    AtParts(m, at, ToBE(|bytes|, width), bytes);
    FieldReads(m, at, |bytes|, width);
  }

  lemma VectorWrites(m: seq<Byte>, at: nat, width: nat, part: string) returns (bytes: seq<Byte>)
    requires VectorBounds(m, at, width, part).Ok?
    ensures At(m, at, Vector(bytes, width)) && |bytes| < Pow256(width)
    ensures VectorBounds(m, at, width, part) == Ok((at + width, at + width + |bytes|))
    ensures bytes == m[at + width..at + width + |bytes|]
  {
    var bounds := VectorBounds(m, at, width, part).value;
    bytes := m[bounds.0..bounds.1];
    FieldWrites(m, at, width);
    AtParts(m, at, ToBE(|bytes|, width), bytes);
  }

  // ---- Serialized values are located ----

  lemma {:induction false} EntriesLocated(m: seq<Byte>, es: seq<Entry>, at: nat, s: nat, x: nat, e: nat)
    requires EntriesFit(es) && At(m, at, SerializeEntries(es))
    ensures Entries(m, at, at + |SerializeEntries(es)|, s, x, e) == Ok(EntryLocations(es, at, s, x, e))
    decreases |es|
  {
    hide At, ReadInt, ToBE;
    if |es| != 0 {
      var first, rest := es[0], es[1..];
      Widths();
      AtParts(m, at, SerializeEntry(first), SerializeEntries(rest));
      AtParts(m, at, ToBE(first.group, 2), Vector(first.key, 2));
      FieldReads(m, at, first.group, 2);
      VectorReads(m, at + 2, first.key, 2, "client key_exchange");
      EntriesLocated(m, rest, at + 4 + |first.key|, s, x, e);
    }
  }

  lemma BodyLocated(m: seq<Byte>, x: Extension, at: nat, e: nat)
    requires ExtensionFits(x) && At(m, at + 4, ExtensionBody(x))
    ensures Body(m, Kind(x), (at + 4, at + 4 + |ExtensionBody(x)|), at + 2, e) == Ok(BodyLocations(x, at, e))
  {
    hide At, ReadInt, ToBE, Entries, EntryLocations;
    if x.Shares? {
      Widths();
      VectorReads(m, at + 4, SerializeEntries(x.entries), 2, "client_shares");
      EntriesLocated(m, x.entries, at + 6, at + 4, at + 2, e);
    }
  }

  lemma {:induction false} ExtensionsLocated(m: seq<Byte>, xs: seq<Extension>, at: nat, e: nat)
    requires At(m, at, SerializeExtensions(xs)) && forall i :: 0 <= i < |xs| ==> ExtensionFits(xs[i])
    ensures Extensions(m, at, at + |SerializeExtensions(xs)|, e) == Ok(ExtensionLocations(xs, at, e))
    decreases |xs|
  {
    hide At, ReadInt, ToBE, Body, BodyLocations, ExtensionBody;
    if |xs| != 0 {
      var first, rest := xs[0], xs[1..];
      Widths();
      AtParts(m, at, SerializeExtension(first), SerializeExtensions(rest));
      AtParts(m, at, ToBE(Kind(first), 2), Vector(ExtensionBody(first), 2));
      FieldReads(m, at, Kind(first), 2);
      VectorReads(m, at + 2, ExtensionBody(first), 2, "extension");
      BodyLocated(m, first, at, e);
      ExtensionsLocated(m, rest, at + 4 + |ExtensionBody(first)|, e);
    }
  }

  lemma PrefixLocated(m: seq<Byte>, h: Hello)
    requires WellFormed(h) && At(m, 4, Prefix(h))
    ensures Preamble(m) == Ok(4 + |Prefix(h)|)
  {
    hide At, ReadInt, ToBE;
    Widths();
    var a, b, c, d := h.fixed, Vector(h.session, 1), Vector(h.suites, 2), Vector(h.compression, 1);
    AtParts(m, 4, a + b + c, d);
    AtParts(m, 4, a + b, c);
    AtParts(m, 4, a, b);
    VectorReads(m, 38, h.session, 1, "legacy_session_id");
    VectorReads(m, 38 + |b|, h.suites, 2, "cipher_suites");
    VectorReads(m, 38 + |b| + |c|, h.compression, 1, "compression_methods");
    assert At(m, 4, a + b + c + d) && |a + b + c + d| >= 38 by {
      assert a + b + c + d == Prefix(h);
    }
    assert |m| >= 38 by {
      AtInside(m, 4, Prefix(h));
    }
  }

  lemma AtInside(m: seq<Byte>, at: nat, bytes: seq<Byte>)
    requires At(m, at, bytes)
    ensures at + |bytes| <= |m|
  {
  }

  /**
   * Every well-formed value with exactly one matching share is accepted, at that share's offsets; with none or several
   * it is refused with their number.
   */
  lemma SerializedIsLocated(h: Hello)
    requires WellFormed(h)
    ensures ClientShare(Serialize(h))
         == if |Locations(h)| == 1 then Ok(Locations(h)[0]) else Err(ShareCount(|Locations(h)|))
  {
    hide At, ToBE, ReadInt, Preamble, Extensions, SerializeExtensions, ExtensionLocations;
    var m, p, x := Serialize(h), Prefix(h), SerializeExtensions(h.extensions);
    var body := p + Vector(x, 2);
    Widths();
    assert |body| < 0x100_0000;
    WholeAt(m, [1] + Vector(body, 3));
    AtParts(m, 0, [1], Vector(body, 3));
    VectorReads(m, 1, body, 3, "ClientHello framing");
    AtParts(m, 4, p, Vector(x, 2));
    PrefixLocated(m, h);
    VectorReads(m, 4 + |p|, x, 2, "ClientHello extensions");
    ExtensionsLocated(m, h.extensions, 4 + |p| + 2, 4 + |p|);
  }

  lemma WholeAt(m: seq<Byte>, bytes: seq<Byte>)
    requires m == bytes
    ensures At(m, 0, bytes)
  {
    assert m[0..|bytes|] == m;
  }

  // ---- Located messages are serialized values ----

  lemma {:induction false} EntriesSerialized(m: seq<Byte>, at: nat, end: nat, s: nat, x: nat, e: nat)
    returns (es: seq<Entry>)
    requires Entries(m, at, end, s, x, e).Ok? && end <= |m|
    ensures EntriesFit(es) && at + |SerializeEntries(es)| == end && At(m, at, SerializeEntries(es))
    decreases |m| - at
  {
    hide At, ReadInt, ToBE;
    if at == end {
      es := [];
      AtNothing(m, at);
    } else {
      Widths();
      var group := ReadInt(m, at, 2);
      FieldWrites(m, at, 2);
      var key := VectorWrites(m, at + 2, 2, "client key_exchange");
      var rest := EntriesSerialized(m, at + 4 + |key|, end, s, x, e);
      es := [Entry(group, key)] + rest;
      assert es[1..] == rest;
      AtParts(m, at, ToBE(group, 2), Vector(key, 2));
      AtParts(m, at, SerializeEntry(es[0]), SerializeEntries(rest));
    }
  }

  lemma AtNothing(m: seq<Byte>, at: nat)
    requires at <= |m|
    ensures At(m, at, [])
  {
  }

  lemma BodySerialized(m: seq<Byte>, kind: nat, at: nat, body: seq<Byte>, e: nat) returns (x: Extension)
    requires kind < 0x1_0000 && |body| < 0x1_0000 && At(m, at + 4, body)
    requires Body(m, kind, (at + 4, at + 4 + |body|), at + 2, e).Ok?
    ensures ExtensionFits(x) && Kind(x) == kind && ExtensionBody(x) == body
  {
    hide At, ReadInt, ToBE, Entries;
    if kind != KEY_SHARE_EXTENSION {
      x := Other(kind, body);
    } else {
      AtInside(m, at + 4, body);
      var shares := VectorWrites(m, at + 4, 2, "client_shares");
      var es := EntriesSerialized(m, at + 6, at + 4 + |body|, at + 4, at + 2, e);
      x := Shares(es);
      SameBytes(m, at + 6, shares, SerializeEntries(es));
      SameBytes(m, at + 4, body, Vector(shares, 2));
    }
  }

  /** What stands at one place with one length is one string. */
  lemma SameBytes(m: seq<Byte>, at: nat, a: seq<Byte>, b: seq<Byte>)
    requires (At(m, at, a) || (at + |a| <= |m| && a == m[at..at + |a|])) && At(m, at, b) && |a| == |b|
    ensures a == b
  {
  }

  lemma {:induction false} ExtensionsSerialized(m: seq<Byte>, at: nat, end: nat, e: nat) returns (xs: seq<Extension>)
    requires Extensions(m, at, end, e).Ok? && end <= |m|
    ensures at + |SerializeExtensions(xs)| == end && At(m, at, SerializeExtensions(xs))
    ensures forall i :: 0 <= i < |xs| ==> ExtensionFits(xs[i])
    decreases |m| - at
  {
    hide At, ReadInt, ToBE, Body, ExtensionBody, ExtensionFits;
    if at == end {
      xs := [];
      AtNothing(m, at);
    } else {
      Widths();
      var kind := ReadInt(m, at, 2);
      FieldWrites(m, at, 2);
      var body := VectorWrites(m, at + 2, 2, "extension");
      AtParts(m, at + 2, ToBE(|body|, 2), body);
      var first := BodySerialized(m, kind, at, body, e);
      var rest := ExtensionsSerialized(m, at + 4 + |body|, end, e);
      xs := [first] + rest;
      assert xs[1..] == rest;
      AtParts(m, at, ToBE(kind, 2), Vector(body, 2));
      AtParts(m, at, SerializeExtension(first), SerializeExtensions(rest));
    }
  }

  lemma PreambleSerialized(m: seq<Byte>) returns (h: Hello)
    requires Preamble(m).Ok?
    ensures |h.fixed| == 34 && |h.session| < 0x100 && |h.suites| < 0x1_0000 && |h.compression| < 0x100
    ensures h.extensions == [] && At(m, 4, Prefix(h)) && Preamble(m).value == 4 + |Prefix(h)|
  {
    hide ReadInt, ToBE;
    Widths();
    var fixed := m[4..38];
    hide At;
    var session := VectorWrites(m, 38, 1, "legacy_session_id");
    var suites := VectorWrites(m, 39 + |session|, 2, "cipher_suites");
    var compression := VectorWrites(m, 41 + |session| + |suites|, 1, "compression_methods");
    h := Hello(fixed, session, suites, compression, []);
    var a, b, c, d := fixed, Vector(session, 1), Vector(suites, 2), Vector(compression, 1);
    SliceAt(m, 4, 38);
    AtParts(m, 4, a, b);
    AtParts(m, 4, a + b, c);
    AtParts(m, 4, a + b + c, d);
  }

  lemma SliceAt(m: seq<Byte>, i: nat, j: nat)
    requires i <= j <= |m|
    ensures At(m, i, m[i..j])
  {
  }

  /** Every accepted message serializes a well-formed value whose one matching share is the one found. */
  lemma LocatedIsSerialized(m: seq<Byte>) returns (h: Hello)
    requires ClientShare(m).Ok?
    ensures WellFormed(h) && Serialize(h) == m && Locations(h) == [ClientShare(m).value]
  {
    hide At, ToBE, ReadInt, Preamble, Extensions, SerializeExtensions, ExtensionLocations, ExtensionFits;
    var e := Preamble(m).value;
    Widths();
    var prefix := PreambleSerialized(m);
    var block := VectorWrites(m, e, 2, "ClientHello extensions");
    var xs := ExtensionsSerialized(m, e + 2, |m|, e);
    AtParts(m, e, ToBE(|block|, 2), block);
    SameBytes(m, e + 2, block, SerializeExtensions(xs));
    h := prefix.(extensions := xs);
    var p, body := Prefix(prefix), Prefix(prefix) + Vector(block, 2);
    AtParts(m, 4, p, Vector(block, 2));
    FieldWrites(m, 1, 3);
    AtParts(m, 1, ToBE(|body|, 3), body);
    FirstByte(m);
    AtParts(m, 0, [1], Vector(body, 3));
    SliceAt(m, 0, |m|);
    SameBytes(m, 0, m, [1] + Vector(body, 3));
    SerializedIsLocated(h);
  }

  lemma FirstByte(m: seq<Byte>)
    requires |m| > 0 && m[0] == 1
    ensures At(m, 0, [1])
  {
    assert m[0..1] == [m[0]];
  }

  /** The locator accepts exactly the serializations of well-formed values with one matching share. */
  lemma AcceptedExactly(m: seq<Byte>)
    ensures ClientShare(m).Ok? <==> exists h: Hello :: WellFormed(h) && Serialize(h) == m && |Locations(h)| == 1
  {
    hide WellFormed, Serialize, Locations, ClientShare;
    if ClientShare(m).Ok? {
      var h := LocatedIsSerialized(m);
    }
    if h: Hello :| WellFormed(h) && Serialize(h) == m && |Locations(h)| == 1 {
      SerializedIsLocated(h);
    }
  }
}
