/** The octets producers sign (rns_icn/packet.py:500-527, 849-855 and rns_icn/access.py:118-270),
    and capability tokens.  A digest is a hash function applied to these octets. */
module Signing {
  import opened Base
  import opened Names
  import opened Packets
  import opened Wire
  import NameCodec
  import opened PacketCodec

  /** "icn-data", "icn-invalidate" and "icn-capability", each followed by octet 1. */
  const DATA_DOMAIN: bytes := [105, 99, 110, 45, 100, 97, 116, 97, 1]
  const INVALIDATE_DOMAIN: bytes := [105, 99, 110, 45, 105, 110, 118, 97, 108, 105, 100, 97, 116, 101, 1]
  const CAPABILITY_DOMAIN: bytes := [105, 99, 110, 45, 99, 97, 112, 97, 98, 105, 108, 105, 116, 121, 1]

  ghost predicate Injective(hash: bytes -> bytes) {
    forall x, y :: hash(x) == hash(y) ==> x == y
  }

  // ----- Data -----

  predicate Signable(d: Data) {
    NameCodec.Encodable(d.name) && Fits64(d.metadata.sequence) && Fits64(d.metadata.signedAt)
  }

  function Tagged(tag: byte, v: Option<nat>): bytes
    requires Fits64(v)
  {
    if v.Some? then [tag] + U64(v.value) else []
  }

  /** The fields that make up an edition's identity, each behind a tag of its own. */
  function Envelope(m: Metadata): bytes
    requires Fits64(m.sequence) && Fits64(m.signedAt)
  {
    Tagged(1, m.sequence) + (Tagged(2, m.signedAt) + (if m.encrypted then [3, 1] else []))
  }

  function DataPreimage(d: Data): bytes
    requires Signable(d)
  {
    DATA_DOMAIN + (NameCodec.Encode(d.name) + (d.content
      + ((if d.metadata.contentHash.Some? then d.metadata.contentHash.value else []) + Envelope(d.metadata))))
  }

  /** Reads an envelope back. */
  function ReadEnvelope(e: bytes): (Option<nat>, Option<nat>, bool) {
    var seqHere := |e| >= 9 && e[0] == 1;
    var r1 := if seqHere then e[9..] else e;
    var atHere := |r1| >= 9 && r1[0] == 2;
    var r2 := if atHere then r1[9..] else r1;
    (if seqHere then Some(Number(e[1..9])) else None, if atHere then Some(Number(r1[1..9])) else None, r2 != [])
  }

  lemma EnvelopeIsReadable(m: Metadata)
    requires Fits64(m.sequence) && Fits64(m.signedAt)
    ensures ReadEnvelope(Envelope(m)) == (m.sequence, m.signedAt, m.encrypted)
  {
    var tail := if m.encrypted then [3, 1] else [];
    var r1 := Tagged(2, m.signedAt) + tail;
    var e := Tagged(1, m.sequence) + r1;
    if m.sequence.Some? {
      assert e[1..9] == U64(m.sequence.value) && e[9..] == r1;
    } else {
      assert e == r1;
    }
    if m.signedAt.Some? {
      assert r1[1..9] == U64(m.signedAt.value) && r1[9..] == tail;
    } else {
      assert r1 == tail;
    }
  }

  lemma SameFront(front: bytes, a: bytes, b: bytes)
    requires front + a == front + b
    ensures a == b
  {
    assert a == (front + a)[|front|..] && b == (front + b)[|front|..];
  }

  /** For one name, content and content hash, what is signed determines sequence, signing time and
      the encrypted flag; a field that is absent is told apart from one that is zero. */
  lemma EnvelopeBindsFields(d: Data, e: Data)
    requires Signable(d) && Signable(e)
    requires d.name == e.name && d.content == e.content && d.metadata.contentHash == e.metadata.contentHash
    requires DataPreimage(d) == DataPreimage(e)
    ensures d.metadata.sequence == e.metadata.sequence && d.metadata.signedAt == e.metadata.signedAt
    ensures d.metadata.encrypted == e.metadata.encrypted
  {
    hide Envelope, NameCodec.Encode;
    var hash := if d.metadata.contentHash.Some? then d.metadata.contentHash.value else [];
    var a, b := Envelope(d.metadata), Envelope(e.metadata);
    SameFront(DATA_DOMAIN, NameCodec.Encode(d.name) + (d.content + (hash + a)),
      NameCodec.Encode(d.name) + (d.content + (hash + b)));
    SameFront(NameCodec.Encode(d.name), d.content + (hash + a), d.content + (hash + b));
    SameFront(d.content, hash + a, hash + b);
    SameFront(hash, a, b);
    EnvelopeIsReadable(d.metadata);
    EnvelopeIsReadable(e.metadata);
  }

  /** Octets in front of others, where both names' are, are the shorter name's. */
  lemma OneStartsOther(a: bytes, x: bytes, b: bytes, y: bytes)
    requires a + x == b + y
    ensures a <= b || b <= a
  {
    if |a| <= |b| {
      assert a == (a + x)[..|a|] == (b + y)[..|a|] == b[..|a|];
    } else {
      assert b == (b + y)[..|b|] == (a + x)[..|b|] == a[..|b|];
    }
  }

  /** Pinned alike, and with pins of the size of a hash. */
  predicate SamePinning(a: Name, b: Name) {
    a.pin.Some? == b.pin.Some? && NameCodec.PinFits(a) && NameCodec.PinFits(b)
  }

  /** An encoded name ends where it ends, whatever follows it. */
  lemma NameEndsWhereItEnds(a: Name, x: bytes, b: Name, y: bytes)
    requires NameCodec.Encodable(a) && NameCodec.Encodable(b) && SamePinning(a, b)
    requires NameCodec.Encode(a) + x == NameCodec.Encode(b) + y
    ensures a == b && x == y
  {
    hide NameCodec.EncodeComponents, NameCodec.ShortComponents;
    var u, v := a.Unpinned(), b.Unpinned();
    var p, q := NameCodec.EncodePin(a.pin), NameCodec.EncodePin(b.pin);
    assert u.Components() == a.Components() && v.Components() == b.Components();
    assert NameCodec.Encode(a) == NameCodec.Encode(u) + p && NameCodec.Encode(b) == NameCodec.Encode(v) + q;
    assert NameCodec.Encode(a) + x == NameCodec.Encode(u) + (p + x)
      && NameCodec.Encode(b) + y == NameCodec.Encode(v) + (q + y);
    OneStartsOther(NameCodec.Encode(u), p + x, NameCodec.Encode(v), q + y);
    if NameCodec.Encode(u) <= NameCodec.Encode(v) {
      NameCodec.UnpinnedNamesArePrefixFree(u, v);
    } else {
      NameCodec.UnpinnedNamesArePrefixFree(v, u);
    }
    SameFront(NameCodec.Encode(u), p + x, q + y);
    SplitAt(p, x, q, y);
    if a.pin.Some? {
      assert a.pin.value == p[1..] && b.pin.value == q[1..];
    }
  }

  /** Names pinned alike, and content hashes both there, of 32 octets, or both missing. */
  predicate SameLayout(d: Data, e: Data) {
    && SamePinning(d.name, e.name)
    && d.metadata.contentHash.Some? == e.metadata.contentHash.Some?
    && (d.metadata.contentHash.Some? ==> |d.metadata.contentHash.value| == HASH_BYTES == |e.metadata.contentHash.value|)
  }

  /** As many of sequence and signing time, and encrypted alike. */
  predicate SameTail(m: Metadata, n: Metadata) {
    && (if m.sequence.Some? then 1 else 0) + (if m.signedAt.Some? then 1 else 0)
       == (if n.sequence.Some? then 1 else 0) + (if n.signedAt.Some? then 1 else 0)
    && m.encrypted == n.encrypted
  }

  /** All that a signature is meant to cover. */
  predicate SameSigned(d: Data, e: Data) {
    && d.name == e.name && d.content == e.content && d.metadata.contentHash == e.metadata.contentHash
    && d.metadata.sequence == e.metadata.sequence && d.metadata.signedAt == e.metadata.signedAt
    && d.metadata.encrypted == e.metadata.encrypted
  }

  lemma EnvelopeSize(m: Metadata)
    requires Fits64(m.sequence) && Fits64(m.signedAt)
    ensures |Envelope(m)| ==
      (if m.sequence.Some? then 9 else 0) + (if m.signedAt.Some? then 9 else 0) + (if m.encrypted then 2 else 0)
  {
  }

  /** What a signature covers, exactly: two Data of one layout that are signed as the same octets agree in
      name, content, content hash, sequence, signing time and encryption if and only if they have as many
      optional fields; a field told apart from content only by its position is not covered otherwise. */
  lemma SameOctetsSameData(d: Data, e: Data)
    requires Signable(d) && Signable(e) && SameLayout(d, e) && DataPreimage(d) == DataPreimage(e)
    ensures SameTail(d.metadata, e.metadata) <==> SameSigned(d, e)
  {
    hide Envelope, NameCodec.Encode;
    var hd := if d.metadata.contentHash.Some? then d.metadata.contentHash.value else [];
    var he := if e.metadata.contentHash.Some? then e.metadata.contentHash.value else [];
    var a, b := Envelope(d.metadata), Envelope(e.metadata);
    SameFront(DATA_DOMAIN, NameCodec.Encode(d.name) + (d.content + (hd + a)),
      NameCodec.Encode(e.name) + (e.content + (he + b)));
    NameEndsWhereItEnds(d.name, d.content + (hd + a), e.name, e.content + (he + b));
    EnvelopeSize(d.metadata);
    EnvelopeSize(e.metadata);
    if SameTail(d.metadata, e.metadata) {
      assert |hd + a| == |he + b|;
      SplitAt(d.content, hd + a, e.content, he + b);
      SplitAt(hd, a, he, b);
      EnvelopeIsReadable(d.metadata);
      EnvelopeIsReadable(e.metadata);
    }
  }

  /** At a concrete input: content that ends like a tagged sequence is signed as the same octets as the
      shorter content with that sequence, if neither has a content hash. */
  lemma TailCanPassForContent(d: Data, e: Data, n: nat)
    requires NameCodec.Encodable(d.name) && NameCodec.PinFits(d.name) && n < U64_LIMIT && e.name == d.name
    requires d.metadata == DEFAULT_METADATA && e.metadata == DEFAULT_METADATA.(sequence := Some(n))
    requires d.content == e.content + ([1] + U64(n))
    ensures Signable(d) && Signable(e) && SameLayout(d, e) && DataPreimage(d) == DataPreimage(e)
      && d.content != e.content
  {
    hide NameCodec.Encode, U64;
    var tail := [1] + U64(n);
    assert Envelope(d.metadata) == [] && Envelope(e.metadata) == tail;
    assert d.content + ([] + Envelope(d.metadata)) == e.content + ([] + Envelope(e.metadata));
    assert |d.content| > |e.content|;
  }

  /** A validator that takes a signature only for one of the originals' octets, as one for a producer's
      key does when the producer signed nothing else. */
  ghost predicate SignsOnly(hash: bytes -> bytes, valid: (bytes, bytes) -> bool, originals: set<Data>) {
    forall sig, m :: valid(sig, m) ==> exists o :: o in originals && Signable(o) && m == hash(DataPreimage(o))
  }

  /** Then Data it takes is an original in all that a signature covers, if it is laid out like all of
      them and has as many optional fields. */
  lemma ValidMeansOriginal(hash: bytes -> bytes, valid: (bytes, bytes) -> bool, originals: set<Data>, d: Data,
      sig: bytes) returns (o: Data)
    requires Injective(hash) && SignsOnly(hash, valid, originals) && Signable(d) && valid(sig, hash(DataPreimage(d)))
    ensures o in originals && Signable(o) && DataPreimage(o) == DataPreimage(d)
    ensures SameLayout(d, o) && SameTail(d.metadata, o.metadata) ==> SameSigned(d, o)
  {
    hide SameSigned, SameLayout, SameTail, DataPreimage;
    o :| o in originals && Signable(o) && hash(DataPreimage(d)) == hash(DataPreimage(o));
    if SameLayout(d, o) {
      SameOctetsSameData(d, o);
    }
  }

  // ----- Invalidate -----

  function InvalidatePreimage(v: Invalidate): bytes
    requires NameCodec.Encodable(v.name) && v.epoch < U64_LIMIT
  {
    INVALIDATE_DOMAIN + (NameCodec.Encode(v.name) + (U64(v.epoch) + [Bit(v.isPrefix, 1)]))
  }

  lemma SplitAt(a: bytes, x: bytes, b: bytes, y: bytes)
    requires a + x == b + y && |a| == |b|
    ensures a == b && x == y
  {
    assert a == (a + x)[..|a|] && b == (b + y)[..|b|];
    assert x == (a + x)[|a|..] && y == (b + y)[|b|..];
  }

  /** A signed invalidation means one name, one epoch and one scope. */
  lemma InvalidatePreimageIsInjective(v: Invalidate, w: Invalidate)
    requires NameCodec.Encodable(v.name) && v.epoch < U64_LIMIT && NameCodec.Encodable(w.name) && w.epoch < U64_LIMIT
    requires InvalidatePreimage(v) == InvalidatePreimage(w)
    ensures v.name == w.name && v.epoch == w.epoch && v.isPrefix == w.isPrefix
  {
    hide NameCodec.Encode, U64;
    var x, y := U64(v.epoch) + [Bit(v.isPrefix, 1)], U64(w.epoch) + [Bit(w.isPrefix, 1)];
    SameFront(INVALIDATE_DOMAIN, NameCodec.Encode(v.name) + x, NameCodec.Encode(w.name) + y);
    SplitAt(NameCodec.Encode(v.name), x, NameCodec.Encode(w.name), y);
    NameCodec.EncodingIsInjective(v.name, w.name);
    SplitAt(U64(v.epoch), [Bit(v.isPrefix, 1)], U64(w.epoch), [Bit(w.isPrefix, 1)]);
  }

  // ----- capabilities -----

  datatype Capability = Capability(
    producer: bytes,
    consumer: bytes,
    prefix: Name,
    wrappedKey: bytes,
    issuedAt: nat,
    expiresAt: nat,
    signature: Option<bytes>)
  {
    /** What the constructor insists on. */
    predicate Valid() {
      |producer| == ADDRESS_BYTES && |consumer| == ADDRESS_BYTES && prefix.addr == producer
    }

    predicate Expired(now: nat) { expiresAt != 0 && now > expiresAt }

    predicate Covers(n: Name, now: nat) { n.StartsWith(prefix) && !Expired(now) }
  }

  const U16_LIMIT: nat := 0x1_0000

  function U16(n: nat): (r: bytes)
    requires n < U16_LIMIT
    ensures |r| == 2 && Number(r) == n
  {
    Widths();
    NumberOfBigEndian(n, 2);
    BigEndian(n, 2)
  }

  predicate CapabilityFits(c: Capability) {
    && c.Valid() && c.issuedAt < U64_LIMIT && c.expiresAt < U64_LIMIT
    && NameCodec.Encodable(c.prefix) && |NameCodec.Encode(c.prefix)| < U16_LIMIT && |c.wrappedKey| < U16_LIMIT
  }

  /** Octets with their length in front. */
  function Sized(b: bytes): bytes
    requires |b| < U16_LIMIT
  {
    U16(|b|) + b
  }

  function CapabilityBody(c: Capability, after: bytes): bytes
    requires CapabilityFits(c)
  {
    c.producer + (c.consumer + (U64(c.issuedAt) + (U64(c.expiresAt)
      + (Sized(NameCodec.Encode(c.prefix)) + (Sized(c.wrappedKey) + after)))))
  }

  function CapabilityPreimage(c: Capability): bytes
    requires CapabilityFits(c)
  {
    CAPABILITY_DOMAIN + CapabilityBody(c, [])
  }

  function EncodeCapability(c: Capability): bytes
    requires CapabilityFits(c)
  {
    CapabilityBody(c, [Bit(c.signature.Some?, 1)] + (if c.signature.Some? then c.signature.value else []))
  }

  function TakeSized(data: bytes): Result<(bytes, bytes)> {
    var (size, rest) :- Take(2, data, CapabilityError);
    Take(Number(size), rest, CapabilityError)
  }

  function ParseCapability(data: bytes): Result<Capability> {
    var _ :- Check(|data| >= 50, CapabilityError);
    var (producer, r0) :- Take(ADDRESS_BYTES, data, CapabilityError);
    var (consumer, r1) :- Take(ADDRESS_BYTES, r0, CapabilityError);
    var (issuedAt, r2) :- Take(8, r1, CapabilityError);
    var (expiresAt, r3) :- Take(8, r2, CapabilityError);
    var (name, r4) :- TakeSized(r3);
    var prefix :- NameCodec.Parse(name);
    var (key, r5) :- TakeSized(r4);
    var (flag, r6) :- TakeByte(r5, CapabilityError);
    var (signature, r7) :- TakeOptional(flag != 0, SIGNATURE_BYTES, r6, CapabilityError);
    var _ :- Check(prefix.addr == producer, CapabilityError);
    Ok(Capability(producer, consumer, prefix, key, Number(issuedAt), Number(expiresAt), signature))
  }

  lemma SizedFront(b: bytes, rest: bytes)
    requires |b| < U16_LIMIT
    ensures TakeSized(Sized(b) + rest) == Ok((b, rest))
  {
    TakeFront(U16(|b|), b + rest, CapabilityError);
    assert Sized(b) + rest == U16(|b|) + (b + rest);
    TakeFront(b, rest, CapabilityError);
  }

  /** A capability token survives being saved and loaded. */
  lemma CapabilityRoundTrip(c: Capability, junk: bytes)
    requires CapabilityFits(c) && NormalName(c.prefix) && SignatureFits(c.signature)
    ensures ParseCapability(EncodeCapability(c) + junk) == Ok(c)
  {
    hide Take, TakeSized, TakeByte, TakeOptional, NameCodec.Encode, NameCodec.Parse, U64, Number, Sized, NormalName;
    var body := NameCodec.Encode(c.prefix);
    var d6 := (if c.signature.Some? then c.signature.value else []) + junk;
    var flag := Bit(c.signature.Some?, 1);
    var d5 := [flag] + d6;
    var d4 := Sized(c.wrappedKey) + d5;
    var d3 := Sized(body) + d4;
    var d2 := U64(c.expiresAt) + d3;
    var d1 := U64(c.issuedAt) + d2;
    var d0 := c.consumer + d1;
    assert EncodeCapability(c) + junk == c.producer + d0;
    SizedIsLong(body);
    SizedIsLong(c.wrappedKey);
    TakeFront(c.producer, d0, CapabilityError);
    TakeFront(c.consumer, d1, CapabilityError);
    TakeFront(U64(c.issuedAt), d2, CapabilityError);
    TakeFront(U64(c.expiresAt), d3, CapabilityError);
    SizedFront(body, d4);
    NameParses(c.prefix);
    SizedFront(c.wrappedKey, d5);
    ByteFront(flag, d6, CapabilityError);
    TakeOptionalFront(c.signature, SIGNATURE_BYTES, junk, CapabilityError);
  }

  lemma SizedIsLong(b: bytes)
    requires |b| < U16_LIMIT
    ensures |Sized(b)| >= 2
  {
  }

  lemma NameParses(n: Name)
    requires NormalName(n)
    ensures NameCodec.Parse(NameCodec.Encode(n)) == Ok(n)
  {
    NameCodec.NameRoundTrip(n, []);
    assert NameCodec.Encode(n) + [] == NameCodec.Encode(n);
  }

  lemma SizedDetermined(a: bytes, x: bytes, b: bytes, y: bytes)
    requires |a| < U16_LIMIT && |b| < U16_LIMIT && Sized(a) + x == Sized(b) + y
    ensures a == b && x == y
  {
    SizedFront(a, x);
    SizedFront(b, y);
  }

  /** A capability's signature binds every field of the grant: two grants that would be signed alike
      are the same grant. */
  lemma CapabilityPreimageIsInjective(c: Capability, d: Capability)
    requires CapabilityFits(c) && CapabilityFits(d) && CapabilityPreimage(c) == CapabilityPreimage(d)
    ensures c.(signature := None) == d.(signature := None)
  {
    hide NameCodec.Encode, U64, Sized;
    var n, m := NameCodec.Encode(c.prefix), NameCodec.Encode(d.prefix);
    var x4, y4 := Sized(c.wrappedKey) + [], Sized(d.wrappedKey) + [];
    var x3, y3 := Sized(n) + x4, Sized(m) + y4;
    var x2, y2 := U64(c.expiresAt) + x3, U64(d.expiresAt) + y3;
    var x1, y1 := U64(c.issuedAt) + x2, U64(d.issuedAt) + y2;
    SameFront(CAPABILITY_DOMAIN, CapabilityBody(c, []), CapabilityBody(d, []));
    SplitAt(c.producer, c.consumer + x1, d.producer, d.consumer + y1);
    SplitAt(c.consumer, x1, d.consumer, y1);
    SplitAt(U64(c.issuedAt), x2, U64(d.issuedAt), y2);
    SplitAt(U64(c.expiresAt), x3, U64(d.expiresAt), y3);
    SizedDetermined(n, x4, m, y4);
    SizedDetermined(c.wrappedKey, [], d.wrappedKey, []);
    U64Injective(c.issuedAt, d.issuedAt);
    U64Injective(c.expiresAt, d.expiresAt);
    NameCodec.EncodingIsInjective(c.prefix, d.prefix);
  }

  // ----- one signature, one kind of object -----

  /** Under a hash without collisions, no object of one kind has the digest of another kind. */
  lemma DomainsSeparate(hash: bytes -> bytes, d: Data, v: Invalidate, c: Capability)
    requires Injective(hash)
    requires Signable(d) && NameCodec.Encodable(v.name) && v.epoch < U64_LIMIT && CapabilityFits(c)
    ensures hash(DataPreimage(d)) != hash(InvalidatePreimage(v))
    ensures hash(DataPreimage(d)) != hash(CapabilityPreimage(c))
    ensures hash(InvalidatePreimage(v)) != hash(CapabilityPreimage(c))
  {
    assert DataPreimage(d)[4] == 100 && InvalidatePreimage(v)[4] == 105 && CapabilityPreimage(c)[4] == 99;
  }
}
