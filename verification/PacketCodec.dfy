/** The wire form of all seven packet kinds (rns_icn/packet.py). */
module PacketCodec {
  import opened Base
  import opened Names
  import opened Packets
  import opened Wire
  import NameCodec

  const INTEREST: byte := 1
  const DATA: byte := 2
  const APS_SUBSCRIBE: byte := 3
  const PROP_PEER: byte := 4
  const CAP_PEER: byte := 5
  const INVALIDATE: byte := 6
  const NACK: byte := 7

  const PROTOCOL_VERSION: byte := 1
  const DEFAULT_HOP_LIMIT: nat := 16
  const NONCE_BYTES: nat := 8
  const SIGNATURE_BYTES: nat := 64

  // ----- pieces -----

  function Take(n: nat, data: bytes, error: Error): Result<(bytes, bytes)> {
    if |data| < n then Err(error) else Ok((data[..n], data[n..]))
  }

  function TakeByte(data: bytes, error: Error): Result<(byte, bytes)> {
    if data == [] then Err(error) else Ok((data[0], data[1..]))
  }

  /** The type octet and the version octet, and what follows them. */
  function Header(kind: byte, data: bytes, error: Error): Result<bytes> {
    if data == [] then Err(IndexError)
    else if data[0] != kind || |data| < 2 then Err(error)
    else if data[1] != PROTOCOL_VERSION then Err(UnsupportedVersion)
    else Ok(data[2..])
  }

  /** Names the encoder can write with a length in front. */
  predicate Sendable(n: Name) {
    NameCodec.Encodable(n) && |NameCodec.Encode(n)| < U64_LIMIT
  }

  function EncodeName(n: Name): bytes
    requires Sendable(n)
  {
    WriteVarint(|NameCodec.Encode(n)|) + NameCodec.Encode(n)
  }

  function TakeName(data: bytes, error: Error): Result<(Name, bytes)> {
    var (length, used) :- ReadVarint(data);
    if |data| < used + length then Err(error)
    else
      var n :- NameCodec.Parse(data[used..used + length]);
      Ok((n, data[used + length..]))
  }

  /** Names the parser can give back. */
  predicate NormalName(n: Name) {
    NameCodec.Encodable(n) && NameCodec.PinFits(n) && n.Len() <= NameCodec.MAX_COMPONENTS
  }

  lemma TakeNameRoundTrip(n: Name, rest: bytes, error: Error)
    requires Sendable(n) && NormalName(n)
    ensures TakeName(EncodeName(n) + rest, error) == Ok((n, rest))
  {
    hide NameCodec.Parse, NameCodec.Encode, NameCodec.Encodable, WriteVarint, ReadVarint;
    var body := NameCodec.Encode(n);
    var w := WriteVarint(|body|);
    VarintRoundTrip(|body|, body + rest);
    assert EncodeName(n) + rest == w + (body + rest);
    assert (w + (body + rest))[|w|..|w| + |body|] == body;
    assert (w + (body + rest))[|w| + |body|..] == rest;
    assert body + [] == body;
    NameCodec.NameRoundTrip(n, []);
  }

  lemma TakenNameIsNormal(data: bytes, error: Error)
    requires TakeName(data, error).Ok?
    ensures NormalName(TakeName(data, error).value.0)
  {
    hide NameCodec.Parse, NameCodec.Encode, ReadVarint;
    var (length, used) := ReadVarint(data).value;
    NameCodec.ParsedNameIsPrefix(data[used..used + length]);
  }

  // ----- selectors -----

  predicate SmallSelector(s: Selector) { s.minSequence.Some? ==> s.minSequence.value < U64_LIMIT }

  function EncodeSelector(s: Selector): bytes
    requires SmallSelector(s)
  {
    [Bit(s.minSequence.Some?, 1) + Bit(s.child == Latest, 2) + Bit(s.child == Oldest, 4)]
    + (if s.minSequence.Some? then U64(s.minSequence.value) else [])
  }

  /** A selector, and what follows it. */
  function ParseSelector(data: bytes): Result<(Selector, bytes)> {
    var (flags, rest) :- TakeByte(data, InterestError);
    var _ :- Check(!(HasBit(flags, 2) && HasBit(flags, 4)), InterestError);
    var child := if HasBit(flags, 2) then Latest else if HasBit(flags, 4) then Oldest else AnyChild;
    if HasBit(flags, 1) then
      var (seq8, after) :- Take(8, rest, InterestError);
      Ok((Selector(Some(Number(seq8)), child), after))
    else Ok((Selector(None, child), rest))
  }

  lemma SelectorRoundTrip(s: Selector, rest: bytes)
    requires SmallSelector(s)
    ensures ParseSelector(EncodeSelector(s) + rest) == Ok((s, rest))
  {
    hide U64, Number;
    FlagBits(s.minSequence.Some?, s.child == Latest, s.child == Oldest, false, false, false);
    var data := EncodeSelector(s) + rest;
    if s.minSequence.Some? {
      assert data[1..] == U64(s.minSequence.value) + rest;
      assert data[1..][..8] == U64(s.minSequence.value);
    } else {
      assert data[1..] == rest;
    }
  }

  // ----- Interest -----

  predicate InterestFits(i: Interest) {
    Sendable(i.name) && i.lifetime < U32_LIMIT && (i.selector.Some? ==> SmallSelector(i.selector.value))
  }

  /** An empty selector stays off the wire; the hop limit is cut to one octet. */
  function SelectorSent(i: Interest): Option<Selector> {
    if i.selector.Some? && i.selector.value.IsEmpty() then None else i.selector
  }

  function EncodeInterest(i: Interest): bytes
    requires InterestFits(i)
  {
    var s := SelectorSent(i);
    [INTEREST, PROTOCOL_VERSION] + (EncodeName(i.name) + (i.nonce + (U32(i.lifetime)
      + ([Bit(i.canBePrefix, 1) + Bit(i.mustBeFresh, 2) + Bit(s.Some?, 4) + 8]
      + ((if s.Some? then EncodeSelector(s.value) else []) + [i.hopLimit % 256])))))
  }

  function ParseInterest(data: bytes): Result<Interest> {
    var r0 :- Header(INTEREST, data, InterestError);
    var (name, r1) :- TakeName(r0, InterestError);
    var (nonce, r2) :- Take(NONCE_BYTES, r1, InterestError);
    var (lifetime, r3) :- Take(4, r2, InterestError);
    var (flags, r4) :- TakeByte(r3, InterestError);
    var (selector, r5) :- OptionalSelector(HasBit(flags, 4), r4);
    var hop :- OptionalHop(HasBit(flags, 8), r5);
    Ok(Interest(name, nonce, Number(lifetime), HasBit(flags, 1), HasBit(flags, 2), selector, hop))
  }

  function OptionalSelector(present: bool, data: bytes): Result<(Option<Selector>, bytes)> {
    if !present then Ok((None, data))
    else
      var (s, rest) :- ParseSelector(data);
      Ok((Some(s), rest))
  }

  function OptionalHop(present: bool, data: bytes): Result<nat> {
    if !present then Ok(DEFAULT_HOP_LIMIT)
    else
      var (hop, rest) :- TakeByte(data, InterestError);
      Ok(hop)
  }

  predicate NormalInterest(i: Interest) {
    && NormalName(i.name) && |i.nonce| == NONCE_BYTES && i.lifetime < U32_LIMIT
    && (i.selector.Some? ==> SmallSelector(i.selector.value)) && i.hopLimit < 256
  }

  lemma TakeFront(a: bytes, rest: bytes, error: Error)
    ensures Take(|a|, a + rest, error) == Ok((a, rest))
  {
    assert (a + rest)[..|a|] == a && (a + rest)[|a|..] == rest;
  }

  lemma HeaderFront(kind: byte, rest: bytes, error: Error)
    ensures Header(kind, [kind, PROTOCOL_VERSION] + rest, error) == Ok(rest)
  {
    assert ([kind, PROTOCOL_VERSION] + rest)[2..] == rest;
  }

  lemma ByteFront(b: byte, rest: bytes, error: Error)
    ensures TakeByte([b] + rest, error) == Ok((b, rest))
  {
    assert ([b] + rest)[1..] == rest;
  }

  lemma InterestRoundTrip(i: Interest, junk: bytes)
    requires InterestFits(i) && NormalInterest(i)
    ensures ParseInterest(EncodeInterest(i) + junk) == Ok(i.(selector := SelectorSent(i)))
  {
    hide Header, TakeName, Take, TakeByte, ParseSelector, EncodeName, EncodeSelector, U32, Number, HasBit, NormalName,
      Sendable;
    var s := SelectorSent(i);
    var d5 := [i.hopLimit] + junk;
    var d4 := (if s.Some? then EncodeSelector(s.value) else []) + d5;
    var flags := Bit(i.canBePrefix, 1) + Bit(i.mustBeFresh, 2) + Bit(s.Some?, 4) + 8;
    FlagBits(i.canBePrefix, i.mustBeFresh, s.Some?, true, false, false);
    var d3 := [flags] + d4;
    var d2 := U32(i.lifetime) + d3;
    var d1 := i.nonce + d2;
    var d0 := EncodeName(i.name) + d1;
    assert EncodeInterest(i) + junk == [INTEREST, PROTOCOL_VERSION] + d0;
    HeaderFront(INTEREST, d0, InterestError);
    TakeNameRoundTrip(i.name, d1, InterestError);
    TakeFront(i.nonce, d2, InterestError);
    TakeFront(U32(i.lifetime), d3, InterestError);
    ByteFront(flags, d4, InterestError);
    if s.Some? {
      SelectorRoundTrip(s.value, d5);
    } else {
      assert d4 == d5;
    }
    ByteFront(i.hopLimit, junk, InterestError);
  }

  // ----- metadata -----

  predicate Fits64(v: Option<nat>) { v.Some? ==> v.value < U64_LIMIT }

  predicate MetadataFits(m: Metadata) {
    Fits64(m.sequence) && (m.isFresh || m.age < U64_LIMIT) && Fits64(m.freshnessPeriod) && Fits64(m.signedAt)
  }

  function OptionalU64(v: Option<nat>): bytes
    requires Fits64(v)
  {
    if v.Some? then U64(v.value) else []
  }

  function Staleness(m: Metadata): Option<nat> { if m.isFresh then None else Some(m.age) }

  function MetadataFlags(m: Metadata): (r: byte)
    ensures r < 64
  {
    FlagBits(m.contentHash.Some?, m.sequence.Some?, !m.isFresh, m.freshnessPeriod.Some?, m.signedAt.Some?, m.encrypted);
    Bit(m.contentHash.Some?, 1) + Bit(m.sequence.Some?, 2) + Bit(!m.isFresh, 4)
    + Bit(m.freshnessPeriod.Some?, 8) + Bit(m.signedAt.Some?, 16) + Bit(m.encrypted, 32)
  }

  function EncodeMetadata(m: Metadata): bytes
    requires MetadataFits(m)
  {
    [MetadataFlags(m)] + ((if m.contentHash.Some? then m.contentHash.value else [])
      + (OptionalU64(m.sequence) + EncodeTimes(m)))
  }

  /** The last three fields: age, freshness period and signing time. */
  function EncodeTimes(m: Metadata): bytes
    requires MetadataFits(m)
  {
    OptionalU64(Staleness(m)) + (OptionalU64(m.freshnessPeriod) + OptionalU64(m.signedAt))
  }

  function TakeOptional(present: bool, n: nat, data: bytes, error: Error): Result<(Option<bytes>, bytes)> {
    if !present then Ok((None, data))
    else
      var (v, rest) :- Take(n, data, error);
      Ok((Some(v), rest))
  }

  function TakeU64(present: bool, data: bytes): Result<(Option<nat>, bytes)> {
    if !present then Ok((None, data))
    else
      var (v, rest) :- Take(8, data, DataError);
      Ok((Some(Number(v)), rest))
  }

  function ParseMetadata(data: bytes): Result<Metadata> {
    var (flags, r0) :- TakeByte(data, DataError);
    var (hash, r1) :- TakeOptional(HasBit(flags, 1), HASH_BYTES, r0, DataError);
    var (sequence, r2) :- TakeU64(HasBit(flags, 2), r1);
    var (stale, period, signedAt) :- ParseTimes(flags, r2);
    Ok(Metadata(hash, sequence, stale.None?, if stale.Some? then stale.value else 0, period, signedAt,
      HasBit(flags, 32)))
  }

  function ParseTimes(flags: byte, data: bytes): Result<(Option<nat>, Option<nat>, Option<nat>)> {
    var (stale, r1) :- TakeU64(HasBit(flags, 4), data);
    var (period, r2) :- TakeU64(HasBit(flags, 8), r1);
    var (signedAt, r3) :- TakeU64(HasBit(flags, 16), r2);
    Ok((stale, period, signedAt))
  }

  /** The age of fresh Data stays off the wire. */
  function MetadataSent(m: Metadata): Metadata { if m.isFresh then m.(age := 0) else m }

  predicate HashFits(hash: Option<bytes>) { hash.Some? ==> |hash.value| == HASH_BYTES }

  predicate NormalMetadata(m: Metadata) { MetadataFits(m) && HashFits(m.contentHash) }

  lemma TakeU64Front(v: Option<nat>, rest: bytes)
    requires Fits64(v)
    ensures TakeU64(v.Some?, OptionalU64(v) + rest) == Ok((v, rest))
  {
    if v.Some? {
      TakeFront(U64(v.value), rest, DataError);
    } else {
      assert [] + rest == rest;
    }
  }

  lemma TakeOptionalFront(v: Option<bytes>, n: nat, rest: bytes, error: Error)
    requires v.Some? ==> |v.value| == n
    ensures TakeOptional(v.Some?, n, (if v.Some? then v.value else []) + rest, error) == Ok((v, rest))
  {
    if v.Some? {
      TakeFront(v.value, rest, error);
    } else {
      assert [] + rest == rest;
    }
  }

  lemma MetadataRoundTrip(m: Metadata, junk: bytes)
    requires NormalMetadata(m)
    ensures ParseMetadata(EncodeMetadata(m) + junk) == Ok(MetadataSent(m))
  {
    hide TakeByte, TakeOptional, TakeU64, ParseTimes, EncodeTimes, OptionalU64, HasBit, MetadataFlags;
    MetadataFlagsRead(m);
    var d2 := EncodeTimes(m) + junk;
    var d1 := OptionalU64(m.sequence) + d2;
    var d0 := (if m.contentHash.Some? then m.contentHash.value else []) + d1;
    assert EncodeMetadata(m) + junk == [MetadataFlags(m)] + d0;
    ByteFront(MetadataFlags(m), d0, DataError);
    TakeOptionalFront(m.contentHash, HASH_BYTES, d1, DataError);
    TakeU64Front(m.sequence, d2);
    TimesRoundTrip(m, junk);
  }

  lemma TimesRoundTrip(m: Metadata, junk: bytes)
    requires MetadataFits(m)
    ensures ParseTimes(MetadataFlags(m), EncodeTimes(m) + junk) == Ok((Staleness(m), m.freshnessPeriod, m.signedAt))
  {
    hide TakeU64, OptionalU64, HasBit, MetadataFlags;
    MetadataFlagsRead(m);
    var d2 := OptionalU64(m.signedAt) + junk;
    var d1 := OptionalU64(m.freshnessPeriod) + d2;
    assert EncodeTimes(m) + junk == OptionalU64(Staleness(m)) + d1;
    TakeU64Front(Staleness(m), d1);
    TakeU64Front(m.freshnessPeriod, d2);
    TakeU64Front(m.signedAt, junk);
  }

  lemma MetadataFlagsRead(m: Metadata)
    ensures var f := MetadataFlags(m);
      && HasBit(f, 1) == m.contentHash.Some? && HasBit(f, 2) == m.sequence.Some? && HasBit(f, 4) == !m.isFresh
      && HasBit(f, 8) == m.freshnessPeriod.Some? && HasBit(f, 16) == m.signedAt.Some? && HasBit(f, 32) == m.encrypted
  {
    FlagBits(m.contentHash.Some?, m.sequence.Some?, !m.isFresh, m.freshnessPeriod.Some?, m.signedAt.Some?, m.encrypted);
  }

  // ----- Data -----

  predicate DataFits(d: Data) {
    Sendable(d.name) && |d.content| < U32_LIMIT && MetadataFits(d.metadata) && |EncodeMetadata(d.metadata)| < U64_LIMIT
  }

  predicate HasMetadata(m: Metadata) {
    || m.contentHash.Some? || m.sequence.Some? || !m.isFresh
    || m.freshnessPeriod.Some? || m.signedAt.Some? || m.encrypted
  }

  function MetadataBlock(m: Metadata): bytes
    requires MetadataFits(m) && |EncodeMetadata(m)| < U64_LIMIT
  {
    if HasMetadata(m) then WriteVarint(|EncodeMetadata(m)|) + EncodeMetadata(m) else []
  }

  function EncodeData(d: Data): bytes
    requires DataFits(d)
  {
    [DATA, PROTOCOL_VERSION] + (EncodeName(d.name) + (U32(|d.content|) + (d.content
      + ([Bit(HasMetadata(d.metadata), 1) + Bit(d.signature.Some?, 2)]
      + (MetadataBlock(d.metadata) + (if d.signature.Some? then d.signature.value else []))))))
  }

  function TakeMetadata(present: bool, data: bytes): Result<(Metadata, bytes)> {
    if !present then Ok((DEFAULT_METADATA, data))
    else
      var (length, used) :- ReadVarint(data);
      if |data| < used + length then Err(DataError)
      else
        var m :- ParseMetadata(data[used..used + length]);
        Ok((m, data[used + length..]))
  }

  function ParseData(data: bytes): Result<Data> {
    var r0 :- Header(DATA, data, DataError);
    var (name, r1) :- TakeName(r0, DataError);
    var (size, r2) :- Take(4, r1, DataError);
    var (content, r3) :- Take(Number(size), r2, DataError);
    var (flags, r4) :- TakeByte(r3, DataError);
    var (m, r5) :- TakeMetadata(HasBit(flags, 1), r4);
    var (signature, r6) :- TakeOptional(HasBit(flags, 2), SIGNATURE_BYTES, r5, DataError);
    Ok(Data(name, content, signature, m))
  }

  predicate SignatureFits(signature: Option<bytes>) { signature.Some? ==> |signature.value| == SIGNATURE_BYTES }

  predicate NormalData(d: Data) {
    NormalName(d.name) && |d.content| < U32_LIMIT && NormalMetadata(d.metadata) && SignatureFits(d.signature)
  }

  lemma TakeMetadataFront(m: Metadata, rest: bytes)
    requires NormalMetadata(m) && |EncodeMetadata(m)| < U64_LIMIT
    ensures TakeMetadata(HasMetadata(m), MetadataBlock(m) + rest) == Ok((MetadataSent(m), rest))
  {
    hide ReadVarint, WriteVarint, EncodeMetadata, ParseMetadata;
    if HasMetadata(m) {
      var body := EncodeMetadata(m);
      var w := WriteVarint(|body|);
      VarintRoundTrip(|body|, body + rest);
      assert MetadataBlock(m) + rest == w + (body + rest);
      assert (w + (body + rest))[|w|..|w| + |body|] == body;
      assert (w + (body + rest))[|w| + |body|..] == rest;
      assert body + [] == body;
      MetadataRoundTrip(m, []);
    } else {
      assert [] + rest == rest;
    }
  }

  lemma DataRoundTrip(d: Data, junk: bytes)
    requires DataFits(d) && NormalData(d)
    ensures ParseData(EncodeData(d) + junk) == Ok(d.(metadata := MetadataSent(d.metadata)))
  {
    hide Header, TakeName, Take, TakeByte, TakeMetadata, TakeOptional, EncodeName, MetadataBlock, EncodeMetadata,
      HasMetadata, U32, Number, HasBit, NormalName, NormalMetadata, Sendable;
    var d5 := (if d.signature.Some? then d.signature.value else []) + junk;
    var d4 := MetadataBlock(d.metadata) + d5;
    var flags := Bit(HasMetadata(d.metadata), 1) + Bit(d.signature.Some?, 2);
    FlagBits(HasMetadata(d.metadata), d.signature.Some?, false, false, false, false);
    var d3 := [flags] + d4;
    var d2 := d.content + d3;
    var d1 := U32(|d.content|) + d2;
    var d0 := EncodeName(d.name) + d1;
    assert EncodeData(d) + junk == [DATA, PROTOCOL_VERSION] + d0;
    HeaderFront(DATA, d0, DataError);
    TakeNameRoundTrip(d.name, d1, DataError);
    TakeFront(U32(|d.content|), d2, DataError);
    TakeFront(d.content, d3, DataError);
    ByteFront(flags, d4, DataError);
    TakeMetadataFront(d.metadata, d5);
    TakeOptionalFront(d.signature, SIGNATURE_BYTES, junk, DataError);
  }

  // ----- the small packets -----

  function EncodeSubscribe(s: Subscribe): bytes
    requires Sendable(s.name)
  {
    [APS_SUBSCRIBE, PROTOCOL_VERSION] + (EncodeName(s.name) + [Bit(s.startFromNow, 1)])
  }

  /** Only a varint's own complaint and the name parser's are turned into this packet's error; the
      unpacking error of a cut-off varint passes through. */
  function TakeSubscribedName(data: bytes): Result<(Name, bytes)> {
    if data == [] then Err(SubscribeError)
    else
      var (length, used) :- ReadVarint(data);
      if |data| < used + length then Err(SubscribeError)
      else
        var n := NameCodec.Parse(data[used..used + length]);
        if n.Err? then Err(SubscribeError) else Ok((n.value, data[used + length..]))
  }

  function ParseSubscribe(data: bytes): Result<Subscribe> {
    var r0 :- Header(APS_SUBSCRIBE, data, SubscribeError);
    var (name, r1) :- TakeSubscribedName(r0);
    var (flags, r2) :- TakeByte(r1, SubscribeError);
    Ok(Subscribe(name, HasBit(flags, 1)))
  }

  const ADDRESS_PADDING: bytes := [0, 0, 0, 0, 0, 0, 0, 0, 0, 0, 0, 0, 0, 0, 0, 0]

  /** Short addresses are padded with zeros and long ones cut. */
  function PropPeerAddress(addr: bytes): (r: bytes)
    ensures |r| == ADDRESS_BYTES && (|addr| == ADDRESS_BYTES ==> r == addr)
  {
    (addr + ADDRESS_PADDING)[..ADDRESS_BYTES]
  }

  function EncodePropPeer(p: PropPeer): bytes
    requires p.version < 256
  {
    [PROP_PEER, p.version] + (PropPeerAddress(p.address) + [Bit(p.wantsSync, 1)])
  }

  function ParsePropPeer(data: bytes): Result<PropPeer> {
    var _ :- Check(data != [] && data[0] == PROP_PEER && |data| >= 19, ValueError);
    var _ :- Check(data[1] == PROTOCOL_VERSION, UnsupportedVersion);
    Ok(PropPeer(data[1], data[2..18], HasBit(data[18], 1)))
  }

  function EncodeCapPeer(c: CapPeer): bytes
    requires c.version < 256 && c.role < 256 && c.features < U32_LIMIT
  {
    [CAP_PEER, c.version, c.role] + U32(c.features)
  }

  function ParseCapPeer(data: bytes): Result<CapPeer> {
    var _ :- Check(data != [] && data[0] == CAP_PEER && |data| >= 7, ValueError);
    var _ :- Check(data[1] == PROTOCOL_VERSION, UnsupportedVersion);
    Ok(CapPeer(data[1], data[2], Number(data[3..7])))
  }

  function EncodeInvalidate(v: Invalidate): bytes
    requires Sendable(v.name) && v.epoch < U64_LIMIT
  {
    [INVALIDATE, PROTOCOL_VERSION] + (EncodeName(v.name) + (U64(v.epoch)
      + ([Bit(v.isPrefix, 1) + Bit(v.signature.Some?, 2)] + (if v.signature.Some? then v.signature.value else []))))
  }

  function ParseInvalidate(data: bytes): Result<Invalidate> {
    var r0 :- Header(INVALIDATE, data, InvalidateError);
    var (name, r1) :- TakeName(r0, InvalidateError);
    var (epoch, r2) :- Take(8, r1, InvalidateError);
    var (flags, r3) :- TakeByte(r2, InvalidateError);
    var (signature, r4) :- TakeOptional(HasBit(flags, 2), SIGNATURE_BYTES, r3, InvalidateError);
    Ok(Invalidate(name, Number(epoch), HasBit(flags, 1), signature))
  }

  function ReasonCode(r: NackReason): byte {
    match r case NoRoute => 1 case Congestion => 2 case NoData => 3
  }

  function EncodeNack(n: Nack): bytes
    requires Sendable(n.name)
  {
    [NACK, PROTOCOL_VERSION] + (EncodeName(n.name) + [ReasonCode(n.reason)])
  }

  function ParseNack(data: bytes): Result<Nack> {
    var r0 :- Header(NACK, data, NackError);
    var (name, r1) :- TakeName(r0, NackError);
    var (code, r2) :- TakeByte(r1, NackError);
    if code == 1 then Ok(Nack(name, NoRoute))
    else if code == 2 then Ok(Nack(name, Congestion))
    else if code == 3 then Ok(Nack(name, NoData))
    else Err(NackError)
  }

  lemma SubscribeRoundTrip(s: Subscribe, junk: bytes)
    requires Sendable(s.name) && NormalName(s.name)
    ensures ParseSubscribe(EncodeSubscribe(s) + junk) == Ok(s)
  {
    hide Header, TakeName, TakeByte, EncodeName, NormalName, Sendable, NameCodec.Parse, ReadVarint;
    var d1 := [Bit(s.startFromNow, 1)] + junk;
    var d0 := EncodeName(s.name) + d1;
    assert EncodeSubscribe(s) + junk == [APS_SUBSCRIBE, PROTOCOL_VERSION] + d0;
    HeaderFront(APS_SUBSCRIBE, d0, SubscribeError);
    TakeNameRoundTrip(s.name, d1, SubscribeError);
    SubscribedName(d0);
    ByteFront(Bit(s.startFromNow, 1), junk, SubscribeError);
  }

  lemma SubscribedName(data: bytes)
    requires TakeName(data, SubscribeError).Ok?
    ensures TakeSubscribedName(data) == TakeName(data, SubscribeError)
  {
  }

  lemma PropPeerRoundTrip(p: PropPeer, junk: bytes)
    requires p.version < 256
    ensures ParsePropPeer(EncodePropPeer(p) + junk) ==
      if p.version == 1 then Ok(p.(address := PropPeerAddress(p.address))) else Err(UnsupportedVersion)
  {
    var data := EncodePropPeer(p) + junk;
    assert data[2..18] == PropPeerAddress(p.address);
    assert data[18] == Bit(p.wantsSync, 1);
  }

  lemma CapPeerRoundTrip(c: CapPeer, junk: bytes)
    requires c.version < 256 && c.role < 256 && c.features < U32_LIMIT
    ensures ParseCapPeer(EncodeCapPeer(c) + junk) == if c.version == 1 then Ok(c) else Err(UnsupportedVersion)
  {
    var data := EncodeCapPeer(c) + junk;
    assert data[3..7] == U32(c.features);
  }

  lemma InvalidateRoundTrip(v: Invalidate, junk: bytes)
    requires Sendable(v.name) && v.epoch < U64_LIMIT && NormalName(v.name) && SignatureFits(v.signature)
    ensures ParseInvalidate(EncodeInvalidate(v) + junk) == Ok(v)
  {
    hide Header, TakeName, Take, TakeByte, TakeOptional, EncodeName, U64, Number, HasBit, NormalName, Sendable;
    var d3 := (if v.signature.Some? then v.signature.value else []) + junk;
    var flags := Bit(v.isPrefix, 1) + Bit(v.signature.Some?, 2);
    FlagBits(v.isPrefix, v.signature.Some?, false, false, false, false);
    var d2 := [flags] + d3;
    var d1 := U64(v.epoch) + d2;
    var d0 := EncodeName(v.name) + d1;
    assert EncodeInvalidate(v) + junk == [INVALIDATE, PROTOCOL_VERSION] + d0;
    HeaderFront(INVALIDATE, d0, InvalidateError);
    TakeNameRoundTrip(v.name, d1, InvalidateError);
    TakeFront(U64(v.epoch), d2, InvalidateError);
    ByteFront(flags, d3, InvalidateError);
    TakeOptionalFront(v.signature, SIGNATURE_BYTES, junk, InvalidateError);
  }

  lemma NackRoundTrip(n: Nack, junk: bytes)
    requires Sendable(n.name) && NormalName(n.name)
    ensures ParseNack(EncodeNack(n) + junk) == Ok(n)
  {
    hide Header, TakeName, TakeByte, EncodeName, NormalName, Sendable;
    var d1 := [ReasonCode(n.reason)] + junk;
    var d0 := EncodeName(n.name) + d1;
    assert EncodeNack(n) + junk == [NACK, PROTOCOL_VERSION] + d0;
    HeaderFront(NACK, d0, NackError);
    TakeNameRoundTrip(n.name, d1, NackError);
    ByteFront(ReasonCode(n.reason), junk, NackError);
  }

  // ----- any packet -----

  /** What the encoders can write without raising. */
  predicate Fits(p: Packet) {
    match p
    case InterestPacket(i) => InterestFits(i)
    case DataPacket(d) => DataFits(d)
    case SubscribePacket(s) => Sendable(s.name)
    case PropPeerPacket(q) => q.version < 256
    case CapPeerPacket(c) => c.version < 256 && c.role < 256 && c.features < U32_LIMIT
    case InvalidatePacket(v) => Sendable(v.name) && v.epoch < U64_LIMIT
    case NackPacket(n) => Sendable(n.name)
  }

  function Encode(p: Packet): bytes
    requires Fits(p)
  {
    match p
    case InterestPacket(i) => EncodeInterest(i)
    case DataPacket(d) => EncodeData(d)
    case SubscribePacket(s) => EncodeSubscribe(s)
    case PropPeerPacket(q) => EncodePropPeer(q)
    case CapPeerPacket(c) => EncodeCapPeer(c)
    case InvalidatePacket(v) => EncodeInvalidate(v)
    case NackPacket(n) => EncodeNack(n)
  }

  function ParsePacket(data: bytes): Result<Packet> {
    if data == [] then Err(ValueError)
    else if data[0] == INTEREST then var i :- ParseInterest(data); Ok(InterestPacket(i))
    else if data[0] == DATA then var d :- ParseData(data); Ok(DataPacket(d))
    else if data[0] == APS_SUBSCRIBE then var s :- ParseSubscribe(data); Ok(SubscribePacket(s))
    else if data[0] == PROP_PEER then var q :- ParsePropPeer(data); Ok(PropPeerPacket(q))
    else if data[0] == CAP_PEER then var c :- ParseCapPeer(data); Ok(CapPeerPacket(c))
    else if data[0] == INVALIDATE then var v :- ParseInvalidate(data); Ok(InvalidatePacket(v))
    else if data[0] == NACK then var n :- ParseNack(data); Ok(NackPacket(n))
    else Err(ValueError)
  }

  /** What a packet looks like at the far end: fields the wire leaves out take their default. */
  function Sent(p: Packet): Packet {
    match p
    case InterestPacket(i) => InterestPacket(i.(selector := SelectorSent(i)))
    case DataPacket(d) => DataPacket(d.(metadata := MetadataSent(d.metadata)))
    case PropPeerPacket(q) => PropPeerPacket(q.(address := PropPeerAddress(q.address)))
    case _ => p
  }

  /** Packets a parser could have produced, as far as sizes go. */
  predicate Normal(p: Packet) {
    match p
    case InterestPacket(i) => NormalInterest(i)
    case DataPacket(d) => NormalData(d)
    case SubscribePacket(s) => NormalName(s.name)
    case PropPeerPacket(q) => q.version == 1
    case CapPeerPacket(c) => c.version == 1 && c.role < 256 && c.features < U32_LIMIT
    case InvalidatePacket(v) => NormalName(v.name) && v.epoch < U64_LIMIT && SignatureFits(v.signature)
    case NackPacket(n) => NormalName(n.name)
  }

  /** Every kind of packet survives the wire, whatever octets follow it in the buffer. */
  lemma PacketRoundTrip(p: Packet, junk: bytes)
    requires Fits(p) && Normal(p)
    ensures ParsePacket(Encode(p) + junk) == Ok(Sent(p))
  {
    hide ParseInterest, ParseData, ParseSubscribe, ParsePropPeer, ParseCapPeer, ParseInvalidate, ParseNack,
      NormalInterest, NormalData, NormalName, InterestFits, DataFits, Sendable, EncodeName, MetadataBlock, U32, U64,
      SelectorSent, MetadataSent;
    match p
    case InterestPacket(i) => InterestRoundTrip(i, junk);
    case DataPacket(d) => DataRoundTrip(d, junk);
    case SubscribePacket(s) => SubscribeRoundTrip(s, junk);
    case PropPeerPacket(q) => PropPeerRoundTrip(q, junk);
    case CapPeerPacket(c) => CapPeerRoundTrip(c, junk);
    case InvalidatePacket(v) => InvalidateRoundTrip(v, junk);
    case NackPacket(n) => NackRoundTrip(n, junk);
  }

  lemma NormalNameIsSendable(n: Name)
    requires NormalName(n)
    ensures Sendable(n)
  {
    NameCodec.ComponentsSize(n.Components());
  }

  lemma TakeU64Fits(present: bool, data: bytes)
    requires TakeU64(present, data).Ok?
    ensures Fits64(TakeU64(present, data).value.0)
  {
    if present {
      NumberFits(data[..8]);
    }
  }

  lemma ParsedMetadataIsNormal(data: bytes)
    requires ParseMetadata(data).Ok?
    ensures var m := ParseMetadata(data).value;
      NormalMetadata(m) && MetadataSent(m) == m && |EncodeMetadata(m)| < U64_LIMIT
  {
    hide TakeU64, HasBit, Number;
    var (flags, r0) := TakeByte(data, DataError).value;
    var (hash, r1) := TakeOptional(HasBit(flags, 1), HASH_BYTES, r0, DataError).value;
    TakeU64Fits(HasBit(flags, 2), r1);
    var (sequence, r2) := TakeU64(HasBit(flags, 2), r1).value;
    TakeU64Fits(HasBit(flags, 4), r2);
    var (stale, r3) := TakeU64(HasBit(flags, 4), r2).value;
    TakeU64Fits(HasBit(flags, 8), r3);
    var (period, r4) := TakeU64(HasBit(flags, 8), r3).value;
    TakeU64Fits(HasBit(flags, 16), r4);
  }

  lemma ParsedDataIsNormal(data: bytes)
    requires ParseData(data).Ok?
    ensures var d := ParseData(data).value; NormalData(d) && DataFits(d) && MetadataSent(d.metadata) == d.metadata
  {
    hide Header, TakeName, ParseMetadata, NormalMetadata, MetadataFits, EncodeMetadata, MetadataSent, HasBit, Number,
      NormalName, Sendable, ReadVarint;
    var r0 := Header(DATA, data, DataError).value;
    TakenNameIsNormal(r0, DataError);
    var (name, r1) := TakeName(r0, DataError).value;
    NormalNameIsSendable(name);
    var (size, r2) := Take(4, r1, DataError).value;
    NumberFits(size);
    var (content, r3) := Take(Number(size), r2, DataError).value;
    var (flags, r4) := TakeByte(r3, DataError).value;
    TakenMetadataIsNormal(HasBit(flags, 1), r4);
  }

  lemma TakenMetadataIsNormal(present: bool, data: bytes)
    requires TakeMetadata(present, data).Ok?
    ensures var m := TakeMetadata(present, data).value.0;
      NormalMetadata(m) && MetadataFits(m) && MetadataSent(m) == m && |EncodeMetadata(m)| < U64_LIMIT
  {
    hide ReadVarint, ParseMetadata;
    if present {
      var (length, used) := ReadVarint(data).value;
      ParsedMetadataIsNormal(data[used..used + length]);
    }
  }

  lemma ParsedInterestIsNormal(data: bytes)
    requires ParseInterest(data).Ok?
    ensures NormalInterest(ParseInterest(data).value) && InterestFits(ParseInterest(data).value)
  {
    hide Header, TakeName, ParseSelector, HasBit, Number, NormalName, Sendable;
    var r0 := Header(INTEREST, data, InterestError).value;
    TakenNameIsNormal(r0, InterestError);
    var (name, r1) := TakeName(r0, InterestError).value;
    NormalNameIsSendable(name);
    var (nonce, r2) := Take(NONCE_BYTES, r1, InterestError).value;
    var (lifetime, r3) := Take(4, r2, InterestError).value;
    NumberFits(lifetime);
    var (flags, r4) := TakeByte(r3, InterestError).value;
    if HasBit(flags, 4) {
      ParsedSelectorIsSmall(r4);
    }
  }

  lemma ParsedSelectorIsSmall(data: bytes)
    requires ParseSelector(data).Ok?
    ensures SmallSelector(ParseSelector(data).value.0)
  {
    if |data| >= 9 {
      NumberFits(data[1..][..8]);
    }
  }

  lemma ParsedSubscribeIsNormal(data: bytes)
    requires ParseSubscribe(data).Ok?
    ensures NormalName(ParseSubscribe(data).value.name)
  {
    hide Header, ReadVarint, NameCodec.Parse, NormalName, HasBit;
    var r0 := Header(APS_SUBSCRIBE, data, SubscribeError).value;
    SubscribedNameIsTaken(r0);
    TakenNameIsNormal(r0, SubscribeError);
  }

  lemma SubscribedNameIsTaken(data: bytes)
    requires TakeSubscribedName(data).Ok?
    ensures TakeSubscribedName(data) == TakeName(data, SubscribeError)
  {
  }

  lemma ParsedInvalidateIsNormal(data: bytes)
    requires ParseInvalidate(data).Ok?
    ensures var v := ParseInvalidate(data).value;
      NormalName(v.name) && v.epoch < U64_LIMIT && SignatureFits(v.signature)
  {
    hide Header, TakeName, Number, NormalName, HasBit;
    var r0 := Header(INVALIDATE, data, InvalidateError).value;
    TakenNameIsNormal(r0, InvalidateError);
    var (name, r1) := TakeName(r0, InvalidateError).value;
    var (epoch, r2) := Take(8, r1, InvalidateError).value;
    NumberFits(epoch);
  }

  lemma ParsedNackIsNormal(data: bytes)
    requires ParseNack(data).Ok?
    ensures NormalName(ParseNack(data).value.name)
  {
    hide Header, TakeName, NormalName;
    TakenNameIsNormal(Header(NACK, data, NackError).value, NackError);
  }

  /** Whatever octets arrive, a packet that parses is one the encoder can write back and the far end
      parse again; so every node can relay what it accepts. */
  lemma ParsedIsNormal(data: bytes)
    requires ParsePacket(data).Ok?
    ensures var p := ParsePacket(data).value; Fits(p) && Normal(p) && ParsePacket(Encode(p)) == Ok(Sent(p))
  {
    hide ParseInterest, ParseData, ParseSubscribe, ParsePropPeer, ParseCapPeer, ParseInvalidate, ParseNack,
      NormalInterest, NormalData, NormalName, InterestFits, DataFits, Sendable, Encode, Sent;
    var p := ParsePacket(data).value;
    match p {
      case InterestPacket(i) => ParsedInterestIsNormal(data);
      case DataPacket(d) => ParsedDataIsNormal(data);
      case SubscribePacket(s) =>
        ParsedSubscribeIsNormal(data);
        NormalNameIsSendable(s.name);
      case PropPeerPacket(q) => ParsedPeersAreNormal(data);
      case CapPeerPacket(c) => ParsedPeersAreNormal(data);
      case InvalidatePacket(v) =>
        ParsedInvalidateIsNormal(data);
        NormalNameIsSendable(v.name);
      case NackPacket(n) =>
        ParsedNackIsNormal(data);
        NormalNameIsSendable(n.name);
    }
    PacketRoundTrip(p, []);
    assert Encode(p) + [] == Encode(p);
  }

  lemma ParsedPeersAreNormal(data: bytes)
    ensures ParsePropPeer(data).Ok? ==> ParsePropPeer(data).value.version == 1
    ensures ParseCapPeer(data).Ok? ==>
      var c := ParseCapPeer(data).value; c.version == 1 && c.role < 256 && c.features < U32_LIMIT
  {
    if |data| >= 7 {
      NumberFits(data[3..7]);
    }
  }

  /** The exact condition for a packet to come back as it was: sizes the parser accepts, and nothing
      in it that the wire leaves out or cuts. */
  lemma RoundTripsExactlyWhenNormal(p: Packet)
    requires Fits(p)
    ensures ParsePacket(Encode(p)) == Ok(p) <==> Normal(p) && Sent(p) == p
  {
    hide Fits, Normal, Encode, ParsePacket, Sent;
    assert Encode(p) + [] == Encode(p);
    if Normal(p) {
      PacketRoundTrip(p, []);
    }
    if ParsePacket(Encode(p)).Ok? {
      ParsedIsNormal(Encode(p));
    }
  }

  /** How much of a packet must be there before its version is looked at. */
  function VersionedFrom(kind: byte): nat {
    if kind == PROP_PEER then 19 else if kind == CAP_PEER then 7 else 2
  }

  /** A receiver tells another protocol generation from garbage: the version error is raised for
      exactly the known packet kinds that are long enough and carry another version octet. */
  lemma OtherVersionsAreRefused(data: bytes)
    ensures ParsePacket(data) == Err(UnsupportedVersion) <==>
      (data != [] && INTEREST <= data[0] <= NACK && |data| >= VersionedFrom(data[0]) && data[1] != PROTOCOL_VERSION)
  {
    InterestVersion(data);
    DataVersion(data);
    SmallPacketVersion(data);
  }

  lemma TakeNameVersion(data: bytes, error: Error)
    ensures TakeName(data, error).Err? ==> TakeName(data, error).error in {InterestError, StructError, NameError, error}
  {
  }

  lemma InterestVersion(data: bytes)
    ensures ParseInterest(data) == Err(UnsupportedVersion) ==> |data| >= 2 && data[1] != PROTOCOL_VERSION
  {
    hide TakeName, Number;
    if Header(INTEREST, data, InterestError).Ok? {
      TakeNameVersion(data[2..], InterestError);
    }
  }

  lemma DataVersion(data: bytes)
    ensures ParseData(data) == Err(UnsupportedVersion) ==> |data| >= 2 && data[1] != PROTOCOL_VERSION
  {
    hide TakeName, Number;
    if Header(DATA, data, DataError).Ok? {
      TakeNameVersion(data[2..], DataError);
    }
  }

  lemma SmallPacketVersion(data: bytes)
    ensures ParseSubscribe(data) == Err(UnsupportedVersion) ==> |data| >= 2 && data[1] != PROTOCOL_VERSION
    ensures ParseInvalidate(data) == Err(UnsupportedVersion) ==> |data| >= 2 && data[1] != PROTOCOL_VERSION
    ensures ParseNack(data) == Err(UnsupportedVersion) ==> |data| >= 2 && data[1] != PROTOCOL_VERSION
  {
    hide Number, TakeName;
    if |data| >= 2 {
      TakeNameVersion(data[2..], InvalidateError);
      TakeNameVersion(data[2..], NackError);
    }
  }
}
