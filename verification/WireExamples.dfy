/** The octets themselves: one packet of each kind, a name, the numbers and what is signed, written out
    as rns_icn/packet.py, rns_icn/name.py and rns_icn/access.py lay them out.  Round trips alone would
    not tell one layout from another. */
module WireExamples {
  import opened Base
  import opened Names
  import opened Packets
  import opened Wire
  import NameCodec
  import opened PacketCodec
  import opened Signing
  import Access

  // ----- numbers -----

  function Repeat(b: byte, n: nat): (r: bytes)
    ensures |r| == n && forall k :: 0 <= k < n ==> r[k] == b
  {
    seq(n, _ => b)
  }

  lemma {:induction false} ZeroOctets(width: nat)
    ensures 0 < Pow256(width) && BigEndian(0, width) == Repeat(0, width)
  {
    if width > 0 {
      ZeroOctets(width - 1);
      assert 0 / 256 == 0 && 0 % 256 == 0;
    }
  }

  lemma {:induction false} PowersGrow(width: nat)
    requires width >= 2
    ensures Pow256(width) >= 65536
  {
    if width == 2 {
      assert Pow256(0) == 1 && Pow256(1) == 256;
    } else {
      PowersGrow(width - 1);
    }
  }

  /** Big-endian: the most significant octet first. */
  lemma TwoOctets(a: byte, b: byte, width: nat)
    requires width >= 2
    ensures 256 * a + b < Pow256(width) && BigEndian(256 * a + b, width) == Repeat(0, width - 2) + [a, b]
  {
    PowersGrow(width);
    ZeroOctets(width - 2);
    var n := 256 * a + b;
    assert n / 256 == a && n % 256 == b && a / 256 == 0 && a % 256 == a;
    assert Pow256(width) == 256 * Pow256(width - 1) && Pow256(width - 1) == 256 * Pow256(width - 2);
    assert BigEndian(a, width - 1) == BigEndian(0, width - 2) + [a];
  }

  lemma SmallU64(a: byte, b: byte)
    ensures 256 * a + b < U64_LIMIT && U64(256 * a + b) == [0, 0, 0, 0, 0, 0, a, b]
  {
    TwoOctets(a, b, 8);
  }

  lemma SmallU32(a: byte, b: byte)
    ensures 256 * a + b < U32_LIMIT && U32(256 * a + b) == [0, 0, a, b]
  {
    TwoOctets(a, b, 4);
  }

  lemma SmallU16(a: byte, b: byte)
    ensures 256 * a + b < U16_LIMIT && U16(256 * a + b) == [a, b]
  {
    TwoOctets(a, b, 2);
  }

  /** A varint is the octet itself up to 252; 253, 254 and 255 announce two, four and eight. */
  lemma VarintExamples()
    ensures WriteVarint(252) == [252] && WriteVarint(253) == [253, 0, 253] && WriteVarint(65535) == [253, 255, 255]
    ensures WriteVarint(65536) == [254] + BigEndian(65536, 4)
      && WriteVarint(0xFFFF_FFFF) == [254] + BigEndian(0xFFFF_FFFF, 4)
    ensures WriteVarint(0x1_0000_0000) == [255] + BigEndian(0x1_0000_0000, 8)
  {
    Widths();
    TwoOctets(0, 253, 2);
    TwoOctets(255, 255, 2);
  }

  // ----- names -----

  const ADDR: bytes := [7]
  const NAME := Name(ADDR, [[97, 98]], None)
  const PIN: bytes := [9, 9, 9, 9, 9, 9, 9, 9, 9, 9, 9, 9, 9, 9, 9, 9, 9, 9, 9, 9, 9, 9, 9, 9, 9, 9, 9, 9, 9, 9, 9, 9]

  /** How many components, each with its length, and a pin behind octet 255. */
  lemma NameExample()
    ensures NameCodec.Encodable(NAME) && NameCodec.Encode(NAME) == [2, 1, 7, 2, 97, 98]
    ensures NameCodec.Encode(NAME.(pin := Some(PIN))) == [2, 1, 7, 2, 97, 98] + ([255] + PIN)
  {
    var cs := NAME.Components();
    assert cs == [[7], [97, 98]] && cs[1..] == [[97, 98]];
    assert NAME.(pin := Some(PIN)).Components() == cs;
    var last: seq<bytes> := [[97, 98]];
    assert last[1..] == [];
    assert NameCodec.EncodeComponents(last) == [2, 97, 98];
    assert NameCodec.EncodeComponents(cs) == [1, 7] + [2, 97, 98];
  }

  lemma SentNameExample()
    ensures Sendable(NAME) && EncodeName(NAME) == [6, 2, 1, 7, 2, 97, 98]
  {
    NameExample();
  }

  const SENT_NAME: bytes := [6, 2, 1, 7, 2, 97, 98]
  const NONCE: bytes := [1, 2, 3, 4, 5, 6, 7, 8]

  // ----- packets -----

  lemma SelectorExample()
    ensures EncodeSelector(Selector(Some(259), Oldest)) == [5] + [0, 0, 0, 0, 0, 0, 1, 3]
  {
    SmallU64(1, 3);
    hide U64;
  }

  /** Type, version, name, nonce, lifetime, flags, selector, hop limit. */
  lemma WalkInterestExample()
    ensures var i := Interest(NAME, NONCE, 258, true, false, Some(Selector(Some(259), Oldest)), 16);
      InterestFits(i)
      && EncodeInterest(i) == [1, 1] + (SENT_NAME + (NONCE + ([0, 0, 1, 2] +
        ([13] + (([5] + [0, 0, 0, 0, 0, 0, 1, 3]) + [16])))))
  {
    SentNameExample();
    SmallU32(1, 2);
    SelectorExample();
    assert 259 < U64_LIMIT by { SmallU64(1, 3); }
    hide U32, EncodeName, EncodeSelector, Pow256;
  }

  lemma LatestInterestExample()
    ensures var i := Interest(NAME, NONCE, 258, false, true, Some(Selector(None, Latest)), 3);
      InterestFits(i) && EncodeInterest(i) == [1, 1] + (SENT_NAME + (NONCE + ([0, 0, 1, 2] +
        ([14] + (([2] + []) + [3])))))
  {
    SentNameExample();
    SmallU32(1, 2);
    hide U32, U64, EncodeName;
  }

  lemma PlainInterestExample()
    ensures var i := Interest(NAME, NONCE, 258, false, false, None, 3);
      InterestFits(i) && EncodeInterest(i) == [1, 1] + (SENT_NAME + (NONCE + ([0, 0, 1, 2] + ([8] + ([] + [3])))))
  {
    SentNameExample();
    SmallU32(1, 2);
    hide U32, U64, EncodeName;
  }

  /** An Interest that carries no hop limit has the default one. */
  lemma HopLimitMayBeMissing()
    ensures ParseInterest([1, 1] + (SENT_NAME + (NONCE + ([0, 0, 1, 2] + [1]))))
      == Ok(Interest(NAME, NONCE, 258, true, false, None, 16))
  {
    SentNameExample();
    SmallU32(1, 2);
    NameExample();
    assert NormalName(NAME);
    var r2 := U32(258) + [1];
    var r1 := NONCE + r2;
    var r0 := EncodeName(NAME) + r1;
    hide Header, TakeName, Take, TakeByte, EncodeName, U32, Number;
    HeaderFront(INTEREST, r0, InterestError);
    TakeNameRoundTrip(NAME, r1, InterestError);
    TakeFront(NONCE, r2, InterestError);
    TakeFront(U32(258), [1], InterestError);
    assert [1] == [1] + [];
    ByteFront(1, [], InterestError);
  }

  const PLAIN := DEFAULT_METADATA

  /** Each field of the metadata has its own flag; they follow in this order. */
  lemma HashAndSequenceExample()
    ensures EncodeMetadata(PLAIN.(contentHash := Some(PIN))) == [1] + PIN
    ensures EncodeMetadata(PLAIN.(sequence := Some(258))) == [2] + [0, 0, 0, 0, 0, 0, 1, 2]
  {
    SmallU64(1, 2);
    hide U64;
    var m, n := PLAIN.(contentHash := Some(PIN)), PLAIN.(sequence := Some(258));
    assert MetadataFlags(m) == 1 && EncodeTimes(m) == [];
    assert MetadataFlags(n) == 2 && EncodeTimes(n) == [];
  }

  lemma TimesExample()
    ensures EncodeMetadata(PLAIN.(isFresh := false, age := 259)) == [4] + [0, 0, 0, 0, 0, 0, 1, 3]
    ensures EncodeMetadata(PLAIN.(freshnessPeriod := Some(260))) == [8] + [0, 0, 0, 0, 0, 0, 1, 4]
    ensures EncodeMetadata(PLAIN.(signedAt := Some(261))) == [16] + [0, 0, 0, 0, 0, 0, 1, 5]
  {
    SmallU64(1, 3);
    SmallU64(1, 4);
    SmallU64(1, 5);
    hide U64;
    var m, n, x := PLAIN.(isFresh := false, age := 259), PLAIN.(freshnessPeriod := Some(260)),
          PLAIN.(signedAt := Some(261));
    assert EncodeTimes(m) == U64(259) && EncodeTimes(n) == U64(260) && EncodeTimes(x) == U64(261);
  }

  lemma EncryptedExample()
    ensures EncodeMetadata(PLAIN.(encrypted := true)) == [32]
  {
    assert EncodeTimes(PLAIN.(encrypted := true)) == [];
  }

  lemma AllMetadataExample()
    ensures EncodeMetadata(Metadata(Some(PIN), Some(258), false, 259, Some(260), Some(261), true)) ==
      [63] + (PIN + ([0, 0, 0, 0, 0, 0, 1, 2] + ([0, 0, 0, 0, 0, 0, 1, 3] +
        ([0, 0, 0, 0, 0, 0, 1, 4] + [0, 0, 0, 0, 0, 0, 1, 5]))))
  {
    SmallU64(1, 2);
    SmallU64(1, 3);
    SmallU64(1, 4);
    SmallU64(1, 5);
    hide U64;
  }

  lemma SequencedBlock()
    ensures var m := PLAIN.(sequence := Some(258));
      |EncodeMetadata(m)| == 9 && MetadataBlock(m) == [9] + ([2] + [0, 0, 0, 0, 0, 0, 1, 2])
  {
    HashAndSequenceExample();
    assert WriteVarint(9) == [9] by { Widths(); }
    hide EncodeMetadata, WriteVarint;
  }

  /** Type, version, name, length and content, flags, length and metadata, signature. */
  lemma SignedDataExample(signature: bytes)
    requires |signature| == SIGNATURE_BYTES
    ensures var d := Data(NAME, [5, 6, 7], Some(signature), PLAIN.(sequence := Some(258)));
      DataFits(d)
      && EncodeData(d) == [2, 1] + (SENT_NAME + ([0, 0, 0, 3] + ([5, 6, 7] +
        ([3] + (([9] + ([2] + [0, 0, 0, 0, 0, 0, 1, 2])) + signature)))))
  {
    SentNameExample();
    SmallU32(0, 3);
    SequencedBlock();
    hide U32, EncodeName, EncodeMetadata, MetadataBlock, WriteVarint;
  }

  lemma PlainDataExample()
    ensures var d := Data(NAME, [5, 6, 7], None, PLAIN);
      DataFits(d) && EncodeData(d) == [2, 1] + (SENT_NAME + ([0, 0, 0, 3] + ([5, 6, 7] + ([0] + ([] + [])))))
  {
    SentNameExample();
    SmallU32(0, 3);
    assert |EncodeMetadata(PLAIN)| == 1 by { assert EncodeTimes(PLAIN) == []; }
    hide U32, EncodeName, EncodeMetadata, WriteVarint;
  }

  lemma SubscribeExample()
    ensures Sendable(NAME) && EncodeSubscribe(Subscribe(NAME, true)) == [3, 1] + (SENT_NAME + [1])
  {
    SentNameExample();
    hide EncodeName;
  }

  lemma PeerExamples(address: bytes)
    requires |address| == ADDRESS_BYTES
    ensures EncodePropPeer(PropPeer(1, address, true)) == [4, 1] + (address + [1])
    ensures EncodeCapPeer(CapPeer(1, 2, 259)) == [5, 1, 2] + [0, 0, 1, 3]
  {
    SmallU32(1, 3);
    hide U32;
  }

  lemma InvalidateExamples(signature: bytes)
    requires |signature| == SIGNATURE_BYTES
    ensures Sendable(NAME)
    ensures EncodeInvalidate(Invalidate(NAME, 258, true, None)) == [6, 1] +
      (SENT_NAME + ([0, 0, 0, 0, 0, 0, 1, 2] + ([1] + [])))
    ensures EncodeInvalidate(Invalidate(NAME, 258, false, Some(signature))) ==
      [6, 1] + (SENT_NAME + ([0, 0, 0, 0, 0, 0, 1, 2] + ([2] + signature)))
  {
    SentNameExample();
    SmallU64(1, 2);
    hide U64, EncodeName;
  }

  lemma NackExamples()
    ensures Sendable(NAME) && EncodeNack(Nack(NAME, NoRoute)) == [7, 1] + (SENT_NAME + [1])
    ensures EncodeNack(Nack(NAME, Congestion)) == [7, 1] + (SENT_NAME + [2])
    ensures EncodeNack(Nack(NAME, NoData)) == [7, 1] + (SENT_NAME + [3])
  {
    SentNameExample();
    hide EncodeName;
  }

  // ----- what is signed -----

  /** "icn-data" and octet 1, the name, the content, the content hash, and tagged what else is there. */
  lemma DataPreimageExample()
    ensures var d := Data(NAME, [5, 6, 7], None, Metadata(Some(PIN), Some(258), true, 0, None, Some(261), true));
      Signable(d) && DataPreimage(d) == [105, 99, 110, 45, 100, 97, 116, 97, 1] + ([2, 1, 7, 2, 97, 98] +
        ([5, 6, 7] + (PIN
        + (([1] + [0, 0, 0, 0, 0, 0, 1, 2]) + (([2] + [0, 0, 0, 0, 0, 0, 1, 5]) + [3, 1])))))
  {
    NameExample();
    SmallU64(1, 2);
    SmallU64(1, 5);
    hide U64, NameCodec.Encode;
  }

  /** "icn-invalidate" and octet 1, the name, the epoch, the scope. */
  lemma InvalidatePreimageExample()
    ensures InvalidatePreimage(Invalidate(NAME, 258, true, None)) ==
      [105, 99, 110, 45, 105, 110, 118, 97, 108, 105, 100, 97, 116, 101, 1]
      + ([2, 1, 7, 2, 97, 98] + ([0, 0, 0, 0, 0, 0, 1, 2] + [1]))
    ensures InvalidatePreimage(Invalidate(NAME, 258, false, None)) ==
      [105, 99, 110, 45, 105, 110, 118, 97, 108, 105, 100, 97, 116, 101, 1]
      + ([2, 1, 7, 2, 97, 98] + ([0, 0, 0, 0, 0, 0, 1, 2] + [0]))
  {
    NameExample();
    SmallU64(1, 2);
    hide U64, NameCodec.Encode;
  }

  /** Producer, consumer, times, then the prefix and the wrapped key with their lengths; a stored token has
      a flag and the signature behind them, a signed one "icn-capability" and octet 1 in front. */
  lemma CapabilityExample(producer: bytes, consumer: bytes, signature: bytes)
    requires |producer| == |consumer| == ADDRESS_BYTES && |signature| == SIGNATURE_BYTES
    ensures var c := Capability(producer, consumer, Name(producer, [[97, 98]], None), [3, 3], 258, 259,
          Some(signature));
      var name := [2, 16] + producer + [2, 97, 98];
      CapabilityFits(c)
      && EncodeCapability(c) == producer + (consumer + ([0, 0, 0, 0, 0, 0, 1, 2] + ([0, 0, 0, 0, 0, 0, 1, 3]
           + (([0, 21] + name) + (([0, 2] + [3, 3]) + ([1] + signature))))))
      && CapabilityPreimage(c) == [105, 99, 110, 45, 99, 97, 112, 97, 98, 105, 108, 105, 116, 121, 1] +
        (producer + (consumer
           + ([0, 0, 0, 0, 0, 0, 1, 2] + ([0, 0, 0, 0, 0, 0, 1, 3] + (([0, 21] + name) + (([0, 2] + [3, 3]) + []))))))
  {
    var prefix := Name(producer, [[97, 98]], None);
    LongNameExample(producer);
    SmallU64(1, 2);
    SmallU64(1, 3);
    SmallU16(0, 21);
    SmallU16(0, 2);
    hide U64, U16, NameCodec.Encode;
  }

  lemma LongNameExample(producer: bytes)
    requires |producer| == ADDRESS_BYTES
    ensures var n := Name(producer, [[97, 98]], None);
      NameCodec.Encodable(n) && NameCodec.Encode(n) == [2, 16] + producer + [2, 97, 98]
  {
    var n := Name(producer, [[97, 98]], None);
    var cs := n.Components();
    var last: seq<bytes> := [[97, 98]];
    assert cs == [producer] + last && cs[1..] == last && last[1..] == [];
    assert NameCodec.EncodeComponents(last) == [2, 97, 98];
    assert NameCodec.EncodeComponents(cs) == [16] + producer + [2, 97, 98];
  }

  /** The pointer of a collection is its name and the label of octets 0 and "m", its catalogue's label is 0
      and "c"; a pointer's payload is octet 1 and the target's name. */
  lemma DiscoveryExample(producer: bytes)
    requires |producer| == ADDRESS_BYTES
    ensures Access.MetaName(Name(producer, [[97, 98]], None)) == Ok(Name(producer, [[97, 98], [0, 109]], None))
    ensures Access.CatalogName(Name(producer, [[97, 98]], None)) == Ok(Name(producer, [[97, 98], [0, 99]], None))
    ensures NameCodec.Encodable(NAME) && Access.EncodeMeta(NAME) == [1, 2, 1, 7, 2, 97, 98]
  {
    NameExample();
    assert [[97, 98]] + [[0, 109]] == [[97, 98], [0, 109]] && [[97, 98]] + [[0, 99]] == [[97, 98], [0, 99]];
  }
}
