/** The packets that travel between nodes (rns_icn/packet.py), as plain values. */
module Packets {
  import opened Base
  import opened Names

  datatype ChildSelector = AnyChild | Latest | Oldest

  datatype Selector = Selector(minSequence: Option<nat>, child: ChildSelector) {
    predicate IsEmpty() { minSequence == None && child == AnyChild }
  }

  datatype Interest = Interest(
    name: Name,
    nonce: bytes,
    lifetime: nat,
    canBePrefix: bool,
    mustBeFresh: bool,
    selector: Option<Selector>,
    hopLimit: nat)
  {
    function Child(): ChildSelector {
      if selector.Some? then selector.value.child else AnyChild
    }

    function Floor(): Option<nat> {
      if selector.Some? then selector.value.minSequence else None
    }
  }

  datatype Metadata = Metadata(
    contentHash: Option<bytes>,
    sequence: Option<nat>,
    isFresh: bool,
    age: nat,
    freshnessPeriod: Option<nat>,
    signedAt: Option<nat>,
    encrypted: bool)

  const DEFAULT_METADATA := Metadata(None, None, true, 0, None, None, false)

  datatype Data = Data(name: Name, content: bytes, signature: Option<bytes>, metadata: Metadata)

  /** Signing stamps the time of signing, unless the Data already bears one, and then signs. */
  function Signed(d: Data, sign: Data -> bytes, wall: nat): Data {
    var m := d.metadata;
    var stamped := d.(metadata := if m.signedAt == None then m.(signedAt := Some(wall)) else m);
    stamped.(signature := Some(sign(stamped)))
  }

  datatype Invalidate = Invalidate(name: Name, epoch: nat, isPrefix: bool, signature: Option<bytes>)

  datatype Subscribe = Subscribe(name: Name, startFromNow: bool)

  datatype PropPeer = PropPeer(version: nat, address: bytes, wantsSync: bool)

  datatype CapPeer = CapPeer(version: nat, role: nat, features: nat)

  datatype NackReason = NoRoute | Congestion | NoData

  datatype Nack = Nack(name: Name, reason: NackReason)

  datatype Packet =
    | InterestPacket(interest: Interest)
    | DataPacket(data: Data)
    | SubscribePacket(subscribe: Subscribe)
    | PropPeerPacket(peer: PropPeer)
    | CapPeerPacket(cap: CapPeer)
    | InvalidatePacket(invalidate: Invalidate)
    | NackPacket(nack: Nack)

  /** Names ending in a label that starts with octet 0 are discovery objects, not editions
      (rns_icn/discovery.py). */
  predicate IsReserved(n: Name) {
    var last := if n.path == [] then n.addr else n.path[|n.path| - 1];
    |last| > 0 && last[0] == 0
  }
}
