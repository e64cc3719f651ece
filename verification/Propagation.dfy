/** The propagation manager of one server (rns_icn/propagation.py): which faces are peers, and what
    is sent to them.  Its contracts use the functions Replication.dfy builds the network from. */
module Propagation {
  import opened Base
  import opened Names
  import opened Packets
  import opened Fibs
  import opened Replication
  import opened Aps
  import Store
  import Servers
  import ForwardingSafety
  import opened Forwarders
  import F = Forwarding

  const PEER_COST := 20

  /** What is looked up for a face that is no peer. */
  const NO_PRODUCER := Name(seq(16, _ => 0), [], None)

  function SendAll(targets: seq<FaceId>, d: Data): (r: Outgoing)
    ensures |r| == |targets| && forall k :: 0 <= k < |targets| ==> r[k] == (targets[k], d)
  {
    seq(|targets|, k requires 0 <= k < |targets| => (targets[k], d))
  }

  lemma {:induction false} TargetsStep(peers: seq<FaceId>, k: nat, faces: set<FaceId>, exclude: Option<FaceId>)
    requires k < |peers|
    ensures Targets(peers[..k + 1], faces, exclude) == Targets(peers[..k], faces, exclude) +
      if exclude == Some(peers[k]) || peers[k] !in faces then [] else [peers[k]]
  {
    if k == 0 {
      assert peers[..1][1..] == [] && peers[..0] == [];
    } else {
      assert peers[..k + 1][1..] == peers[1..][..k] && peers[..k][1..] == peers[1..][..k - 1];
      TargetsStep(peers[1..], k - 1, faces, exclude);
    }
  }

  class PropagationManager {
    const forwarder: Forwarder
    var peers: seq<FaceId>
    var addresses: map<FaceId, bytes>
    var downstream: set<FaceId>
    var synced: set<Name>
    var sent: Outgoing

    /** `peers` lists the keys of `addresses` in the order they were added; downstream peers are peers. */
    ghost predicate Valid()
      reads this
    {
      && Distinct(peers)
      && (forall f :: f in peers <==> f in addresses)
      && (forall f :: f in downstream ==> f in addresses)
    }

    ghost predicate Ready()
      reads this, forwarder, forwarder.cs, forwarder.pit, forwarder.fib, forwarder.strategy
    {
      Valid() && forwarder.Safe()
    }

    constructor (forwarder: Forwarder)
      ensures Valid() && peers == [] && synced == {} && sent == [] && this.forwarder == forwarder
    {
      this.forwarder := forwarder;
      peers, addresses, downstream, synced, sent := [], map[], {}, {}, [];
    }

    method AddPeer(f: FaceId, addr: bytes)
      requires Valid()
      modifies this`peers, this`addresses
      ensures Valid() && addresses == old(addresses)[f := addr]
      ensures peers == if f in old(addresses) then old(peers) else old(peers) + [f]
    {
      if f !in addresses {
        peers := peers + [f];
      }
      addresses := addresses[f := addr];
    }

    /** The peer is forgotten before its producer name is looked up, so what is struck off the synced
        producers is the name made of sixteen zero octets, not the peer's. */
    method RemovePeer(f: FaceId)
      requires Valid()
      modifies this`peers, this`addresses, this`downstream, this`synced
      ensures Valid() && addresses == old(addresses) - {f} && peers == Remove(old(peers), f)
      ensures downstream == old(downstream) - {f}
      ensures synced == old(synced) - {NO_PRODUCER}
    {
      RemoveKeepsDistinct(peers, f);
      peers := Remove(peers, f);
      addresses := addresses - {f};
      downstream := downstream - {f};
      synced := synced - {ProducerName(f)};
    }

    function ProducerName(f: FaceId): Name
      reads this
    {
      if f in addresses then Name(addresses[f], [], None) else NO_PRODUCER
    }

    method MarkDownstream(f: FaceId)
      requires Valid()
      modifies this`downstream
      ensures Valid() && downstream == old(downstream) + if f in addresses then {f} else {}
    {
      if f in addresses {
        downstream := downstream + {f};
      }
    }

    method MarkUpstream(f: FaceId)
      requires Valid()
      modifies this`downstream
      ensures Valid() && downstream == old(downstream) - {f}
    {
      downstream := downstream - {f};
    }

    /** The bookkeeping at the start of a sync; false where the source raises. */
    method BeginSync(f: FaceId) returns (ok: bool)
      requires Valid()
      modifies this`synced
      ensures Valid() && ok == (f in addresses)
      ensures synced == old(synced) + if ok then {Name(addresses[f], [], None)} else {}
    {
      ok := f in addresses;
      if ok {
        synced := synced + {ProducerName(f)};
      }
    }

    /** `live` are the faces the server still has. */
    method Propagate(d: Data, live: set<FaceId>, exclude: Option<FaceId>) returns (forwarded: nat)
      requires Valid()
      modifies this`sent
      ensures Valid()
      ensures sent == old(sent) + SendAll(Targets(peers, live, exclude), d)
      ensures forwarded == |Targets(peers, live, exclude)|
    {
      forwarded := 0;
      for k := 0 to |peers|
        invariant sent == old(sent) + SendAll(Targets(peers[..k], live, exclude), d)
        invariant forwarded == |Targets(peers[..k], live, exclude)|
      {
        TargetsStep(peers, k, live, exclude);
        if exclude == Some(peers[k]) {
          continue;
        }
        if peers[k] in live {
          sent := sent + [(peers[k], d)];
          forwarded := forwarded + 1;
        }
      }
      assert peers[..|peers|] == peers;
    }

    /** Data from a peer: received, cached, and sent on to every other peer.  Where receiving it
        raises nothing is sent. */
    method HandlePeerData(d: Data, inFace: FaceId, live: set<FaceId>, wall: nat)
      requires Ready()
      modifies this`sent, forwarder`futures, forwarder`notifiers, forwarder.pit, forwarder.cs
      ensures Ready()
      ensures forwarder.View() == F.ReceiveData(forwarder.cfg, old(forwarder.View()), d, true, wall)
      ensures sent == old(sent) +
        if Accepted(old(forwarder.View()), d, true) then SendAll(Targets(peers, live, Some(inFace)), d) else []
    {
      hide F.ReceiveData, Accepted;
      var ok := forwarder.ReceiveData(d, true, wall);
      if ok {
        var forwarded := Propagate(d, live, Some(inFace));
      }
    }

    /** A handshake makes the face a peer and routes the peer's names to it. */
    method HandleHandshake(peer: PropPeer, f: FaceId)
      requires Ready()
      modifies this`peers, this`addresses, forwarder.fib
      ensures Ready() && addresses == old(addresses)[f := peer.address]
      ensures peers == if f in old(addresses) then old(peers) else old(peers) + [f]
      ensures forwarder.View() == F.AddRoute(old(forwarder.View()), Name(peer.address, [], None), f, PEER_COST)
    {
      hide F.AddRoute;
      AddPeer(f, peer.address);
      forwarder.AddRoute(Name(peer.address, [], None), f, PEER_COST);
    }
  }

  lemma StoringKeepsInv(cfg: F.Config, s: F.State, d: Data, wall: nat)
    requires ForwardingSafety.Inv(cfg, s)
    ensures ForwardingSafety.Inv(cfg, s.(rows := Store.Inserted(cfg.store, s.rows, d.name, d, wall)))
  {
    hide Store.Inserted, ForwardingSafety.PitOk, ForwardingSafety.WaitersOk, ForwardingSafety.TasksOk,
      ForwardingSafety.RefreshOk, ForwardingSafety.TablesOk;
    ForwardingSafety.TablesAfterInsert(cfg, s.rows, s.routes, d, wall);
  }

  /** The publishing side of a server (rns_icn/server.py:437-449). */
  class Publisher {
    const own: bytes
    const sign: Option<Data -> bytes>
    const aps: APSManager
    const propagation: PropagationManager

    constructor (own: bytes, sign: Option<Data -> bytes>, aps: APSManager, propagation: PropagationManager)
      ensures this.own == own && this.sign == sign && this.aps == aps && this.propagation == propagation
    {
      this.own, this.sign, this.aps, this.propagation := own, sign, aps, propagation;
    }

    /** Signs, stores, pushes to subscribers, and propagates to peers.  Where storing raises, nothing
        is sent. */
    method PublishPushed(d: Data, live: set<FaceId>, wall: nat) returns (published: Data, ok: bool)
      requires aps.Valid() && propagation.Ready()
      modifies aps`sent, propagation`sent, propagation.forwarder.cs
      ensures aps.Valid() && propagation.Ready()
      ensures Some(published) == Servers.MaybeSign(own, sign, Some(d), wall) && ok == Store.Storable(published)
      ensures var f := propagation.forwarder;
        f.View() == old(f.View()).(rows :=
          if ok then Store.Inserted(f.cfg.store, old(f.View()).rows, published.name, published, wall)
            else old(f.View()).rows)
      ensures |aps.sent| >= |old(aps.sent)| && aps.sent[..|old(aps.sent)|] == old(aps.sent)
      ensures ok ==>
        SentToEach(aps.sent[|old(aps.sent)|..], SubscriberFaces(aps.subscriptions, published.name) * live, published)
      ensures ok ==>
        propagation.sent == old(propagation.sent) + SendAll(Targets(propagation.peers, live, None), published)
      ensures !ok ==> aps.sent == old(aps.sent) && propagation.sent == old(propagation.sent)
    {
      hide Store.Inserted, Targets, SubscriberFaces, SentToEach, ForwardingSafety.Inv;
      published := Servers.MaybeSign(own, sign, Some(d), wall).value;
      var forwarder := propagation.forwarder;
      StoringKeepsInv(forwarder.cfg, forwarder.View(), published, wall);
      assert published.(name := published.name) == published;
      ok := forwarder.cs.Insert(published.name, published, wall);
      if ok {
        var count, offline := aps.Publish(published, live);
        var forwarded := propagation.Propagate(published, live, None);
      }
    }
  }
}
