/** The parts of a content server that answer from its store and handle cache invalidations
    (rns_icn/server.py).  A face is its log of what was sent on it. */
module Servers {
  import opened Base
  import opened Names
  import opened Packets
  import Store
  import opened ContentStores
  import opened Fibs
  import NameCodec
  import opened Signing

  // ----- answering from the store -----

  /** Signs Data of our own that carries no signature yet. */
  function MaybeSign(own: bytes, sign: Option<Data -> bytes>, d: Option<Data>, wall: nat): Option<Data> {
    if d.Some? && sign.Some? && d.value.signature == None && d.value.name.addr == own
    then Some(Signed(d.value, sign.value, wall))
    else d
  }

  /** The floor rule: on a walk upwards a cache answers only from exactly on the floor, since only
      the producer knows what lies in a gap. */
  predicate MayVouch(own: bytes, i: Interest, d: Data) {
    i.Child() != Oldest || i.Floor().None? || d.metadata.sequence == i.Floor() || i.name.addr == own
  }

  function CsLookup(cfg: Store.Config, own: bytes, sign: Option<Data -> bytes>, rows: Store.Rows, i: Interest,
      wall: nat): Option<Data> {
    if i.canBePrefix then
      var hit := MaybeSign(own, sign, Store.GetPrefix(cfg, rows, i.name, i.Child(), i.Floor(), wall), wall);
      if hit.Some? && !MayVouch(own, i, hit.value) then None else hit
    else MaybeSign(own, sign, Store.Get(cfg, rows, i.name, wall), wall)
  }

  /** A stale hit does not answer an Interest that must be fresh, except at the producer. */
  function ServeFromCs(cfg: Store.Config, own: bytes, sign: Option<Data -> bytes>, rows: Store.Rows, i: Interest,
      wall: nat): Option<Data> {
    var hit := CsLookup(cfg, own, sign, rows, i, wall);
    if hit.Some? && i.mustBeFresh && !hit.value.metadata.isFresh && i.name.addr != own then None else hit
  }

  /** What own Data that is not signed yet goes out as, if there is a signer: stamped with this time unless
      it bears one, and signed as stamped; any other Data goes out as it is. */
  predicate IsOutgoing(own: bytes, sign: Option<Data -> bytes>, d: Data, r: Data, wall: nat) {
    && r.name == d.name && r.content == d.content && r.metadata == d.metadata.(signedAt := r.metadata.signedAt)
    && if sign.Some? && d.signature.None? && d.name.addr == own then
         && r.metadata.signedAt == (if d.metadata.signedAt.Some? then d.metadata.signedAt else Some(wall))
         && r.signature == Some(sign.value(r.(signature := None)))
       else r == d
  }

  lemma SignedMeans(own: bytes, sign: Option<Data -> bytes>, d: Data, wall: nat)
    ensures MaybeSign(own, sign, Some(d), wall).Some?
      && IsOutgoing(own, sign, d, MaybeSign(own, sign, Some(d), wall).value, wall)
    ensures MaybeSign(own, sign, None, wall) == None
  {
    if sign.Some? && d.signature == None && d.name.addr == own {
      var r := Signed(d, sign.value, wall);
      assert r.(signature := None) == d.(metadata := r.metadata);
    }
  }

  /** What a server answers an Interest with from its store: what the store finds, signed if it is its own,
      unless it is not the producer asked and either the Interest walks a sequence and this is not exactly
      on the floor, or it must be fresh and this is stale. */
  lemma ServedMeans(cfg: Store.Config, own: bytes, sign: Option<Data -> bytes>, rows: Store.Rows, i: Interest,
      wall: nat)
    ensures var child := if i.selector.Some? then i.selector.value.child else AnyChild;
      var floor := if i.selector.Some? then i.selector.value.minSequence else None;
      var found := if i.canBePrefix then Store.GetPrefix(cfg, rows, i.name, child, floor, wall)
                   else Store.Get(cfg, rows, i.name, wall);
      var served := ServeFromCs(cfg, own, sign, rows, i, wall);
      && (served.Some? <==>
            && found.Some?
            && (i.name.addr != own && i.canBePrefix && child == Oldest && floor.Some? ==>
                  found.value.metadata.sequence == floor)
            && (i.name.addr != own && i.mustBeFresh ==> found.value.metadata.isFresh))
      && (served.Some? ==> IsOutgoing(own, sign, found.value, served.value, wall))
  {
    hide Store.Get, Store.GetPrefix, IsOutgoing;
    var found := if i.canBePrefix then Store.GetPrefix(cfg, rows, i.name, i.Child(), i.Floor(), wall)
                 else Store.Get(cfg, rows, i.name, wall);
    if found.Some? {
      SignedMeans(own, sign, found.value, wall);
      OutgoingKeeps(own, sign, found.value, MaybeSign(own, sign, found, wall).value, wall);
    }
  }

  lemma OutgoingKeeps(own: bytes, sign: Option<Data -> bytes>, d: Data, r: Data, wall: nat)
    requires IsOutgoing(own, sign, d, r, wall)
    ensures r.metadata.sequence == d.metadata.sequence && r.metadata.isFresh == d.metadata.isFresh
  {
  }

  // ----- invalidation -----

  /** The key an invalidation is recorded under: the digest of its name's wire form. */
  function DigestKey(hash: bytes -> bytes, n: Name): bytes
    requires NameCodec.Encodable(n)
  {
    hash(NameCodec.Encode(n))
  }

  /** Under a hash without collisions every name has a record of its own. */
  lemma DigestKeySeparatesNames(hash: bytes -> bytes, a: Name, b: Name)
    requires Injective(hash) && NameCodec.Encodable(a) && NameCodec.Encodable(b)
    ensures DigestKey(hash, a) == DigestKey(hash, b) <==> a == b
  {
    if DigestKey(hash, a) == DigestKey(hash, b) {
      NameCodec.EncodingIsInjective(a, b);
    }
  }

  /** Names an invalidation removes.  A pinned prefix matches no stored prefix. */
  predicate Covers(inv: Invalidate, n: Name) {
    if inv.isPrefix then inv.name.pin == None && n.StartsWith(inv.name) else n == inv.name
  }

  function Purge(rows: Store.Rows, inv: Invalidate): (r: Store.Rows)
    ensures forall x :: x in r <==> x in rows && !Covers(inv, x.name)
  {
    Store.Without(rows, if inv.isPrefix then NamesUnder(rows, inv.name) else {inv.name})
  }

  /** It leaves exactly the rows under another name than an exact invalidation's, or not under a prefix
      invalidation's name, which must be unpinned to name anything. */
  lemma PurgeMeans(rows: Store.Rows, inv: Invalidate, r: Store.Row)
    ensures r in Purge(rows, inv) <==>
      && r in rows
      && (!inv.isPrefix ==> r.name != inv.name)
      && (inv.isPrefix && inv.name.pin == None ==> !(inv.name.Components() <= r.name.Components()))
  {
    StartsWithIsComponentPrefix(r.name, inv.name);
  }

  type Seen = map<bytes, nat>

  predicate IsNewer(seen: Seen, k: bytes, epoch: nat) {
    k !in seen || epoch > seen[k]
  }

  function Recorded(seen: Seen, k: bytes, epoch: nat): Seen {
    if IsNewer(seen, k, epoch) then seen[k := epoch] else seen
  }

  datatype Node = Node(seen: Seen, rows: Store.Rows)

  datatype Send = Send(face: FaceId, inv: Invalidate)

  function SendOn(faces: seq<FaceId>, inv: Invalidate): (r: seq<Send>)
    ensures |r| == |faces| && forall k :: 0 <= k < |faces| ==> r[k] == Send(faces[k], inv)
  {
    seq(|faces|, k requires 0 <= k < |faces| => Send(faces[k], inv))
  }

  /** Receiving an invalidation: dropped unless it verifies and is newer than anything recorded
      under its key; otherwise recorded, applied, and passed on to every other face. */
  function Handle(key: Name -> bytes, accepts: bool, node: Node, faces: seq<FaceId>, inv: Invalidate,
      arrival: FaceId): (Node, seq<Send>) {
    if !accepts || !IsNewer(node.seen, key(inv.name), inv.epoch) then (node, [])
    else
      (Node(node.seen[key(inv.name) := inv.epoch], Purge(node.rows, inv)),
       SendOn(Remove(faces, arrival), inv))
  }

  /** Originating one: the store is purged and every face told, newer or not. */
  function Originate(key: Name -> bytes, node: Node, faces: seq<FaceId>, inv: Invalidate): (Node, seq<Send>) {
    (Node(Recorded(node.seen, key(inv.name), inv.epoch), Purge(node.rows, inv)), SendOn(faces, inv))
  }

  lemma {:induction false} RemovePrefixStep(faces: seq<FaceId>, k: nat, x: FaceId)
    requires k < |faces|
    ensures Remove(faces[..k + 1], x) == Remove(faces[..k], x) + if faces[k] == x then [] else [faces[k]]
  {
    if k == 0 {
      assert faces[..1][1..] == [] && faces[..0] == [];
    } else {
      assert faces[..k + 1][1..] == faces[1..][..k] && faces[..k][1..] == faces[1..][..k - 1];
      RemovePrefixStep(faces[1..], k - 1, x);
    }
  }

  class ICNServer {
    const own: bytes
    const key: Name -> bytes
    const signData: Option<Data -> bytes>
    const signInvalidate: Option<Invalidate -> bytes>
    const verifier: Option<Invalidate -> bool>
    const cs: ContentStore
    var faces: seq<FaceId>
    var nextFace: FaceId
    var seen: Seen
    var sent: seq<Send>

    ghost predicate Valid()
      reads this, cs
    {
      cs.Valid() && Distinct(faces) && forall f :: f in faces ==> f < nextFace
    }

    ghost function View(): Node
      reads this, cs
    {
      Node(seen, cs.content)
    }

    constructor (own: bytes, key: Name -> bytes, signData: Option<Data -> bytes>,
        signInvalidate: Option<Invalidate -> bytes>, verifier: Option<Invalidate -> bool>, hash: bytes -> bytes,
        ttl: Name -> Option<int>, csMax: int)
      ensures Valid() && View() == Node(map[], []) && faces == [] && sent == [] && fresh(cs)
      ensures this.own == own && this.key == key && this.signData == signData
      ensures this.signInvalidate == signInvalidate && this.verifier == verifier
      ensures cs.cfg == Store.Config(hash, ttl, Max(1, csMax))
    {
      this.own, this.key, this.signData, this.signInvalidate, this.verifier :=
        own, key, signData, signInvalidate, verifier;
      cs := new ContentStore(hash, ttl, csMax);
      faces, nextFace, seen, sent := [], 100, map[], [];
    }

    /** Face ids are never reused. */
    method NewFace() returns (f: FaceId)
      requires Valid()
      modifies this`faces, this`nextFace
      ensures Valid() && faces == old(faces) + [f] && f !in old(faces) && nextFace == f + 1
    {
      f := nextFace;
      assert f !in faces;
      nextFace := nextFace + 1;
      faces := faces + [f];
    }

    method Lookup(i: Interest, wall: nat) returns (hit: Option<Data>)
      requires Valid()
      modifies cs
      ensures Valid() && cs.content == Store.Live(old(cs.content), wall)
      ensures hit == CsLookup(cs.cfg, own, signData, old(cs.content), i, wall)
    {
      hide Store.GetPrefix, Store.Get, Store.Live;
      if i.canBePrefix {
        hit := cs.FetchPrefix(i.name, i.Child(), i.Floor(), wall);
        hit := MaybeSign(own, signData, hit, wall);
        if hit.Some? && i.Child() == Oldest && i.Floor().Some? && hit.value.metadata.sequence != i.Floor()
          && i.name.addr != own {
          hit := None;
        }
      } else {
        hit := cs.Fetch(i.name, wall);
        hit := MaybeSign(own, signData, hit, wall);
      }
    }

    method Serve(i: Interest, wall: nat) returns (d: Option<Data>)
      requires Valid()
      modifies cs
      ensures Valid() && cs.content == Store.Live(old(cs.content), wall)
      ensures d == ServeFromCs(cs.cfg, own, signData, old(cs.content), i, wall)
    {
      hide CsLookup, Store.Live;
      d := Lookup(i, wall);
      if d.Some? && i.mustBeFresh && !d.value.metadata.isFresh && i.name.addr != own {
        d := None;
      }
    }

    /** The replay and loop guard. */
    method IsFresh(inv: Invalidate) returns (isNew: bool)
      requires Valid()
      modifies this`seen
      ensures Valid() && seen == Recorded(old(seen), key(inv.name), inv.epoch)
      ensures isNew <==> IsNewer(old(seen), key(inv.name), inv.epoch)
    {
      var k := key(inv.name);
      if k in seen && inv.epoch <= seen[k] {
        return false;
      }
      seen := seen[k := inv.epoch];
      return true;
    }

    method HandleInvalidate(inv: Invalidate, arrival: FaceId)
      requires Valid()
      modifies this`seen, this`sent, cs
      ensures Valid()
      ensures var accepts := verifier.Some? && verifier.value(inv);
        (View(), sent) == (var r := Handle(key, accepts, old(View()), faces, inv, arrival); (r.0, old(sent) + r.1))
    {
      hide Store.Without, PrefixIndex, Store.ValidRows, NamesUnder;
      assert sent == sent + [];
      if verifier.None? || !verifier.value(inv) {
        return;
      }
      var isNew := IsFresh(inv);
      if !isNew {
        return;
      }
      var removed := cs.Invalidate(inv.name, inv.isPrefix);
      for k := 0 to |faces|
        invariant Valid() && faces == old(faces)
        invariant View() == Node(old(seen)[key(inv.name) := inv.epoch], Purge(old(cs.content), inv))
        invariant sent == old(sent) + SendOn(Remove(faces[..k], arrival), inv)
      {
        RemovePrefixStep(faces, k, arrival);
        if faces[k] == arrival {
          continue;
        }
        sent := sent + [Send(faces[k], inv)];
      }
      assert faces[..|faces|] == faces;
    }

    /** Raises, here returns none, without a signer. */
    method Invalidate(name: Name, isPrefix: bool, epoch: nat) returns (issued: Option<Invalidate>)
      requires Valid()
      modifies this`seen, this`sent, cs
      ensures Valid()
      ensures issued.None? <==> signInvalidate.None?
      ensures issued.None? ==> View() == old(View()) && sent == old(sent)
      ensures issued.Some? ==>
        && issued.value.name == name && issued.value.epoch == epoch && issued.value.isPrefix == isPrefix
        && (View(), sent) == (var r := Originate(key, old(View()), faces, issued.value); (r.0, old(sent) + r.1))
    {
      hide Store.Without, PrefixIndex, Store.ValidRows, NamesUnder;
      if signInvalidate.None? {
        return None;
      }
      var inv := Packets.Invalidate(name, epoch, isPrefix, None);
      inv := inv.(signature := Some(signInvalidate.value(inv)));
      var isNew := IsFresh(inv);
      var removed := cs.Invalidate(name, isPrefix);
      for k := 0 to |faces|
        invariant Valid() && faces == old(faces)
        invariant View() == Node(Recorded(old(seen), key(name), epoch), Purge(old(cs.content), inv))
        invariant sent == old(sent) + SendOn(faces[..k], inv)
      {
        sent := sent + [Send(faces[k], inv)];
      }
      assert faces[..|faces|] == faces;
      return Some(inv);
    }
  }
}
