/** The invalidation flood over a network of servers (rns_icn/server.py:364-409).  Links are
    reliable but may deliver in any order; the graph may have cycles.  The replay guard alone makes
    the flood stop, and when it has stopped every connected server that verifies the invalidation
    has recorded the newest one and dropped what it covers. */
module Flood {
  import opened Base
  import opened Names
  import opened Packets
  import Store
  import opened Fibs
  import opened Servers

  /** Each server's faces, and the face at the other end of each link. */
  datatype Topology = Topology(faces: seq<seq<FaceId>>, peers: map<(nat, FaceId), (nat, FaceId)>) {
    ghost predicate Valid() {
      forall e :: e in peers ==>
        e.0 < |faces| && e.1 in faces[e.0] && peers[e] in peers && peers[peers[e]] == e
    }
  }

  /** An invalidation on its way to `node`, where it will arrive on `face`. */
  datatype Message = Message(node: nat, face: FaceId, inv: Invalidate)

  /** `origins` remembers who originated what. */
  datatype Net = Net(nodes: seq<Node>, inFlight: multiset<Message>, origins: set<(nat, Invalidate)>)

  /** What every server shares (the key an invalidation is recorded under), and which invalidations
      each one verifies. */
  datatype Setup = Setup(topo: Topology, key: Name -> bytes, accepts: (nat, Invalidate) -> bool) {
    function Key(inv: Invalidate): bytes { key(inv.name) }
  }

  /** Besides, a server's store may change in any other way: Data stored, evicted, expired. */
  datatype Event = Issue(node: nat, inv: Invalidate) | Deliver(message: Message) | Change(node: nat, rows: Store.Rows)

  function Carried(topo: Topology, u: nat, sends: seq<Send>): (r: multiset<Message>)
    ensures |r| <= |sends|
  {
    if sends == [] then multiset{}
    else if (u, sends[0].face) in topo.peers then
      var far := topo.peers[(u, sends[0].face)];
      multiset{Message(far.0, far.1, sends[0].inv)} + Carried(topo, u, sends[1..])
    else Carried(topo, u, sends[1..])
  }

  predicate Enabled(su: Setup, net: Net, e: Event) {
    match e
    case Issue(u, _) => u < |net.nodes|
    case Deliver(m) => m in net.inFlight && m.node < |net.nodes|
    case Change(u, _) => u < |net.nodes|
  }

  function FacesOf(topo: Topology, u: nat): seq<FaceId> {
    if u < |topo.faces| then topo.faces[u] else []
  }

  function Step(su: Setup, net: Net, e: Event): Net
    requires Enabled(su, net, e)
  {
    match e
    case Issue(u, inv) =>
      var r := Originate(su.key, net.nodes[u], FacesOf(su.topo, u), inv);
      Net(net.nodes[u := r.0], net.inFlight + Carried(su.topo, u, r.1), net.origins + {(u, inv)})
    case Deliver(m) =>
      var r := Handle(su.key, su.accepts(m.node, m.inv), net.nodes[m.node], FacesOf(su.topo, m.node), m.inv, m.face);
      Net(net.nodes[m.node := r.0], net.inFlight - multiset{m} + Carried(su.topo, m.node, r.1), net.origins)
    case Change(u, rows) => net.(nodes := net.nodes[u := net.nodes[u].(rows := rows)])
  }

  ghost predicate IsRun(su: Setup, nets: seq<Net>, events: seq<Event>) {
    && |nets| == |events| + 1
    && forall i :: 0 <= i < |events| ==> Enabled(su, nets[i], events[i]) && nets[i + 1] == Step(su, nets[i], events[i])
  }

  /** Before anything was originated. */
  ghost predicate Idle(su: Setup, net: Net) {
    && |net.nodes| == |su.topo.faces| && net.inFlight == multiset{} && net.origins == {}
    && forall u :: 0 <= u < |net.nodes| ==> net.nodes[u].seen == map[]
  }

  lemma {:induction false} CarriedIs(topo: Topology, u: nat, sends: seq<Send>, m: Message)
    ensures m in Carried(topo, u, sends) <==> exists s :: s in sends && IsCarriedAs(topo, u, s, m)
  {
    if sends != [] {
      CarriedIs(topo, u, sends[1..], m);
      assert sends == [sends[0]] + sends[1..];
      if IsCarriedAs(topo, u, sends[0], m) {
        assert sends[0] in sends;
      }
    }
  }

  predicate IsCarriedAs(topo: Topology, u: nat, s: Send, m: Message) {
    (u, s.face) in topo.peers && m == Message(topo.peers[(u, s.face)].0, topo.peers[(u, s.face)].1, s.inv)
  }

  // ----- termination -----

  type Pool = set<(bytes, nat)>

  /** Keys and epochs that are still news to a server. */
  function News(node: Node, pool: Pool): (r: Pool) {
    set p | p in pool && IsNewer(node.seen, p.0, p.1)
  }

  function AllNews(nodes: seq<Node>, pool: Pool): nat {
    if nodes == [] then 0 else AllNews(nodes[..|nodes| - 1], pool) + |News(nodes[|nodes| - 1], pool)|
  }

  function PoolOf(su: Setup, net: Net): Pool {
    set o | o in net.origins :: (su.Key(o.1), o.1.epoch)
  }

  lemma {:induction false} AllNewsUpdate(nodes: seq<Node>, pool: Pool, u: nat, node: Node)
    requires u < |nodes|
    ensures AllNews(nodes[u := node], pool) + |News(nodes[u], pool)| == AllNews(nodes, pool) + |News(node, pool)|
  {
    var last := |nodes| - 1;
    if u == last {
      assert nodes[u := node][..last] == nodes[..last];
    } else {
      assert nodes[u := node][..last] == nodes[..last][u := node];
      AllNewsUpdate(nodes[..last], pool, u, node);
    }
  }

  /** Recording something new makes it, and everything older under its key, old news. */
  lemma RecordingIsProgress(node: Node, node': Node, pool: Pool, k: bytes, epoch: nat)
    requires (k, epoch) in pool && IsNewer(node.seen, k, epoch) && node'.seen == node.seen[k := epoch]
    ensures |News(node', pool)| < |News(node, pool)|
  {
    var before, after := News(node, pool), News(node', pool);
    assert (k, epoch) in before && (k, epoch) !in after;
    assert after <= before - {(k, epoch)};
    SubsetSize(after, before - {(k, epoch)});
  }

  function Measure(su: Setup, net: Net, d: nat): nat {
    AllNews(net.nodes, PoolOf(su, net)) * d + |net.inFlight|
  }

  lemma {:induction false} RemoveShrinks(faces: seq<FaceId>, x: FaceId)
    ensures |Remove(faces, x)| <= |faces|
  {
    if faces != [] {
      RemoveShrinks(faces[1..], x);
    }
  }

  /** Every delivery uses something up: news at a server, or else a message. */
  lemma DeliveryIsProgress(su: Setup, net: Net, m: Message, d: nat)
    requires Enabled(su, net, Deliver(m)) && Sourced(net)
    requires forall u :: |FacesOf(su.topo, u)| <= d
    ensures Measure(su, Step(su, net, Deliver(m)), d) < Measure(su, net, d)
  {
    hide News, AllNews, Purge, Carried, Remove;
    var node := net.nodes[m.node];
    var r := Handle(su.key, su.accepts(m.node, m.inv), node, FacesOf(su.topo, m.node), m.inv, m.face);
    var net' := Step(su, net, Deliver(m));
    assert PoolOf(su, net') == PoolOf(su, net);
    var pool := PoolOf(su, net);
    AllNewsUpdate(net.nodes, pool, m.node, r.0);
    if su.accepts(m.node, m.inv) && IsNewer(node.seen, su.Key(m.inv), m.inv.epoch) {
      var o :| o in net.origins && o.1 == m.inv;
      assert (su.Key(m.inv), m.inv.epoch) in pool;
      RecordingIsProgress(node, r.0, pool, su.Key(m.inv), m.inv.epoch);
      RemoveShrinks(FacesOf(su.topo, m.node), m.face);
      assert AllNews(net'.nodes, pool) + 1 <= AllNews(net.nodes, pool);
      Scale(AllNews(net'.nodes, pool), AllNews(net.nodes, pool), d);
    }
  }

  lemma Scale(a: nat, b: nat, d: nat)
    requires a + 1 <= b
    ensures a * d + d <= b * d
  {
    assert a * d + d == (a + 1) * d;
  }

  /** Everything in flight was originated by someone. */
  ghost predicate Sourced(net: Net) {
    forall m :: m in net.inFlight ==> exists o :: o in net.origins && o.1 == m.inv
  }

  function Deliveries(events: seq<Event>): nat {
    if events == [] then 0 else (if events[0].Deliver? then 1 else 0) + Deliveries(events[1..])
  }

  /** On any finite graph, with cycles or without, the flood ends: however messages are ordered,
      once nothing new is originated at most `Measure` more deliveries can happen. */
  lemma {:induction false} FloodTerminates(su: Setup, nets: seq<Net>, events: seq<Event>, d: nat)
    requires IsRun(su, nets, events) && Sourced(nets[0])
    requires forall e :: e in events ==> !e.Issue?
    requires forall u :: |FacesOf(su.topo, u)| <= d
    ensures Deliveries(events) + Measure(su, nets[|events|], d) <= Measure(su, nets[0], d)
    decreases |events|
  {
    hide Measure, Step;
    if events != [] {
      assert events[0] in events;
      if events[0].Deliver? {
        DeliveryIsProgress(su, nets[0], events[0].message, d);
      } else {
        ChangeIsNeutral(su, nets[0], events[0], d);
      }
      StepKeepsSourced(su, nets[0], events[0]);
      assert forall e :: e in events[1..] ==> e in events;
      FloodTerminates(su, nets[1..], events[1..], d);
    }
  }

  lemma ChangeIsNeutral(su: Setup, net: Net, e: Event, d: nat)
    requires Enabled(su, net, e) && e.Change?
    ensures Measure(su, Step(su, net, e), d) == Measure(su, net, d)
  {
    hide AllNews;
    AllNewsUpdate(net.nodes, PoolOf(su, net), e.node, Step(su, net, e).nodes[e.node]);
  }

  lemma StepKeepsSourced(su: Setup, net: Net, e: Event)
    requires Enabled(su, net, e) && Sourced(net)
    ensures Sourced(Step(su, net, e))
  {
    hide Purge, Carried;
    var net' := Step(su, net, e);
    forall m | m in net'.inFlight ensures exists o :: o in net'.origins && o.1 == m.inv {
      if m in net.inFlight {
        var o :| o in net.origins && o.1 == m.inv;
        assert o in net'.origins;
      } else if e.Issue? {
        var sends := Originate(su.key, net.nodes[e.node], FacesOf(su.topo, e.node), e.inv).1;
        CarriedIs(su.topo, e.node, sends, m);
        assert (e.node, e.inv) in net'.origins;
      } else if e.Deliver? {
        var x := e.message;
        var sends :=
          Handle(su.key, su.accepts(x.node, x.inv), net.nodes[x.node], FacesOf(su.topo, x.node), x.inv, x.face).1;
        CarriedIs(su.topo, x.node, sends, m);
        var o :| o in net.origins && o.1 == x.inv;
        assert o in net'.origins;
      }
    }
  }

  /** The measure in plain numbers: servers times distinct invalidations times faces, and what is
      in flight already. */
  lemma {:induction false} MeasureIsFinite(nodes: seq<Node>, pool: Pool)
    ensures AllNews(nodes, pool) <= |nodes| * |pool|
  {
    if nodes != [] {
      MeasureIsFinite(nodes[..|nodes| - 1], pool);
      SubsetSize(News(nodes[|nodes| - 1], pool), pool);
      assert (|nodes| - 1) * |pool| + |pool| == |nodes| * |pool|;
    }
  }

  // ----- convergence -----

  predicate AtLeast(seen: Seen, k: bytes, epoch: nat) {
    k in seen && epoch <= seen[k]
  }

  /** Every invalidation under key `k` so far is one that each server in `vs` verifies. */
  ghost predicate VerifiedBy(su: Setup, net: Net, k: bytes, vs: set<nat>) {
    forall o, v :: o in net.origins && su.Key(o.1) == k && v in vs ==> su.accepts(v, o.1)
  }

  /** A message comes over a link from a server that had recorded it. */
  ghost predicate SentByRecorder(su: Setup, net: Net, m: Message) {
    && (m.node, m.face) in su.topo.peers
    && var w := su.topo.peers[(m.node, m.face)].0;
    w < |net.nodes| && AtLeast(net.nodes[w].seen, su.Key(m.inv), m.inv.epoch)
  }

  /** What one end of a link has recorded, the other has too, or is being told. */
  ghost predicate Informed(su: Setup, net: Net, k: bytes, u: nat, v: nat)
    requires u < |net.nodes| && v < |net.nodes|
  {
    k in net.nodes[u].seen ==>
      AtLeast(net.nodes[v].seen, k, net.nodes[u].seen[k]) || Coming(su, net.inFlight, k, v, net.nodes[u].seen[k])
  }

  ghost predicate Coming(su: Setup, inFlight: multiset<Message>, k: bytes, v: nat, epoch: nat) {
    exists m :: m in inFlight && m.node == v && su.Key(m.inv) == k && m.inv.epoch >= epoch
  }

  predicate Linked(topo: Topology, u: nat, v: nat) {
    exists e :: e in topo.peers && e.0 == u && topo.peers[e].0 == v
  }

  ghost predicate LinksInformed(su: Setup, net: Net, k: bytes, vs: set<nat>) {
    forall u: nat, v: nat ::
      u < |net.nodes| && v < |net.nodes| && v in vs && Linked(su.topo, u, v) ==> Informed(su, net, k, u, v)
  }

  ghost predicate OriginsRecorded(su: Setup, net: Net) {
    forall o :: o in net.origins ==> o.0 < |net.nodes| && AtLeast(net.nodes[o.0].seen, su.Key(o.1), o.1.epoch)
  }

  /** What a server has recorded was originated by someone. */
  ghost predicate Explained(su: Setup, net: Net, v: nat, k: bytes)
    requires v < |net.nodes|
  {
    k in net.nodes[v].seen ==>
      exists o :: o in net.origins && su.Key(o.1) == k && o.1.epoch == net.nodes[v].seen[k]
  }

  ghost predicate Purged(rows: Store.Rows, inv: Invalidate) {
    forall r :: r in rows ==> !Covers(inv, r.name)
  }

  ghost predicate FloodInv(su: Setup, net: Net, k: bytes, vs: set<nat>) {
    && |net.nodes| == |su.topo.faces|
    && Sourced(net)
    && (forall m :: m in net.inFlight ==> SentByRecorder(su, net, m))
    && LinksInformed(su, net, k, vs)
    && OriginsRecorded(su, net)
    && (forall v :: 0 <= v < |net.nodes| ==> Explained(su, net, v, k))
  }

  // what a server's step does to it, whichever step it is: `inv` is recorded and told to all faces but `except`
  ghost predicate Records(su: Setup, node: Node, node': Node, sends: seq<Send>, faces: seq<FaceId>,
      inv: Invalidate, except: Option<FaceId>) {
    && AtLeast(node'.seen, su.Key(inv), inv.epoch)
    && (node'.seen == node.seen
        || (IsNewer(node.seen, su.Key(inv), inv.epoch) && node'.seen == node.seen[su.Key(inv) := inv.epoch]))
    && node'.rows == Purge(node.rows, inv)
    && (forall s :: s in sends ==> s.inv == inv)
    && (forall f :: f in faces && except != Some(f) ==> Send(f, inv) in sends)
  }

  lemma OriginateRecords(su: Setup, node: Node, faces: seq<FaceId>, inv: Invalidate)
    ensures var r := Originate(su.key, node, faces, inv); Records(su, node, r.0, r.1, faces, inv, None)
  {
    var r := Originate(su.key, node, faces, inv);
    forall f | f in faces ensures Send(f, inv) in r.1 {
      var k :| 0 <= k < |faces| && faces[k] == f;
      assert r.1[k] == Send(f, inv);
    }
  }

  lemma HandleRecords(su: Setup, node: Node, faces: seq<FaceId>, inv: Invalidate, arrival: FaceId)
    requires IsNewer(node.seen, su.Key(inv), inv.epoch)
    ensures var r := Handle(su.key, true, node, faces, inv, arrival);
      Records(su, node, r.0, r.1, faces, inv, Some(arrival))
  {
    var r := Handle(su.key, true, node, faces, inv, arrival);
    forall f | f in faces && f != arrival ensures Send(f, inv) in r.1 {
      var others := Remove(faces, arrival);
      assert f in others;
      var k :| 0 <= k < |others| && others[k] == f;
      assert r.1[k] == Send(f, inv);
    }
  }

  /** Server `u` records `inv`: the common shape of originating and of accepting. */
  ghost predicate RecordStep(su: Setup, net: Net, net': Net, u: nat, sends: seq<Send>, inv: Invalidate,
      except: Option<FaceId>, used: multiset<Message>) {
    && u < |net.nodes| && |net'.nodes| == |net.nodes| && net'.nodes == net.nodes[u := net'.nodes[u]]
    && Records(su, net.nodes[u], net'.nodes[u], sends, FacesOf(su.topo, u), inv, except)
    && net'.inFlight == net.inFlight - used + Carried(su.topo, u, sends)
    && net.origins <= net'.origins
    && (exists o :: o in net'.origins && o.1 == inv)
    && (forall o :: o in net'.origins && o !in net.origins ==> o == (u, inv))
  }

  lemma SeenGrows(su: Setup, net: Net, net': Net, u: nat, sends: seq<Send>, inv: Invalidate,
      except: Option<FaceId>, used: multiset<Message>, v: nat, k: bytes, epoch: nat)
    requires RecordStep(su, net, net', u, sends, inv, except, used) && v < |net.nodes|
    requires AtLeast(net.nodes[v].seen, k, epoch)
    ensures AtLeast(net'.nodes[v].seen, k, epoch)
  {
    hide Carried, Purge;
  }

  lemma RecordKeepsSenders(su: Setup, net: Net, net': Net, u: nat, sends: seq<Send>, inv: Invalidate,
      except: Option<FaceId>, used: multiset<Message>)
    requires su.topo.Valid() && RecordStep(su, net, net', u, sends, inv, except, used)
    requires forall m :: m in net.inFlight ==> SentByRecorder(su, net, m)
    ensures forall m :: m in net'.inFlight ==> SentByRecorder(su, net', m)
  {
    hide Carried, Purge;
    forall m | m in net'.inFlight ensures SentByRecorder(su, net', m) {
      if m in net.inFlight {
        var w := su.topo.peers[(m.node, m.face)].0;
        SeenGrows(su, net, net', u, sends, inv, except, used, w, su.Key(m.inv), m.inv.epoch);
      } else {
        CarriedIs(su.topo, u, sends, m);
        var x :| x in sends && IsCarriedAs(su.topo, u, x, m);
        assert su.topo.peers[(m.node, m.face)] == (u, x.face);
      }
    }
  }

  /** The link from the recording server `u`: it is told now, or it is where the news came from. */
  lemma RecordInforms(su: Setup, net: Net, net': Net, u: nat, sends: seq<Send>, inv: Invalidate,
      except: Option<FaceId>, used: multiset<Message>, v: nat)
    requires su.topo.Valid() && RecordStep(su, net, net', u, sends, inv, except, used) && |net.nodes| == |su.topo.faces|
    requires v < |net.nodes| && Linked(su.topo, u, v)
    requires except.Some? ==> SentByRecorder(su, net, Message(u, except.value, inv))
    ensures AtLeast(net'.nodes[v].seen, su.Key(inv), inv.epoch) || Coming(su, net'.inFlight, su.Key(inv), v, inv.epoch)
  {
    hide Carried, Purge;
    var e :| e in su.topo.peers && e.0 == u && su.topo.peers[e].0 == v;
    if except == Some(e.1) {
      SeenGrows(su, net, net', u, sends, inv, except, used, v, su.Key(inv), inv.epoch);
    } else {
      var m := Message(v, su.topo.peers[e].1, inv);
      assert Send(e.1, inv) in sends && IsCarriedAs(su.topo, u, Send(e.1, inv), m);
      CarriedIs(su.topo, u, sends, m);
      assert m in net'.inFlight;
    }
  }

  lemma RecordKeepsLinks(su: Setup, net: Net, net': Net, u: nat, sends: seq<Send>, inv: Invalidate,
      except: Option<FaceId>, used: multiset<Message>, k: bytes, vs: set<nat>)
    requires su.topo.Valid() && RecordStep(su, net, net', u, sends, inv, except, used) && |net.nodes| == |su.topo.faces|
    requires except.Some? ==> SentByRecorder(su, net, Message(u, except.value, inv))
    requires forall m :: m in used ==> m.node == u && m.inv == inv
    requires LinksInformed(su, net, k, vs)
    ensures LinksInformed(su, net', k, vs)
  {
    hide Carried, Purge, Linked;
    forall a: nat, v: nat | a < |net'.nodes| && v < |net'.nodes| && v in vs && Linked(su.topo, a, v)
      ensures Informed(su, net', k, a, v)
    {
      assert Informed(su, net, k, a, v);
      if k in net'.nodes[a].seen {
        var epoch := net'.nodes[a].seen[k];
        if k in net.nodes[a].seen && net.nodes[a].seen[k] == epoch {
          StaysInformed(su, net, net', u, sends, inv, except, used, k, v, epoch);
        } else {
          assert a == u && k == su.Key(inv) && epoch == inv.epoch;
          RecordInforms(su, net, net', u, sends, inv, except, used, v);
        }
      }
    }
  }

  lemma StaysInformed(su: Setup, net: Net, net': Net, u: nat, sends: seq<Send>, inv: Invalidate,
      except: Option<FaceId>, used: multiset<Message>, k: bytes, v: nat, epoch: nat)
    requires RecordStep(su, net, net', u, sends, inv, except, used) && v < |net.nodes|
    requires forall m :: m in used ==> m.node == u && m.inv == inv
    requires AtLeast(net.nodes[v].seen, k, epoch) || Coming(su, net.inFlight, k, v, epoch)
    ensures AtLeast(net'.nodes[v].seen, k, epoch) || Coming(su, net'.inFlight, k, v, epoch)
  {
    hide Carried, Purge;
    if AtLeast(net.nodes[v].seen, k, epoch) {
      SeenGrows(su, net, net', u, sends, inv, except, used, v, k, epoch);
    } else {
      var m :| m in net.inFlight && m.node == v && su.Key(m.inv) == k && m.inv.epoch >= epoch;
      if m !in used {
        assert m in net'.inFlight;
      }
    }
  }

  lemma RecordKeepsOrigins(su: Setup, net: Net, net': Net, u: nat, sends: seq<Send>, inv: Invalidate,
      except: Option<FaceId>, used: multiset<Message>)
    requires RecordStep(su, net, net', u, sends, inv, except, used) && OriginsRecorded(su, net)
    ensures OriginsRecorded(su, net')
  {
    hide Carried, Purge;
    forall o | o in net'.origins ensures o.0 < |net'.nodes| && AtLeast(net'.nodes[o.0].seen, su.Key(o.1), o.1.epoch) {
      if o in net.origins {
        SeenGrows(su, net, net', u, sends, inv, except, used, o.0, su.Key(o.1), o.1.epoch);
      }
    }
  }

  lemma RecordKeepsExplained(su: Setup, net: Net, net': Net, u: nat, sends: seq<Send>, inv: Invalidate,
      except: Option<FaceId>, used: multiset<Message>, v: nat, k: bytes)
    requires RecordStep(su, net, net', u, sends, inv, except, used) && v < |net.nodes| && Explained(su, net, v, k)
    ensures Explained(su, net', v, k)
  {
    hide Carried;
    if k in net'.nodes[v].seen {
      if k in net.nodes[v].seen && net.nodes[v].seen[k] == net'.nodes[v].seen[k] {
        var o :| o in net.origins && su.Key(o.1) == k && o.1.epoch == net.nodes[v].seen[k];
        assert o in net'.origins;
      } else {
        var o :| o in net'.origins && o.1 == inv;
      }
    }
  }

  lemma RecordKeepsInv(su: Setup, net: Net, net': Net, u: nat, sends: seq<Send>, inv: Invalidate,
      except: Option<FaceId>, used: multiset<Message>, k: bytes, vs: set<nat>)
    requires su.topo.Valid() && RecordStep(su, net, net', u, sends, inv, except, used) && FloodInv(su, net, k, vs)
    requires except.Some? ==> SentByRecorder(su, net, Message(u, except.value, inv))
    requires forall m :: m in used ==> m.node == u && m.inv == inv
    requires Sourced(net')
    ensures FloodInv(su, net', k, vs)
  {
    hide RecordStep, LinksInformed, OriginsRecorded, Explained, SentByRecorder, Sourced;
    SameSize(su, net, net', u, sends, inv, except, used);
    RecordKeepsSenders(su, net, net', u, sends, inv, except, used);
    RecordKeepsLinks(su, net, net', u, sends, inv, except, used, k, vs);
    RecordKeepsOrigins(su, net, net', u, sends, inv, except, used);
    forall v | 0 <= v < |net'.nodes| ensures Explained(su, net', v, k) {
      RecordKeepsExplained(su, net, net', u, sends, inv, except, used, v, k);
    }
  }

  lemma SameSize(su: Setup, net: Net, net': Net, u: nat, sends: seq<Send>, inv: Invalidate, except: Option<FaceId>,
      used: multiset<Message>)
    requires RecordStep(su, net, net', u, sends, inv, except, used)
    ensures |net'.nodes| == |net.nodes|
  {
  }

  /** Dropping a message loses nothing a verifying server did not already know. */
  lemma DroppedIsKnown(su: Setup, net: Net, m: Message, k: bytes, vs: set<nat>)
    requires Sourced(net) && VerifiedBy(su, net, k, vs) && m in net.inFlight && m.node < |net.nodes|
    requires !su.accepts(m.node, m.inv) || !IsNewer(net.nodes[m.node].seen, su.Key(m.inv), m.inv.epoch)
    ensures m.node in vs && su.Key(m.inv) == k ==> AtLeast(net.nodes[m.node].seen, k, m.inv.epoch)
  {
    var o :| o in net.origins && o.1 == m.inv;
    assert m.node in vs && su.Key(m.inv) == k ==> su.accepts(m.node, o.1);
  }

  lemma DropKeepsLinks(su: Setup, net: Net, m: Message, k: bytes, vs: set<nat>)
    requires LinksInformed(su, net, k, vs) && m in net.inFlight && m.node < |net.nodes|
    requires m.node in vs && su.Key(m.inv) == k ==> AtLeast(net.nodes[m.node].seen, k, m.inv.epoch)
    ensures LinksInformed(su, net.(inFlight := net.inFlight - multiset{m}), k, vs)
  {
    hide Linked;
    var net' := net.(inFlight := net.inFlight - multiset{m});
    forall a: nat, v: nat | a < |net'.nodes| && v < |net'.nodes| && v in vs && Linked(su.topo, a, v)
      ensures Informed(su, net', k, a, v)
    {
      assert Informed(su, net, k, a, v);
      if k in net.nodes[a].seen && !AtLeast(net.nodes[v].seen, k, net.nodes[a].seen[k]) {
        var x :| x in net.inFlight && x.node == v && su.Key(x.inv) == k && x.inv.epoch >= net.nodes[a].seen[k];
        assert x != m && x in net'.inFlight;
      }
    }
  }

  lemma DropKeepsInv(su: Setup, net: Net, m: Message, k: bytes, vs: set<nat>)
    requires FloodInv(su, net, k, vs) && VerifiedBy(su, net, k, vs) && m in net.inFlight && m.node < |net.nodes|
    requires !su.accepts(m.node, m.inv) || !IsNewer(net.nodes[m.node].seen, su.Key(m.inv), m.inv.epoch)
    ensures FloodInv(su, net.(inFlight := net.inFlight - multiset{m}), k, vs)
  {
    hide LinksInformed, AtLeast;
    var net' := net.(inFlight := net.inFlight - multiset{m});
    DroppedIsKnown(su, net, m, k, vs);
    DropKeepsLinks(su, net, m, k, vs);
    forall x | x in net'.inFlight ensures SentByRecorder(su, net', x) {
      assert SentByRecorder(su, net, x);
    }
    forall v | 0 <= v < |net'.nodes| ensures Explained(su, net', v, k) {
      assert Explained(su, net, v, k);
    }
  }

  lemma IssueKeepsInv(su: Setup, net: Net, u: nat, inv: Invalidate, k: bytes, vs: set<nat>)
    requires su.topo.Valid() && u < |net.nodes| && FloodInv(su, net, k, vs) && Sourced(Step(su, net, Issue(u, inv)))
    ensures FloodInv(su, Step(su, net, Issue(u, inv)), k, vs)
  {
    hide FloodInv, Originate, Records, Carried, Purge, Sourced;
    var net' := Step(su, net, Issue(u, inv));
    var r := Originate(su.key, net.nodes[u], FacesOf(su.topo, u), inv);
    OriginateRecords(su, net.nodes[u], FacesOf(su.topo, u), inv);
    assert net'.inFlight == net.inFlight - multiset{} + Carried(su.topo, u, r.1);
    assert (u, inv) in net'.origins;
    RecordKeepsInv(su, net, net', u, r.1, inv, None, multiset{}, k, vs);
  }

  lemma AcceptKeepsInv(su: Setup, net: Net, m: Message, k: bytes, vs: set<nat>)
    requires su.topo.Valid() && Enabled(su, net, Deliver(m)) && FloodInv(su, net, k, vs)
    requires su.accepts(m.node, m.inv) && IsNewer(net.nodes[m.node].seen, su.Key(m.inv), m.inv.epoch)
    requires Sourced(Step(su, net, Deliver(m)))
    ensures FloodInv(su, Step(su, net, Deliver(m)), k, vs)
  {
    hide FloodInv, Handle, Records, Carried, Purge, Sourced;
    var net' := Step(su, net, Deliver(m));
    var r := Handle(su.key, true, net.nodes[m.node], FacesOf(su.topo, m.node), m.inv, m.face);
    HandleRecords(su, net.nodes[m.node], FacesOf(su.topo, m.node), m.inv, m.face);
    MessageFacts(su, net, m, k, vs);
    RecordKeepsInv(su, net, net', m.node, r.1, m.inv, Some(m.face), multiset{m}, k, vs);
  }

  lemma MessageFacts(su: Setup, net: Net, m: Message, k: bytes, vs: set<nat>)
    requires FloodInv(su, net, k, vs) && m in net.inFlight
    ensures SentByRecorder(su, net, m) && exists o :: o in net.origins && o.1 == m.inv
  {
  }

  lemma DroppedStep(su: Setup, net: Net, m: Message)
    requires Enabled(su, net, Deliver(m))
    requires !su.accepts(m.node, m.inv) || !IsNewer(net.nodes[m.node].seen, su.Key(m.inv), m.inv.epoch)
    ensures Step(su, net, Deliver(m)) == net.(inFlight := net.inFlight - multiset{m})
  {
    assert net.nodes[m.node := net.nodes[m.node]] == net.nodes;
    NothingCarried(su.topo, m.node);
  }

  lemma ChangeKeepsInv(su: Setup, net: Net, e: Event, k: bytes, vs: set<nat>)
    requires Enabled(su, net, e) && e.Change? && FloodInv(su, net, k, vs)
    ensures FloodInv(su, Step(su, net, e), k, vs)
  {
    hide AtLeast, Linked, Coming;
    var net' := Step(su, net, e);
    assert forall v :: 0 <= v < |net.nodes| ==> net'.nodes[v].seen == net.nodes[v].seen;
    forall m | m in net'.inFlight ensures SentByRecorder(su, net', m) {
      assert SentByRecorder(su, net, m);
    }
    forall a: nat, v: nat | a < |net'.nodes| && v < |net'.nodes| && v in vs && Linked(su.topo, a, v)
      ensures Informed(su, net', k, a, v)
    {
      assert Informed(su, net, k, a, v);
    }
    forall v | 0 <= v < |net'.nodes| ensures Explained(su, net', v, k) {
      assert Explained(su, net, v, k);
    }
  }

  lemma StepKeepsFloodInv(su: Setup, net: Net, e: Event, k: bytes, vs: set<nat>)
    requires su.topo.Valid() && Enabled(su, net, e) && FloodInv(su, net, k, vs) && VerifiedBy(su, net, k, vs)
    ensures FloodInv(su, Step(su, net, e), k, vs)
  {
    hide FloodInv, Step, VerifiedBy;
    InvIsSourced(su, net, k, vs);
    StepKeepsSourced(su, net, e);
    if e.Issue? {
      IssueKeepsInv(su, net, e.node, e.inv, k, vs);
    } else if e.Change? {
      ChangeKeepsInv(su, net, e, k, vs);
    } else if su.accepts(e.message.node, e.message.inv)
      && IsNewer(net.nodes[e.message.node].seen, su.Key(e.message.inv), e.message.inv.epoch) {
      AcceptKeepsInv(su, net, e.message, k, vs);
    } else {
      DroppedStep(su, net, e.message);
      DropKeepsInv(su, net, e.message, k, vs);
    }
  }

  lemma InvIsSourced(su: Setup, net: Net, k: bytes, vs: set<nat>)
    requires FloodInv(su, net, k, vs)
    ensures Sourced(net)
  {
  }

  lemma NothingCarried(topo: Topology, u: nat)
    ensures Carried(topo, u, []) == multiset{}
  {
  }

  /** What a server verifies is judged on everything originated by the end of a run. */
  lemma {:induction false} RunKeepsFloodInv(su: Setup, nets: seq<Net>, events: seq<Event>, k: bytes, vs: set<nat>,
      n: nat)
    requires su.topo.Valid() && IsRun(su, nets, events) && Idle(su, nets[0]) && n <= |events|
    requires VerifiedBy(su, nets[n], k, vs)
    ensures FloodInv(su, nets[n], k, vs)
  {
    hide Step, Enabled, FloodInv;
    if n == 0 {
      IdleHoldsInv(su, nets[0], k, vs);
    } else {
      OriginsGrow(su, nets[n - 1], events[n - 1]);
      RunKeepsFloodInv(su, nets, events, k, vs, n - 1);
      StepKeepsFloodInv(su, nets[n - 1], events[n - 1], k, vs);
    }
  }

  lemma IdleHoldsInv(su: Setup, net: Net, k: bytes, vs: set<nat>)
    requires Idle(su, net)
    ensures FloodInv(su, net, k, vs)
  {
  }

  lemma OriginsGrow(su: Setup, net: Net, e: Event)
    requires Enabled(su, net, e)
    ensures net.origins <= Step(su, net, e).origins
  {
    hide Carried, Purge;
  }

  /** A path of links whose every server after the first verifies everything issued under the key. */
  ghost predicate IsPath(su: Setup, vs: set<nat>, path: seq<nat>) {
    && path != []
    && (forall i :: 0 <= i < |path| ==> path[i] < |su.topo.faces|)
    && (forall i :: 0 < i < |path| ==> path[i] in vs && Linked(su.topo, path[i - 1], path[i]))
  }

  lemma {:induction false} QuietPathAgrees(su: Setup, net: Net, k: bytes, vs: set<nat>, path: seq<nat>, epoch: nat)
    requires FloodInv(su, net, k, vs) && net.inFlight == multiset{} && IsPath(su, vs, path)
    requires AtLeast(net.nodes[path[0]].seen, k, epoch)
    ensures AtLeast(net.nodes[path[|path| - 1]].seen, k, epoch)
    decreases |path|
  {
    if |path| > 1 {
      var init := path[..|path| - 1];
      forall i | 0 < i < |init| ensures init[i] in vs && Linked(su.topo, init[i - 1], init[i]) {
        assert init[i] == path[i] && init[i - 1] == path[i - 1];
      }
      QuietPathAgrees(su, net, k, vs, init, epoch);
      var u, v := path[|path| - 2], path[|path| - 1];
      assert Informed(su, net, k, u, v);
    }
  }

  ghost predicate Reaches(su: Setup, vs: set<nat>, u: nat, v: nat) {
    exists path :: IsPath(su, vs, path) && path[0] == u && path[|path| - 1] == v
  }

  // ----- what is still stored -----

  /** The row comes into server `v`'s store at step `i`. */
  predicate Stores(nets: seq<Net>, events: seq<Event>, i: int, v: nat, r: Store.Row) {
    && 0 <= i < |events| && i < |nets| && v < |nets[i].nodes|
    && events[i].Change? && events[i].node == v && r in events[i].rows && r !in nets[i].nodes[v].rows
  }

  /** Server `v` has at step `i` recorded the epoch it ends the run with. */
  predicate HasRecorded(nets: seq<Net>, i: int, v: nat, k: bytes) {
    && 0 <= i < |nets| && v < |nets[i].nodes| && v < |nets[|nets| - 1].nodes|
    && k in nets[i].nodes[v].seen && k in nets[|nets| - 1].nodes[v].seen
    && nets[i].nodes[v].seen[k] == nets[|nets| - 1].nodes[v].seen[k]
  }

  /** The row was stored after `v` had recorded the epoch it ends the run with. */
  ghost predicate StoredLate(nets: seq<Net>, events: seq<Event>, v: nat, k: bytes, r: Store.Row) {
    exists i :: Stores(nets, events, i, v, r) && HasRecorded(nets, i, v, k)
  }

  /** At step `j` server `v` recorded the invalidation, one newer than it had. */
  predicate RecordsAt(su: Setup, nets: seq<Net>, events: seq<Event>, j: int, v: nat, inv: Invalidate) {
    && 0 <= j < |events| && j < |nets| && v < |nets[j].nodes|
    && (events[j] == Issue(v, inv)
        || (events[j].Deliver? && events[j].message.node == v && events[j].message.inv == inv))
    && IsNewer(nets[j].nodes[v].seen, su.Key(inv), inv.epoch)
  }

  lemma StepKeepsSize(su: Setup, net: Net, e: Event)
    requires Enabled(su, net, e)
    ensures |Step(su, net, e).nodes| == |net.nodes|
  {
    hide Carried, Purge;
  }

  lemma {:induction false} RunKeepsSize(su: Setup, nets: seq<Net>, events: seq<Event>, n: nat)
    requires IsRun(su, nets, events) && n <= |events|
    ensures |nets[n].nodes| == |nets[0].nodes|
  {
    hide Step, Enabled;
    if n > 0 {
      RunKeepsSize(su, nets, events, n - 1);
      StepKeepsSize(su, nets[n - 1], events[n - 1]);
    }
  }

  /** A record changes only by recording something newer, which purges what that covers. */
  lemma RecordChanges(su: Setup, nets: seq<Net>, events: seq<Event>, j: nat, v: nat, k: bytes) returns (inv: Invalidate)
    requires IsRun(su, nets, events) && j < |events| && v < |nets[j].nodes| && v < |nets[j + 1].nodes|
    requires Sourced(nets[j])
    requires k in nets[j + 1].nodes[v].seen
    requires k !in nets[j].nodes[v].seen || nets[j].nodes[v].seen[k] != nets[j + 1].nodes[v].seen[k]
    ensures RecordsAt(su, nets, events, j, v, inv) && su.Key(inv) == k && nets[j + 1].nodes[v].seen[k] == inv.epoch
    ensures Purged(nets[j + 1].nodes[v].rows, inv) && exists o :: o in nets[j + 1].origins && o.1 == inv
  {
    hide Carried;
    assert Enabled(su, nets[j], events[j]) && nets[j + 1] == Step(su, nets[j], events[j]);
    var e := events[j];
    if e.Issue? {
      inv := e.inv;
      assert (e.node, inv) in nets[j + 1].origins;
    } else {
      inv := e.message.inv;
      var o :| o in nets[j].origins && o.1 == inv;
      assert o in nets[j + 1].origins;
    }
  }

  /** The step at which a server recorded what it ends with; nothing is recorded under the key after. */
  lemma {:induction false} LastRecord(su: Setup, nets: seq<Net>, events: seq<Event>, v: nat, k: bytes, n: nat)
    returns (j: nat, inv: Invalidate)
    requires IsRun(su, nets, events) && Idle(su, nets[0]) && n <= |events| && v < |nets[0].nodes|
    requires |nets[n].nodes| == |nets[0].nodes| && k in nets[n].nodes[v].seen
    ensures j < n && RecordsAt(su, nets, events, j, v, inv) && su.Key(inv) == k
    ensures forall i :: j < i <= n ==>
      && v < |nets[i].nodes| && k in nets[i].nodes[v].seen
      && nets[i].nodes[v].seen[k] == nets[n].nodes[v].seen[k] == inv.epoch
    ensures Purged(nets[j + 1].nodes[v].rows, inv) && exists o :: o in nets[j + 1].origins && o.1 == inv
  {
    hide Step, Enabled, Purged, RecordsAt;
    RunKeepsSize(su, nets, events, n - 1);
    if k in nets[n - 1].nodes[v].seen && nets[n - 1].nodes[v].seen[k] == nets[n].nodes[v].seen[k] {
      j, inv := LastRecord(su, nets, events, v, k, n - 1);
    } else {
      RunIsSourced(su, nets, events, n - 1);
      j := n - 1;
      inv := RecordChanges(su, nets, events, n - 1, v, k);
    }
  }

  lemma {:induction false} RunIsSourced(su: Setup, nets: seq<Net>, events: seq<Event>, n: nat)
    requires IsRun(su, nets, events) && Idle(su, nets[0]) && n <= |events|
    ensures Sourced(nets[n])
  {
    hide Step, Enabled;
    if n > 0 {
      RunIsSourced(su, nets, events, n - 1);
      StepKeepsSourced(su, nets[n - 1], events[n - 1]);
    }
  }

  lemma RowsComeByChange(su: Setup, net: Net, e: Event, v: nat, r: Store.Row)
    requires Enabled(su, net, e) && v < |net.nodes| == |Step(su, net, e).nodes|
    requires r in Step(su, net, e).nodes[v].rows && r !in net.nodes[v].rows
    ensures e.Change? && e.node == v && r in e.rows
  {
    hide Carried;
  }

  /** A row that is there has been there since step `j`, or was stored since. */
  lemma {:induction false} RowStayed(su: Setup, nets: seq<Net>, events: seq<Event>, v: nat, r: Store.Row, j: nat,
      n: nat)
    requires IsRun(su, nets, events) && j <= n <= |events| && v < |nets[0].nodes| == |nets[n].nodes|
    requires r in nets[n].nodes[v].rows && forall i :: j <= i < n ==> !Stores(nets, events, i, v, r)
    ensures forall i :: j <= i <= n ==> v < |nets[i].nodes| && r in nets[i].nodes[v].rows
  {
    hide Step, Enabled;
    if j < n {
      RunKeepsSize(su, nets, events, n - 1);
      assert !Stores(nets, events, n - 1, v, r);
      if r !in nets[n - 1].nodes[v].rows {
        RowsComeByChange(su, nets[n - 1], events[n - 1], v, r);
      }
      RowStayed(su, nets, events, v, r, j, n - 1);
    }
  }

  /** When nothing is in flight, a server that verifies what was issued under a key, and that every
      originator reaches through verifying servers, has recorded exactly the largest epoch issued; and
      some invalidation of that epoch covers nothing it holds, but for what it stored afterwards. */
  lemma FloodConverges(su: Setup, nets: seq<Net>, events: seq<Event>, k: bytes, vs: set<nat>, v: nat)
    requires su.topo.Valid() && IsRun(su, nets, events) && Idle(su, nets[0])
    requires var net := nets[|events|];
      && net.inFlight == multiset{} && VerifiedBy(su, net, k, vs) && v < |net.nodes|
      && (exists o :: o in net.origins && su.Key(o.1) == k)
      && (forall o :: o in net.origins && su.Key(o.1) == k ==> Reaches(su, vs, o.0, v))
    ensures var net := nets[|events|];
      && k in net.nodes[v].seen
      && (forall o :: o in net.origins && su.Key(o.1) == k ==> o.1.epoch <= net.nodes[v].seen[k])
      && exists o :: o in net.origins && su.Key(o.1) == k && o.1.epoch == net.nodes[v].seen[k]
           && forall r :: r in net.nodes[v].rows && Covers(o.1, r.name) ==> StoredLate(nets, events, v, k, r)
  {
    hide Step, Enabled, Purged, IsPath, StoredLate, Covers, RecordsAt;
    var net := nets[|events|];
    RunKeepsFloodInv(su, nets, events, k, vs, |events|);
    RunKeepsSize(su, nets, events, |events|);
    forall o | o in net.origins && su.Key(o.1) == k ensures AtLeast(net.nodes[v].seen, k, o.1.epoch) {
      OriginReaches(su, net, k, vs, o, v);
    }
    var any :| any in net.origins && su.Key(any.1) == k;
    var j, inv := LastRecord(su, nets, events, v, k, |events|);
    var o :| o in nets[j + 1].origins && o.1 == inv;
    OriginsStay(su, nets, events, j + 1, |events|);
    forall r | r in net.nodes[v].rows && Covers(inv, r.name) ensures StoredLate(nets, events, v, k, r) {
      CoveredIsLate(su, nets, events, v, k, j, inv, r);
    }
    assert o in net.origins;
  }

  lemma {:induction false} OriginsStay(su: Setup, nets: seq<Net>, events: seq<Event>, j: nat, n: nat)
    requires IsRun(su, nets, events) && j <= n <= |events|
    ensures nets[j].origins <= nets[n].origins
  {
    hide Step, Enabled;
    if j < n {
      OriginsStay(su, nets, events, j, n - 1);
      OriginsGrow(su, nets[n - 1], events[n - 1]);
    }
  }

  /** What the recorded invalidation covers was purged then, so it was stored later. */
  lemma CoveredIsLate(su: Setup, nets: seq<Net>, events: seq<Event>, v: nat, k: bytes, j: nat, inv: Invalidate,
      r: Store.Row)
    requires IsRun(su, nets, events) && j < |events| && v < |nets[0].nodes| == |nets[|events|].nodes|
    requires v < |nets[j + 1].nodes| && Purged(nets[j + 1].nodes[v].rows, inv)
    requires forall i :: j < i <= |events| ==> HasRecorded(nets, i, v, k)
    requires r in nets[|events|].nodes[v].rows && Covers(inv, r.name)
    ensures StoredLate(nets, events, v, k, r)
  {
    hide Step, Enabled, Covers;
    if forall i :: j + 1 <= i < |events| ==> !Stores(nets, events, i, v, r) {
      RowStayed(su, nets, events, v, r, j + 1, |events|);
    }
  }

  /** Where no store changes otherwise while the flood runs, nothing that some invalidation of the
      largest epoch covers is left. */
  lemma FloodPurges(su: Setup, nets: seq<Net>, events: seq<Event>, k: bytes, vs: set<nat>, v: nat)
    returns (o: (nat, Invalidate))
    requires su.topo.Valid() && IsRun(su, nets, events) && Idle(su, nets[0]) && forall e :: e in events ==> !e.Change?
    requires var net := nets[|events|];
      && net.inFlight == multiset{} && VerifiedBy(su, net, k, vs) && v < |net.nodes|
      && (exists o :: o in net.origins && su.Key(o.1) == k)
      && (forall o :: o in net.origins && su.Key(o.1) == k ==> Reaches(su, vs, o.0, v))
    ensures var net := nets[|events|];
      && o in net.origins && su.Key(o.1) == k && Purged(net.nodes[v].rows, o.1)
      && forall x :: x in net.origins && su.Key(x.1) == k ==> x.1.epoch <= o.1.epoch
  {
    hide Step, Enabled, Covers, Reaches;
    FloodConverges(su, nets, events, k, vs, v);
    var net := nets[|events|];
    o :| o in net.origins && su.Key(o.1) == k && o.1.epoch == net.nodes[v].seen[k]
      && forall r :: r in net.nodes[v].rows && Covers(o.1, r.name) ==> StoredLate(nets, events, v, k, r);
  }

  lemma OriginReaches(su: Setup, net: Net, k: bytes, vs: set<nat>, o: (nat, Invalidate), v: nat)
    requires FloodInv(su, net, k, vs) && net.inFlight == multiset{} && v < |net.nodes|
    requires o in net.origins && su.Key(o.1) == k && Reaches(su, vs, o.0, v)
    ensures AtLeast(net.nodes[v].seen, k, o.1.epoch)
  {
    var path :| IsPath(su, vs, path) && path[0] == o.0 && path[|path| - 1] == v;
    QuietPathAgrees(su, net, k, vs, path, o.1.epoch);
  }
}
