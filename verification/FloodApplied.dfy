/** When a flood applies every invalidation issued (rns_icn/server.py:364-409).  The replay guard keeps
    one epoch for each name, whatever the scope, so of several invalidations with the largest epoch a
    server applies the one that reaches it first and drops the others; those it issues itself it always
    applies. */
module FloodApplied {
  import opened Base
  import opened Names
  import opened Packets
  import Store
  import opened Fibs
  import opened Servers
  import opened Flood

  /** Who issued what. */
  type Issued = (nat, Invalidate)

  predicate Largest(issues: set<Issued>, o: Issued) {
    o in issues && forall x :: x in issues ==> x.1.epoch <= o.1.epoch
  }

  /** Server `v` itself issues one of the largest epoch that covers the name. */
  ghost predicate OwnCovers(issues: set<Issued>, v: nat, n: Name) {
    exists y :: Largest(issues, y) && y.0 == v && Covers(y.1, n)
  }

  /** The invalidation `o` may leave to server `v` a name that one of another server covers. */
  ghost predicate Misses(issues: set<Issued>, v: nat, o: Issued, x: Issued, n: Name) {
    Largest(issues, o) && x in issues && x.0 != v && Covers(x.1, n) && !Covers(o.1, n) && !OwnCovers(issues, v, n)
  }

  /** Each invalidation of the largest epoch, together with those that `v` itself issues of that epoch,
      covers everything that other servers' cover. */
  ghost predicate Widest(issues: set<Issued>, v: nat) {
    forall o, x, n :: !Misses(issues, v, o, x, n)
  }

  /** For one unpinned name this asks about scopes alone: whether prefixes of other servers are met by
      an own prefix of the largest epoch, or by nothing but prefixes of that epoch. */
  lemma WidestMeans(issues: set<Issued>, v: nat, name: Name)
    requires name.pin == None && forall o :: o in issues ==> o.1.name == name
    ensures Widest(issues, v) <==>
      || (forall x :: x in issues && x.1.isPrefix ==> x.0 == v)
      || (exists y :: Largest(issues, y) && y.0 == v && y.1.isPrefix)
      || (forall o :: Largest(issues, o) ==> o.1.isPrefix)
  {
    var below := name.(path := name.path + [[]]);
    assert |below.path| == |name.path| + 1;
    if x, o :| x in issues && x.1.isPrefix && x.0 != v && Largest(issues, o) && !o.1.isPrefix {
      assert Covers(x.1, below) && !Covers(o.1, below);
      assert Misses(issues, v, o, x, below) <==> !OwnCovers(issues, v, below);
      if y :| Largest(issues, y) && y.0 == v && y.1.isPrefix {
        forall n | Covers(x.1, n) ensures OwnCovers(issues, v, n) {
          assert Covers(y.1, n);
        }
      }
    }
  }

  /** Invalidations under one key, each of which reaches server `v` through servers that verify them all. */
  ghost predicate Situation(su: Setup, k: bytes, vs: set<nat>, issues: set<Issued>, v: nat) {
    && su.topo.Valid() && v < |su.topo.faces| && issues != {}
    && forall o :: o in issues ==>
         o.0 < |su.topo.faces| && su.Key(o.1) == k && Reaches(su, vs, o.0, v)
         && forall x :: x in vs ==> su.accepts(x, o.1)
  }

  /** A whole run in which exactly these are issued and at the end of which nothing is in flight. */
  ghost predicate Finished(su: Setup, issues: set<Issued>, nets: seq<Net>, events: seq<Event>) {
    && IsRun(su, nets, events) && Idle(su, nets[0])
    && nets[|events|].origins == issues && nets[|events|].inFlight == multiset{}
  }

  /** The row was stored once the server had recorded what it ends with, or had itself issued `o`. */
  ghost predicate StoredSince(nets: seq<Net>, events: seq<Event>, v: nat, k: bytes, o: Issued, r: Store.Row) {
    exists i :: Stores(nets, events, i, v, r) && (HasRecorded(nets, i, v, k) || (o.0 == v && o in nets[i].origins))
  }

  /** Nothing that any of them covers is left at the server, but for what it stored since. */
  ghost predicate AllApplied(issues: set<Issued>, nets: seq<Net>, events: seq<Event>, k: bytes, v: nat) {
    && |nets| == |events| + 1 && v < |nets[|events|].nodes|
    && forall o, r :: o in issues && r in nets[|events|].nodes[v].rows && Covers(o.1, r.name) ==>
         StoredSince(nets, events, v, k, o, r)
  }

  /** The step at which one was issued, and that it was applied there and then. */
  lemma {:induction false} IssuedAt(su: Setup, nets: seq<Net>, events: seq<Event>, o: Issued, n: nat) returns (j: nat)
    requires IsRun(su, nets, events) && Idle(su, nets[0]) && n <= |events| && o in nets[n].origins
    ensures j < n && events[j] == Issue(o.0, o.1) && o.0 < |nets[j].nodes| == |nets[j + 1].nodes|
    ensures Purged(nets[j + 1].nodes[o.0].rows, o.1) && AtLeast(nets[j + 1].nodes[o.0].seen, su.Key(o.1), o.1.epoch)
    ensures forall i :: j < i <= n ==> o in nets[i].origins
  {
    hide Step, Enabled, Purged;
    if o in nets[n - 1].origins {
      j := IssuedAt(su, nets, events, o, n - 1);
    } else {
      j := n - 1;
      IssueApplies(su, nets[n - 1], events[n - 1], o);
    }
  }

  lemma IssueApplies(su: Setup, net: Net, e: Event, o: Issued)
    requires Enabled(su, net, e) && o in Step(su, net, e).origins && o !in net.origins
    ensures e == Issue(o.0, o.1) && o.0 < |net.nodes| == |Step(su, net, e).nodes|
    ensures var node := Step(su, net, e).nodes[o.0];
      Purged(node.rows, o.1) && AtLeast(node.seen, su.Key(o.1), o.1.epoch)
  {
    hide Carried;
  }

  /** A row one of `v`'s own covers was stored since that was issued. */
  lemma OwnIsApplied(su: Setup, nets: seq<Net>, events: seq<Event>, v: nat, k: bytes, o: Issued, r: Store.Row)
    requires IsRun(su, nets, events) && Idle(su, nets[0]) && v < |nets[0].nodes| == |nets[|events|].nodes|
    requires o in nets[|events|].origins && o.0 == v && Covers(o.1, r.name) && r in nets[|events|].nodes[v].rows
    ensures StoredSince(nets, events, v, k, o, r)
  {
    hide Step, Enabled, Covers, Idle, HasRecorded;
    var j := IssuedAt(su, nets, events, o, |events|);
    if forall i :: j + 1 <= i < |events| ==> !Stores(nets, events, i, v, r) {
      RowStayed(su, nets, events, v, r, j + 1, |events|);
    }
  }

  /** One of `v`'s own of the largest epoch was issued no earlier than that epoch was recorded, unless
      it is the one that was. */
  lemma OwnLargestIsLate(su: Setup, nets: seq<Net>, events: seq<Event>, v: nat, k: bytes, j: nat, inv: Invalidate,
      y: Issued, r: Store.Row)
    requires IsRun(su, nets, events) && Idle(su, nets[0]) && v < |nets[0].nodes| == |nets[|events|].nodes|
    requires j < |events| && RecordsAt(su, nets, events, j, v, inv) && su.Key(inv) == k
    requires forall i :: j < i <= |events| ==> HasRecorded(nets, i, v, k)
    requires y in nets[|events|].origins && y.0 == v && y.1.epoch >= inv.epoch && su.Key(y.1) == k
    requires Covers(y.1, r.name) && r in nets[|events|].nodes[v].rows
    ensures StoredLate(nets, events, v, k, r)
  {
    hide Step, Enabled, Covers, Idle, Purged;
    var i := IssuedAt(su, nets, events, y, |events|);
    if i < j {
      SeenStays(su, nets, events, v, k, y.1.epoch, i + 1, j);
    } else if i == j {
      CoveredIsLate(su, nets, events, v, k, j, y.1, r);
    } else {
      CoveredIsLate(su, nets, events, v, k, i, y.1, r);
    }
  }

  lemma {:induction false} SeenStays(su: Setup, nets: seq<Net>, events: seq<Event>, v: nat, k: bytes, epoch: nat,
      i: nat, n: nat)
    requires IsRun(su, nets, events) && i <= n <= |events|
    requires v < |nets[i].nodes| && AtLeast(nets[i].nodes[v].seen, k, epoch)
    ensures v < |nets[n].nodes| && AtLeast(nets[n].nodes[v].seen, k, epoch)
  {
    hide Step, Enabled, AtLeast;
    if i < n {
      SeenStays(su, nets, events, v, k, epoch, i, n - 1);
      StepKeepsSize(su, nets[n - 1], events[n - 1]);
      SeenOnlyRises(su, nets[n - 1], events[n - 1], v, k, epoch);
    }
  }

  lemma SeenOnlyRises(su: Setup, net: Net, e: Event, v: nat, k: bytes, epoch: nat)
    requires Enabled(su, net, e) && v < |net.nodes| == |Step(su, net, e).nodes| && AtLeast(net.nodes[v].seen, k, epoch)
    ensures AtLeast(Step(su, net, e).nodes[v].seen, k, epoch)
  {
    hide Carried, Purge;
  }

  lemma WidestIsEnough(su: Setup, k: bytes, vs: set<nat>, issues: set<Issued>, v: nat, nets: seq<Net>,
      events: seq<Event>)
    requires Situation(su, k, vs, issues, v) && Widest(issues, v) && Finished(su, issues, nets, events)
    ensures AllApplied(issues, nets, events, k, v)
  {
    hide Step, Enabled, Reaches, Purged, FloodInv, Covers, RecordsAt, StoredLate, StoredSince, Widest, HasRecorded;
    var net := nets[|events|];
    RunKeepsFloodInv(su, nets, events, k, vs, |events|);
    SameServers(su, net, k, vs);
    RunKeepsSize(su, nets, events, |events|);
    var any :| any in issues;
    assert any in net.origins && su.Key(any.1) == k;
    FloodConverges(su, nets, events, k, vs, v);
    var j, inv := LastRecord(su, nets, events, v, k, |events|);
    RecordedToTheEnd(nets, |events|, v, k, j);
    var first :| first in nets[j + 1].origins && first.1 == inv;
    OriginsStay(su, nets, events, j + 1, |events|);
    assert Largest(issues, first);
    forall o, r | o in issues && r in net.nodes[v].rows && Covers(o.1, r.name)
      ensures StoredSince(nets, events, v, k, o, r)
    {
      if o.0 == v {
        OwnIsApplied(su, nets, events, v, k, o, r);
      } else {
        if Covers(inv, r.name) {
          CoveredIsLate(su, nets, events, v, k, j, inv, r);
        } else {
          var y := OwnCoverer(issues, v, first, o, r.name);
          OwnLargestIsLate(su, nets, events, v, k, j, inv, y, r);
        }
        LateIsSince(nets, events, v, k, o, r);
      }
    }
  }

  lemma OwnCoverer(issues: set<Issued>, v: nat, o: Issued, x: Issued, n: Name) returns (y: Issued)
    requires Widest(issues, v) && Largest(issues, o) && x in issues && x.0 != v && Covers(x.1, n) && !Covers(o.1, n)
    ensures Largest(issues, y) && y.0 == v && Covers(y.1, n) && y.1.epoch == o.1.epoch
  {
    assert !Misses(issues, v, o, x, n);
    y :| Largest(issues, y) && y.0 == v && Covers(y.1, n);
  }

  lemma LateIsSince(nets: seq<Net>, events: seq<Event>, v: nat, k: bytes, o: Issued, r: Store.Row)
    requires StoredLate(nets, events, v, k, r)
    ensures StoredSince(nets, events, v, k, o, r)
  {
  }

  lemma RecordedToTheEnd(nets: seq<Net>, n: nat, v: nat, k: bytes, j: nat)
    requires |nets| == n + 1 && j < n && v < |nets[n].nodes| && k in nets[n].nodes[v].seen
    requires forall i :: j < i <= n ==>
      v < |nets[i].nodes| && k in nets[i].nodes[v].seen && nets[i].nodes[v].seen[k] == nets[n].nodes[v].seen[k]
    ensures forall i :: j < i <= n ==> HasRecorded(nets, i, v, k)
  {
  }

  lemma SameServers(su: Setup, net: Net, k: bytes, vs: set<nat>)
    requires FloodInv(su, net, k, vs)
    ensures |net.nodes| == |su.topo.faces|
  {
  }

  // ----- building runs -----

  lemma Append(su: Setup, nets: seq<Net>, events: seq<Event>, nets': seq<Net>, events': seq<Event>)
    requires IsRun(su, nets, events) && IsRun(su, nets', events') && nets[|events|] == nets'[0]
    ensures IsRun(su, nets + nets'[1..], events + events')
    ensures (nets + nets'[1..])[|events + events'|] == nets'[|events'|] && (nets + nets'[1..])[0] == nets[0]
  {
    hide Step, Enabled;
    var all, es := nets + nets'[1..], events + events';
    forall i | 0 <= i < |es| ensures Enabled(su, all[i], es[i]) && all[i + 1] == Step(su, all[i], es[i]) {
      if i >= |events| {
        var j := i - |events|;
        assert all[i] == nets'[j] && all[i + 1] == nets'[j + 1] && es[i] == events'[j];
      }
    }
  }

  lemma MessageArrives(su: Setup, net: Net, k: bytes, m: Message)
    requires su.topo.Valid() && FloodInv(su, net, k, {}) && m in net.inFlight
    ensures Enabled(su, net, Deliver(m))
  {
    assert SentByRecorder(su, net, m);
  }

  /** Delivering until nothing is left. */
  lemma {:induction false} Drain(su: Setup, net: Net, k: bytes, d: nat) returns (nets: seq<Net>, events: seq<Event>)
    requires su.topo.Valid() && FloodInv(su, net, k, {}) && forall u :: |FacesOf(su.topo, u)| <= d
    ensures IsRun(su, nets, events) && nets[0] == net && nets[|events|].inFlight == multiset{}
    ensures FloodInv(su, nets[|events|], k, {}) && nets[|events|].origins == net.origins
    ensures forall e :: e in events ==> e.Deliver?
    decreases Measure(su, net, d)
  {
    hide FloodInv, Step, Enabled, Measure;
    if net.inFlight == multiset{} {
      nets, events := [net], [];
    } else {
      var m :| m in net.inFlight;
      MessageArrives(su, net, k, m);
      var net' := Step(su, net, Deliver(m));
      InvIsSourced(su, net, k, {});
      DeliveryIsProgress(su, net, m, d);
      StepKeepsFloodInv(su, net, Deliver(m), k, {});
      DeliveryKeepsOrigins(su, net, m);
      var rest, es := Drain(su, net', k, d);
      nets, events := [net] + rest, [Deliver(m)] + es;
      OneThenRest(su, net, Deliver(m), rest, es);
    }
  }

  lemma DeliveryKeepsOrigins(su: Setup, net: Net, m: Message)
    requires Enabled(su, net, Deliver(m))
    ensures Step(su, net, Deliver(m)).origins == net.origins
  {
  }

  lemma OneThenRest(su: Setup, net: Net, e: Event, rest: seq<Net>, es: seq<Event>)
    requires Enabled(su, net, e) && IsRun(su, rest, es) && rest[0] == Step(su, net, e)
    ensures IsRun(su, [net] + rest, [e] + es)
    ensures ([net] + rest)[0] == net && ([net] + rest)[|[e] + es|] == rest[|es|]
  {
    hide Step, Enabled;
    var all, events := [net] + rest, [e] + es;
    forall i | 0 <= i < |events| ensures Enabled(su, all[i], events[i]) && all[i + 1] == Step(su, all[i], events[i]) {
      if i > 0 {
        assert all[i] == rest[i - 1] && all[i + 1] == rest[i] && events[i] == es[i - 1];
      }
    }
  }

  // ----- what survives -----

  /** Server `v` holds the row, and everything in flight is `inv`, which does not cover it, or is no
      longer news to `v`. */
  ghost predicate Spared(su: Setup, net: Net, k: bytes, v: nat, r: Store.Row, inv: Invalidate) {
    && v < |net.nodes| && r in net.nodes[v].rows && !Covers(inv, r.name)
    && forall m :: m in net.inFlight ==>
         m.inv == inv || (su.Key(m.inv) == k && AtLeast(net.nodes[v].seen, k, m.inv.epoch))
  }

  /** Server `v` holds the row and has recorded an epoch that nothing in flight under the key exceeds. */
  ghost predicate Immune(su: Setup, net: Net, k: bytes, v: nat, r: Store.Row, epoch: nat) {
    && v < |net.nodes| && r in net.nodes[v].rows && AtLeast(net.nodes[v].seen, k, epoch)
    && forall m :: m in net.inFlight ==> su.Key(m.inv) == k && m.inv.epoch <= epoch
  }

  lemma DeliveryCarriesOn(su: Setup, net: Net, m: Message, x: Message)
    requires Enabled(su, net, Deliver(m)) && x in Step(su, net, Deliver(m)).inFlight
    ensures x in net.inFlight || x.inv == m.inv
  {
    hide Purge, Carried;
    var sends :=
      Handle(su.key, su.accepts(m.node, m.inv), net.nodes[m.node], FacesOf(su.topo, m.node), m.inv, m.face).1;
    CarriedIs(su.topo, m.node, sends, x);
  }

  lemma DeliverySpares(su: Setup, net: Net, m: Message, k: bytes, v: nat, r: Store.Row, inv: Invalidate)
    requires Enabled(su, net, Deliver(m)) && Spared(su, net, k, v, r, inv)
    ensures Spared(su, Step(su, net, Deliver(m)), k, v, r, inv)
  {
    hide Carried, AtLeast, Covers;
    var net' := Step(su, net, Deliver(m));
    SparedAtServer(su, net, m, k, v, r, inv);
    forall x | x in net'.inFlight
      ensures x.inv == inv || (su.Key(x.inv) == k && AtLeast(net'.nodes[v].seen, k, x.inv.epoch))
    {
      DeliveryCarriesOn(su, net, m, x);
      if x.inv != inv {
        assert su.Key(x.inv) == k && AtLeast(net.nodes[v].seen, k, x.inv.epoch);
        SeenOnlyRises(su, net, Deliver(m), v, k, x.inv.epoch);
      }
    }
  }

  lemma SparedAtServer(su: Setup, net: Net, m: Message, k: bytes, v: nat, r: Store.Row, inv: Invalidate)
    requires Enabled(su, net, Deliver(m)) && Spared(su, net, k, v, r, inv)
    ensures |Step(su, net, Deliver(m)).nodes| == |net.nodes| && r in Step(su, net, Deliver(m)).nodes[v].rows
  {
    hide Carried, Covers;
  }

  lemma DeliveryKeepsImmune(su: Setup, net: Net, m: Message, k: bytes, v: nat, r: Store.Row, epoch: nat)
    requires Enabled(su, net, Deliver(m)) && Immune(su, net, k, v, r, epoch)
    ensures Immune(su, Step(su, net, Deliver(m)), k, v, r, epoch)
  {
    hide Carried, Purge;
    var net' := Step(su, net, Deliver(m));
    forall x | x in net'.inFlight ensures su.Key(x.inv) == k && x.inv.epoch <= epoch {
      DeliveryCarriesOn(su, net, m, x);
    }
  }

  /** Issuing elsewhere does not touch `v`; issuing at `v` spares what it does not cover. */
  lemma IssueKeepsImmune(su: Setup, net: Net, u: nat, inv: Invalidate, k: bytes, v: nat, r: Store.Row, epoch: nat)
    requires u < |net.nodes| && su.Key(inv) == k && inv.epoch <= epoch && Immune(su, net, k, v, r, epoch)
    requires u == v ==> !Covers(inv, r.name)
    ensures Immune(su, Step(su, net, Issue(u, inv)), k, v, r, epoch)
  {
    hide Carried, Covers;
    var net' := Step(su, net, Issue(u, inv));
    var sends := Originate(su.key, net.nodes[u], FacesOf(su.topo, u), inv).1;
    forall x | x in net'.inFlight ensures su.Key(x.inv) == k && x.inv.epoch <= epoch {
      CarriedIs(su.topo, u, sends, x);
    }
  }

  lemma {:induction false} DrainSpares(su: Setup, nets: seq<Net>, events: seq<Event>, k: bytes, v: nat, r: Store.Row,
      inv: Invalidate, i: nat)
    requires IsRun(su, nets, events) && Spared(su, nets[0], k, v, r, inv) && i <= |events|
    requires forall e :: e in events ==> e.Deliver?
    ensures Spared(su, nets[i], k, v, r, inv)
  {
    hide Step, Enabled, Spared;
    if i > 0 {
      assert events[i - 1] in events;
      DrainSpares(su, nets, events, k, v, r, inv, i - 1);
      DeliverySpares(su, nets[i - 1], events[i - 1].message, k, v, r, inv);
    }
  }

  lemma {:induction false} DrainKeepsImmune(su: Setup, nets: seq<Net>, events: seq<Event>, k: bytes, v: nat,
      r: Store.Row, epoch: nat, i: nat)
    requires IsRun(su, nets, events) && Immune(su, nets[0], k, v, r, epoch) && i <= |events|
    requires forall e :: e in events ==> e.Deliver?
    ensures Immune(su, nets[i], k, v, r, epoch)
  {
    hide Step, Enabled, Immune;
    if i > 0 {
      assert events[i - 1] in events;
      DrainKeepsImmune(su, nets, events, k, v, r, epoch, i - 1);
      DeliveryKeepsImmune(su, nets[i - 1], events[i - 1].message, k, v, r, epoch);
    }
  }

  /** Issuing the rest while `v` is immune. */
  lemma {:induction false} IssueAll(su: Setup, net: Net, todo: set<Issued>, k: bytes, v: nat, r: Store.Row, epoch: nat)
    returns (nets: seq<Net>, events: seq<Event>)
    requires su.topo.Valid() && FloodInv(su, net, k, {}) && Immune(su, net, k, v, r, epoch)
    requires forall o :: o in todo ==> o.0 < |su.topo.faces| && su.Key(o.1) == k && o.1.epoch <= epoch
    requires forall o :: o in todo && o.0 == v ==> !Covers(o.1, r.name)
    ensures IsRun(su, nets, events) && nets[0] == net && nets[|events|].origins == net.origins + todo
    ensures FloodInv(su, nets[|events|], k, {}) && Immune(su, nets[|events|], k, v, r, epoch)
    ensures forall e :: e in events ==> !e.Change?
    decreases |todo|
  {
    hide FloodInv, Immune, Step, Enabled, Covers;
    if todo == {} {
      nets, events := [net], [];
    } else {
      var o :| o in todo;
      SameServers(su, net, k, {});
      var e := Issue(o.0, o.1);
      IssueAdds(su, net, o);
      StepKeepsFloodInv(su, net, e, k, {});
      IssueKeepsImmune(su, net, o.0, o.1, k, v, r, epoch);
      var next, others := Step(su, net, e), todo - {o};
      var rest, es := IssueAll(su, next, others, k, v, r, epoch);
      OneThenRest(su, net, e, rest, es);
      nets, events := [net] + rest, [e] + es;
      assert net.origins + todo == net.origins + {o} + others;
    }
  }

  lemma IssueAdds(su: Setup, net: Net, o: Issued)
    requires o.0 < |net.nodes|
    ensures Enabled(su, net, Issue(o.0, o.1))
    ensures Step(su, net, Issue(o.0, o.1)).origins == net.origins + {o}
  {
  }

  // ----- the exact condition -----

  function RowNamed(n: Name): Store.Row {
    Store.Row(n, [], [], None, true, None, None, false, None, 0, None)
  }

  function MaxFaces(faces: seq<seq<FaceId>>): (d: nat)
    ensures forall u :: 0 <= u < |faces| ==> |faces[u]| <= d
  {
    if faces == [] then 0 else Max(|faces[|faces| - 1]|, MaxFaces(faces[..|faces| - 1]))
  }

  /** Nothing recorded and nothing stored anywhere. */
  function EmptyNet(size: nat): Net { Net(seq(size, _ => Node(map[], [])), multiset{}, {}) }

  /** Server `v` has recorded less than the epoch, and nothing in flight is news to it. */
  ghost predicate Below(su: Setup, net: Net, k: bytes, v: nat, epoch: nat) {
    && v < |net.nodes| && (k in net.nodes[v].seen ==> net.nodes[v].seen[k] < epoch)
    && forall m :: m in net.inFlight ==> su.Key(m.inv) == k && AtLeast(net.nodes[v].seen, k, m.inv.epoch)
  }

  lemma IssueKeepsBelow(su: Setup, net: Net, inv: Invalidate, k: bytes, v: nat, epoch: nat)
    requires Below(su, net, k, v, epoch) && su.Key(inv) == k && inv.epoch < epoch
    ensures Below(su, Step(su, net, Issue(v, inv)), k, v, epoch)
  {
    hide Carried, Purge;
    var net' := Step(su, net, Issue(v, inv));
    var sends := Originate(su.key, net.nodes[v], FacesOf(su.topo, v), inv).1;
    forall x | x in net'.inFlight ensures su.Key(x.inv) == k && AtLeast(net'.nodes[v].seen, k, x.inv.epoch) {
      CarriedIs(su.topo, v, sends, x);
    }
  }

  /** First `v` issues its own of lower epochs. */
  lemma {:induction false} IssueLow(su: Setup, net: Net, todo: set<Issued>, k: bytes, v: nat, epoch: nat)
    returns (nets: seq<Net>, events: seq<Event>)
    requires su.topo.Valid() && FloodInv(su, net, k, {}) && Below(su, net, k, v, epoch)
    requires forall o :: o in todo ==> o.0 == v && su.Key(o.1) == k && o.1.epoch < epoch
    ensures IsRun(su, nets, events) && nets[0] == net && nets[|events|].origins == net.origins + todo
    ensures FloodInv(su, nets[|events|], k, {}) && Below(su, nets[|events|], k, v, epoch)
    ensures forall e :: e in events ==> !e.Change?
    decreases |todo|
  {
    hide FloodInv, Below, Step, Enabled;
    if todo == {} {
      nets, events := [net], [];
    } else {
      var o :| o in todo;
      BelowMeans(su, net, k, v, epoch);
      var e := Issue(o.0, o.1);
      IssueAdds(su, net, o);
      StepKeepsFloodInv(su, net, e, k, {});
      IssueKeepsBelow(su, net, o.1, k, v, epoch);
      var next, others := Step(su, net, e), todo - {o};
      var rest, es := IssueLow(su, next, others, k, v, epoch);
      OneThenRest(su, net, e, rest, es);
      nets, events := [net] + rest, [e] + es;
      assert net.origins + todo == net.origins + {o} + others;
    }
  }

  lemma BelowMeans(su: Setup, net: Net, k: bytes, v: nat, epoch: nat)
    requires Below(su, net, k, v, epoch)
    ensures v < |net.nodes| && (k in net.nodes[v].seen ==> net.nodes[v].seen[k] < epoch)
  {
  }

  lemma EmptyIsBelow(su: Setup, k: bytes, vs: set<nat>, v: nat, epoch: nat)
    requires v < |su.topo.faces|
    ensures var net := EmptyNet(|su.topo.faces|);
      Idle(su, net) && FloodInv(su, net, k, vs) && Below(su, net, k, v, epoch)
  {
    IdleHoldsInv(su, EmptyNet(|su.topo.faces|), k, vs);
  }

  /** Then `v` stores a row. */
  function StoreRow(net: Net, v: nat, r: Store.Row): Event
    requires v < |net.nodes|
  {
    Change(v, [r])
  }

  lemma StoringKeepsBelow(su: Setup, net: Net, k: bytes, v: nat, epoch: nat, r: Store.Row)
    requires Below(su, net, k, v, epoch)
    ensures var net' := Step(su, net, StoreRow(net, v, r));
      Below(su, net', k, v, epoch) && r in net'.nodes[v].rows && net'.origins == net.origins
  {
  }

  /** Then the first of the largest epoch is issued, and spares the row; if elsewhere, `v` is still to
      hear of it. */
  lemma FirstSpares(su: Setup, net: Net, k: bytes, v: nat, first: Issued, r: Store.Row)
    requires Below(su, net, k, v, first.1.epoch) && r in net.nodes[v].rows && !Covers(first.1, r.name)
    requires first.0 < |net.nodes| && su.Key(first.1) == k
    ensures Spared(su, Step(su, net, Issue(first.0, first.1)), k, v, r, first.1)
  {
    hide Carried, Covers;
    var net' := Step(su, net, Issue(first.0, first.1));
    var sends := Originate(su.key, net.nodes[first.0], FacesOf(su.topo, first.0), first.1).1;
    forall x | x in net'.inFlight
      ensures x.inv == first.1 || (su.Key(x.inv) == k && AtLeast(net'.nodes[v].seen, k, x.inv.epoch))
    {
      CarriedIs(su.topo, first.0, sends, x);
    }
  }

  lemma SparedIsImmune(su: Setup, net: Net, k: bytes, v: nat, r: Store.Row, inv: Invalidate, epoch: nat)
    requires Spared(su, net, k, v, r, inv) && net.inFlight == multiset{} && AtLeast(net.nodes[v].seen, k, epoch)
    ensures Immune(su, net, k, v, r, epoch)
  {
  }

  /** From there: the row, the first of the largest epoch, and all deliveries. */
  lemma RowThenFirst(su: Setup, net1: Net, k: bytes, v: nat, first: Issued, n: Name)
    returns (nets: seq<Net>, events: seq<Event>)
    requires su.topo.Valid() && FloodInv(su, net1, k, {}) && Below(su, net1, k, v, first.1.epoch)
    requires first.0 < |su.topo.faces| && su.Key(first.1) == k && !Covers(first.1, n)
    ensures IsRun(su, nets, events) && nets[0] == net1 && nets[|events|].origins == net1.origins + {first}
    ensures nets[|events|].inFlight == multiset{} && FloodInv(su, nets[|events|], k, {})
    ensures Spared(su, nets[|events|], k, v, RowNamed(n), first.1)
    ensures events != [] && forall e :: e in events[1..] ==> !e.Change?
  {
    hide FloodInv, Step, Enabled, Spared, Covers, Below;
    var r := RowNamed(n);
    BelowMeans(su, net1, k, v, first.1.epoch);
    var e1, e2 := StoreRow(net1, v, r), Issue(first.0, first.1);
    ChangeIsEnabled(su, net1, v, r);
    StoringKeepsBelow(su, net1, k, v, first.1.epoch, r);
    StepKeepsFloodInv(su, net1, e1, k, {});
    var net2 := Step(su, net1, e1);
    SameServers(su, net2, k, {});
    IssueAdds(su, net2, first);
    StepKeepsFloodInv(su, net2, e2, k, {});
    FirstSpares(su, net2, k, v, first, r);
    var net3 := Step(su, net2, e2);
    var b, eb := Drain(su, net3, k, MaxFaces(su.topo.faces));
    DrainSpares(su, b, eb, k, v, r, first.1, |eb|);
    OneThenRest(su, net2, e2, b, eb);
    OneThenRest(su, net1, e1, [net2] + b, [e2] + eb);
    nets, events := [net1] + ([net2] + b), [e1] + ([e2] + eb);
  }

  /** The run up to where `v` is immune: its own lower epochs, the row, the first of the largest epoch. */
  lemma FloodFirst(su: Setup, k: bytes, vs: set<nat>, issues: set<Issued>, low: set<Issued>, v: nat, first: Issued,
      n: Name)
    returns (nets: seq<Net>, events: seq<Event>, at: nat)
    requires Situation(su, k, vs, issues, v) && first in issues && !Covers(first.1, n) && low <= issues
    requires forall o :: o in low ==> o.0 == v && o.1.epoch < first.1.epoch
    ensures IsRun(su, nets, events) && Idle(su, nets[0]) && nets[|events|].origins == low + {first}
    ensures FloodInv(su, nets[|events|], k, {}) && Immune(su, nets[|events|], k, v, RowNamed(n), first.1.epoch)
    ensures at < |events| && Below(su, nets[at], k, v, first.1.epoch)
    ensures forall i :: 0 <= i < |events| && events[i].Change? ==> i == at
  {
    hide FloodInv, Step, Enabled, Reaches, Spared, Covers, Below, Immune, Idle;
    var net0 := EmptyNet(|su.topo.faces|);
    EmptyIsBelow(su, k, {}, v, first.1.epoch);
    var a, ea := IssueLow(su, net0, low, k, v, first.1.epoch);
    at := |ea|;
    var c, ec := RowThenFirst(su, a[at], k, v, first, n);
    Append(su, a, ea, c, ec);
    nets, events := a + c[1..], ea + ec;
    assert nets[at] == a[at];
    ReachedAtLast(su, nets, events, k, vs, issues, v, first);
    SparedIsImmune(su, nets[|events|], k, v, RowNamed(n), first.1, first.1.epoch);
    forall i | 0 <= i < |events| && events[i].Change? ensures i == at {
      OnlyChange(ea, ec[..1], ec[1..], i);
      assert ec[..1] + ec[1..] == ec;
    }
  }

  lemma OnlyChange(a: seq<Event>, e: seq<Event>, b: seq<Event>, i: nat)
    requires (forall x :: x in a ==> !x.Change?) && |e| == 1 && (forall x :: x in b ==> !x.Change?)
    requires i < |a + (e + b)|
    ensures (a + (e + b))[i].Change? ==> i == |a|
  {
    if i < |a| {
      assert a[i] in a;
    } else if i > |a| {
      assert b[i - |a| - 1] in b;
    }
  }

  lemma ChangeIsEnabled(su: Setup, net: Net, v: nat, r: Store.Row)
    requires v < |net.nodes|
    ensures Enabled(su, net, StoreRow(net, v, r))
  {
  }

  lemma ReachedAtLast(su: Setup, nets: seq<Net>, events: seq<Event>, k: bytes, vs: set<nat>, issues: set<Issued>,
      v: nat, o: Issued)
    requires Situation(su, k, vs, issues, v) && IsRun(su, nets, events) && Idle(su, nets[0])
    requires o in issues && o in nets[|events|].origins && nets[|events|].origins <= issues
    requires nets[|events|].inFlight == multiset{}
    ensures v < |nets[|events|].nodes| && AtLeast(nets[|events|].nodes[v].seen, k, o.1.epoch)
  {
    hide Step, Enabled, FloodInv, Reaches, AtLeast, Idle;
    RunKeepsFloodInv(su, nets, events, k, vs, |events|);
    SameServers(su, nets[|events|], k, vs);
    OriginReaches(su, nets[|events|], k, vs, o, v);
  }

  /** If one of the largest epoch leaves out something that another server's covers, the other may be
      lost: here the one row stored in the whole run is left behind. */
  lemma NarrowCanWin(su: Setup, k: bytes, vs: set<nat>, issues: set<Issued>, v: nat)
    returns (nets: seq<Net>, events: seq<Event>)
    requires Situation(su, k, vs, issues, v) && !Widest(issues, v)
    ensures Finished(su, issues, nets, events) && !AllApplied(issues, nets, events, k, v)
  {
    hide FloodInv, Step, Enabled, Reaches, Immune, Idle, Below, Covers;
    var first, other, n :| Misses(issues, v, first, other, n);
    var r := RowNamed(n);
    var low := set o | o in issues && o.0 == v && o.1.epoch < first.1.epoch;
    var a, ea, at := FloodFirst(su, k, vs, issues, low, v, first, n);
    var todo := issues - low - {first};
    forall o | o in todo && o.0 == v ensures !Covers(o.1, r.name) {
      assert Largest(issues, o);
    }
    var b, eb := IssueAll(su, a[|ea|], todo, k, v, r, first.1.epoch);
    var c, ec := Drain(su, b[|eb|], k, MaxFaces(su.topo.faces));
    DrainKeepsImmune(su, c, ec, k, v, r, first.1.epoch, |ec|);
    Append(su, a, ea, b, eb);
    Append(su, a + b[1..], ea + eb, c, ec);
    nets, events := a + b[1..] + c[1..], ea + eb + ec;
    var net := nets[|events|];
    ImmuneMeans(su, net, k, v, r, first.1.epoch);
    assert low + {first} + todo == issues;
    assert net.origins == issues;
    NotStoredSince(su, nets, events, ea, eb + ec, k, v, first, other, r, at);
  }

  lemma NotStoredSince(su: Setup, nets: seq<Net>, events: seq<Event>, ea: seq<Event>, eb: seq<Event>, k: bytes, v: nat,
      first: Issued, other: Issued, r: Store.Row, at: nat)
    requires events == ea + eb && at < |ea| && |nets| == |events| + 1 && other.0 != v
    requires forall i :: 0 <= i < |ea| && ea[i].Change? ==> i == at
    requires forall e :: e in eb ==> !e.Change?
    requires Below(su, nets[at], k, v, first.1.epoch)
    requires v < |nets[|events|].nodes| && AtLeast(nets[|events|].nodes[v].seen, k, first.1.epoch)
    ensures !StoredSince(nets, events, v, k, other, r)
  {
    forall i | |ea| <= i < |events| ensures !events[i].Change? {
      assert eb[i - |ea|] in eb;
    }
    forall i | Stores(nets, events, i, v, r) ensures !HasRecorded(nets, i, v, k) {
      BelowMeans(su, nets[at], k, v, first.1.epoch);
    }
  }

  lemma ImmuneMeans(su: Setup, net: Net, k: bytes, v: nat, r: Store.Row, epoch: nat)
    requires Immune(su, net, k, v, r, epoch)
    ensures v < |net.nodes| && r in net.nodes[v].rows && AtLeast(net.nodes[v].seen, k, epoch)
  {
  }

  /** The exact condition: whatever is stored and evicted and in whatever order things happen, a reached
      verifying server, issuing or not, ends up holding nothing that any of the invalidations covers, but
      for what it stored afterwards, if and only if each one with the largest epoch, together with its
      own of that epoch, covers all that other servers' cover. */
  lemma AllAppliedExactlyWhenWidest(su: Setup, k: bytes, vs: set<nat>, issues: set<Issued>, v: nat)
    requires Situation(su, k, vs, issues, v)
    ensures Widest(issues, v) <==>
      forall nets, events :: Finished(su, issues, nets, events) ==> AllApplied(issues, nets, events, k, v)
  {
    hide Situation, Widest, Finished, AllApplied;
    if Widest(issues, v) {
      forall nets, events | Finished(su, issues, nets, events) ensures AllApplied(issues, nets, events, k, v) {
        WidestIsEnough(su, k, vs, issues, v, nets, events);
      }
    } else {
      var nets, events := NarrowCanWin(su, k, vs, issues, v);
    }
  }

  // ----- at a concrete input -----

  const PAIR := Topology([[5], [7]], map[(0, 5) := (1, 7), (1, 7) := (0, 5)])

  /** Two linked servers that verify everything: the first issues an exact invalidation and then, in
      the same second, one of the whole prefix.  Both reach the second server, nothing is in flight any
      more, and the second server still holds a row under the prefix. */
  lemma SameSecondIsLost(key: Name -> bytes, name: Name, epoch: nat) returns (nets: seq<Net>, events: seq<Event>)
    requires name.pin == None
    ensures var su := Setup(PAIR, key, (u, i) => true);
      var exact, prefix := Invalidate(name, epoch, false, None), Invalidate(name, epoch, true, None);
      && events == [Issue(0, exact), Deliver(Message(1, 7, exact)), Issue(0, prefix), Deliver(Message(1, 7, prefix))]
      && Finished(su, {(0, exact), (0, prefix)}, nets, events)
      && |nets[4].nodes| == 2 && exists r :: r in nets[4].nodes[1].rows && Covers(prefix, r.name)
  {
    hide Purge, Carried;
    var su := Setup(PAIR, key, (u, i) => true);
    var exact, prefix := Invalidate(name, epoch, false, None), Invalidate(name, epoch, true, None);
    var below := name.(path := name.path + [[]]);
    assert |below.path| == |name.path| + 1;
    var r := RowNamed(below);
    var e1, e2, e3, e4 :=
      Issue(0, exact), Deliver(Message(1, 7, exact)), Issue(0, prefix), Deliver(Message(1, 7, prefix));
    var n0 := Net([Node(map[], []), Node(map[], [r])], multiset{}, {});
    var n1 := PairIssues(su, n0, exact);
    var n2 := PairDelivers(su, n1, exact);
    var n3 := PairIssues(su, n2, prefix);
    var n4 := PairDelivers(su, n3, prefix);
    nets, events := [n0, n1, n2, n3, n4], [e1, e2, e3, e4];
    assert r in n0.nodes[1].rows && r in n1.nodes[1].rows && r in n2.nodes[1].rows;
    assert n4.nodes[1] == n2.nodes[1];
    assert Covers(prefix, r.name);
  }

  /** The first server of the pair issues: one message, to the second. */
  lemma PairIssues(su: Setup, net: Net, inv: Invalidate) returns (net': Net)
    requires su.topo == PAIR && |net.nodes| == 2 && net.inFlight == multiset{}
    ensures Enabled(su, net, Issue(0, inv)) && net' == Step(su, net, Issue(0, inv))
    ensures |net'.nodes| == 2 && net'.nodes[1] == net.nodes[1] && net'.inFlight == multiset{Message(1, 7, inv)}
    ensures net'.origins == net.origins + {(0, inv)}
  {
    hide Purge;
    net' := Step(su, net, Issue(0, inv));
    var sends := SendOn([5], inv);
    assert sends == [Send(5, inv)] && sends[1..] == [];
    assert Carried(PAIR, 0, sends) == multiset{Message(1, 7, inv)};
  }

  /** The second server of the pair receives: it applies what is newer, and has no other face to send on. */
  lemma PairDelivers(su: Setup, net: Net, inv: Invalidate) returns (net': Net)
    requires su.topo == PAIR && su.accepts(1, inv) && |net.nodes| == 2 && net.inFlight == multiset{Message(1, 7, inv)}
    ensures Enabled(su, net, Deliver(Message(1, 7, inv))) && net' == Step(su, net, Deliver(Message(1, 7, inv)))
    ensures |net'.nodes| == 2 && net'.inFlight == multiset{} && net'.origins == net.origins
    ensures net'.nodes[1] == (if IsNewer(net.nodes[1].seen, su.Key(inv), inv.epoch)
      then Node(net.nodes[1].seen[su.Key(inv) := inv.epoch], Purge(net.nodes[1].rows, inv)) else net.nodes[1])
  {
    hide Purge;
    net' := Step(su, net, Deliver(Message(1, 7, inv)));
    assert FacesOf(PAIR, 1) == [7];
    assert Remove([7 as nat][1..], 7) == [];
    assert Remove(FacesOf(PAIR, 1), 7) == [];
    assert SendOn([], inv) == [];
    NothingCarried(PAIR, 1);
  }
}
