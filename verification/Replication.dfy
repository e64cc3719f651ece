/** Replication of pushed Data between peered servers (rns_icn/server.py:437-449,
    rns_icn/propagation.py:305-384 and rns_icn/aps.py:98-140).  The code leaves out only the face the
    Data came in on, so loops are excluded by the peer graph, not by the code; and a publication goes
    to the subscribers of its stream before it goes to the peers, so a peer that has subscribed is
    sent it twice. */
module Replication {
  import opened Base
  import opened Packets
  import Store
  import opened Fibs
  import opened PeerGraph
  import F = Forwarding
  import ForwardingSafety

  // ----- one server -----

  /** Faces a propagation goes to: peers with a live face, except the one it came from. */
  function Targets(peers: seq<FaceId>, faces: set<FaceId>, exclude: Option<FaceId>): (r: seq<FaceId>)
    ensures forall f :: f in r <==> f in peers && f in faces && exclude != Some(f)
  {
    if peers == [] then []
    else if exclude == Some(peers[0]) || peers[0] !in faces then Targets(peers[1..], faces, exclude)
    else [peers[0]] + Targets(peers[1..], faces, exclude)
  }

  lemma {:induction false} TargetsDistinct(peers: seq<FaceId>, faces: set<FaceId>, exclude: Option<FaceId>)
    requires Distinct(peers)
    ensures Distinct(Targets(peers, faces, exclude))
  {
    if peers != [] {
      TargetsDistinct(peers[1..], faces, exclude);
      assert peers[0] !in peers[1..];
    }
  }

  // ----- the network -----

  /** Every copy in flight remembers the links it took.  `delivered` are the walks of the copies
      that have arrived; `states` are the forwarders of the servers. */
  datatype Net = Net(states: seq<F.State>, inFlight: multiset<Walk>, delivered: multiset<Walk>)

  /** Copies a server sends on: one for each target face. */
  function Copies(u: nat, w: Walk, targets: seq<FaceId>): (r: multiset<Walk>)
    ensures |r| == |targets|
  {
    if targets == [] then multiset{} else multiset{w + [(u, targets[0])]} + Copies(u, w, targets[1..])
  }

  /** The first server stores what it publishes and sends it to those of its peer faces that have
      subscribed to its stream, and then to every peer face. */
  function Published(cfg: F.Config, g: Graph, states: seq<F.State>, root: nat, subs: set<FaceId>, d: Data,
      wall: nat): Net
    requires root < |states| == |g.peers|
  {
    var faces := set f | f in g.peers[root];
    var s := states[root].(rows := Store.Inserted(cfg.store, states[root].rows, d.name, d, wall));
    Net(states[root := s],
        Copies(root, [], Targets(g.peers[root], subs, None)) + Copies(root, [], Targets(g.peers[root], faces, None)),
        multiset{})
  }

  predicate Enabled(g: Graph, net: Net, w: Walk) {
    && w in net.inFlight && w != [] && Last(w) in g.opposite
    && g.opposite[Last(w)].0 < |net.states| == |g.peers|
  }

  /** A copy arrives: received as solicited by the peering, then sent on to every other peer. */
  function Arrive(cfg: F.Config, g: Graph, net: Net, w: Walk, d: Data, wall: nat): Net
    requires Enabled(g, net, w)
  {
    var at := g.opposite[Last(w)];
    var faces := set f | f in g.peers[at.0];
    var s := F.ReceiveData(cfg, net.states[at.0], d, true, wall);
    Net(net.states[at.0 := s],
        net.inFlight - multiset{w} + Copies(at.0, w, Targets(g.peers[at.0], faces, Some(at.1))),
        net.delivered + multiset{w})
  }

  /** Clocks do not run behind what a store already holds. */
  ghost predicate OnTime(net: Net, u: nat, wall: nat)
    requires u < |net.states|
  {
    Store.InsertedBy(net.states[u].rows, wall)
  }

  ghost predicate IsRun(cfg: F.Config, g: Graph, nets: seq<Net>, arrivals: seq<(Walk, nat)>, d: Data) {
    && |nets| == |arrivals| + 1
    && forall i :: 0 <= i < |arrivals| ==>
         && Enabled(g, nets[i], arrivals[i].0)
         && OnTime(nets[i], g.opposite[Last(arrivals[i].0)].0, arrivals[i].1)
         && nets[i + 1] == Arrive(cfg, g, nets[i], arrivals[i].0, d, arrivals[i].1)
  }

  lemma {:induction false} CopiesAre(u: nat, w: Walk, targets: seq<FaceId>, x: Walk)
    ensures x in Copies(u, w, targets) <==> exists f :: f in targets && x == w + [(u, f)]
  {
    if targets != [] {
      CopiesAre(u, w, targets[1..], x);
      assert targets == [targets[0]] + targets[1..];
    }
  }

  lemma {:induction false} CopiesAreSingle(u: nat, w: Walk, targets: seq<FaceId>, x: Walk)
    requires Distinct(targets)
    ensures Copies(u, w, targets)[x] <= 1
  {
    if targets != [] {
      CopiesAreSingle(u, w, targets[1..], x);
      CopiesAre(u, w, targets[1..], x);
      assert targets[0] !in targets[1..];
      if x == w + [(u, targets[0])] {
        forall f | f in targets[1..] ensures x != w + [(u, f)] {
          assert (w + [(u, f)])[|w|] == (u, f) && x[|w|] == (u, targets[0]);
        }
      }
    }
  }

  // ----- what every step keeps -----

  ghost predicate Travelled(net: Net, w: Walk) {
    w == [] || w in net.delivered
  }

  /** How many copies the first server puts on a link. */
  function FirstCopies(subs: set<FaceId>, l: Link): nat { if l.1 in subs then 2 else 1 }

  /** How many copies have ever been sent along a walk: at the root one or two for each link, and
      further on one for each copy that arrived where the last link begins. */
  function Due(g: Graph, root: nat, subs: set<FaceId>, delivered: multiset<Walk>, x: Walk): nat {
    if x == [] || !Reduced(g, root, x) then 0
    else if |x| == 1 then FirstCopies(subs, x[0])
    else delivered[Init(x)]
  }

  /** Every copy sent is in flight or has arrived, and nothing else is. */
  ghost predicate Counted(g: Graph, root: nat, subs: set<FaceId>, net: Net) {
    forall x: Walk :: net.inFlight[x] + net.delivered[x] == Due(g, root, subs, net.delivered, x)
  }

  predicate Onwards(g: Graph, root: nat, w: Walk, l: Link) {
    && l in g.opposite && Reduced(g, root, w) && l.0 == End(g, root, w)
    && (w != [] ==> l != g.opposite[Last(w)])
  }

  ghost predicate Cached(cfg: F.Config, rows: Store.Rows, d: Data) {
    exists wall :: Store.Lookup(rows, d.name.Unpinned()) == Some(Store.RowFor(cfg.store, d.name, d, wall))
  }

  ghost predicate NodeOk(cfg: F.Config, s: F.State) {
    ForwardingSafety.Inv(cfg, s)
  }

  ghost predicate NodesOk(cfg: F.Config, g: Graph, root: nat, net: Net, d: Data) {
    && root < |net.states| == |g.peers|
    && (forall u :: 0 <= u < |net.states| ==> NodeOk(cfg, net.states[u]))
    && (forall w :: Travelled(net, w) ==>
        End(g, root, w) < |net.states| && Cached(cfg, net.states[End(g, root, w)].rows, d))
  }

  ghost predicate NetOk(cfg: F.Config, g: Graph, root: nat, subs: set<FaceId>, net: Net, d: Data) {
    Counted(g, root, subs, net) && NodesOk(cfg, g, root, net, d)
  }

  /** Sending on the copy that came by `w`: one new copy for each way onwards over a live face. */
  lemma CopiesAreOnwards(g: Graph, root: nat, w: Walk, live: set<FaceId>, exclude: Option<FaceId>, x: Walk)
    requires g.Valid() && Reduced(g, root, w) && End(g, root, w) < |g.peers|
    requires exclude == if w == [] then None else Some(g.opposite[Last(w)].1)
    ensures var u := End(g, root, w);
      var copies := Copies(u, w, Targets(g.peers[u], live, exclude));
      && copies[x] <= 1
      && (x in copies <==> x != [] && Init(x) == w && Onwards(g, root, w, Last(x)) && Last(x).1 in live)
  {
    hide Copies, Distinct, Onwards;
    var u := End(g, root, w);
    var targets := Targets(g.peers[u], live, exclude);
    var copies := Copies(u, w, targets);
    TargetsDistinct(g.peers[u], live, exclude);
    CopiesAre(u, w, targets, x);
    CopiesAreSingle(u, w, targets, x);
    if x in copies {
      var f :| f in targets && x == w + [(u, f)];
      assert Init(x) == w && Last(x) == (u, f);
      TargetIsOnwards(g, root, w, live, exclude, (u, f));
    }
    if x != [] && Init(x) == w && Onwards(g, root, w, Last(x)) && Last(x).1 in live {
      assert x == w + [Last(x)];
      TargetIsOnwards(g, root, w, live, exclude, Last(x));
    }
  }

  lemma TargetIsOnwards(g: Graph, root: nat, w: Walk, live: set<FaceId>, exclude: Option<FaceId>, l: Link)
    requires g.Valid() && Reduced(g, root, w) && End(g, root, w) < |g.peers|
    requires exclude == if w == [] then None else Some(g.opposite[Last(w)].1)
    ensures l.0 == End(g, root, w) && l.1 in Targets(g.peers[l.0], live, exclude)
      <==> Onwards(g, root, w, l) && l.1 in live
  {
    hide Distinct;
  }

  lemma OnwardsIsReduced(g: Graph, root: nat, w: Walk, x: Walk)
    requires g.Valid() && x != [] && Init(x) == w && Onwards(g, root, w, Last(x))
    ensures Reduced(g, root, x)
  {
    ExtendReduced(g, root, w, Last(x));
    assert x == w + [Last(x)];
  }

  lemma ReducedIsOnwards(g: Graph, root: nat, x: Walk)
    requires g.Valid() && x != []
    ensures Reduced(g, root, x) <==> Onwards(g, root, Init(x), Last(x))
    ensures Reduced(g, root, x) ==> Last(x).1 in g.peers[Last(x).0]
  {
    if Onwards(g, root, Init(x), Last(x)) {
      OnwardsIsReduced(g, root, Init(x), x);
    }
  }

  /** A copy that arrives is stored, whatever else is pending or stored there. */
  lemma ArrivalIsCached(cfg: F.Config, s: F.State, d: Data, wall: nat)
    requires cfg.Valid() && NodeOk(cfg, s) && Store.Storable(d) && Store.InsertedBy(s.rows, wall)
    ensures NodeOk(cfg, F.ReceiveData(cfg, s, d, true, wall))
    ensures Cached(cfg, F.ReceiveData(cfg, s, d, true, wall).rows, d)
  {
    hide ForwardingSafety.PitOk, ForwardingSafety.WaitersOk, ForwardingSafety.TasksOk, ForwardingSafety.RefreshOk,
      F.Matched, Store.Inserted, Store.RowFor;
    ForwardingSafety.ReceiveDataKeeps(cfg, s, d, true, wall);
    Store.NewRowSurvives(cfg.store, s.rows, d.name, d, wall);
    Store.InsertKeepsCapacity(cfg.store, s.rows, d.name, d, wall);
  }

  lemma PublishedIsCached(cfg: F.Config, s: F.State, d: Data, wall: nat)
    requires cfg.Valid() && NodeOk(cfg, s) && Store.Storable(d) && Store.InsertedBy(s.rows, wall)
    ensures var s' := s.(rows := Store.Inserted(cfg.store, s.rows, d.name, d, wall));
      NodeOk(cfg, s') && Cached(cfg, s'.rows, d)
  {
    hide ForwardingSafety.PitOk, ForwardingSafety.WaitersOk, ForwardingSafety.TasksOk, ForwardingSafety.RefreshOk,
      Store.Inserted, Store.RowFor;
    Store.InsertKeepsValid(cfg.store, s.rows, d.name, d, wall);
    Store.NewRowSurvives(cfg.store, s.rows, d.name, d, wall);
    Store.InsertKeepsCapacity(cfg.store, s.rows, d.name, d, wall);
  }

  lemma PublishedIsCounted(cfg: F.Config, g: Graph, states: seq<F.State>, root: nat, subs: set<FaceId>, d: Data,
      wall: nat)
    requires g.Valid() && root < |states| == |g.peers|
    ensures Counted(g, root, subs, Published(cfg, g, states, root, subs, d, wall))
    ensures Published(cfg, g, states, root, subs, d, wall).delivered == multiset{}
  {
    hide Copies, Targets, Store.Inserted, Onwards, Reduced;
    var net := Published(cfg, g, states, root, subs, d, wall);
    var faces := set f | f in g.peers[root];
    StartIsReduced(g, root);
    forall x: Walk ensures net.inFlight[x] + net.delivered[x] == Due(g, root, subs, net.delivered, x) {
      CopiesAreOnwards(g, root, [], subs, None, x);
      CopiesAreOnwards(g, root, [], faces, None, x);
      if x != [] {
        ReducedIsOnwards(g, root, x);
        FirstLink(g, root, x);
      }
    }
  }

  lemma StartIsReduced(g: Graph, root: nat)
    ensures Reduced(g, root, []) && End(g, root, []) == root
  {
  }

  lemma FirstLink(g: Graph, root: nat, x: Walk)
    requires x != []
    ensures Init(x) == [] <==> |x| == 1
    ensures |x| == 1 ==> Last(x) == x[0] && (Onwards(g, root, [], x[0]) ==> x[0].0 == root)
  {
  }

  lemma PublishedIsOk(cfg: F.Config, g: Graph, states: seq<F.State>, root: nat, subs: set<FaceId>, d: Data, wall: nat)
    requires cfg.Valid() && g.Valid() && root < |states| == |g.peers| && Store.Storable(d)
    requires (forall u :: 0 <= u < |states| ==> NodeOk(cfg, states[u])) && Store.InsertedBy(states[root].rows, wall)
    ensures NetOk(cfg, g, root, subs, Published(cfg, g, states, root, subs, d, wall), d)
  {
    hide NodeOk, Cached, Copies, Targets, Store.Inserted, Counted;
    PublishedIsCached(cfg, states[root], d, wall);
    PublishedIsCounted(cfg, g, states, root, subs, d, wall);
  }

  lemma InFlightIsReduced(g: Graph, root: nat, subs: set<FaceId>, net: Net, w: Walk)
    requires Counted(g, root, subs, net) && (w in net.inFlight || w in net.delivered)
    ensures w != [] && Reduced(g, root, w)
  {
    assert net.inFlight[w] + net.delivered[w] == Due(g, root, subs, net.delivered, w);
  }

  lemma ArriveKeepsCount(cfg: F.Config, g: Graph, root: nat, subs: set<FaceId>, net: Net, w: Walk, d: Data, wall: nat)
    requires g.Valid() && root < |g.peers| && Enabled(g, net, w) && Counted(g, root, subs, net)
    ensures Counted(g, root, subs, Arrive(cfg, g, net, w, d, wall))
  {
    hide Copies, Targets, F.ReceiveData, Reduced, Onwards;
    var net' := Arrive(cfg, g, net, w, d, wall);
    InFlightIsReduced(g, root, subs, net, w);
    ReducedEnds(g, root, w);
    var at := g.opposite[Last(w)];
    var faces := set f | f in g.peers[at.0];
    forall x: Walk ensures net'.inFlight[x] + net'.delivered[x] == Due(g, root, subs, net'.delivered, x) {
      assert net.inFlight[x] + net.delivered[x] == Due(g, root, subs, net.delivered, x);
      CopiesAreOnwards(g, root, w, faces, Some(at.1), x);
      if x != [] {
        ReducedIsOnwards(g, root, x);
        FirstLink(g, root, x);
        assert Onwards(g, root, w, Last(x)) ==> Last(x).0 == at.0 by { OnwardsStarts(g, root, w, Last(x)); }
      }
    }
  }

  lemma OnwardsStarts(g: Graph, root: nat, w: Walk, l: Link)
    requires w != [] && Last(w) in g.opposite
    ensures Onwards(g, root, w, l) ==> l.0 == g.opposite[Last(w)].0
  {
  }

  lemma ArriveKeepsNodes(cfg: F.Config, g: Graph, root: nat, subs: set<FaceId>, net: Net, w: Walk, d: Data, wall: nat)
    requires cfg.Valid() && g.Valid() && Store.Storable(d) && Enabled(g, net, w) && NodesOk(cfg, g, root, net, d)
    requires Counted(g, root, subs, net) && OnTime(net, g.opposite[Last(w)].0, wall)
    ensures NodesOk(cfg, g, root, Arrive(cfg, g, net, w, d, wall), d)
  {
    hide NodeOk, Cached, Copies, Targets, F.ReceiveData, Reduced, Counted;
    var at := g.opposite[Last(w)];
    ArrivalIsCached(cfg, net.states[at.0], d, wall);
    var net' := Arrive(cfg, g, net, w, d, wall);
    forall x | Travelled(net', x)
      ensures End(g, root, x) < |net'.states| && Cached(cfg, net'.states[End(g, root, x)].rows, d)
    {
      assert x == w || Travelled(net, x);
    }
  }

  type Arrivals = seq<(Walk, nat)>

  lemma {:induction false} RunKeepsNetOk(cfg: F.Config, g: Graph, root: nat, subs: set<FaceId>, nets: seq<Net>,
      arrivals: Arrivals, d: Data, k: nat)
    requires cfg.Valid() && g.Valid() && Store.Storable(d) && IsRun(cfg, g, nets, arrivals, d) && k <= |arrivals|
    requires NetOk(cfg, g, root, subs, nets[0], d)
    ensures NetOk(cfg, g, root, subs, nets[k], d)
    ensures |nets[k].delivered| == |nets[0].delivered| + k
  {
    hide Arrive, Counted, NodesOk;
    if k > 0 {
      RunKeepsNetOk(cfg, g, root, subs, nets, arrivals, d, k - 1);
      var a := arrivals[k - 1];
      RootInGraph(cfg, g, root, nets[k - 1], d);
      ArriveKeepsCount(cfg, g, root, subs, nets[k - 1], a.0, d, a.1);
      ArriveKeepsNodes(cfg, g, root, subs, nets[k - 1], a.0, d, a.1);
      ArriveDelivers(cfg, g, nets[k - 1], a.0, d, a.1);
    }
  }

  lemma RootInGraph(cfg: F.Config, g: Graph, root: nat, net: Net, d: Data)
    requires NodesOk(cfg, g, root, net, d)
    ensures root < |g.peers|
  {
  }

  lemma ArriveDelivers(cfg: F.Config, g: Graph, net: Net, w: Walk, d: Data, wall: nat)
    requires Enabled(g, net, w)
    ensures |Arrive(cfg, g, net, w, d, wall).delivered| == |net.delivered| + 1
  {
    hide F.ReceiveData, Copies;
  }

  // ----- how many copies arrive -----

  /** No more copies arrive by a walk than were put on its first link. */
  lemma {:induction false} CopiesAreBounded(g: Graph, root: nat, subs: set<FaceId>, net: Net, x: Walk)
    requires Counted(g, root, subs, net) && x != []
    ensures net.delivered[x] <= FirstCopies(subs, x[0])
    decreases |x|
  {
    assert net.inFlight[x] + net.delivered[x] == Due(g, root, subs, net.delivered, x);
    if |x| > 1 {
      CopiesAreBounded(g, root, subs, net, Init(x));
    }
  }

  /** When nothing is in flight exactly as many have arrived, by every walk there is. */
  lemma {:induction false} QuietMeansAllArrived(g: Graph, root: nat, subs: set<FaceId>, net: Net, x: Walk)
    requires Counted(g, root, subs, net) && net.inFlight == multiset{} && x != [] && Reduced(g, root, x)
    ensures net.delivered[x] == FirstCopies(subs, x[0])
    decreases |x|
  {
    assert net.inFlight[x] + net.delivered[x] == Due(g, root, subs, net.delivered, x);
    if |x| > 1 {
      QuietMeansAllArrived(g, root, subs, net, Init(x));
    }
  }

  /** When nothing is in flight, copies have been everywhere that links lead. */
  lemma {:induction false} QuietMeansEverywhere(g: Graph, root: nat, subs: set<FaceId>, net: Net, w: Walk)
    returns (t: Walk)
    requires g.Valid() && Counted(g, root, subs, net) && net.inFlight == multiset{} && IsWalk(g, root, w)
    ensures Travelled(net, t) && Reduced(g, root, t) && End(g, root, t) == End(g, root, w)
  {
    hide Counted;
    if w == [] {
      t := [];
    } else {
      t := QuietMeansEverywhere(g, root, subs, net, Init(w));
      var l := Last(w);
      if Onwards(g, root, t, l) {
        ExtendReduced(g, root, t, l);
        t := t + [l];
        QuietMeansAllArrived(g, root, subs, net, t);
      } else {
        t := Init(t);
        if t != [] {
          QuietMeansAllArrived(g, root, subs, net, t);
        }
      }
    }
  }

  lemma WithoutWalk(ws: multiset<Walk>, w: Walk)
    requires w in ws
    ensures |ws| == |ws[w := 0]| + ws[w]
  {
    var all: multiset<Walk> := multiset{};
    assert ws == ws[w := 0] + all[w := ws[w]];
  }

  lemma {:induction false} FewPerServer(g: Graph, root: nat, ws: multiset<Walk>, servers: set<nat>, c: nat)
    requires g.Valid() && Acyclic(g, root)
    requires forall w :: w in ws ==> Reduced(g, root, w) && ws[w] <= c && End(g, root, w) in servers
    ensures |ws| <= c * |servers|
    decreases |ws|
  {
    if ws != multiset{} {
      var w :| w in ws;
      var rest, others := ws[w := 0], servers - {End(g, root, w)};
      assert |ws| == |rest| + ws[w] && |rest| < |ws| by { WithoutWalk(ws, w); }
      forall x | x in rest ensures Reduced(g, root, x) && rest[x] <= c && End(g, root, x) in others {
        if End(g, root, x) == End(g, root, w) {
          ReducedWalkIsUnique(g, root, x, w);
        }
      }
      FewPerServer(g, root, rest, others, c);
      assert |others| == |servers| - 1;
      assert c * |servers| == c * (|servers| - 1) + c;
    }
  }

  function UpTo(n: nat): (r: set<nat>)
    ensures |r| == n
    ensures forall u: nat :: u in r <==> u < n
  {
    if n == 0 then {} else UpTo(n - 1) + {n - 1}
  }

  /** Peer faces of the root that have subscribed. */
  predicate Unsubscribed(g: Graph, root: nat, subs: set<FaceId>) {
    root < |g.peers| && forall f :: f in g.peers[root] ==> f !in subs
  }

  /** On an acyclic graph of `n` servers one publication ends: at most `n - 1` copies ever arrive, or
      twice as many if peers of the publisher have subscribed. */
  lemma ReplicationTerminates(cfg: F.Config, g: Graph, root: nat, subs: set<FaceId>, nets: seq<Net>,
      arrivals: Arrivals, d: Data)
    requires cfg.Valid() && g.Valid() && Acyclic(g, root) && Store.Storable(d) && IsRun(cfg, g, nets, arrivals, d)
    requires NetOk(cfg, g, root, subs, nets[0], d) && nets[0].delivered == multiset{}
    ensures root < |g.peers| && |arrivals| <= 2 * (|g.peers| - 1)
    ensures Unsubscribed(g, root, subs) ==> |arrivals| <= |g.peers| - 1
  {
    hide Arrive, Acyclic, NodesOk, Counted, Reduced;
    RunKeepsNetOk(cfg, g, root, subs, nets, arrivals, d, |arrivals|);
    var net := nets[|arrivals|];
    RootInGraph(cfg, g, root, net, d);
    var all := UpTo(|g.peers|);
    var c := if Unsubscribed(g, root, subs) then 1 else 2;
    forall w | w in net.delivered
      ensures Reduced(g, root, w) && net.delivered[w] <= c && End(g, root, w) in all - {root} {
      InFlightIsReduced(g, root, subs, net, w);
      CopiesAreBounded(g, root, subs, net, w);
      FirstLinkIsPeer(g, root, w);
      ReducedEnds(g, root, w);
      NotBackAtStart(g, root, w);
    }
    FewPerServer(g, root, net.delivered, all - {root}, c);
  }

  lemma {:induction false} FirstLinkIsPeer(g: Graph, root: nat, w: Walk)
    requires g.Valid() && root < |g.peers| && w != [] && Reduced(g, root, w)
    ensures w[0].0 == root && w[0].1 in g.peers[root]
    decreases |w|
  {
    if |w| > 1 {
      FirstLinkIsPeer(g, root, Init(w));
    } else {
      assert Init(w) == [];
    }
  }

  /** The Data reached `v` by one walk only, which nowhere went straight back over the link it had just
      come by, and by it as many copies as were put on its first link; the store there holds it. */
  ghost predicate ArrivedBy(cfg: F.Config, g: Graph, root: nat, subs: set<FaceId>, net: Net, d: Data, v: nat, w: Walk) {
    && w in net.delivered && w != [] && End(g, root, w) == v && Reduced(g, root, w)
    && net.delivered[w] == FirstCopies(subs, w[0])
    && (forall x :: x in net.delivered && End(g, root, x) == v ==> x == w)
    && v < |net.states| && Cached(cfg, net.states[v].rows, d)
  }

  ghost predicate Got(cfg: F.Config, g: Graph, root: nat, subs: set<FaceId>, net: Net, d: Data, v: nat) {
    exists w :: ArrivedBy(cfg, g, root, subs, net, d, v, w)
  }

  /** When nothing is in flight, the Data has arrived at exactly the other servers that links lead to
      from the first one, at each by one walk and as often as it was sent on that walk's first link;
      it is cached there, and at the first server too, and has not come back to that. */
  lemma ReplicationIsComplete(cfg: F.Config, g: Graph, root: nat, subs: set<FaceId>, nets: seq<Net>,
      arrivals: Arrivals, d: Data, v: nat)
    requires cfg.Valid() && g.Valid() && Acyclic(g, root) && Store.Storable(d) && IsRun(cfg, g, nets, arrivals, d)
    requires NetOk(cfg, g, root, subs, nets[0], d) && nets[|arrivals|].inFlight == multiset{}
    ensures var net := nets[|arrivals|];
      && (v != root && Connected(g, root, v) <==> Got(cfg, g, root, subs, net, d, v))
      && (forall w :: w in net.delivered ==> End(g, root, w) != root)
      && root < |net.states| && Cached(cfg, net.states[root].rows, d)
  {
    hide Arrive, Acyclic, Cached, Reduced, IsWalk, NodeOk, Counted;
    RunKeepsNetOk(cfg, g, root, subs, nets, arrivals, d, |arrivals|);
    var net := nets[|arrivals|];
    if v != root && Connected(g, root, v) {
      var w :| IsWalk(g, root, w) && End(g, root, w) == v;
      var t := QuietMeansEverywhere(g, root, subs, net, w);
      QuietMeansAllArrived(g, root, subs, net, t);
      UniqueArrival(g, root, subs, net, t);
      assert ArrivedBy(cfg, g, root, subs, net, d, v, t);
    }
    if w :| ArrivedBy(cfg, g, root, subs, net, d, v, w) {
      NotBackAtStart(g, root, w);
      ReducedIsWalk(g, root, w);
    }
    forall w | w in net.delivered ensures End(g, root, w) != root {
      InFlightIsReduced(g, root, subs, net, w);
      NotBackAtStart(g, root, w);
    }
    assert Travelled(net, []);
  }

  lemma UniqueArrival(g: Graph, root: nat, subs: set<FaceId>, net: Net, t: Walk)
    requires g.Valid() && Acyclic(g, root) && Counted(g, root, subs, net) && t in net.delivered
    ensures forall x :: x in net.delivered && End(g, root, x) == End(g, root, t) ==> x == t
  {
    hide Acyclic, Reduced, Counted;
    InFlightIsReduced(g, root, subs, net, t);
    forall x | x in net.delivered && End(g, root, x) == End(g, root, t) ensures x == t {
      InFlightIsReduced(g, root, subs, net, x);
      ReducedWalkIsUnique(g, root, x, t);
    }
  }

  /** The whole story of one publication on an acyclic graph. */
  lemma PublishingReplicates(cfg: F.Config, g: Graph, states: seq<F.State>, root: nat, subs: set<FaceId>, d: Data,
      wall: nat, nets: seq<Net>, arrivals: Arrivals)
    requires cfg.Valid() && g.Valid() && Acyclic(g, root) && Store.Storable(d) && root < |states| == |g.peers|
    requires (forall u :: 0 <= u < |states| ==> NodeOk(cfg, states[u])) && Store.InsertedBy(states[root].rows, wall)
    requires IsRun(cfg, g, nets, arrivals, d) && nets[0] == Published(cfg, g, states, root, subs, d, wall)
    ensures |arrivals| <= 2 * (|g.peers| - 1) && (Unsubscribed(g, root, subs) ==> |arrivals| <= |g.peers| - 1)
    ensures nets[|arrivals|].inFlight == multiset{} ==> forall v: nat ::
      (v != root && Connected(g, root, v) <==> Got(cfg, g, root, subs, nets[|arrivals|], d, v))
  {
    hide Arrive, Acyclic, Cached, Reduced, NodeOk, Counted, NodesOk, Connected, Got, Copies, Targets, Unsubscribed;
    PublishedIsOk(cfg, g, states, root, subs, d, wall);
    PublishedIsCounted(cfg, g, states, root, subs, d, wall);
    ReplicationTerminates(cfg, g, root, subs, nets, arrivals, d);
    if nets[|arrivals|].inFlight == multiset{} {
      forall v: nat
        ensures v != root && Connected(g, root, v) <==> Got(cfg, g, root, subs, nets[|arrivals|], d, v)
      {
        ReplicationIsComplete(cfg, g, root, subs, nets, arrivals, d, v);
      }
    }
  }

  // ----- once, and only then -----

  /** A clock reading no store is ahead of. */
  function Latest(rows: Store.Rows): (r: nat)
    ensures Store.InsertedBy(rows, r)
  {
    if rows == [] then 0 else Max(rows[0].insertedAt, Latest(rows[1..]))
  }

  function TimeAt(g: Graph, net: Net, x: Walk): (wall: nat)
    requires Enabled(g, net, x)
    ensures x != [] && Last(x) in g.opposite && g.opposite[Last(x)].0 < |net.states|
    ensures OnTime(net, g.opposite[Last(x)].0, wall)
  {
    Latest(net.states[g.opposite[Last(x)].0].rows)
  }

  lemma ExtendRun(cfg: F.Config, g: Graph, nets: seq<Net>, arrivals: seq<(Walk, nat)>, d: Data, x: Walk, wall: nat)
    requires IsRun(cfg, g, nets, arrivals, d)
    requires Enabled(g, nets[|arrivals|], x) && OnTime(nets[|arrivals|], g.opposite[Last(x)].0, wall)
    ensures IsRun(cfg, g, nets + [Arrive(cfg, g, nets[|arrivals|], x, d, wall)], arrivals + [(x, wall)], d)
  {
    hide Arrive, Enabled, OnTime;
  }

  /** Copies can travel any reduced walk, one link after the other. */
  lemma {:induction false} FollowWalk(cfg: F.Config, g: Graph, root: nat, subs: set<FaceId>, net: Net, d: Data,
      w: Walk, k: nat)
    returns (nets: seq<Net>, arrivals: Arrivals)
    requires cfg.Valid() && g.Valid() && Store.Storable(d) && NetOk(cfg, g, root, subs, net, d)
    requires net.delivered == multiset{}
    requires Reduced(g, root, w) && k <= |w|
    ensures IsRun(cfg, g, nets, arrivals, d) && nets[0] == net && |arrivals| == k
    ensures NetOk(cfg, g, root, subs, nets[k], d)
    ensures forall x :: x in nets[k].delivered ==> 0 < |x| <= k
    ensures Travelled(nets[k], w[..k])
  {
    hide Arrive, NetOk, Reduced, Enabled, Travelled;
    if k == 0 {
      FirstIsTravelled(net);
      nets, arrivals := [net], [];
    } else {
      nets, arrivals := FollowWalk(cfg, g, root, subs, net, d, w, k - 1);
      var x := w[..k];
      PrefixIsReduced(g, root, w, k);
      assert Init(x) == w[..k - 1];
      NextIsInFlight(cfg, g, root, subs, nets[k - 1], d, x);
      nets, arrivals := Extended(cfg, g, root, subs, nets, arrivals, d, x);
    }
  }

  /** One more arrival at the end of a run. */
  lemma Extended(cfg: F.Config, g: Graph, root: nat, subs: set<FaceId>, nets: seq<Net>, arrivals: Arrivals, d: Data,
      x: Walk)
    returns (nets': seq<Net>, arrivals': Arrivals)
    requires cfg.Valid() && g.Valid() && Store.Storable(d) && IsRun(cfg, g, nets, arrivals, d)
    requires NetOk(cfg, g, root, subs, nets[0], d) && Enabled(g, nets[|arrivals|], x)
    ensures IsRun(cfg, g, nets', arrivals', d) && nets'[0] == nets[0] && |arrivals'| == |arrivals| + 1
    ensures NetOk(cfg, g, root, subs, nets'[|arrivals'|], d)
    ensures nets'[|arrivals'|].delivered == nets[|arrivals|].delivered + multiset{x}
    ensures Travelled(nets'[|arrivals'|], x)
  {
    hide Arrive, NetOk, Enabled, Travelled;
    var last := nets[|arrivals|];
    var wall := TimeAt(g, last, x);
    ExtendRun(cfg, g, nets, arrivals, d, x, wall);
    nets', arrivals' := nets + [Arrive(cfg, g, last, x, d, wall)], arrivals + [(x, wall)];
    RunKeepsNetOk(cfg, g, root, subs, nets', arrivals', d, |arrivals'|);
    ArrivedNow(cfg, g, last, x, d, wall);
  }

  lemma ArrivedNow(cfg: F.Config, g: Graph, net: Net, w: Walk, d: Data, wall: nat)
    requires Enabled(g, net, w)
    ensures Arrive(cfg, g, net, w, d, wall).delivered == net.delivered + multiset{w}
    ensures Travelled(Arrive(cfg, g, net, w, d, wall), w)
  {
    hide F.ReceiveData, Copies;
  }

  lemma FirstIsTravelled(net: Net)
    ensures Travelled(net, [])
  {
  }

  lemma NextIsInFlight(cfg: F.Config, g: Graph, root: nat, subs: set<FaceId>, net: Net, d: Data, x: Walk)
    requires g.Valid() && NetOk(cfg, g, root, subs, net, d) && x != [] && Reduced(g, root, x)
    requires Travelled(net, Init(x))
    requires (x !in net.delivered || (|x| == 1 && net.delivered[x] < FirstCopies(subs, x[0])))
    ensures Enabled(g, net, x)
  {
    hide Cached, NodeOk;
    assert net.inFlight[x] + net.delivered[x] == Due(g, root, subs, net.delivered, x);
    ReducedEnds(g, root, x);
  }

  ghost predicate Echoed(g: Graph, root: nat, net: Net) {
    exists w :: w in net.delivered && End(g, root, w) == root
  }

  /** No copy has come back to the first server, and none has reached any server that had one. */
  ghost predicate AtMostOnce(g: Graph, root: nat, net: Net) {
    forall w :: w in net.delivered ==>
      End(g, root, w) != root && net.delivered[w] == 1
        && forall x :: x in net.delivered && End(g, root, x) == End(g, root, w) ==> x == w
  }

  /** The Data can come back to its publisher in some run if and only if the graph is not acyclic from
      there.  The nonce check named in the documentation plays no part in this path. */
  lemma EchoesExactlyOnCycles(cfg: F.Config, g: Graph, root: nat, subs: set<FaceId>, net: Net, d: Data)
    requires cfg.Valid() && g.Valid() && Store.Storable(d) && NetOk(cfg, g, root, subs, net, d)
    requires net.delivered == multiset{}
    ensures Acyclic(g, root) <==>
      forall nets, arrivals :: IsRun(cfg, g, nets, arrivals, d) && nets[0] == net ==> !Echoed(g, root, nets[|arrivals|])
  {
    hide Arrive, Counted, NodesOk, Reduced;
    if !Acyclic(g, root) {
      var w :| w != [] && Reduced(g, root, w) && End(g, root, w) == root;
      var nets, arrivals := FollowWalk(cfg, g, root, subs, net, d, w, |w|);
      assert w[..|w|] == w;
      assert Echoed(g, root, nets[|arrivals|]);
    } else {
      forall nets, arrivals | IsRun(cfg, g, nets, arrivals, d) && nets[0] == net
        ensures !Echoed(g, root, nets[|arrivals|]) {
        NoEchoWhenAcyclic(cfg, g, root, subs, nets, arrivals, d);
      }
    }
  }

  lemma NoEchoWhenAcyclic(cfg: F.Config, g: Graph, root: nat, subs: set<FaceId>, nets: seq<Net>, arrivals: Arrivals,
      d: Data)
    requires cfg.Valid() && g.Valid() && Acyclic(g, root) && Store.Storable(d) && IsRun(cfg, g, nets, arrivals, d)
    requires NetOk(cfg, g, root, subs, nets[0], d)
    ensures !Echoed(g, root, nets[|arrivals|])
  {
    hide Arrive, Counted, NodesOk, Reduced, Acyclic;
    RunKeepsNetOk(cfg, g, root, subs, nets, arrivals, d, |arrivals|);
    forall w | w in nets[|arrivals|].delivered ensures End(g, root, w) != root {
      InFlightIsReduced(g, root, subs, nets[|arrivals|], w);
      NotBackAtStart(g, root, w);
    }
  }

  lemma OnceWhenAcyclicAndUnsubscribed(cfg: F.Config, g: Graph, root: nat, subs: set<FaceId>, nets: seq<Net>,
      arrivals: Arrivals, d: Data)
    requires cfg.Valid() && g.Valid() && Acyclic(g, root) && Unsubscribed(g, root, subs) && Store.Storable(d)
    requires IsRun(cfg, g, nets, arrivals, d) && NetOk(cfg, g, root, subs, nets[0], d)
    ensures AtMostOnce(g, root, nets[|arrivals|])
  {
    hide Arrive, Counted, NodesOk, Reduced, Acyclic;
    RunKeepsNetOk(cfg, g, root, subs, nets, arrivals, d, |arrivals|);
    var net := nets[|arrivals|];
    forall w | w in net.delivered
      ensures End(g, root, w) != root && net.delivered[w] == 1
      ensures forall x :: x in net.delivered && End(g, root, x) == End(g, root, w) ==> x == w
    {
      InFlightIsReduced(g, root, subs, net, w);
      NotBackAtStart(g, root, w);
      CopiesAreBounded(g, root, subs, net, w);
      FirstLinkIsPeer(g, root, w);
      UniqueArrival(g, root, subs, net, w);
    }
  }

  /** A peer of the publisher that has subscribed can get the same Data twice over the same face. */
  lemma SubscribedPeerGetsTwo(cfg: F.Config, g: Graph, root: nat, subs: set<FaceId>, net: Net, d: Data, f: FaceId)
    returns (nets: seq<Net>, arrivals: Arrivals)
    requires cfg.Valid() && g.Valid() && Store.Storable(d) && NetOk(cfg, g, root, subs, net, d)
    requires net.delivered == multiset{}
    requires root < |g.peers| && f in g.peers[root] && f in subs
    ensures IsRun(cfg, g, nets, arrivals, d) && nets[0] == net && |arrivals| == 2
    ensures nets[2].delivered == multiset{[(root, f)], [(root, f)]}
  {
    hide Arrive, NetOk, Enabled, Travelled;
    var x := [(root, f)];
    assert Reduced(g, root, x) by { assert Init(x) == [] && (root, f) in g.opposite; }
    assert Init(x) == [];
    FirstIsTravelled(net);
    NextIsInFlight(cfg, g, root, subs, net, d, x);
    nets, arrivals := Extended(cfg, g, root, subs, [net], [], d, x);
    FirstIsTravelled(nets[1]);
    NextIsInFlight(cfg, g, root, subs, nets[1], d, x);
    nets, arrivals := Extended(cfg, g, root, subs, nets, arrivals, d, x);
  }

  /** The exact condition for exactly-once: whatever the order of arrivals, no server gets the Data
      again if and only if the graph is acyclic from the publisher and no peer of the publisher has
      subscribed to the stream. */
  lemma OnceExactlyWhen(cfg: F.Config, g: Graph, root: nat, subs: set<FaceId>, net: Net, d: Data)
    requires cfg.Valid() && g.Valid() && Store.Storable(d) && NetOk(cfg, g, root, subs, net, d)
    requires net.delivered == multiset{}
    ensures Acyclic(g, root) && Unsubscribed(g, root, subs) <==>
      forall nets, arrivals ::
        IsRun(cfg, g, nets, arrivals, d) && nets[0] == net ==> AtMostOnce(g, root, nets[|arrivals|])
  {
    hide Arrive, NetOk, Reduced, Acyclic;
    EchoesExactlyOnCycles(cfg, g, root, subs, net, d);
    if Acyclic(g, root) && Unsubscribed(g, root, subs) {
      forall nets, arrivals | IsRun(cfg, g, nets, arrivals, d) && nets[0] == net
        ensures AtMostOnce(g, root, nets[|arrivals|]) {
        OnceWhenAcyclicAndUnsubscribed(cfg, g, root, subs, nets, arrivals, d);
      }
    } else if Acyclic(g, root) {
      NetHasRoot(cfg, g, root, subs, net, d);
      var f :| f in g.peers[root] && f in subs;
      var nets, arrivals := SubscribedPeerGetsTwo(cfg, g, root, subs, net, d, f);
      assert nets[|arrivals|].delivered[[(root, f)]] == 2;
    } else {
      var nets, arrivals :| IsRun(cfg, g, nets, arrivals, d) && nets[0] == net && Echoed(g, root, nets[|arrivals|]);
      assert !AtMostOnce(g, root, nets[|arrivals|]);
    }
  }

  lemma NetHasRoot(cfg: F.Config, g: Graph, root: nat, subs: set<FaceId>, net: Net, d: Data)
    requires NetOk(cfg, g, root, subs, net, d)
    ensures root < |g.peers|
  {
  }

  lemma {:induction false} WalksAreBounded(ws: multiset<Walk>) returns (n: nat)
    ensures forall w :: w in ws ==> |w| < n
    decreases |ws|
  {
    if ws == multiset{} {
      n := 0;
    } else {
      var w :| w in ws;
      n := WalksAreBounded(ws - multiset{w});
      n := if |w| < n then n else |w| + 1;
    }
  }

  /** On a graph with a cycle a publication never ends: at no point of any run is nothing in flight. */
  lemma NeverEndsOnCycles(cfg: F.Config, g: Graph, root: nat, subs: set<FaceId>, nets: seq<Net>, arrivals: Arrivals,
      d: Data)
    requires cfg.Valid() && g.Valid() && !Acyclic(g, root) && Store.Storable(d) && IsRun(cfg, g, nets, arrivals, d)
    requires NetOk(cfg, g, root, subs, nets[0], d)
    ensures nets[|arrivals|].inFlight != multiset{}
  {
    hide Arrive, Counted, NodesOk, Reduced;
    RunKeepsNetOk(cfg, g, root, subs, nets, arrivals, d, |arrivals|);
    var net := nets[|arrivals|];
    if net.inFlight == multiset{} {
      var n := WalksAreBounded(net.delivered);
      var w :| w != [] && Reduced(g, root, w) && End(g, root, w) == root;
      var x := CyclesAreEndless(g, root, w, n);
      QuietMeansAllArrived(g, root, subs, net, x);
      assert false;
    }
  }

  // ----- at concrete inputs -----

  const PAIR := Graph([[5], [7]], map[(0, 5) := (1, 7), (1, 7) := (0, 5)])

  /** Two peered servers, and the second has subscribed: it gets one publication twice. */
  lemma SubscribedPairGetsTwo(cfg: F.Config, states: seq<F.State>, d: Data, wall: nat)
    returns (nets: seq<Net>, arrivals: Arrivals)
    requires cfg.Valid() && Store.Storable(d) && states == [F.START, F.START]
    ensures IsRun(cfg, PAIR, nets, arrivals, d) && nets[0] == Published(cfg, PAIR, states, 0, {5}, d, wall)
    ensures |arrivals| == 2 && nets[2].delivered == multiset{[(0, 5)], [(0, 5)]}
  {
    hide NodeOk, Published, Arrive;
    StartIsOk(cfg);
    assert PAIR.Valid();
    PublishedIsOk(cfg, PAIR, states, 0, {5}, d, wall);
    PublishedIsCounted(cfg, PAIR, states, 0, {5}, d, wall);
    nets, arrivals := SubscribedPeerGetsTwo(cfg, PAIR, 0, {5}, Published(cfg, PAIR, states, 0, {5}, d, wall), d, 5);
  }

  lemma StartIsOk(cfg: F.Config)
    ensures NodeOk(cfg, F.START) && F.START.rows == []
  {
  }

  const RING := Graph([[1, 2], [1, 2], [1, 2]], RING_LINKS)

  const RING_LINKS: map<Link, Link> :=
    map[(0, 1) := (1, 2), (1, 2) := (0, 1), (1, 1) := (2, 2), (2, 2) := (1, 1), (2, 1) := (0, 2), (0, 2) := (2, 1)]

  /** Three servers peered in a ring: what the first publishes can come back to it, and a publication
      never ends. */
  lemma RingEchoes(cfg: F.Config, states: seq<F.State>, d: Data, wall: nat) returns (nets: seq<Net>, arrivals: Arrivals)
    requires cfg.Valid() && Store.Storable(d) && states == [F.START, F.START, F.START]
    ensures IsRun(cfg, RING, nets, arrivals, d) && nets[0] == Published(cfg, RING, states, 0, {}, d, wall)
    ensures Echoed(RING, 0, nets[|arrivals|]) && nets[|arrivals|].inFlight != multiset{}
  {
    hide NodeOk, Published, Arrive, Counted, NodesOk, Enabled, Store.Storable, Reduced, Acyclic;
    StartIsOk(cfg);
    RingIsValid();
    var round := RingHasCycle();
    PublishedIsOk(cfg, RING, states, 0, {}, d, wall);
    PublishedIsCounted(cfg, RING, states, 0, {}, d, wall);
    nets, arrivals := FollowWalk(cfg, RING, 0, {}, Published(cfg, RING, states, 0, {}, d, wall), d, round, |round|);
    assert round[..|round|] == round;
    NeverEndsOnCycles(cfg, RING, 0, {}, nets, arrivals, d);
  }

  lemma RingIsValid()
    ensures RING.Valid()
  {
    hide Distinct;
    PairIsDistinct(1, 2);
    forall u | 0 <= u < 3 ensures RING.peers[u] == [1, 2] {
    }
    forall l: Link ensures l in RING_LINKS <==> l.0 < 3 && l.1 in [1, 2] {
    }
    forall l | l in RING_LINKS ensures IsPaired(l) {
      RingPairs(l);
    }
  }

  predicate IsPaired(l: Link)
    requires l in RING_LINKS
  {
    RING_LINKS[l] in RING_LINKS && RING_LINKS[l] != l && RING_LINKS[RING_LINKS[l]] == l
  }

  lemma RingPairs(l: Link)
    requires l in RING_LINKS
    ensures IsPaired(l)
  {
    if l == (0, 1) || l == (1, 2) {
    } else if l == (1, 1) || l == (2, 2) {
    } else {
      assert l == (2, 1) || l == (0, 2);
    }
  }

  lemma PairIsDistinct(a: FaceId, b: FaceId)
    requires a != b
    ensures Distinct([a, b])
  {
  }

  lemma RingHasCycle() returns (w: Walk)
    ensures w != [] && Reduced(RING, 0, w) && End(RING, 0, w) == 0 && !Acyclic(RING, 0)
  {
    var a: Walk, b: Walk, c: Walk := [(0, 1)], [(0, 1), (1, 1)], [(0, 1), (1, 1), (2, 1)];
    assert Init(a) == [] && Init(b) == a && Init(c) == b;
    assert Reduced(RING, 0, a);
    assert Reduced(RING, 0, b);
    assert Reduced(RING, 0, c);
    w := c;
  }
}
