/** Which Interests keep to d + d^2 + ... + d^h transmissions (rns_icn/server.py:198-225 and 313-320,
    rns_icn/propagation.py:158-210): all but those for the manifest of a server with downstream peers. */
module Manifests {
  import opened Base
  import opened Names
  import opened Packets
  import Store
  import opened Fibs
  import opened Pits
  import opened Strategies
  import opened Forwarding
  import opened Spread
  import opened Trails
  import opened Network

  /** No server is asked for a manifest of this name that it would fetch others for. */
  predicate FetchesNothing(nw: Network, n: Name) {
    forall u :: 0 <= u < |nw.sites| && nw.sites[u].Manifest() == n ==> nw.sites[u].downstream == map[]
  }

  function SumOfBounds(d: nat, ms: seq<Message>): nat {
    if ms == [] then 0 else SumOfBounds(d, ms[..|ms| - 1]) + SumOfPowers(d, ms[|ms| - 1].interest.hopLimit)
  }

  lemma {:induction false} PlainPotential(b: Budget, ms: seq<Message>)
    requires forall m :: m in ms ==> b.Rank(m.interest.name) == 0
    ensures InFlightPotential(b, ms) == SumOfBounds(b.d, ms)
  {
    if ms != [] {
      PlainPotential(b, ms[..|ms| - 1]);
      BoundIsSumOfPowers(b.d, b.m, ms[|ms| - 1].interest.hopLimit);
    }
  }

  /** Any number of Interests over an otherwise quiet network, none of which makes a server fetch
      manifests: each causes at most d + d^2 + ... + d^h transmissions for its own hops, and no chain of
      transmissions is longer than the largest hop limit. */
  lemma PlainSpreadIsBounded(d: nat, nw: Network, nets: seq<Net>, events: seq<NetEvent>, k: nat)
    requires nw.Valid() && IsNetRun(d, nw, nets, events) && k <= |events| && QuietNet(nets[0])
    requires forall m :: m in nets[0].inFlight ==> FetchesNothing(nw, m.interest.name)
    ensures nets[k].transmitted <= SumOfBounds(d, nets[0].inFlight)
  {
    hide NetStep, NetEnabled, FewHops, InFlightPotential, SumOfBounds, QuietNet;
    var names := set m | m in nets[0].inFlight :: m.interest.name;
    var b := Budget(d, 0, map n | n in names :: 0);
    SpreadIsBounded(b, nw, nets, events, k);
    PlainPotential(b, nets[0].inFlight);
  }

  /** The run starts with one fresh Interest and nothing else going on. */
  ghost predicate OneInterest(d: nat, nw: Network, nets: seq<Net>, events: seq<NetEvent>, n: Name, h: nat)
    requires nw.Valid()
  {
    && IsNetRun(d, nw, nets, events) && QuietNet(nets[0])
    && |nets[0].inFlight| == 1 && nets[0].inFlight[0].interest.name == n && nets[0].inFlight[0].interest.hopLimit == h
  }

  lemma PlainInterestIsBounded(d: nat, nw: Network, nets: seq<Net>, events: seq<NetEvent>, n: Name, h: nat, k: nat)
    requires nw.Valid() && OneInterest(d, nw, nets, events, n, h) && k <= |events| && FetchesNothing(nw, n)
    ensures nets[k].transmitted <= SumOfPowers(d, h)
    ensures forall m :: m in nets[k].inFlight ==> m.interest.hopLimit + m.depth == h
  {
    hide NetStep, NetEnabled, FewHops, SumOfPowers, QuietNet, FetchesNothing;
    PlainSpreadIsBounded(d, nw, nets, events, k);
    var ms := nets[0].inFlight;
    assert ms[..|ms| - 1] == [];
    assert SumOfBounds(d, ms) == SumOfPowers(d, h);
    PlainChains(d, nw, nets, events, n, h, k);
  }

  lemma PlainChains(d: nat, nw: Network, nets: seq<Net>, events: seq<NetEvent>, n: Name, h: nat, k: nat)
    requires nw.Valid() && OneInterest(d, nw, nets, events, n, h) && k <= |events| && FetchesNothing(nw, n)
    ensures forall m :: m in nets[k].inFlight ==> m.interest.hopLimit + m.depth == h
  {
    hide NetStep, NetEnabled, FewHops, ClaimHolds;
    var b := Budget(d, 0, map[n := 0]);
    forall m | m in nets[0].inFlight ensures Fits(b, Trail(h, 0), m.interest, 0) {
      assert m == nets[0].inFlight[0];
    }
    QuietNetworkFits(b, Trail(h, 0), nw, nets[0]);
    ChainsAreShort(b, nw, nets, events, h, 0, k);
  }

  // ----- what a fetch adds -----

  const COST := 20

  /** A forwarder whose one route leads to a peer. */
  function RouteTo(face: FaceId, peer: bytes): State {
    START.(faces := {face}, routes := [FibEntry(Name(peer, [], None), [NextHop(face, COST)])])
  }

  /** An Interest without hops arrives at server `u`, which has a route to one downstream peer. */
  function AskedNet(nw: Network, u: nat, face: FaceId, peer: bytes): Net
    requires u < |nw.sites|
  {
    Net(seq(|nw.sites|, v => if v == u then RouteTo(face, peer) else START), seq(|nw.sites|, _ => []),
        [Message(u, 0, Interest(nw.sites[u].Manifest(), [], FETCH_LIFETIME, false, false, None, 0), 0)], [], 0)
  }

  lemma OneRoute(d: nat, face: FaceId, peer: bytes)
    requires d >= 1
    ensures FewHops(d, RouteTo(face, peer)) && FewHops(d, START)
    ensures Lookup(RouteTo(face, peer).routes, ManifestName(peer)) == [NextHop(face, COST)]
  {
    var e := FibEntry(Name(peer, [], None), [NextHop(face, COST)]);
    assert [e][1..] == [];
    forall n: Name ensures |Lookup([e], n)| <= 1 && |Lookup([], n)| == 0 {
      assert Best([e], n, None) == if n.StartsWith(e.prefix) then Some(e) else None;
    }
    assert ManifestName(peer).path[..0] == [];
    assert Best([e], ManifestName(peer), None) == Some(e);
  }

  lemma EmptyStoreServesNothing(site: Site, s: State, i: Interest, wall: nat)
    requires s.rows == []
    ensures Store.Live(s.rows, wall) == [] && Unserved(site, s, i, wall) && CacheHit(site.cfg, s.rows, i, wall) == None
    ensures Store.Get(site.cfg.store, s.rows, i.name, wall) == None
  {
  }

  /** With a route and an empty store a fetch is transmitted. */
  lemma FetchGoesOut(site: Site, face: FaceId, peer: bytes, nonce: bytes, clk: Clock)
    requires site.cfg.Valid()
    ensures var s, i := RouteTo(face, peer), FetchInterest(peer, nonce);
      var s' := Express(site.cfg, Looked(s, clk.wall), i, face, clk, []);
      s'.sent == [Transmission(face, Spent(i))] && |s'.tasks| == 1
  {
    hide CacheHit, Lookup, Store.Live, RecordNonce;
    var s, i := RouteTo(face, peer), FetchInterest(peer, nonce);
    EmptyStoreServesNothing(site, s, i, clk.wall);
    OneRoute(1, face, peer);
    var hops := [NextHop(face, COST)];
    assert hops[1..] == [];
    assert FirstUsable(hops, map[], site.cfg.tuning, clk.mono) == Some(face);
    assert UsableFaces(hops, map[], site.cfg.tuning, clk.mono) == [face];
    assert Candidates(hops, face, map[], site.cfg.tuning, clk.mono) == [face];
  }

  lemma ServeStarts(nw: Network, u: nat, face: FaceId, peer: bytes)
    requires nw.Valid() && u < |nw.sites| && face in nw.sites[u].downstream
    ensures var net := AskedNet(nw, u, face, peer);
      && NetEnabled(nw, net, Serve(0, {face}, 0))
      && NetStep(nw, net, Serve(0, {face}, 0)) == net.(inFlight := [], jobs := [Job(u, {face}, None, 0, false)])
  {
    hide Unserved;
    var net := AskedNet(nw, u, face, peer);
    EmptyStoreServesNothing(nw.sites[u], net.nodes[u], net.inFlight[0].interest, 0);
  }

  lemma FetchFollows(nw: Network, u: nat, face: FaceId, net: Net)
    requires nw.Valid() && u < |nw.sites| == |net.nodes| && face in nw.sites[u].downstream
    requires net.nodes[u] == RouteTo(face, nw.sites[u].downstream[face]) && net.jobs == [Job(u, {face}, None, 0, false)]
    ensures NetEnabled(nw, net, Fetch(0, face, [], Clock(0, 0), []))
    ensures NetStep(nw, net, Fetch(0, face, [], Clock(0, 0), [])).transmitted == net.transmitted + 1
  {
    hide Express, RouteTo, Messages, Store.Get;
    var peer := nw.sites[u].downstream[face];
    StartsEmpty(face, peer);
    EmptyStoreServesNothing(nw.sites[u], net.nodes[u], FetchInterest(peer, []), 0);
    FetchGoesOut(nw.sites[u], face, peer, [], Clock(0, 0));
  }

  lemma StartsEmpty(face: FaceId, peer: bytes)
    ensures RouteTo(face, peer).rows == [] && RouteTo(face, peer).tasks == [] && RouteTo(face, peer).sent == []
  {
  }

  /** A server asked for its manifest by an Interest that may not travel sends one all the same. */
  lemma FetchTransmits(d: nat, nw: Network, u: nat, face: FaceId) returns (nets: seq<Net>, events: seq<NetEvent>)
    requires nw.Valid() && d >= 1 && u < |nw.sites| && face in nw.sites[u].downstream
    ensures OneInterest(d, nw, nets, events, nw.sites[u].Manifest(), 0) && |events| == 2
    ensures nets[0] == AskedNet(nw, u, face, nw.sites[u].downstream[face]) && nets[2].transmitted == 1
  {
    hide NetStep, NetEnabled, FewHops;
    var peer := nw.sites[u].downstream[face];
    var net0 := AskedNet(nw, u, face, peer);
    var e0, e1 := Serve(0, {face}, 0), Fetch(0, face, [], Clock(0, 0), []);
    ServeStarts(nw, u, face, peer);
    var net1 := NetStep(nw, net0, e0);
    FetchFollows(nw, u, face, net1);
    nets, events := [net0, net1, NetStep(nw, net1, e1)], [e0, e1];
    OneRoute(d, face, peer);
  }

  /** The run kept to the bound for one Interest with `h` hops. */
  predicate KeepsToBound(d: nat, nets: seq<Net>, events: seq<NetEvent>, h: nat) {
    |events| < |nets| && nets[|events|].transmitted <= SumOfPowers(d, h)
  }

  /** The exact condition: with any routes at all (d >= 1), an Interest for a name keeps to
      d + d^2 + ... + d^h transmissions, for every hop limit and from every quiet network, if and only if
      no server of that manifest name has a downstream peer. */
  lemma BoundHoldsExactlyWhen(d: nat, nw: Network, n: Name)
    requires nw.Valid() && d >= 1
    ensures FetchesNothing(nw, n) <==>
      forall h: nat, nets, events :: OneInterest(d, nw, nets, events, n, h) ==> KeepsToBound(d, nets, events, h)
  {
    hide NetStep, NetEnabled, FewHops, QuietNet;
    if FetchesNothing(nw, n) {
      forall h: nat, nets, events | OneInterest(d, nw, nets, events, n, h) ensures KeepsToBound(d, nets, events, h) {
        PlainInterestIsBounded(d, nw, nets, events, n, h, |events|);
      }
    } else {
      var u :| 0 <= u < |nw.sites| && nw.sites[u].Manifest() == n && nw.sites[u].downstream != map[];
      var face :| face in nw.sites[u].downstream;
      var nets, events := FetchTransmits(d, nw, u, face);
      assert !KeepsToBound(d, nets, events, 0);
    }
  }

  // ----- at a concrete input -----

  /** Two linked servers, the second a downstream peer of the first. */
  function Pair(cfg: Config, a: bytes, b: bytes): Network {
    Network([Site(cfg, a, map[1 := b]), Site(cfg, b, map[])], map[(0, 1) := (1, 2), (1, 2) := (0, 1)])
  }

  /** An Interest for the first server's manifest that may not travel at all makes it send one with
      fresh hops to the second: one transmission more than d + ... + d^0, in a chain longer than 0. */
  lemma ManifestExceedsBound(cfg: Config, a: bytes, b: bytes) returns (nets: seq<Net>, events: seq<NetEvent>)
    requires cfg.Valid()
    ensures OneInterest(1, Pair(cfg, a, b), nets, events, ManifestName(a), 0) && |events| == 2
    ensures nets[2].transmitted == 1 > SumOfPowers(1, 0)
  {
    hide OneInterest;
    nets, events := FetchTransmits(1, Pair(cfg, a, b), 0, 1);
  }

  /** The pair's manifests nest once, so the general bound applies to it. */
  lemma PairIsNested(cfg: Config, a: bytes, b: bytes, d: nat)
    requires a != b
    ensures Nested(Budget(d, 1, map[ManifestName(a) := 1, ManifestName(b) := 0]), Pair(cfg, a, b))
  {
    assert |map[1 := b]| == 1;
  }
}
