/** How far Interests can spread over a network of servers (rns_icn/server.py:198-332 over
    rns_icn/forwarder.py, rns_icn/propagation.py:158-210).  A transmission on a face becomes a message to
    whatever server is at the other end.  Messages may be delivered in any order, answered from the
    receiving server's store, or lost, and any other forwarder step may happen in between: Data, NACKs,
    timeouts, withdrawals, purges.  An Interest for a server's own manifest is not forwarded: the server
    builds the manifest, for which it fetches, with fresh Interests, those of its downstream peers. */
module Network {
  import opened Base
  import opened Names
  import opened Packets
  import Store
  import Servers
  import opened Fibs
  import opened Forwarding
  import opened Spread
  import opened Trails

  type Links = map<(nat, FaceId), (nat, FaceId)>

  /** A server: its address, and the addresses of the peers that may be marked downstream. */
  datatype Site = Site(cfg: Config, addr: bytes, downstream: map<FaceId, bytes>) {
    function Manifest(): Name { ManifestName(addr) }
  }

  datatype Network = Network(sites: seq<Site>, links: Links) {
    predicate Valid() { forall u :: 0 <= u < |sites| ==> sites[u].cfg.Valid() }
  }

  /** "manifest" */
  const MANIFEST: bytes := [109, 97, 110, 105, 102, 101, 115, 116]

  function ManifestName(addr: bytes): Name { Name(addr, [MANIFEST], None) }

  const FETCH_LIFETIME: nat := 10000

  function FetchInterest(addr: bytes, nonce: bytes): Interest {
    Interest(ManifestName(addr), nonce, FETCH_LIFETIME, false, false, None, DEFAULT_HOPS)
  }

  /** An Interest in flight; `depth` counts the transmissions in the chain that led to it. */
  datatype Message = Message(node: nat, inFace: FaceId, interest: Interest, depth: nat)

  /** A manifest being built: peers still to ask, and the call that is awaited. */
  datatype Job = Job(node: nat, todo: set<FaceId>, fetch: Option<nat>, depth: nat, published: bool)

  /** `depths` remembers, for every task of every node, the depth of the message that started it. */
  datatype Net = Net(nodes: seq<State>, depths: seq<seq<nat>>, inFlight: seq<Message>, jobs: seq<Job>, transmitted: nat)

  datatype NetEvent =
    | Deliver(message: nat, clk: Clock, refreshNonce: bytes)                        // the node forwards or drops it
    | Absorb(message: nat)                                                         // answered from the store, or lost
    | Serve(message: nat, todo: set<FaceId>, wall: nat)                            // a manifest is asked for
    | Fetch(job: nat, face: FaceId, nonce: bytes, clk: Clock, refreshNonce: bytes) // the next downstream peer
    | Publish(job: nat, data: Data, wall: nat)                                     // the manifest is stored
    | Local(node: nat, event: Event, clk: Clock)                                   // any other step of a forwarder

  /** The server's store does not answer; signing has no part in that. */
  predicate Unserved(site: Site, s: State, i: Interest, wall: nat) {
    Servers.ServeFromCs(site.cfg.store, site.addr, None, s.rows, i, wall).None?
  }

  /** The job is not waiting for a fetch to return. */
  predicate Ready(net: Net, job: Job) {
    && !job.published && job.node < |net.nodes|
    && (job.fetch.Some? ==>
          job.fetch.value < |net.nodes[job.node].tasks| && net.nodes[job.node].tasks[job.fetch.value].phase.Done?)
  }

  predicate Arrives(nw: Network, net: Net, m: nat) {
    m < |net.inFlight| && net.inFlight[m].node < |net.nodes| && net.inFlight[m].node < |nw.sites|
  }

  predicate NetEnabled(nw: Network, net: Net, e: NetEvent) {
    match e
    case Deliver(m, clk, _) =>
      && Arrives(nw, net, m)
      && var msg := net.inFlight[m];
      && msg.interest.name != nw.sites[msg.node].Manifest()
      && Unserved(nw.sites[msg.node], net.nodes[msg.node], msg.interest, clk.wall)
    case Absorb(m) => m < |net.inFlight|
    case Serve(m, todo, wall) =>
      && Arrives(nw, net, m)
      && var msg := net.inFlight[m];
      && msg.interest.name == nw.sites[msg.node].Manifest()
      && Unserved(nw.sites[msg.node], net.nodes[msg.node], msg.interest, wall)
      && todo <= nw.sites[msg.node].downstream.Keys
    case Fetch(j, face, _, _, _) =>
      && j < |net.jobs| && Ready(net, net.jobs[j]) && face in net.jobs[j].todo
      && net.jobs[j].node < |nw.sites| && face in nw.sites[net.jobs[j].node].downstream
    case Publish(j, d, _) =>
      && j < |net.jobs| && Ready(net, net.jobs[j]) && net.jobs[j].todo == {}
      && net.jobs[j].node < |nw.sites| && d.name == nw.sites[net.jobs[j].node].Manifest()
    case Local(u, ev, _) => u < |net.nodes| && u < |nw.sites| && Enabled(net.nodes[u], ev) && !ev.ExpressEvent?
  }

  /** Transmissions become messages, except on faces that lead nowhere. */
  function Messages(links: Links, u: nat, sends: seq<Transmission>, depth: nat): seq<Message> {
    if sends == [] then []
    else
      var last := sends[|sends| - 1];
      var before := Messages(links, u, sends[..|sends| - 1], depth);
      if (u, last.face) in links then
        before + [Message(links[(u, last.face)].0, links[(u, last.face)].1, last.interest, depth)]
      else before
  }

  /** Node `u` moves to `s'` because of something `depth` transmissions down a chain. */
  function Emit(links: Links, net: Net, u: nat, s': State, depth: nat): Net
    requires u < |net.nodes|
  {
    var sends := NewSends(net.nodes[u], s');
    var known := if u < |net.depths| then net.depths[u] else [];
    Net(net.nodes[u := s'],
        if u < |net.depths| then net.depths[u := known + seq(Max(0, |s'.tasks| - |known|), _ => depth)] else net.depths,
        net.inFlight + Messages(links, u, sends, depth + 1),
        net.jobs,
        net.transmitted + |sends|)
  }

  /** The depth of the task a step runs, if it runs one. */
  function DepthOf(net: Net, u: nat, e: Event): nat {
    var t := if e.StartRefreshEvent? || e.RegisterEvent? || e.ResumeEvent? then e.task else 0;
    if u < |net.depths| && t < |net.depths[u]| then net.depths[u][t] else 0
  }

  function Take(net: Net, m: nat): Net
    requires m < |net.inFlight|
  {
    net.(inFlight := net.inFlight[..m] + net.inFlight[m + 1..])
  }

  /** Looking for a peer's manifest in the store purges what has expired there. */
  function Looked(s: State, wall: nat): State { s.(rows := Store.Live(s.rows, wall)) }

  /** A peer's manifest is taken from the store, or else asked for; the call's outcome is not used. */
  function FetchNext(nw: Network, net: Net, j: nat, face: FaceId, nonce: bytes, clk: Clock, refreshNonce: bytes): Net
    requires nw.Valid() && NetEnabled(nw, net, Fetch(j, face, nonce, clk, refreshNonce))
  {
    var job := net.jobs[j];
    var site, s := nw.sites[job.node], net.nodes[job.node];
    var cached := Store.Get(site.cfg.store, s.rows, ManifestName(site.downstream[face]), clk.wall).Some?;
    var left := job.(todo := job.todo - {face}, fetch := if cached then None else Some(|s.tasks|));
    var net1 := net.(jobs := net.jobs[j := left]);
    if cached then net1.(nodes := net.nodes[job.node := Looked(s, clk.wall)])
    else
      var i := FetchInterest(site.downstream[face], nonce);
      Emit(nw.links, net1, job.node, Express(site.cfg, Looked(s, clk.wall), i, face, clk, refreshNonce), job.depth)
  }

  function NetStep(nw: Network, net: Net, e: NetEvent): Net
    requires nw.Valid() && NetEnabled(nw, net, e)
  {
    match e
    case Deliver(m, clk, nonce) =>
      var msg := net.inFlight[m];
      var s := net.nodes[msg.node];
      Emit(nw.links, Take(net, m), msg.node,
           Express(nw.sites[msg.node].cfg, s, msg.interest, msg.inFace, clk, nonce), msg.depth)
    case Absorb(m) => Take(net, m)
    case Serve(m, todo, _) =>
      Take(net, m).(jobs := net.jobs + [Job(net.inFlight[m].node, todo, None, net.inFlight[m].depth, false)])
    case Fetch(j, face, nonce, clk, refreshNonce) => FetchNext(nw, net, j, face, nonce, clk, refreshNonce)
    case Publish(j, d, wall) =>
      var u := net.jobs[j].node;
      var s := net.nodes[u];
      var rows := if Store.Storable(d) then Store.Inserted(nw.sites[u].cfg.store, s.rows, d.name, d, wall) else s.rows;
      net.(nodes := net.nodes[u := s.(rows := rows)], jobs := net.jobs[j := net.jobs[j].(published := true)])
    case Local(u, ev, clk) =>
      Emit(nw.links, net, u, Step(nw.sites[u].cfg, net.nodes[u], ev, clk), DepthOf(net, u, ev))
  }

  /** A run in which no lookup ever has more than `d` next hops. */
  ghost predicate IsNetRun(d: nat, nw: Network, nets: seq<Net>, events: seq<NetEvent>)
    requires nw.Valid()
  {
    && |nets| == |events| + 1
    && forall k :: 0 <= k < |events| ==>
         && NetEnabled(nw, nets[k], events[k]) && nets[k + 1] == NetStep(nw, nets[k], events[k])
         && forall u :: 0 <= u < |nets[k].nodes| ==> FewHops(d, nets[k].nodes[u])
  }

  // ----- what stays within the claim -----

  /** The ranked names are closed under fetching, and fetching lowers the rank. */
  ghost predicate Nested(b: Budget, nw: Network) {
    forall u :: 0 <= u < |nw.sites| && nw.sites[u].Manifest() in b.rank ==>
      && |nw.sites[u].downstream| <= b.m
      && forall f :: f in nw.sites[u].downstream ==>
           var n := ManifestName(nw.sites[u].downstream[f]);
           n in b.rank && b.rank[n] < b.rank[nw.sites[u].Manifest()]
  }

  /** A job fetches on behalf of an Interest that keeps to the claim. */
  predicate JobFits(b: Budget, c: Claim, nw: Network, job: Job) {
    && job.node < |nw.sites| && job.todo <= nw.sites[job.node].downstream.Keys
    && var n := nw.sites[job.node].Manifest();
    && n in b.rank
    && match c
       case Ranked => true
       case Trail(h, r) => b.rank[n] <= r && DEFAULT_HOPS * b.rank[n] + job.depth <= h + DEFAULT_HOPS * r
  }

  ghost predicate ClaimHolds(b: Budget, c: Claim, nw: Network, net: Net) {
    && |net.depths| == |net.nodes|
    && (forall u :: 0 <= u < |net.nodes| ==> NodeChainsOk(b, c, net.nodes[u].tasks, net.depths[u]))
    && (forall m :: m in net.inFlight ==> Fits(b, c, m.interest, m.depth))
    && (forall j :: 0 <= j < |net.jobs| ==> JobFits(b, c, nw, net.jobs[j]))
  }

  lemma {:induction false} MessagesFit(b: Budget, c: Claim, links: Links, u: nat, sends: seq<Transmission>, depth: nat)
    requires SendsOnChain(b, c, sends, depth)
    ensures forall m :: m in Messages(links, u, sends, depth) ==> Fits(b, c, m.interest, m.depth)
  {
    hide Fits;
    if sends != [] {
      MessagesFit(b, c, links, u, sends[..|sends| - 1], depth);
    }
  }

  lemma EmitKeepsClaim(b: Budget, c: Claim, nw: Network, net: Net, u: nat, s': State, depth: nat)
    requires ClaimHolds(b, c, nw, net) && u < |net.nodes| && ExtendsChain(b, c, net.nodes[u], s', net.depths[u], depth)
    ensures ClaimHolds(b, c, nw, Emit(nw.links, net, u, s', depth))
  {
    hide Messages, NewSends, Fits, JobFits, NodeChainsOk;
    NodeChainsLength(b, c, net.nodes[u].tasks, net.depths[u]);
    MessagesFit(b, c, nw.links, u, NewSends(net.nodes[u], s'), depth + 1);
  }

  lemma ServedFits(b: Budget, c: Claim, nw: Network, msg: Message, todo: set<FaceId>)
    requires Fits(b, c, msg.interest, msg.depth) && msg.node < |nw.sites|
    requires msg.interest.name == nw.sites[msg.node].Manifest() && todo <= nw.sites[msg.node].downstream.Keys
    ensures JobFits(b, c, nw, Job(msg.node, todo, None, msg.depth, false))
  {
  }

  /** A fetch has a lower rank than the manifest it is for, and so room for its fresh hops. */
  lemma FetchFits(b: Budget, c: Claim, nw: Network, job: Job, face: FaceId, nonce: bytes)
    requires Nested(b, nw) && JobFits(b, c, nw, job) && face in job.todo
    ensures Fits(b, c, FetchInterest(nw.sites[job.node].downstream[face], nonce), job.depth)
  {
  }

  lemma TakeKeepsClaim(b: Budget, c: Claim, nw: Network, net: Net, m: nat)
    requires ClaimHolds(b, c, nw, net) && m < |net.inFlight|
    ensures ClaimHolds(b, c, nw, Take(net, m)) && Fits(b, c, net.inFlight[m].interest, net.inFlight[m].depth)
  {
    hide Fits, JobFits, NodeChainsOk;
    assert net.inFlight[m] in net.inFlight;
    forall x | x in Take(net, m).inFlight ensures x in net.inFlight {
    }
  }

  lemma JobKeepsClaim(b: Budget, c: Claim, nw: Network, net: Net, j: nat, job: Job)
    requires ClaimHolds(b, c, nw, net) && j < |net.jobs| && JobFits(b, c, nw, net.jobs[j])
    requires job.node == net.jobs[j].node && job.todo <= net.jobs[j].todo && job.depth == net.jobs[j].depth
    ensures ClaimHolds(b, c, nw, net.(jobs := net.jobs[j := job]))
  {
    hide Fits, NodeChainsOk;
  }

  lemma RowsKeepClaim(b: Budget, c: Claim, nw: Network, net: Net, u: nat, s: State)
    requires ClaimHolds(b, c, nw, net) && u < |net.nodes| && s.tasks == net.nodes[u].tasks
    ensures ClaimHolds(b, c, nw, net.(nodes := net.nodes[u := s]))
  {
    hide Fits, NodeChainsOk, JobFits;
  }

  lemma FetchKeepsClaim(b: Budget, c: Claim, nw: Network, net: Net, e: NetEvent)
    requires nw.Valid() && Nested(b, nw) && e.Fetch? && NetEnabled(nw, net, e) && ClaimHolds(b, c, nw, net)
    ensures ClaimHolds(b, c, nw, NetStep(nw, net, e))
  {
    hide Express, NodeChainsOk, ExtendsChain, Emit, Fits, JobFits, Nested;
    var job := net.jobs[e.job];
    var site, s := nw.sites[job.node], net.nodes[job.node];
    var cached := Store.Get(site.cfg.store, s.rows, ManifestName(site.downstream[e.face]), e.clk.wall).Some?;
    var left := job.(todo := job.todo - {e.face}, fetch := if cached then None else Some(|s.tasks|));
    var net1 := net.(jobs := net.jobs[e.job := left]);
    FetchFits(b, c, nw, job, e.face, e.nonce);
    JobKeepsClaim(b, c, nw, net, e.job, left);
    if cached {
      RowsKeepClaim(b, c, nw, net1, job.node, Looked(s, e.clk.wall));
    } else {
      var i := FetchInterest(site.downstream[e.face], e.nonce);
      var s' := Express(site.cfg, Looked(s, e.clk.wall), i, e.face, e.clk, e.refreshNonce);
      ExpressExtends(b, c, site.cfg, Looked(s, e.clk.wall), net.depths[job.node], i, e.face, e.clk, e.refreshNonce,
        job.depth);
      LookedExtends(b, c, s, e.clk.wall, s', net.depths[job.node], job.depth);
      EmitKeepsClaim(b, c, nw, net1, job.node, s', job.depth);
    }
  }

  lemma LookedExtends(b: Budget, c: Claim, s: State, wall: nat, s': State, depths: seq<nat>, depth: nat)
    requires ExtendsChain(b, c, Looked(s, wall), s', depths, depth)
    ensures ExtendsChain(b, c, s, s', depths, depth)
  {
    hide NodeChainsOk, SendsOnChain;
  }

  lemma NetStepKeepsClaim(b: Budget, c: Claim, nw: Network, net: Net, e: NetEvent)
    requires nw.Valid() && Nested(b, nw) && NetEnabled(nw, net, e) && ClaimHolds(b, c, nw, net)
    ensures ClaimHolds(b, c, nw, NetStep(nw, net, e))
  {
    hide Express, Step, NodeChainsOk, ExtendsChain, Emit, Fits, JobFits, Nested, Unserved;
    match e
    case Deliver(m, clk, nonce) =>
      var msg := net.inFlight[m];
      TakeKeepsClaim(b, c, nw, net, m);
      ExpressExtends(b, c, nw.sites[msg.node].cfg, net.nodes[msg.node], net.depths[msg.node], msg.interest, msg.inFace,
        clk, nonce, msg.depth);
      EmitKeepsClaim(b, c, nw, Take(net, m), msg.node,
        Express(nw.sites[msg.node].cfg, net.nodes[msg.node], msg.interest, msg.inFace, clk, nonce), msg.depth);
    case Absorb(m) => TakeKeepsClaim(b, c, nw, net, m);
    case Serve(m, todo, wall) =>
      TakeKeepsClaim(b, c, nw, net, m);
      ServedFits(b, c, nw, net.inFlight[m], todo);
    case Fetch(j, face, nonce, clk, refreshNonce) => FetchKeepsClaim(b, c, nw, net, e);
    case Publish(j, d, wall) =>
      var s := net.nodes[net.jobs[j].node];
      JobKeepsClaim(b, c, nw, net, j, net.jobs[j].(published := true));
      RowsKeepClaim(b, c, nw, net.(jobs := net.jobs[j := net.jobs[j].(published := true)]), net.jobs[j].node,
        NetStep(nw, net, e).nodes[net.jobs[j].node]);
    case Local(u, ev, clk) =>
      NodeChainsLength(b, c, net.nodes[u].tasks, net.depths[u]);
      OtherStepsExtend(b, c, nw.sites[u].cfg, net.nodes[u], net.depths[u], ev, clk, DepthOf(net, u, ev));
      EmitKeepsClaim(b, c, nw, net, u, Step(nw.sites[u].cfg, net.nodes[u], ev, clk), DepthOf(net, u, ev));
  }

  lemma {:induction false} RunKeepsClaim(b: Budget, c: Claim, nw: Network, nets: seq<Net>, events: seq<NetEvent>,
      k: nat)
    requires nw.Valid() && Nested(b, nw) && IsNetRun(b.d, nw, nets, events) && k <= |events|
    requires ClaimHolds(b, c, nw, nets[0])
    ensures ClaimHolds(b, c, nw, nets[k])
  {
    hide NetStep, NetEnabled, FewHops, Nested, ClaimHolds;
    if k > 0 {
      RunKeepsClaim(b, c, nw, nets, events, k - 1);
      NetStepKeepsClaim(b, c, nw, nets[k - 1], events[k - 1]);
    }
  }

  /** A forwarder with nothing left to transmit. */
  ghost predicate Quiet(s: State) {
    forall t :: 0 <= t < |s.tasks| ==> !s.tasks[t].phase.Scheduled? && s.tasks[t].Rest() == []
  }

  /** Nothing is under way but the Interests in flight, and these are fresh. */
  ghost predicate QuietNet(net: Net) {
    && |net.depths| == |net.nodes| && net.jobs == [] && net.transmitted == 0
    && (forall u :: 0 <= u < |net.nodes| ==> Quiet(net.nodes[u]) && |net.depths[u]| == |net.nodes[u].tasks|)
    && (forall m :: m in net.inFlight ==> m.depth == 0)
  }

  /** A quiet network keeps to any claim its Interests keep to. */
  lemma QuietNetworkFits(b: Budget, c: Claim, nw: Network, net: Net)
    requires QuietNet(net) && forall m :: m in net.inFlight ==> Fits(b, c, m.interest, 0)
    ensures ClaimHolds(b, c, nw, net)
  {
    hide Fits;
  }

  /** No chain of transmissions that began with an Interest of rank `r` and `h` hops is longer than `h`
      and the default number of hops for each rank; where serving fetches nothing, not longer than `h`,
      and what is in flight has used up exactly one hop for each transmission that led to it. */
  lemma ChainsAreShort(b: Budget, nw: Network, nets: seq<Net>, events: seq<NetEvent>, h: nat, r: nat, k: nat)
    requires nw.Valid() && Nested(b, nw) && IsNetRun(b.d, nw, nets, events) && k <= |events|
    requires ClaimHolds(b, Trail(h, r), nw, nets[0])
    ensures forall m :: m in nets[k].inFlight ==> m.depth <= h + DEFAULT_HOPS * r
    ensures r == 0 ==> forall m :: m in nets[k].inFlight ==> m.interest.hopLimit + m.depth == h
  {
    hide NetStep, NetEnabled, FewHops, Nested, NodeChainsOk, JobFits;
    RunKeepsClaim(b, Trail(h, r), nw, nets, events, k);
    forall m | m in nets[k].inFlight ensures m.depth <= h + DEFAULT_HOPS * r {
      assert Fits(b, Trail(h, r), m.interest, m.depth);
    }
  }

  // ----- how much is transmitted -----

  function InFlightPotential(b: Budget, ms: seq<Message>): nat {
    if ms == [] then 0 else InFlightPotential(b, ms[..|ms| - 1]) + b.Worth(ms[|ms| - 1].interest)
  }

  function NodesPotential(b: Budget, nodes: seq<State>): nat {
    if nodes == [] then 0 else NodesPotential(b, nodes[..|nodes| - 1]) + Potential(b, nodes[|nodes| - 1].tasks)
  }

  /** What each fetch for a manifest of rank `r` can cause. */
  function PerFetch(b: Budget, r: nat): nat { if r == 0 then 0 else Bound(b.d, b.m, r - 1, DEFAULT_HOPS) }

  function JobPotential(b: Budget, nw: Network, job: Job): nat {
    if job.node < |nw.sites| then |job.todo| * PerFetch(b, b.Rank(nw.sites[job.node].Manifest())) else 0
  }

  function JobsPotential(b: Budget, nw: Network, jobs: seq<Job>): nat {
    if jobs == [] then 0 else JobsPotential(b, nw, jobs[..|jobs| - 1]) + JobPotential(b, nw, jobs[|jobs| - 1])
  }

  function Total(b: Budget, nw: Network, net: Net): nat {
    net.transmitted + NodesPotential(b, net.nodes) + InFlightPotential(b, net.inFlight) + JobsPotential(b, nw, net.jobs)
  }

  lemma {:induction false} NodesUpdate(b: Budget, nodes: seq<State>, u: nat, s: State)
    requires u < |nodes|
    ensures NodesPotential(b, nodes[u := s]) + Potential(b, nodes[u].tasks) ==
      NodesPotential(b, nodes) + Potential(b, s.tasks)
  {
    var last := |nodes| - 1;
    if u == last {
      assert nodes[u := s][..last] == nodes[..last];
    } else {
      assert nodes[u := s][..last] == nodes[..last][u := s];
      NodesUpdate(b, nodes[..last], u, s);
    }
  }

  lemma {:induction false} JobsUpdate(b: Budget, nw: Network, jobs: seq<Job>, j: nat, job: Job)
    requires j < |jobs|
    ensures JobsPotential(b, nw, jobs[j := job]) + JobPotential(b, nw, jobs[j]) ==
      JobsPotential(b, nw, jobs) + JobPotential(b, nw, job)
  {
    hide JobPotential;
    var last := |jobs| - 1;
    if j == last {
      assert jobs[j := job][..last] == jobs[..last];
    } else {
      assert jobs[j := job][..last] == jobs[..last][j := job];
      JobsUpdate(b, nw, jobs[..last], j, job);
    }
  }

  lemma {:induction false} InFlightConcat(b: Budget, x: seq<Message>, y: seq<Message>)
    ensures InFlightPotential(b, x + y) == InFlightPotential(b, x) + InFlightPotential(b, y)
  {
    if y == [] {
      assert x + y == x;
    } else {
      assert (x + y)[..|x + y| - 1] == x + y[..|y| - 1];
      InFlightConcat(b, x, y[..|y| - 1]);
    }
  }

  lemma TakeSpends(b: Budget, net: Net, m: nat)
    requires m < |net.inFlight|
    ensures InFlightPotential(b, Take(net, m).inFlight) + b.Worth(net.inFlight[m].interest) ==
      InFlightPotential(b, net.inFlight)
  {
    var ms := net.inFlight;
    InFlightConcat(b, ms[..m], ms[m + 1..]);
    InFlightConcat(b, ms[..m], [ms[m]]);
    InFlightConcat(b, ms[..m] + [ms[m]], ms[m + 1..]);
    assert ms == ms[..m] + [ms[m]] + ms[m + 1..];
    assert [ms[m]][..0] == [];
  }

  lemma {:induction false} MessagesCost(b: Budget, links: Links, u: nat, sends: seq<Transmission>, depth: nat)
    ensures |sends| + InFlightPotential(b, Messages(links, u, sends, depth)) <= Cost(b, sends)
  {
    hide Bound;
    if sends != [] {
      MessagesCost(b, links, u, sends[..|sends| - 1], depth);
      var ms := Messages(links, u, sends, depth);
      if (u, sends[|sends| - 1].face) in links {
        assert ms[..|ms| - 1] == Messages(links, u, sends[..|sends| - 1], depth);
      }
    }
  }

  lemma EmitSpends(b: Budget, nw: Network, net: Net, u: nat, s': State, depth: nat)
    requires u < |net.nodes|
    ensures Total(b, nw, Emit(nw.links, net, u, s', depth)) + Potential(b, net.nodes[u].tasks)
         <= Total(b, nw, net) + Potential(b, s'.tasks) + Cost(b, NewSends(net.nodes[u], s'))
  {
    hide Potential, Cost, NodesPotential, InFlightPotential, JobsPotential, Messages;
    var sends := NewSends(net.nodes[u], s');
    NodesUpdate(b, net.nodes, u, s');
    InFlightConcat(b, net.inFlight, Messages(nw.links, u, sends, depth + 1));
    MessagesCost(b, nw.links, u, sends, depth + 1);
  }

  /** Serving an Interest is paid for by what it is worth. */
  lemma ServeSpends(b: Budget, nw: Network, msg: Message, job: Job)
    requires Nested(b, nw) && msg.interest.name in b.rank && msg.node < |nw.sites| && job.node == msg.node
    requires msg.interest.name == nw.sites[msg.node].Manifest() && job.todo <= nw.sites[msg.node].downstream.Keys
    ensures JobPotential(b, nw, job) <= b.Worth(msg.interest)
  {
    var r := b.Rank(msg.interest.name);
    SubsetSize(job.todo, nw.sites[msg.node].downstream.Keys);
    Times(|job.todo|, b.m, PerFetch(b, r));
    assert Fetches(b.d, b.m, r) == b.m * PerFetch(b, r);
  }

  /** One fetch less to do pays for the fetch. */
  lemma FetchIsPaid(b: Budget, nw: Network, job: Job, face: FaceId, left: Job, i: Interest)
    requires Nested(b, nw) && JobFits(b, Ranked, nw, job) && face in job.todo
    requires left.node == job.node && left.todo == job.todo - {face}
    requires i.hopLimit == DEFAULT_HOPS && i.name == ManifestName(nw.sites[job.node].downstream[face])
    ensures JobPotential(b, nw, left) + b.Worth(i) <= JobPotential(b, nw, job)
  {
    hide Bound;
    var r := b.Rank(nw.sites[job.node].Manifest());
    assert b.Rank(i.name) < r;
    BoundGrows(b.d, b.m, b.Rank(i.name), r - 1, DEFAULT_HOPS);
    HopsShrink(|left.todo|, |job.todo|, PerFetch(b, r));
  }

  lemma FetchSpends(b: Budget, nw: Network, net: Net, e: NetEvent)
    requires nw.Valid() && Nested(b, nw) && e.Fetch? && NetEnabled(nw, net, e) && ClaimHolds(b, Ranked, nw, net)
    requires forall u :: 0 <= u < |net.nodes| ==> FewHops(b.d, net.nodes[u])
    ensures Total(b, nw, NetStep(nw, net, e)) <= Total(b, nw, net)
  {
    hide Potential, Cost, NodesPotential, InFlightPotential, JobsPotential, JobPotential, Express, Bound, Emit, Nested,
      NodeChainsOk, Fits, JobFits;
    var job := net.jobs[e.job];
    var site, s := nw.sites[job.node], net.nodes[job.node];
    var s1 := Looked(s, e.clk.wall);
    var cached := Store.Get(site.cfg.store, s.rows, ManifestName(site.downstream[e.face]), e.clk.wall).Some?;
    var left := job.(todo := job.todo - {e.face}, fetch := if cached then None else Some(|s.tasks|));
    var net1 := net.(jobs := net.jobs[e.job := left]);
    var i := FetchInterest(site.downstream[e.face], e.nonce);
    FetchIsPaid(b, nw, job, e.face, left, i);
    JobsUpdate(b, nw, net.jobs, e.job, left);
    if cached {
      NodesUpdate(b, net.nodes, job.node, s1);
    } else {
      var s' := Express(site.cfg, s1, i, e.face, e.clk, e.refreshNonce);
      ExpressSpends(b, site.cfg, s1, i, e.face, e.clk, e.refreshNonce);
      assert NewSends(s1, s') == NewSends(s, s');
      EmitSpends(b, nw, net1, job.node, s', job.depth);
    }
  }

  /** No step raises transmissions made plus transmissions still possible. */
  lemma NetStepSpends(b: Budget, nw: Network, net: Net, e: NetEvent)
    requires nw.Valid() && Nested(b, nw) && NetEnabled(nw, net, e) && ClaimHolds(b, Ranked, nw, net)
    requires forall u :: 0 <= u < |net.nodes| ==> FewHops(b.d, net.nodes[u])
    ensures Total(b, nw, NetStep(nw, net, e)) <= Total(b, nw, net)
  {
    hide Potential, Cost, NodesPotential, InFlightPotential, JobsPotential, JobPotential, Express, Step, FewHops, Bound,
      Emit, Nested, NodeChainsOk, Unserved;
    match e
    case Deliver(m, clk, nonce) =>
      var msg := net.inFlight[m];
      var s, cfg := net.nodes[msg.node], nw.sites[msg.node].cfg;
      TakeSpends(b, net, m);
      ExpressSpends(b, cfg, s, msg.interest, msg.inFace, clk, nonce);
      EmitSpends(b, nw, Take(net, m), msg.node, Express(cfg, s, msg.interest, msg.inFace, clk, nonce), msg.depth);
    case Absorb(m) => TakeSpends(b, net, m);
    case Serve(m, todo, wall) =>
      TakeSpends(b, net, m);
      assert net.inFlight[m] in net.inFlight;
      var job := Job(net.inFlight[m].node, todo, None, net.inFlight[m].depth, false);
      ServeSpends(b, nw, net.inFlight[m], job);
      JobsAdd(b, nw, net.jobs, job);
    case Fetch(j, face, nonce, clk, refreshNonce) => FetchSpends(b, nw, net, e);
    case Publish(j, d, wall) =>
      NodesUpdate(b, net.nodes, net.jobs[j].node, NetStep(nw, net, e).nodes[net.jobs[j].node]);
      JobsUpdate(b, nw, net.jobs, j, net.jobs[j].(published := true));
      SameTodo(b, nw, net.jobs[j], net.jobs[j].(published := true));
    case Local(u, ev, clk) =>
      OtherStepsSpend(b, nw.sites[u].cfg, net.nodes[u], ev, clk);
      EmitSpends(b, nw, net, u, Step(nw.sites[u].cfg, net.nodes[u], ev, clk), DepthOf(net, u, ev));
  }

  lemma JobsAdd(b: Budget, nw: Network, jobs: seq<Job>, job: Job)
    ensures JobsPotential(b, nw, jobs + [job]) == JobsPotential(b, nw, jobs) + JobPotential(b, nw, job)
  {
    hide JobPotential;
    assert (jobs + [job])[..|jobs|] == jobs;
  }

  lemma SameTodo(b: Budget, nw: Network, x: Job, y: Job)
    requires x.node == y.node && x.todo == y.todo
    ensures JobPotential(b, nw, x) == JobPotential(b, nw, y)
  {
  }

  lemma {:induction false} RunSpends(b: Budget, nw: Network, nets: seq<Net>, events: seq<NetEvent>, k: nat)
    requires nw.Valid() && Nested(b, nw) && IsNetRun(b.d, nw, nets, events) && k <= |events|
    requires ClaimHolds(b, Ranked, nw, nets[0])
    ensures Total(b, nw, nets[k]) <= Total(b, nw, nets[0])
  {
    hide NetStep, NetEnabled, FewHops, Total, ClaimHolds, Nested;
    if k > 0 {
      RunSpends(b, nw, nets, events, k - 1);
      RunKeepsClaim(b, Ranked, nw, nets, events, k - 1);
      NetStepSpends(b, nw, nets[k - 1], events[k - 1]);
    }
  }

  lemma {:induction false} QuietHasNoPotential(b: Budget, tasks: seq<Task>)
    requires forall t :: 0 <= t < |tasks| ==> !tasks[t].phase.Scheduled? && tasks[t].Rest() == []
    ensures Potential(b, tasks) == 0
  {
    if tasks != [] {
      QuietHasNoPotential(b, tasks[..|tasks| - 1]);
    }
  }

  lemma {:induction false} QuietNodes(b: Budget, nodes: seq<State>)
    requires forall u :: 0 <= u < |nodes| ==> Quiet(nodes[u])
    ensures NodesPotential(b, nodes) == 0
  {
    if nodes != [] {
      QuietNodes(b, nodes[..|nodes| - 1]);
      QuietHasNoPotential(b, nodes[|nodes| - 1].tasks);
    }
  }

  /** On any topology, whatever happens in whatever order: the Interests in flight over an otherwise
      quiet network cause at most what they are worth together, with failover, background refreshes and
      the manifests fetched on the way. */
  lemma SpreadIsBounded(b: Budget, nw: Network, nets: seq<Net>, events: seq<NetEvent>, k: nat)
    requires nw.Valid() && Nested(b, nw) && IsNetRun(b.d, nw, nets, events) && k <= |events|
    requires QuietNet(nets[0]) && forall m :: m in nets[0].inFlight ==> m.interest.name in b.rank
    ensures nets[k].transmitted <= InFlightPotential(b, nets[0].inFlight)
  {
    hide NetStep, NetEnabled, FewHops, Nested, NodesPotential, InFlightPotential, JobsPotential;
    QuietNetworkFits(b, Ranked, nw, nets[0]);
    RunSpends(b, nw, nets, events, k);
    QuietNodes(b, nets[0].nodes);
    assert JobsPotential(b, nw, []) == 0 by {
      NoJobs(b, nw);
    }
  }

  lemma NoJobs(b: Budget, nw: Network)
    ensures JobsPotential(b, nw, []) == 0
  {
  }
}
