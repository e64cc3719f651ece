/** Chains of transmissions through one forwarder (rns_icn/forwarder.py:166-185): what it sends is one
    transmission further down the chain of what made it send, and has one hop less. */
module Trails {
  import opened Base
  import opened Packets
  import Store
  import opened Fibs
  import opened Pits
  import opened Strategies
  import opened Forwarding
  import opened Spread

  /** What is claimed of every Interest of a run: that its name is ranked, or also what it has spent
      since the run began with an Interest of rank `r` that had `h` hops. */
  datatype Claim = Ranked | Trail(h: nat, r: nat)

  /** An Interest as many transmissions down its chain.  While its name has the first rank, each of
      them has used up exactly one hop; every fetch of a manifest has made good for at most the
      default number of hops, and lowered the rank. */
  predicate Fits(b: Budget, c: Claim, i: Interest, depth: nat) {
    && i.name in b.rank
    && match c
       case Ranked => true
       case Trail(h, r) =>
         if b.rank[i.name] == r then i.hopLimit + depth == h
         else b.rank[i.name] < r && i.hopLimit + DEFAULT_HOPS * b.rank[i.name] + depth <= h + DEFAULT_HOPS * r
  }

  lemma SpendingFits(b: Budget, c: Claim, i: Interest, depth: nat)
    requires Fits(b, c, i, depth) && i.hopLimit > 0
    ensures Fits(b, c, Spent(i), depth + 1)
  {
  }

  /** A task that may still transmit keeps to the claim. */
  predicate OnChain(b: Budget, c: Claim, t: Task, depth: nat) {
    && (t.phase.Scheduled? ==> Fits(b, c, t.interest, depth))
    && (t.Rest() != [] ==> Fits(b, c, t.interest, depth + 1))
  }

  ghost predicate NodeChainsOk(b: Budget, c: Claim, tasks: seq<Task>, depths: seq<nat>) {
    |depths| == |tasks| && forall t :: 0 <= t < |tasks| ==> OnChain(b, c, tasks[t], depths[t])
  }

  /** What a step of a node does to chains: its new tasks start at `depth`, and what it sends is
      one transmission further down. */
  ghost predicate ExtendsChain(b: Budget, c: Claim, s: State, s': State, depths: seq<nat>, depth: nat) {
    && |s'.tasks| >= |depths|
    && NodeChainsOk(b, c, s'.tasks, depths + seq(|s'.tasks| - |depths|, _ => depth))
    && SendsOnChain(b, c, NewSends(s, s'), depth + 1)
  }

  lemma ChainUpdate(b: Budget, c: Claim, tasks: seq<Task>, depths: seq<nat>, t: nat, task: Task)
    requires NodeChainsOk(b, c, tasks, depths) && t < |tasks| && OnChain(b, c, task, depths[t])
    ensures NodeChainsOk(b, c, tasks[t := task], depths)
  {
  }

  lemma ChainAdd(b: Budget, c: Claim, tasks: seq<Task>, depths: seq<nat>, task: Task, depth: nat)
    requires NodeChainsOk(b, c, tasks, depths) && OnChain(b, c, task, depth)
    ensures NodeChainsOk(b, c, tasks + [task], depths + [depth])
  {
  }

  ghost predicate SendsOnChain(b: Budget, c: Claim, sends: seq<Transmission>, depth: nat) {
    forall x :: x in sends ==> Fits(b, c, x.interest, depth)
  }

  /** A forward that has not started sends one transmission further down its own chain. */
  lemma ForwardExtends(b: Budget, c: Claim, s: State, r: State, t: nat, faces: seq<FaceId>, depths: seq<nat>)
    requires t < |s.tasks| && OneHop(s, r, t, faces) && s.tasks[t].phase.Scheduled?
    requires NodeChainsOk(b, c, s.tasks, depths)
    ensures NodeChainsOk(b, c, r.tasks, depths) && SendsOnChain(b, c, NewSends(s, r), depths[t] + 1)
  {
    hide Fits;
    assert OnChain(b, c, s.tasks[t], depths[t]);
    if s.tasks[t].interest.hopLimit > 0 {
      SpendingFits(b, c, s.tasks[t].interest, depths[t]);
    }
    ChainUpdate(b, c, s.tasks, depths, t, r.tasks[t]);
  }

  lemma AttemptExtends(b: Budget, c: Claim, s: State, r: State, t: nat, faces: seq<FaceId>, depths: seq<nat>)
    requires t < |s.tasks| && OneAttempt(s, r, t, faces) && NodeChainsOk(b, c, s.tasks, depths)
    requires faces != [] ==> Fits(b, c, s.tasks[t].interest, depths[t] + 1)
    ensures NodeChainsOk(b, c, r.tasks, depths) && SendsOnChain(b, c, NewSends(s, r), depths[t] + 1)
  {
    hide Fits;
    ChainUpdate(b, c, s.tasks, depths, t, r.tasks[t]);
  }

  lemma ExpressExtends(b: Budget, c: Claim, cfg: Config, s: State, depths: seq<nat>, i: Interest, inFace: FaceId,
      clk: Clock, nonce: bytes, depth: nat)
    requires cfg.Valid() && NodeChainsOk(b, c, s.tasks, depths) && Fits(b, c, i, depth)
    ensures ExtendsChain(b, c, s, Express(cfg, s, i, inFace, clk, nonce), depths, depth)
  {
    hide CacheHit, Candidates, Lookup, StartForward, RecordNonce, NodeChainsOk, Verdict, Seen, Store.Live;
    NodeChainsLength(b, c, s.tasks, depths);
    var s' := Express(cfg, s, i, inFace, clk, nonce);
    if !Seen(s.nonces, inFace, i.nonce) && Verdict(cfg, s, i, clk).ForwardTo? {
      var face := Verdict(cfg, s, i, clk).face;
      var faces := Candidates(Lookup(s.routes, i.name), face, s.failures, cfg.tuning, clk.mono);
      var s1 := AddTask(Admitted(cfg, s, i, inFace, clk), i, inFace, Scheduled(face));
      ChainAdd(b, c, s.tasks, depths, Task(i, inFace, false, Scheduled(face)), depth);
      ForwardExtends(b, c, s1, s', |s.tasks|, faces, depths + [depth]);
      assert seq(|s'.tasks| - |depths|, _ => depth) == [depth];
      assert NewSends(s, s') == NewSends(s1, s');
    } else {
      UnforwardedExtends(b, c, cfg, s, depths, i, inFace, clk, nonce, depth);
    }
  }

  lemma UnforwardedExtends(b: Budget, c: Claim, cfg: Config, s: State, depths: seq<nat>, i: Interest, inFace: FaceId,
      clk: Clock, nonce: bytes, depth: nat)
    requires cfg.Valid() && NodeChainsOk(b, c, s.tasks, depths) && Fits(b, c, i, depth)
    requires Seen(s.nonces, inFace, i.nonce) || !Verdict(cfg, s, i, clk).ForwardTo?
    ensures ExtendsChain(b, c, s, Express(cfg, s, i, inFace, clk, nonce), depths, depth)
  {
    hide CacheHit, Candidates, Lookup, StartForward, RecordNonce, NodeChainsOk, Verdict, Seen, Store.Live;
    NodeChainsLength(b, c, s.tasks, depths);
    var s' := Express(cfg, s, i, inFace, clk, nonce);
    assert NewSends(s, s') == [];
    var first := s'.tasks[|s.tasks|];
    ChainAdd(b, c, s.tasks, depths, first, depth);
    if |s'.tasks| == |s.tasks| + 2 {
      var second := s'.tasks[|s.tasks| + 1];
      ChainAdd(b, c, s.tasks + [first], depths + [depth], second, depth);
      assert s'.tasks == s.tasks + [first] + [second];
      assert depths + seq(|s'.tasks| - |depths|, _ => depth) == depths + [depth] + [depth];
    } else {
      assert s'.tasks == s.tasks + [first];
      assert seq(|s'.tasks| - |depths|, _ => depth) == [depth];
    }
  }

  lemma NothingSent(b: Budget, c: Claim, s: State, s': State, depth: nat)
    requires s'.sent == s.sent
    ensures SendsOnChain(b, c, NewSends(s, s'), depth)
  {
  }

  lemma SameTasksExtend(b: Budget, c: Claim, s: State, s': State, depths: seq<nat>, depth: nat)
    requires |s'.tasks| == |depths| && NodeChainsOk(b, c, s'.tasks, depths)
    requires SendsOnChain(b, c, NewSends(s, s'), depth + 1)
    ensures ExtendsChain(b, c, s, s', depths, depth)
  {
    assert depths + seq(|s'.tasks| - |depths|, _ => depth) == depths;
  }

  lemma OtherStepsExtend(b: Budget, c: Claim, cfg: Config, s: State, depths: seq<nat>, e: Event, clk: Clock, depth: nat)
    requires cfg.Valid() && Enabled(s, e) && !e.ExpressEvent? && NodeChainsOk(b, c, s.tasks, depths)
    requires e.StartRefreshEvent? || e.RegisterEvent? || e.ResumeEvent? ==> e.task < |depths| && depth == depths[e.task]
    ensures ExtendsChain(b, c, s, Step(cfg, s, e, clk), depths, depth)
  {
    hide Express, StartForward, TryFaces, Resume, Register, ReceiveData, WithRoute, WithoutFace, Purge, SweepNonces,
      Matched, NodeChainsOk, SendsOnChain, ExtendsChain, NewSends;
    NodeChainsLength(b, c, s.tasks, depths);
    var s' := Step(cfg, s, e, clk);
    if e.StartRefreshEvent? {
      ForwardExtends(b, c, s, s', e.task, [s.tasks[e.task].phase.face], depths);
    } else if e.ResumeEvent? {
      ResumeExtends(b, c, cfg, s, e.task, e.overtaken, clk.mono, depths);
    } else if e.RegisterEvent? {
      RegisterExtends(b, c, s, e.task, depths, depth);
    } else {
      OtherStepsKeepTasks(cfg, s, e, clk);
      NothingSent(b, c, s, s', depth + 1);
    }
    SameTasksExtend(b, c, s, s', depths, depth);
  }

  lemma RegisterExtends(b: Budget, c: Claim, s: State, t: nat, depths: seq<nat>, depth: nat)
    requires t < |s.tasks| && s.tasks[t].phase.Sending? && NodeChainsOk(b, c, s.tasks, depths)
    ensures NodeChainsOk(b, c, Register(s, t).tasks, depths) && |Register(s, t).tasks| == |s.tasks|
    ensures SendsOnChain(b, c, NewSends(s, Register(s, t)), depth + 1)
  {
    assert OnChain(b, c, s.tasks[t], depths[t]);
    ChainUpdate(b, c, s.tasks, depths, t, Register(s, t).tasks[t]);
  }

  lemma ResumeExtends(b: Budget, c: Claim, cfg: Config, s: State, t: nat, overtaken: bool, mono: nat, depths: seq<nat>)
    requires Resumable(s, t) && NodeChainsOk(b, c, s.tasks, depths)
    ensures NodeChainsOk(b, c, Resume(cfg, s, t, overtaken, mono).tasks, depths)
    ensures |Resume(cfg, s, t, overtaken, mono).tasks| == |s.tasks|
    ensures SendsOnChain(b, c, NewSends(s, Resume(cfg, s, t, overtaken, mono)), depths[t] + 1)
  {
    hide TryFaces, Drop;
    var s' := Resume(cfg, s, t, overtaken, mono);
    var task := s.tasks[t];
    assert OnChain(b, c, task, depths[t]);
    if task.phase.Joined? || Found(s, t, overtaken).Answered? {
      ChainUpdate(b, c, s.tasks, depths, t, s'.tasks[t]);
    } else {
      var s1 := s.(failures := AfterFailure(s.failures, task.phase.face, mono), pit := Drop(s.pit, task.Key()));
      AttemptExtends(b, c, s1, s', t, task.phase.rest, depths);
      assert NewSends(s, s') == NewSends(s1, s');
    }
  }

  lemma NodeChainsLength(b: Budget, c: Claim, tasks: seq<Task>, depths: seq<nat>)
    requires NodeChainsOk(b, c, tasks, depths)
    ensures |tasks| == |depths|
  {
  }
}
