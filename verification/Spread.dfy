/** What one forwarder can still transmit (rns_icn/forwarder.py), and that no step of it adds more than
    an Interest is worth.  Network.dfy joins forwarders to a network. */
module Spread {
  import opened Base
  import opened Names
  import opened Packets
  import Store
  import opened Fibs
  import opened Pits
  import opened Strategies
  import opened Forwarding

  // ----- the bound -----

  /** Hops of an Interest that does not say otherwise. */
  const DEFAULT_HOPS: nat := 16

  /** What an Interest can cause depends on the next hops per lookup (at most `d`), and where serving a
      manifest fetches others, on the downstream peers per server (at most `m`) and on how deep they
      nest: `rank` is zero for the name of a manifest that fetches none. */
  datatype Budget = Budget(d: nat, m: nat, rank: map<Name, nat>) {
    function Rank(n: Name): nat { if n in rank then rank[n] else 0 }

    function Worth(i: Interest): nat { Bound(d, m, Rank(i.name), i.hopLimit) }
  }

  /** Transmissions an Interest of rank `r` with `h` hops left can cause at most: it is sent on, or it
      is served, by fetching manifests of lower rank. */
  function Bound(d: nat, m: nat, r: nat, h: nat): nat
    decreases r, 1, h
  {
    Larger(if h == 0 then 0 else d * (1 + Bound(d, m, r, h - 1)), Fetches(d, m, r))
  }

  function Fetches(d: nat, m: nat, r: nat): nat
    decreases r, 0
  {
    if r == 0 then 0 else m * Bound(d, m, r - 1, DEFAULT_HOPS)
  }

  function Larger(a: nat, b: nat): nat { if a < b then b else a }

  function Power(d: nat, k: nat): nat { if k == 0 then 1 else d * Power(d, k - 1) }

  function SumOfPowers(d: nat, h: nat): nat { if h == 0 then 0 else SumOfPowers(d, h - 1) + Power(d, h) }

  /** Where serving fetches nothing the bound is d + d^2 + ... + d^h. */
  lemma {:induction false} BoundIsSumOfPowers(d: nat, m: nat, h: nat)
    ensures Bound(d, m, 0, h) == SumOfPowers(d, h)
  {
    if h > 0 {
      BoundIsSumOfPowers(d, m, h - 1);
      ShiftPowers(d, h - 1);
    }
  }

  lemma {:induction false} ShiftPowers(d: nat, h: nat)
    ensures d * (1 + SumOfPowers(d, h)) == SumOfPowers(d, h + 1)
  {
    if h == 0 {
      assert Power(d, 1) == d * Power(d, 0) == d;
      assert SumOfPowers(d, 1) == SumOfPowers(d, 0) + Power(d, 1);
    } else {
      ShiftPowers(d, h - 1);
      Distribute(d, 1 + SumOfPowers(d, h - 1), Power(d, h));
    }
  }

  lemma Distribute(d: nat, a: nat, b: nat)
    ensures d * (a + b) == d * a + d * b
  {
  }

  lemma Times(a: nat, b: nat, w: nat)
    requires a <= b
    ensures a * w <= b * w && w * a <= w * b
  {
  }

  /** A manifest that nests deeper costs no less. */
  lemma {:induction false} BoundGrows(d: nat, m: nat, r: nat, r': nat, h: nat)
    requires r <= r'
    ensures Bound(d, m, r, h) <= Bound(d, m, r', h)
    decreases r, h
  {
    if h > 0 {
      BoundGrows(d, m, r, r', h - 1);
      Times(1 + Bound(d, m, r, h - 1), 1 + Bound(d, m, r', h - 1), d);
    }
    if r > 0 {
      BoundGrows(d, m, r - 1, r' - 1, DEFAULT_HOPS);
      Times(Bound(d, m, r - 1, DEFAULT_HOPS), Bound(d, m, r' - 1, DEFAULT_HOPS), m);
    }
  }

  // ----- what one node may still cause -----

  /** An Interest sent on. */
  function Spent(i: Interest): Interest
    requires i.hopLimit > 0
  {
    i.(hopLimit := i.hopLimit - 1)
  }

  /** Transmissions still to come from a task: one per untried next hop, with all that follows. */
  function Weight(b: Budget, t: Task): nat {
    match t.phase
    case Scheduled(_) => if t.interest.hopLimit == 0 then 0 else 1 + b.Worth(Spent(t.interest))
    case Sending(_, rest) => |rest| * (1 + b.Worth(t.interest))
    case Waiting(_, rest, _) => |rest| * (1 + b.Worth(t.interest))
    case _ => 0
  }

  function Potential(b: Budget, tasks: seq<Task>): nat {
    if tasks == [] then 0 else Potential(b, tasks[..|tasks| - 1]) + Weight(b, tasks[|tasks| - 1])
  }

  function Cost(b: Budget, sends: seq<Transmission>): nat {
    if sends == [] then 0 else Cost(b, sends[..|sends| - 1]) + 1 + b.Worth(sends[|sends| - 1].interest)
  }

  lemma {:induction false} PotentialUpdate(b: Budget, tasks: seq<Task>, t: nat, task: Task)
    requires t < |tasks|
    ensures Potential(b, tasks[t := task]) + Weight(b, tasks[t]) == Potential(b, tasks) + Weight(b, task)
  {
    var last := |tasks| - 1;
    var tasks' := tasks[t := task];
    if t == last {
      assert tasks'[..last] == tasks[..last];
    } else {
      assert tasks'[..last] == tasks[..last][t := task];
      PotentialUpdate(b, tasks[..last], t, task);
    }
  }

  lemma PotentialAdd(b: Budget, tasks: seq<Task>, task: Task)
    ensures Potential(b, tasks + [task]) == Potential(b, tasks) + Weight(b, task)
  {
    assert (tasks + [task])[..|tasks|] == tasks;
  }

  function NewSends(s: State, s': State): seq<Transmission> {
    if |s.sent| <= |s'.sent| then s'.sent[|s.sent|..] else []
  }

  lemma CostOfOne(b: Budget, x: Transmission)
    ensures Cost(b, [x]) == 1 + b.Worth(x.interest) && Cost(b, []) == 0
  {
    assert [x][..0] == [];
  }

  lemma HopsShrink(a: nat, b: nat, w: nat)
    requires a < b
    ensures a * w + w <= b * w
  {
    assert a * w + w == (a + 1) * w;
    assert (a + 1) * w <= b * w;
  }

  /** Trying next hops uses up weight: the one sent now and those still untried. */
  lemma ForwardSpends(b: Budget, s: State, r: State, t: nat, faces: seq<FaceId>, budget: nat)
    requires t < |s.tasks| && OneHop(s, r, t, faces)
    requires s.tasks[t].interest.hopLimit > 0 ==> |faces| * (1 + b.Worth(Spent(s.tasks[t].interest))) <= budget
    ensures Weight(b, r.tasks[t]) + Cost(b, NewSends(s, r)) <= budget
    ensures Potential(b, r.tasks) + Cost(b, NewSends(s, r)) + Weight(b, s.tasks[t]) <= Potential(b, s.tasks) + budget
  {
    hide Bound;
    PotentialUpdate(b, s.tasks, t, r.tasks[t]);
    if r.tasks[t].phase.Sending? {
      var x := Transmission(r.tasks[t].phase.face, r.tasks[t].interest);
      assert NewSends(s, r) == [x];
      CostOfOne(b, x);
      HopsShrink(|r.tasks[t].phase.rest|, |faces|, 1 + b.Worth(Spent(s.tasks[t].interest)));
    } else {
      assert NewSends(s, r) == [];
    }
  }

  lemma AttemptSpends(b: Budget, s: State, r: State, t: nat, faces: seq<FaceId>)
    requires t < |s.tasks| && OneAttempt(s, r, t, faces)
    ensures Potential(b, r.tasks) + Cost(b, NewSends(s, r)) + Weight(b, s.tasks[t])
         <= Potential(b, s.tasks) + |faces| * (1 + b.Worth(s.tasks[t].interest))
  {
    hide Bound;
    PotentialUpdate(b, s.tasks, t, r.tasks[t]);
    if r.tasks[t].phase.Sending? {
      var x := Transmission(r.tasks[t].phase.face, r.tasks[t].interest);
      assert NewSends(s, r) == [x];
      CostOfOne(b, x);
      HopsShrink(|r.tasks[t].phase.rest|, |faces|, 1 + b.Worth(s.tasks[t].interest));
    } else {
      assert NewSends(s, r) == [];
    }
  }

  ghost predicate FewHops(d: nat, s: State) {
    forall n: Name :: |Lookup(s.routes, n)| <= d
  }

  lemma {:induction false} FirstUsableIsSome(hops: seq<NextHop>, fs: Failures, t: Tuning, mono: nat)
    ensures FirstUsable(hops, fs, t, mono).Some? ==> hops != []
  {
  }

  lemma CandidatesAreFew(hops: seq<NextHop>, primary: FaceId, fs: Failures, t: Tuning, mono: nat)
    requires hops != []
    ensures |Candidates(hops, primary, fs, t, mono)| <= |hops|
  {
  }

  /** Handling an Interest spends at most the bound for the hops it has left. */
  lemma ExpressSpends(b: Budget, cfg: Config, s: State, i: Interest, inFace: FaceId, clk: Clock, nonce: bytes)
    requires cfg.Valid() && FewHops(b.d, s)
    ensures var s' := Express(cfg, s, i, inFace, clk, nonce);
      Potential(b, s'.tasks) + Cost(b, NewSends(s, s')) <= Potential(b, s.tasks) + b.Worth(i)
  {
    if !Seen(s.nonces, inFace, i.nonce) && Verdict(cfg, s, i, clk).ForwardTo? {
      ForwardedSpends(b, cfg, s, i, inFace, clk, nonce);
    } else {
      UnforwardedSpends(b, cfg, s, i, inFace, clk, nonce);
    }
  }

  lemma SentOnIsWorth(b: Budget, i: Interest)
    requires i.hopLimit > 0
    ensures b.d * (1 + b.Worth(Spent(i))) <= b.Worth(i)
  {
  }

  lemma ForwardedSpends(b: Budget, cfg: Config, s: State, i: Interest, inFace: FaceId, clk: Clock, nonce: bytes)
    requires cfg.Valid() && FewHops(b.d, s) && !Seen(s.nonces, inFace, i.nonce) && Verdict(cfg, s, i, clk).ForwardTo?
    ensures var s' := Express(cfg, s, i, inFace, clk, nonce);
      Potential(b, s'.tasks) + Cost(b, NewSends(s, s')) <= Potential(b, s.tasks) + b.Worth(i)
  {
    hide CacheHit, Candidates, StartForward, RecordNonce, Seen, Store.Live, Lookup, Potential, Cost, Bound;
    var s' := Express(cfg, s, i, inFace, clk, nonce);
    var hops := Lookup(s.routes, i.name);
    FirstUsableIsSome(hops, s.failures, cfg.tuning, clk.mono);
    var face := Verdict(cfg, s, i, clk).face;
    var faces := Candidates(hops, face, s.failures, cfg.tuning, clk.mono);
    var s1 := AddTask(Admitted(cfg, s, i, inFace, clk), i, inFace, Scheduled(face));
    CandidatesAreFew(hops, face, s.failures, cfg.tuning, clk.mono);
    PotentialAdd(b, s.tasks, Task(i, inFace, false, Scheduled(face)));
    if i.hopLimit > 0 {
      SentOnIsWorth(b, i);
      Times(|faces|, b.d, 1 + b.Worth(Spent(i)));
    }
    ForwardSpends(b, s1, s', |s.tasks|, faces, b.Worth(i));
    assert NewSends(s, s') == NewSends(s1, s');
  }

  lemma UnforwardedSpends(b: Budget, cfg: Config, s: State, i: Interest, inFace: FaceId, clk: Clock, nonce: bytes)
    requires cfg.Valid() && FewHops(b.d, s) && (Seen(s.nonces, inFace, i.nonce) || !Verdict(cfg, s, i, clk).ForwardTo?)
    ensures var s' := Express(cfg, s, i, inFace, clk, nonce);
      Potential(b, s'.tasks) + Cost(b, NewSends(s, s')) <= Potential(b, s.tasks) + b.Worth(i)
  {
    hide CacheHit, Candidates, StartForward, RecordNonce, Seen, Store.Live, Lookup, Potential, Cost, Bound;
    var s' := Express(cfg, s, i, inFace, clk, nonce);
    FirstUsableIsSome(Lookup(s.routes, i.name), s.failures, cfg.tuning, clk.mono);
    CostOfOne(b, Transmission(0, i));
    assert NewSends(s, s') == [];
    var first := s'.tasks[|s.tasks|];
    assert Weight(b, first) == 0;
    PotentialAdd(b, s.tasks, first);
    if |s'.tasks| == |s.tasks| + 2 {
      var second := s'.tasks[|s.tasks| + 1];
      assert s'.tasks == s.tasks + [first] + [second];
      PotentialAdd(b, s.tasks + [first], second);
      if i.hopLimit > 0 {
        SentOnIsWorth(b, i);
        Times(1, b.d, 1 + b.Worth(Spent(i)));
      }
    } else {
      assert s'.tasks == s.tasks + [first];
    }
  }

  /** No other step creates weight. */
  lemma OtherStepsSpend(b: Budget, cfg: Config, s: State, e: Event, clk: Clock)
    requires cfg.Valid() && Enabled(s, e) && !e.ExpressEvent?
    ensures var s' := Step(cfg, s, e, clk);
      Potential(b, s'.tasks) + Cost(b, NewSends(s, s')) <= Potential(b, s.tasks)
  {
    hide Express, StartForward, TryFaces, Resume, ReceiveData, Potential, Cost, WithRoute, WithoutFace, Purge,
      SweepNonces;
    var s' := Step(cfg, s, e, clk);
    CostOfOne(b, Transmission(0, Interest(Name([], [], None), [], 0, false, false, None, 0)));
    if e.StartRefreshEvent? {
      ForwardSpends(b, s, s', e.task, [s.tasks[e.task].phase.face], Weight(b, s.tasks[e.task]));
    } else if e.ResumeEvent? {
      ResumeSpends(b, cfg, s, e.task, e.overtaken, clk.mono);
    } else if e.RegisterEvent? {
      PotentialUpdate(b, s.tasks, e.task, s'.tasks[e.task]);
      assert NewSends(s, s') == [];
    } else {
      OtherStepsKeepTasks(cfg, s, e, clk);
      assert NewSends(s, s') == [];
    }
  }

  lemma ResumeSpends(b: Budget, cfg: Config, s: State, t: nat, overtaken: bool, mono: nat)
    requires Resumable(s, t)
    ensures var s' := Resume(cfg, s, t, overtaken, mono);
      Potential(b, s'.tasks) + Cost(b, NewSends(s, s')) <= Potential(b, s.tasks)
  {
    hide TryFaces, Drop, Potential, Cost;
    var s' := Resume(cfg, s, t, overtaken, mono);
    var task := s.tasks[t];
    if task.phase.Joined? || Found(s, t, overtaken).Answered? {
      assert NewSends(s, s') == [];
      CostOfOne(b, Transmission(0, task.interest));
      PotentialUpdate(b, s.tasks, t, s'.tasks[t]);
    } else {
      var s1 := s.(failures := AfterFailure(s.failures, task.phase.face, mono), pit := Drop(s.pit, task.Key()));
      AttemptSpends(b, s1, s', t, task.phase.rest);
      assert NewSends(s, s') == NewSends(s1, s');
    }
  }
}
