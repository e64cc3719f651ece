/** Safety over whole runs of the forwarder, from its start or from any state that keeps the
    invariant, whatever the order of its steps. */
module ForwardingRuns {
  import opened Base
  import opened Names
  import opened Packets
  import Store
  import opened Fibs
  import opened Pits
  import opened Strategies
  import opened Forwarding
  import opened ForwardingSafety

  type Timed = (Event, Clock)

  lemma {:induction false} RunKeepsInv(cfg: Config, states: seq<State>, events: seq<Timed>, k: nat)
    requires cfg.Valid() && IsRun(cfg, states, events) && Inv(cfg, states[0])
    requires k <= |events|
    ensures Inv(cfg, states[k])
  {
    hide Inv, Step, Enabled;
    if k > 0 {
      RunKeepsInv(cfg, states, events, k - 1);
      StepKeeps(cfg, states[k - 1], events[k - 1].0, events[k - 1].1);
    }
  }

  lemma StartKeepsInv(cfg: Config)
    ensures Inv(cfg, START)
  {
  }

  /** In every reachable state, whatever has happened: Data returned by a call lies under the name
      the call asked for, PIT and notifier keys are hash-free, the PIT and the store are within their limits, and
      every pending name belongs to a forward still running, so that the PIT is empty once none is. */
  lemma ReachableStatesAreSafe(cfg: Config, states: seq<State>, events: seq<Timed>, k: nat)
    requires cfg.Valid() && IsRun(cfg, states, events) && states[0] == START && k <= |events|
    ensures var s := states[k];
      && (forall t :: 0 <= t < |s.tasks| && s.tasks[t].phase.Done? && s.tasks[t].phase.result.Some? ==>
            s.tasks[t].phase.result.value.name.StartsWith(s.tasks[t].interest.name))
      && (forall n :: n in s.pit.entries ==> n.pin == None)
      && (forall n :: n in s.notifiers ==> n.pin == None)
      && |s.pit.entries| <= Max(1, cfg.pitLimit) && |s.rows| <= cfg.store.capacity
      && (forall n :: n in s.pit.entries ==>
          exists t :: 0 <= t < |s.tasks| && s.tasks[t].Active() && s.tasks[t].Key() == n)
      && ((forall t :: 0 <= t < |s.tasks| ==> !s.tasks[t].Active()) ==> s.pit.entries == map[])
  {
    hide Step, Enabled, Inv;
    StartKeepsInv(cfg);
    RunKeepsInv(cfg, states, events, k);
    InvMeans(cfg, states[k]);
  }

  lemma InvMeans(cfg: Config, s: State)
    requires Inv(cfg, s)
    ensures forall t :: 0 <= t < |s.tasks| && s.tasks[t].phase.Done? && s.tasks[t].phase.result.Some? ==>
            s.tasks[t].phase.result.value.name.StartsWith(s.tasks[t].interest.name)
    ensures forall n :: n in s.pit.entries ==> n.pin == None
    ensures forall n :: n in s.notifiers ==> n.pin == None
    ensures |s.rows| <= cfg.store.capacity
    ensures |s.pit.entries| <= Max(1, cfg.pitLimit)
    ensures forall n :: n in s.pit.entries ==>
      exists t :: 0 <= t < |s.tasks| && s.tasks[t].Active() && s.tasks[t].Key() == n
    ensures (forall t :: 0 <= t < |s.tasks| ==> !s.tasks[t].Active()) ==> s.pit.entries == map[]
  {
    forall t | 0 <= t < |s.tasks| && s.tasks[t].phase.Done? && s.tasks[t].phase.result.Some?
      ensures s.tasks[t].phase.result.value.name.StartsWith(s.tasks[t].interest.name)
    {
      assert TaskOk(s.futures, s.tasks[t]);
    }
    forall n | n in s.pit.entries
      ensures exists t :: 0 <= t < |s.tasks| && s.tasks[t].Active() && s.tasks[t].Key() == n
    {
      assert Owned(s.tasks, -1, n);
      var t: nat :| t != -1 && Owns(s.tasks, t, n);
      assert s.tasks[t].Active() && s.tasks[t].Key() == n;
    }
  }

  // ----- every waiter is resolved at most once -----

  /** A future once resolved or cancelled, and a call once returned, never change again. */
  ghost predicate Settled(s: State, s': State) {
    && |s.futures| <= |s'.futures| && |s.tasks| <= |s'.tasks|
    && (forall f :: 0 <= f < |s.futures| ==> s'.futures[f].key == s.futures[f].key)
    && (forall f :: 0 <= f < |s.futures| && s.futures[f].outcome != Pending ==> s'.futures[f] == s.futures[f])
    && (forall t :: 0 <= t < |s.tasks| ==> s'.tasks[t].interest.name == s.tasks[t].interest.name)
    && (forall t :: 0 <= t < |s.tasks| && s.tasks[t].phase.Done? ==> s'.tasks[t] == s.tasks[t])
  }

  lemma StepSettles(cfg: Config, s: State, e: Event, clk: Clock)
    requires cfg.Valid() && Enabled(s, e)
    ensures Settled(s, Step(cfg, s, e, clk))
  {
    hide Express, Resume, StartForward, TryFaces, WithRoute, WithoutFace, Purge, SweepNonces, ReceiveData, Drop;
    match e
    case ExpressEvent(i, inFace, nonce) => ExpressSettles(cfg, s, i, inFace, clk, nonce);
    case ResumeEvent(t, overtaken) => ResumeSettles(cfg, s, t, overtaken, clk.mono);
    case DataEvent(d, unsolicited) => ReceiveDataSettles(cfg, s, d, unsolicited, clk.wall);
    case _ =>
  }

  lemma ExpressSettles(cfg: Config, s: State, i: Interest, inFace: FaceId, clk: Clock, nonce: bytes)
    requires cfg.Valid()
    ensures Settled(s, Express(cfg, s, i, inFace, clk, nonce))
  {
    hide Verdict, CacheHit, Candidates, Lookup, StartForward, RecordNonce, Seen, Store.Live;
    var s' := Express(cfg, s, i, inFace, clk, nonce);
    assert s.futures <= s'.futures;
    assert s.tasks <= s'.tasks;
  }

  lemma ResumeSettles(cfg: Config, s: State, t: nat, overtaken: bool, mono: nat)
    requires Resumable(s, t)
    ensures Settled(s, Resume(cfg, s, t, overtaken, mono))
  {
    hide TryFaces, Drop;
  }

  lemma ReceiveDataSettles(cfg: Config, s: State, d: Data, unsolicited: bool, wall: nat)
    ensures Settled(s, ReceiveData(cfg, s, d, unsolicited, wall))
  {
    hide Matched, Drop, Satisfy;
  }

  lemma {:induction false} RunSettles(cfg: Config, states: seq<State>, events: seq<Timed>, j: nat, k: nat)
    requires cfg.Valid() && IsRun(cfg, states, events) && j <= k <= |events|
    ensures Settled(states[j], states[k])
  {
    hide Step, Enabled;
    if j < k {
      RunSettles(cfg, states, events, j, k - 1);
      StepSettles(cfg, states[k - 1], events[k - 1].0, events[k - 1].1);
    }
  }

  // ----- transmissions -----

  ghost predicate SendsAtMostOne(s: State, s': State) {
    || s'.sent == s.sent
    || (|s'.sent| == |s.sent| + 1 && s.sent == s'.sent[..|s.sent|] && s'.sent[|s.sent|].face in s.faces)
  }

  /** One step sends at most one Interest, on a face that is registered, for the forward it runs. */
  lemma StepSendsAtMostOne(cfg: Config, s: State, e: Event, clk: Clock)
    requires cfg.Valid() && Enabled(s, e)
    ensures SendsAtMostOne(s, Step(cfg, s, e, clk))
  {
    hide Express, StartForward, TryFaces, Drop, Step;
    if e.ExpressEvent? {
      ExpressSendsAtMostOne(cfg, s, e.interest, e.inFace, clk, e.refreshNonce);
      StepIsExpress(cfg, s, e, clk);
    } else if e.StartRefreshEvent? || e.RegisterEvent? || e.ResumeEvent? {
      RunningStepSendsAtMostOne(cfg, s, e, clk);
    } else {
      OtherStepsKeepTasks(cfg, s, e, clk);
    }
  }

  lemma StepIsExpress(cfg: Config, s: State, e: Event, clk: Clock)
    requires cfg.Valid() && e.ExpressEvent?
    ensures Step(cfg, s, e, clk) == Express(cfg, s, e.interest, e.inFace, clk, e.refreshNonce)
  {
    hide Express;
  }

  lemma ExpressSendsAtMostOne(cfg: Config, s: State, i: Interest, inFace: FaceId, clk: Clock, nonce: bytes)
    requires cfg.Valid()
    ensures SendsAtMostOne(s, Express(cfg, s, i, inFace, clk, nonce))
  {
    hide Verdict, CacheHit, Candidates, Lookup, StartForward, RecordNonce;
  }

  lemma RunningStepSendsAtMostOne(cfg: Config, s: State, e: Event, clk: Clock)
    requires cfg.Valid() && Enabled(s, e) && (e.StartRefreshEvent? || e.RegisterEvent? || e.ResumeEvent?)
    ensures SendsAtMostOne(s, Step(cfg, s, e, clk))
  {
    hide Express, StartForward, Resume, Drop, ReceiveData, Purge;
    if e.ResumeEvent? {
      ResumeSendsAtMostOne(cfg, s, e.task, e.overtaken, clk.mono);
    }
  }

  lemma ResumeSendsAtMostOne(cfg: Config, s: State, t: nat, overtaken: bool, mono: nat)
    requires Resumable(s, t)
    ensures SendsAtMostOne(s, Resume(cfg, s, t, overtaken, mono))
  {
    hide TryFaces, Drop;
  }

  lemma StepKeepsFaceOut(cfg: Config, s: State, e: Event, clk: Clock, f: FaceId)
    requires cfg.Valid() && Enabled(s, e) && f !in s.faces && e != AddFaceEvent(f)
    ensures f !in Step(cfg, s, e, clk).faces
  {
    hide Verdict, CacheHit, Candidates, Lookup, WithRoute, WithoutFace, Purge, SweepNonces, RecordNonce, Drop, Matched,
      TryFaces;
  }

  /** After a face is withdrawn nothing is sent on it until it is registered again, not even by a
      failover loop that still holds it in its list. */
  lemma {:induction false} WithdrawnFaceIsSilent(cfg: Config, states: seq<State>, events: seq<Timed>, f: FaceId, k: nat)
    requires cfg.Valid() && IsRun(cfg, states, events) && k <= |events|
    requires events != [] && events[0].0 == WithdrawEvent(f)
    requires forall j :: 0 < j < |events| ==> events[j].0 != AddFaceEvent(f)
    ensures k > 0 ==> f !in states[k].faces
    ensures states[0].sent <= states[k].sent
    ensures forall j :: |states[0].sent| <= j < |states[k].sent| ==> states[k].sent[j].face != f
  {
    hide Step, Enabled;
    if k == 1 {
      WithdrawStep(cfg, states[0], f, events[0].1);
    } else if k > 1 {
      WithdrawnFaceIsSilent(cfg, states, events, f, k - 1);
      StepSendsAtMostOne(cfg, states[k - 1], events[k - 1].0, events[k - 1].1);
      StepKeepsFaceOut(cfg, states[k - 1], events[k - 1].0, events[k - 1].1, f);
    }
  }

  lemma WithdrawStep(cfg: Config, s: State, f: FaceId, clk: Clock)
    requires cfg.Valid() && Enabled(s, WithdrawEvent(f))
    ensures var s' := Step(cfg, s, WithdrawEvent(f), clk); s'.sent == s.sent && f !in s'.faces
  {
  }

  // ----- failover -----

  /** The next hop a running forward is trying, and those after it. */
  function Ahead(t: Task): seq<FaceId> {
    match t.phase
    case Sending(f, rest) => [f] + rest
    case Waiting(f, rest, _) => [f] + rest
    case _ => []
  }

  predicate IsSuffix(a: seq<FaceId>, b: seq<FaceId>) {
    |a| <= |b| && a == b[|b| - |a|..]
  }

  /** What any step does to a running forward: it moves down its list of next hops and never back,
      spends no further hop, sends only when it moves on, and stops where it is answered. */
  ghost predicate Advances(s: State, s': State, t: nat)
    requires t < |s.tasks|
  {
    && t < |s'.tasks|
    && s'.tasks[t].interest == s.tasks[t].interest
    && (s'.tasks[t].Active() || s'.tasks[t].phase.Done?)
    && IsSuffix(Ahead(s'.tasks[t]), Ahead(s.tasks[t]))
    && (s'.tasks[t].phase.Sending? && s'.tasks[t] != s.tasks[t] ==>
          && |Ahead(s'.tasks[t])| < |Ahead(s.tasks[t])|
          && s'.sent == s.sent + [Transmission(s'.tasks[t].phase.face, s.tasks[t].interest)])
    && (s'.tasks[t].phase.Done? && s'.tasks[t].phase.result.Some? ==>
          && s.tasks[t].phase.Waiting? && s.tasks[t].phase.fut < |s.futures|
          && s.futures[s.tasks[t].phase.fut].outcome == Answered(s'.tasks[t].phase.result.value)
          && s'.sent == s.sent)
  }

  lemma StepAdvances(cfg: Config, s: State, e: Event, clk: Clock, t: nat)
    requires cfg.Valid() && Enabled(s, e) && t < |s.tasks| && s.tasks[t].Active()
    ensures Advances(s, Step(cfg, s, e, clk), t)
  {
    hide Express, Resume, StartForward, TryFaces, Drop, Step;
    if e.ExpressEvent? {
      StepIsExpress(cfg, s, e, clk);
      ExpressSettles(cfg, s, e.interest, e.inFace, clk, e.refreshNonce);
      ExpressKeepsTasks(cfg, s, e.interest, e.inFace, clk, e.refreshNonce);
    } else if e.StartRefreshEvent? || e.RegisterEvent? || e.ResumeEvent? {
      RunningStepAdvances(cfg, s, e, clk, t);
    } else {
      OtherStepsKeepTasks(cfg, s, e, clk);
    }
  }

  lemma ExpressKeepsTasks(cfg: Config, s: State, i: Interest, inFace: FaceId, clk: Clock, nonce: bytes)
    requires cfg.Valid()
    ensures s.tasks <= Express(cfg, s, i, inFace, clk, nonce).tasks
  {
    hide Verdict, CacheHit, Candidates, Lookup, StartForward, RecordNonce, Seen, Store.Live;
  }

  lemma UnchangedAdvances(s: State, s': State, t: nat)
    requires t < |s.tasks| && s.tasks[t].Active() && t < |s'.tasks| && s'.tasks[t] == s.tasks[t]
    ensures Advances(s, s', t)
  {
  }

  lemma RunningStepAdvances(cfg: Config, s: State, e: Event, clk: Clock, t: nat)
    requires cfg.Valid() && Enabled(s, e) && t < |s.tasks| && s.tasks[t].Active()
    requires e.StartRefreshEvent? || e.RegisterEvent? || e.ResumeEvent?
    ensures Advances(s, Step(cfg, s, e, clk), t)
  {
    hide Express, StartForward, Resume, Register, Drop, ReceiveData, Purge, Advances;
    if e.StartRefreshEvent? {
      UnchangedAdvances(s, Step(cfg, s, e, clk), t);
    } else if e.RegisterEvent? {
      RegisterAdvances(s, e.task, t);
    } else {
      ResumeAdvances(cfg, s, e.task, e.overtaken, clk.mono, t);
    }
  }

  lemma RegisterAdvances(s: State, u: nat, t: nat)
    requires u < |s.tasks| && s.tasks[u].phase.Sending? && t < |s.tasks| && s.tasks[t].Active()
    ensures Advances(s, Register(s, u), t)
  {
  }

  lemma AttemptAdvances(s: State, r: State, t: nat)
    requires t < |s.tasks| && s.tasks[t].phase.Waiting? && OneAttempt(s, r, t, s.tasks[t].phase.rest)
    ensures Advances(s, r, t)
  {
  }

  lemma ResumeAdvances(cfg: Config, s: State, u: nat, overtaken: bool, mono: nat, t: nat)
    requires Resumable(s, u) && t < |s.tasks| && s.tasks[t].Active()
    ensures Advances(s, Resume(cfg, s, u, overtaken, mono), t)
  {
    hide TryFaces, Drop, OneAttempt, IsSuffix;
    var r := Resume(cfg, s, u, overtaken, mono);
    if u != t {
      OtherTaskUnchanged(cfg, s, u, overtaken, mono, t);
      UnchangedAdvances(s, r, t);
    } else if !Found(s, t, overtaken).Answered? {
      var task := s.tasks[t];
      var s1 := s.(failures := AfterFailure(s.failures, task.phase.face, mono), pit := Drop(s.pit, task.Key()));
      AttemptAdvances(s1, r, t);
    } else {
      assert IsSuffix([], Ahead(s.tasks[t])) by { EmptyIsSuffix(Ahead(s.tasks[t])); }
    }
  }

  lemma OtherTaskUnchanged(cfg: Config, s: State, u: nat, overtaken: bool, mono: nat, t: nat)
    requires Resumable(s, u) && t < |s.tasks| && t != u
    ensures t < |Resume(cfg, s, u, overtaken, mono).tasks| && Resume(cfg, s, u, overtaken, mono).tasks[t] == s.tasks[t]
  {
    hide TryFaces, Drop;
  }

  lemma EmptyIsSuffix(a: seq<FaceId>)
    ensures IsSuffix([], a)
  {
  }

  lemma SuffixOfSuffix(a: seq<FaceId>, b: seq<FaceId>, c: seq<FaceId>)
    requires IsSuffix(a, b) && IsSuffix(b, c)
    ensures IsSuffix(a, c)
  {
  }

  /** A forward later in a run: further down the same list, or over. */
  predicate Onward(before: Task, after: Task) {
    && after.interest == before.interest
    && IsSuffix(Ahead(after), Ahead(before))
    && (after.Active() || after.phase.Done?)
  }

  lemma StepOnward(cfg: Config, s: State, e: Event, clk: Clock, t: nat, first: Task)
    requires cfg.Valid() && Enabled(s, e) && t < |s.tasks| && Onward(first, s.tasks[t])
    ensures t < |Step(cfg, s, e, clk).tasks| && Onward(first, Step(cfg, s, e, clk).tasks[t])
  {
    hide Step, Enabled;
    StepSettles(cfg, s, e, clk);
    if s.tasks[t].Active() {
      StepAdvances(cfg, s, e, clk, t);
      SuffixOfSuffix(Ahead(Step(cfg, s, e, clk).tasks[t]), Ahead(s.tasks[t]), Ahead(first));
    }
  }

  lemma OnwardFromSelf(task: Task)
    requires task.Active()
    ensures Onward(task, task)
  {
  }

  lemma {:induction false} RunAdvances(cfg: Config, states: seq<State>, events: seq<Timed>, t: nat, j: nat, k: nat)
    requires cfg.Valid() && IsRun(cfg, states, events) && j <= k <= |events|
    requires t < |states[j].tasks| && states[j].tasks[t].Active()
    ensures t < |states[k].tasks| && Onward(states[j].tasks[t], states[k].tasks[t])
  {
    hide Step, Enabled, Onward;
    if j == k {
      OnwardFromSelf(states[j].tasks[t]);
    } else {
      RunAdvances(cfg, states, events, t, j, k - 1);
      StepOnward(cfg, states[k - 1], events[k - 1].0, events[k - 1].1, t, states[j].tasks[t]);
    }
  }

  lemma OtherFace(now: Task, last: Task, before: Task, first: Task)
    requires Distinct(Ahead(first)) && Onward(first, now) && Onward(first, before) && Onward(before, last)
    requires |Ahead(now)| < |Ahead(last)| && now.phase.Sending? && before.Active()
    ensures now.phase.face != before.phase.face
  {
    var a, b, c := Ahead(now), Ahead(before), Ahead(first);
    assert a[0] == c[|c| - |a|] && b[0] == c[|c| - |b|];
  }

  /** Between two states of a run a forward that starts sending anew has moved on. */
  lemma MovesOn(cfg: Config, s: State, e: Event, clk: Clock, t: nat)
    requires cfg.Valid() && Enabled(s, e)
    requires t < |s.tasks| && (s.tasks[t].Active() || s.tasks[t].phase.Done?)
    ensures var s' := Step(cfg, s, e, clk);
      t < |s'.tasks|
        && (s'.tasks[t].phase.Sending? && s'.tasks[t] != s.tasks[t] ==> |Ahead(s'.tasks[t])| < |Ahead(s.tasks[t])|)
  {
    hide Step, Enabled;
    if s.tasks[t].phase.Done? {
      StepSettles(cfg, s, e, clk);
    } else {
      StepAdvances(cfg, s, e, clk, t);
    }
  }

  /** A forward active at step `m` is on a face it has just moved on to at step `k`. */
  predicate MovedOn(states: seq<State>, t: nat, m: nat, k: nat)
    requires m < k < |states| && t < |states[m].tasks| && t < |states[k - 1].tasks| && t < |states[k].tasks|
  {
    states[m].tasks[t].Active() && states[k].tasks[t].phase.Sending? && states[k].tasks[t] != states[k - 1].tasks[t]
  }

  /** A forward with distinct next hops tries each at most once: when it moves on to a face at step
      `k`, that face is none it was trying at any earlier step `m`. */
  lemma MovesToOtherFaces(cfg: Config, states: seq<State>, events: seq<Timed>, t: nat, j: nat, m: nat, k: nat)
    requires cfg.Valid() && IsRun(cfg, states, events) && j <= m < k <= |events|
    requires t < |states[j].tasks| && states[j].tasks[t].Active() && Distinct(Ahead(states[j].tasks[t]))
    ensures t < |states[m].tasks| && t < |states[k - 1].tasks| && t < |states[k].tasks|
    ensures MovedOn(states, t, m, k) ==>
      states[k].tasks[t].phase.face != states[m].tasks[t].phase.face
  {
    hide Step, Enabled, Distinct, Onward;
    RunAdvances(cfg, states, events, t, j, m);
    RunAdvances(cfg, states, events, t, j, k - 1);
    RunAdvances(cfg, states, events, t, j, k);
    OnwardEnds(states[j].tasks[t], states[k - 1].tasks[t]);
    MovesOn(cfg, states[k - 1], events[k - 1].0, events[k - 1].1, t);
    if MovedOn(states, t, m, k) {
      RunAdvances(cfg, states, events, t, m, k - 1);
      OtherFace(states[k].tasks[t], states[k - 1].tasks[t], states[m].tasks[t], states[j].tasks[t]);
    }
  }

  lemma OnwardEnds(before: Task, after: Task)
    requires Onward(before, after)
    ensures after.Active() || after.phase.Done?
  {
  }

  // ----- satisfied entries -----

  ghost predicate NoneSatisfied(pit: Table) {
    forall n :: n in pit.entries ==> !pit.entries[n].satisfied
  }

  lemma {:induction false} TryFacesLeavesNoneSatisfied(cfg: Config, s: State, t: nat, faces: seq<FaceId>, mono: nat)
    requires t < |s.tasks| && s.pit.Valid() && NoneSatisfied(s.pit)
    ensures TryFaces(cfg, s, t, faces, mono).pit.Valid() && NoneSatisfied(TryFaces(cfg, s, t, faces, mono).pit)
    decreases |faces|
  {
    if faces != [] {
      var task := s.tasks[t];
      var key := task.Key();
      InsertFacts(s.pit, cfg.pitLimit, key, task.inFace, task.interest, mono);
      var p := InsertOrAggregate(s.pit, cfg.pitLimit, key, task.inFace, task.interest, mono);
      PutFacts(p, key, p.entries[key].(outFace := Some(faces[0])));
      var pit := SetOutFace(p, key, faces[0]);
      assert NoneSatisfied(pit);
      DropKeepsValid(pit, key);
      if faces[0] !in s.faces {
        TryFacesLeavesNoneSatisfied(cfg, s.(pit := Drop(pit, key)), t, faces[1..], mono);
      }
    }
  }

  /** Arriving Data leaves a satisfied entry behind exactly when it matched one and storing it
      then raised; otherwise what it satisfied is gone by the end of the step. */
  lemma ArrivalLeavesSatisfied(cfg: Config, s: State, d: Data, unsolicited: bool, wall: nat)
    requires s.pit.Valid() && NoneSatisfied(s.pit)
    ensures NoneSatisfied(ReceiveData(cfg, s, d, unsolicited, wall).pit)
       <==> AncestorRaises(s, d) || Matched(s.pit.entries, d.name.Unpinned()).None? || Store.Storable(d)
  {
    hide Store.Inserted;
    var key := d.name.Unpinned();
    MatchedIsPrefix(s.pit.entries, key);
    if Matched(s.pit.entries, key).Some? {
      var m := Matched(s.pit.entries, key).value;
      assert m in Satisfy(s.pit, m).entries && Satisfy(s.pit, m).entries[m].satisfied;
    }
  }

  lemma StepLeavesNoneSatisfied(cfg: Config, s: State, e: Event, clk: Clock)
    requires cfg.Valid() && Enabled(s, e) && s.pit.Valid() && NoneSatisfied(s.pit)
    requires e.DataEvent? ==> Store.Storable(e.data)
    ensures NoneSatisfied(Step(cfg, s, e, clk).pit)
  {
    hide TryFaces, ReceiveData, Verdict, CacheHit, Candidates, Lookup, WithRoute, WithoutFace, SweepNonces,
      RecordNonce, Drop;
    match e
    case ExpressEvent(i, inFace, nonce) => ExpressLeavesNoneSatisfied(cfg, s, i, inFace, clk, nonce);
    case StartRefreshEvent(t) => ForwardLeavesNoneSatisfied(cfg, s, t, [s.tasks[t].phase.face], clk.mono);
    case ResumeEvent(t, overtaken) => ResumeLeavesNoneSatisfied(cfg, s, t, overtaken, clk.mono);
    case DataEvent(d, unsolicited) => ArrivalLeavesSatisfied(cfg, s, d, unsolicited, clk.wall);
    case PurgeEvent => DropAllFacts(s.pit, StaleNames(s.pit, s.pit.order, clk.mono));
    case _ =>
  }

  lemma ForwardLeavesNoneSatisfied(cfg: Config, s: State, t: nat, faces: seq<FaceId>, mono: nat)
    requires t < |s.tasks| && s.pit.Valid() && NoneSatisfied(s.pit)
    ensures NoneSatisfied(StartForward(cfg, s, t, faces, mono).pit)
  {
    hide TryFaces, NoneSatisfied;
    var i := s.tasks[t].interest;
    if i.hopLimit > 0 {
      var spent := s.tasks[t := s.tasks[t].(interest := i.(hopLimit := i.hopLimit - 1))];
      TryFacesLeavesNoneSatisfied(cfg, s.(tasks := spent), t, faces, mono);
    }
  }

  lemma ExpressLeavesNoneSatisfied(cfg: Config, s: State, i: Interest, inFace: FaceId, clk: Clock, nonce: bytes)
    requires cfg.Valid() && s.pit.Valid() && NoneSatisfied(s.pit)
    ensures NoneSatisfied(Express(cfg, s, i, inFace, clk, nonce).pit)
  {
    hide Verdict, CacheHit, Candidates, Lookup, StartForward, RecordNonce, NoneSatisfied;
    if !Seen(s.nonces, inFace, i.nonce) && Verdict(cfg, s, i, clk).ForwardTo? {
      var face := Verdict(cfg, s, i, clk).face;
      var s1 := AddTask(Admitted(cfg, s, i, inFace, clk), i, inFace, Scheduled(face));
      ForwardLeavesNoneSatisfied(cfg, s1, |s.tasks|,
        Candidates(Lookup(s.routes, i.name), face, s.failures, cfg.tuning, clk.mono), clk.mono);
    }
  }

  lemma ResumeLeavesNoneSatisfied(cfg: Config, s: State, t: nat, overtaken: bool, mono: nat)
    requires Resumable(s, t) && s.pit.Valid() && NoneSatisfied(s.pit)
    ensures NoneSatisfied(Resume(cfg, s, t, overtaken, mono).pit)
  {
    hide TryFaces;
    var task := s.tasks[t];
    var outcome := Found(s, t, overtaken);
    if !task.phase.Joined? {
      DropKeepsValid(s.pit, task.Key());
      if !outcome.Answered? {
        TryFacesLeavesNoneSatisfied(cfg,
          s.(failures := AfterFailure(s.failures, task.phase.face, mono), pit := Drop(s.pit, task.Key())),
                                    t, task.phase.rest, mono);
      }
    }
  }

  /** Between steps no entry is left satisfied, as long as the Data that arrives can be stored. */
  lemma {:induction false} NoEntryLeftSatisfied(cfg: Config, states: seq<State>, events: seq<Timed>, k: nat)
    requires cfg.Valid() && IsRun(cfg, states, events) && states[0] == START && k <= |events|
    requires forall j :: 0 <= j < |events| && events[j].0.DataEvent? ==> Store.Storable(events[j].0.data)
    ensures NoneSatisfied(states[k].pit)
  {
    hide Step, Enabled, NoneSatisfied, Inv;
    if k > 0 {
      NoEntryLeftSatisfied(cfg, states, events, k - 1);
      StartKeepsInv(cfg);
      RunKeepsInv(cfg, states, events, k - 1);
      InvPitValid(cfg, states[k - 1]);
      StepLeavesNoneSatisfied(cfg, states[k - 1], events[k - 1].0, events[k - 1].1);
    } else {
      StartNoneSatisfied();
    }
  }

  lemma InvPitValid(cfg: Config, s: State)
    requires Inv(cfg, s)
    ensures s.pit.Valid()
  {
  }

  lemma StartNoneSatisfied()
    ensures NoneSatisfied(START.pit)
  {
  }

  // ----- arrivals -----

  /** Which pending name arriving Data answers: its own, or else its longest pending proper prefix
      that accepts longer names. */
  ghost predicate IsMatch(entries: map<Name, PitEntry>, key: Name, m: Name) {
    if key in entries then m == key
    else
      && m != key && m.pin == None && key.StartsWith(m) && AcceptsLonger(entries, m)
      && forall p: Name ::
          p != key && p.pin == None && key.StartsWith(p) && AcceptsLonger(entries, p) ==> p.Len() <= m.Len()
  }

  lemma MatchedIsNearest(entries: map<Name, PitEntry>, key: Name)
    requires key.pin == None
    ensures Matched(entries, key).Some? ==> IsMatch(entries, key, Matched(entries, key).value)
    ensures Matched(entries, key).None? ==>
      key !in entries && forall p: Name :: p != key && p.pin == None && key.StartsWith(p) ==> !AcceptsLonger(entries, p)
  {
    AncestorIsNearest(entries, key, key.Len() - 1);
    forall p: Name | p != key && p.pin == None && key.StartsWith(p)
      ensures 1 <= p.Len() <= key.Len() - 1 && p == key.Prefix(p.Len())
    {
      PrefixesAreStartsWith(key, p);
    }
  }

  /** Arriving Data wakes every registered waiter of the entry it matches, all with this Data, and
      no other waiter, also where storing it raises; if it can be stored it is cached when it matched
      or caching was opted in to, and the entry is gone.  Only where its pending ancestors cannot be
      looked up does nothing happen at all. */
  lemma ArrivalIsDelivered(cfg: Config, s: State, d: Data, unsolicited: bool, wall: nat)
    requires Inv(cfg, s)
    ensures AncestorRaises(s, d) ==> ReceiveData(cfg, s, d, unsolicited, wall) == s
    ensures !AncestorRaises(s, d) ==>
      IsDelivery(cfg, s, ReceiveData(cfg, s, d, unsolicited, wall), d, unsolicited, wall)
  {
    hide Store.Inserted, IsNearest, Matched, Store.Storable, Listed, Notify, Satisfy, Drop, IsAnswered;
    var key := d.name.Unpinned();
    NearestIsMatched(s.pit.entries, key);
    MatchedIsThere(s.pit.entries, key);
    var m := Matched(s.pit.entries, key);
    DeliveredEntries(s.pit, key, m);
    if m.Some? {
      NotifyAnswers(s.(pit := Satisfy(s.pit, m.value)), m.value, d);
    } else {
      NobodyAnswered(s.futures, d);
    }
    if !AncestorRaises(s, d) {
      assert DeliveredTo(cfg, s, ReceiveData(cfg, s, d, unsolicited, wall), d, unsolicited, wall, m);
    }
  }

  lemma NearestIsMatched(entries: map<Name, PitEntry>, key: Name)
    requires key.pin == None
    ensures IsNearest(entries, key, Matched(entries, key))
  {
    MatchedIsNearest(entries, key);
  }

  lemma MatchedIsThere(entries: map<Name, PitEntry>, key: Name)
    requires key.pin == None
    ensures Matched(entries, key).Some? ==> Matched(entries, key).value in entries
    ensures Matched(entries, key).None? ==> key !in entries
  {
    MatchedIsNearest(entries, key);
  }

  lemma NobodyAnswered(futures: seq<Future>, d: Data)
    ensures forall f :: 0 <= f < |futures| ==> IsAnswered(futures[f], futures[f], None, d)
  {
  }

  /** What satisfying and removing do to the entries. */
  lemma DeliveredEntries(t: Table, key: Name, m: Option<Name>)
    requires t.Valid() && (m.Some? ==> m.value in t.entries) && (m.None? ==> key !in t.entries)
    ensures m.None? ==> Drop(t, key).entries == t.entries
    ensures m.Some? ==>
      && Satisfy(t, m.value).entries == t.entries[m.value := t.entries[m.value].(satisfied := true)]
      && Drop(Satisfy(t, m.value), m.value).entries == t.entries - {m.value}
  {
    hide Satisfy, Drop, SetOutFace;
    if m.Some? {
      var n := m.value;
      TouchFacts(t, n, 0);
      var sat := Satisfy(t, n);
      TouchFacts(sat, n, 0);
      PutAndRemove(t.entries, n, sat.entries[n]);
    } else {
      TouchFacts(t, key, 0);
      assert t.entries - {key} == t.entries;
    }
  }

  lemma PutAndRemove(entries: map<Name, PitEntry>, n: Name, e: PitEntry)
    ensures entries[n := e] - {n} == entries - {n}
  {
  }

  lemma NotifyAnswers(s: State, key: Name, d: Data)
    requires WaitersOk(s.notifiers, s.futures)
    ensures var s' := Notify(s, key, Answered(d)); s' == s.(notifiers := s.notifiers - {key}, futures := s'.futures)
    ensures var s' := Notify(s, key, Answered(d));
      && |s'.futures| == |s.futures|
      && forall f :: 0 <= f < |s.futures| ==> IsAnswered(s.futures[f], s'.futures[f], Some(key), d)
  {
    WaitersOfKey(s, key);
  }

  /** What arriving Data that matched this entry makes of a future. */
  predicate IsAnswered(before: Future, after: Future, matched: Option<Name>, d: Data) {
    after ==
      if before.outcome == Pending && matched == Some(before.key) then before.(outcome := Answered(d)) else before
  }

  /** The entry arriving Data satisfies: its own, or the nearest ancestor that accepts longer names, or
      none if there is neither. */
  ghost predicate IsNearest(entries: map<Name, PitEntry>, key: Name, m: Option<Name>) {
    if m.Some? then m.value in entries && IsMatch(entries, key, m.value)
    else
      && key !in entries
      && forall p: Name :: p != key && p.pin == None && key.StartsWith(p) ==> !AcceptsLonger(entries, p)
  }

  /** The step changes the futures of that entry, the entry, its list of waiters and the store, and
      nothing else. */
  ghost predicate DeliveredTo(cfg: Config, s: State, s': State, d: Data, unsolicited: bool, wall: nat,
      m: Option<Name>) {
    && s' == s.(rows := s'.rows, pit := s'.pit, notifiers := s'.notifiers, futures := s'.futures)
    && |s'.futures| == |s.futures| && (m.Some? ==> m.value in s.pit.entries)
    && (forall f :: 0 <= f < |s.futures| ==> IsAnswered(s.futures[f], s'.futures[f], m, d))
    && s'.notifiers == (if m.Some? then s.notifiers - {m.value} else s.notifiers)
    && s'.rows == (if (m.Some? || unsolicited) && Store.Storable(d)
                   then Store.Inserted(cfg.store, s.rows, d.name, d, wall)
                   else s.rows)
    && s'.pit.entries == (if m.None? then s.pit.entries
                          else if Store.Storable(d) then s.pit.entries - {m.value}
                          else s.pit.entries[m.value := s.pit.entries[m.value].(satisfied := true)])
  }

  ghost predicate IsDelivery(cfg: Config, s: State, s': State, d: Data, unsolicited: bool, wall: nat) {
    exists m :: IsNearest(s.pit.entries, d.name.Unpinned(), m) && DeliveredTo(cfg, s, s', d, unsolicited, wall, m)
  }

  /** The waiters listed under a key are exactly the pending futures made for it. */
  lemma WaitersOfKey(s: State, key: Name)
    requires WaitersOk(s.notifiers, s.futures)
    ensures var ids := if key in s.notifiers then s.notifiers[key] else [];
      forall f :: 0 <= f < |s.futures| && s.futures[f].outcome == Pending ==> (f in ids <==> s.futures[f].key == key)
  {
    var ids := if key in s.notifiers then s.notifiers[key] else [];
    forall f | 0 <= f < |s.futures| && s.futures[f].outcome == Pending ensures f in ids <==> s.futures[f].key == key {
      assert Listed(s.notifiers, s.futures[f].key, f);
      assert f in ids ==> Listed(s.notifiers, key, f);
    }
  }

  /** A NACK reaches every registered waiter of its name, and nothing is cached for it. */
  lemma NackIsDelivered(cfg: Config, s: State, n: Name)
    requires Inv(cfg, s)
    ensures var s' := ReceiveNack(s, n);
      && (forall f :: 0 <= f < |s.futures| ==>
            s'.futures[f] == if s.futures[f].outcome == Pending && s.futures[f].key == n.Unpinned()
                             then s.futures[f].(outcome := Nacked) else s.futures[f])
      && s'.rows == s.rows && s'.pit == s.pit && s'.sent == s.sent
  {
    WaitersOfKey(s, n.Unpinned());
  }

  // ----- loop detection -----

  /** What the events of a run do to the nonce tracker. */
  function NonceEvents(events: seq<Timed>): seq<NonceEvent> {
    if events == [] then []
    else
      var before := NonceEvents(events[..|events| - 1]);
      var e, clk := events[|events| - 1].0, events[|events| - 1].1;
      if e.ExpressEvent? then before + [Arrival(e.inFace, e.interest.nonce, clk.mono)]
      else if e.PurgeEvent? then before + [Sweep(clk.mono)]
      else before
  }

  lemma StepTracks(cfg: Config, s: State, e: Event, clk: Clock)
    requires cfg.Valid() && Enabled(s, e)
    ensures Step(cfg, s, e, clk).nonces ==
      if e.ExpressEvent? then
        TrackerStep(s.nonces, Arrival(e.inFace, e.interest.nonce, clk.mono), cfg.nonceTtl, cfg.nonceLimit)
      else if e.PurgeEvent? then TrackerStep(s.nonces, Sweep(clk.mono), cfg.nonceTtl, cfg.nonceLimit)
      else s.nonces
  {
    hide Verdict, CacheHit, Candidates, Lookup, WithRoute, WithoutFace, Purge, SweepNonces, RecordNonce, Drop, Matched,
      TryFaces, Express;
    if e.ExpressEvent? {
      ExpressTracks(cfg, s, e.interest, e.inFace, clk, e.refreshNonce);
    }
  }

  lemma ExpressTracks(cfg: Config, s: State, i: Interest, inFace: FaceId, clk: Clock, refreshNonce: bytes)
    requires cfg.Valid()
    ensures Express(cfg, s, i, inFace, clk, refreshNonce).nonces ==
      TrackerStep(s.nonces, Arrival(inFace, i.nonce, clk.mono), cfg.nonceTtl, cfg.nonceLimit)
  {
    hide Verdict, CacheHit, Candidates, Lookup, RecordNonce, TryFaces;
  }

  lemma {:induction false} RunTracks(cfg: Config, states: seq<State>, events: seq<Timed>, k: nat)
    requires cfg.Valid() && IsRun(cfg, states, events) && states[0] == START && k <= |events|
    ensures states[k].nonces == Tracker(NonceEvents(events[..k]), cfg.nonceTtl, cfg.nonceLimit)
  {
    hide Step, Enabled, TrackerStep;
    if k > 0 {
      RunTracks(cfg, states, events, k - 1);
      StepTracks(cfg, states[k - 1], events[k - 1].0, events[k - 1].1);
      assert events[..k][..k - 1] == events[..k - 1] && events[..k][k - 1] == events[k - 1];
      var before, now := NonceEvents(events[..k - 1]), NonceEvents(events[..k]);
      assert |now| > |before| ==> now[..|now| - 1] == before;
    }
  }

  ghost predicate MonotonicClock(events: seq<Timed>) {
    forall i, j :: 0 <= i < j < |events| ==> events[i].1.mono <= events[j].1.mono
  }

  lemma {:induction false} NonceEventsAreOrdered(events: seq<Timed>)
    requires MonotonicClock(events)
    ensures Ordered(NonceEvents(events))
    ensures forall i :: 0 <= i < |NonceEvents(events)| ==>
      events != [] && NonceEvents(events)[i].at <= events[|events| - 1].1.mono
  {
    if events != [] {
      NonceEventsAreOrdered(events[..|events| - 1]);
    }
  }

  /** In every run under a clock that never runs back, the forwarder flags an Interest as looping
      exactly when its face and nonce are among the recorded pairs with fewer than the limit newer ones
      whose lifetime outlasts the last sweep. */
  lemma LoopDetectionIsSlidingWindow(cfg: Config, states: seq<State>, events: seq<Timed>, k: nat)
    requires cfg.Valid() && cfg.nonceTtl >= 1 && IsRun(cfg, states, events) && states[0] == START && k <= |events|
    requires MonotonicClock(events)
    ensures var es := NonceEvents(events[..k]);
      var all := Recorded(es, cfg.nonceTtl, cfg.nonceLimit);
      && |states[k].nonces| <= cfg.nonceLimit && |states[k].nonces| <= |all|
      && states[k].nonces == all[|all| - |states[k].nonces|..]
      && forall j :: 0 <= j < |all| ==>
           (j >= |all| - |states[k].nonces| <==> |all| - j <= cfg.nonceLimit && all[j].expiresAt > LastSweep(es))
  {
    hide Step, Enabled, NonceEvents, Recorded, LastSweep, Tracker;
    RunTracks(cfg, states, events, k);
    NonceEventsAreOrdered(events[..k]);
    TrackerIsSlidingWindow(NonceEvents(events[..k]), cfg.nonceTtl, cfg.nonceLimit);
  }

  // ----- at a concrete input -----

  /** Data with a sequence the store's columns cannot hold, answering a pending Interest: its waiters are
      woken, storing it raises, and the entry stays behind, satisfied. */
  lemma HugeSequenceLeavesSatisfied(cfg: Config, s: State, n: Name, d: Data, wall: nat)
    requires s.pit.Valid() && NoneSatisfied(s.pit) && n in s.pit.entries && n.pin == None
    requires d == Data(n, [], None, DEFAULT_METADATA.(sequence := Some(0x8000_0000_0000_0000)))
    ensures var s' := ReceiveData(cfg, s, d, false, wall);
      && n in s'.pit.entries && s'.pit.entries[n].satisfied && s'.rows == s.rows
  {
    hide Store.Inserted;
    assert n.Unpinned() == n;
    assert Matched(s.pit.entries, n) == Some(n);
  }
}
