/** What single calls do over whole runs: which next hops a forward tries, and what becomes of a call
    suppressed behind another. */
module ForwardingCalls {
  import opened Base
  import opened Packets
  import Store
  import opened Fibs
  import opened Pits
  import opened Strategies
  import opened Forwarding
  import opened ForwardingSafety
  import opened ForwardingRuns

  // ----- next hops -----

  /** What a forward starts with: the strategy's candidates for the name, each usable next hop once and
      in order of cost, with the face it chose first. */
  ghost predicate IsCandidateList(cfg: Config, s: State, i: Interest, clk: Clock, faces: seq<FaceId>)
    requires Verdict(cfg, s, i, clk).ForwardTo?
  {
    var hops := Lookup(s.routes, i.name);
    && faces != [] && faces[0] == Verdict(cfg, s, i, clk).face && Distinct(faces)
    && (forall f :: f in faces <==> Uses(hops, f) && !InBackoff(s.failures, cfg.tuning, f, clk.mono))
    && (forall x, y :: 0 <= x < y < |faces| ==> Precedes(hops, faces[x], faces[y]))
  }

  lemma CandidatesOf(cfg: Config, s: State, i: Interest, clk: Clock)
    requires TablesOk(cfg.store.capacity, s.rows, s.routes) && Verdict(cfg, s, i, clk).ForwardTo?
    ensures IsCandidateList(cfg, s, i, clk,
      Candidates(Lookup(s.routes, i.name), Verdict(cfg, s, i, clk).face, s.failures, cfg.tuning, clk.mono))
  {
    hide CacheHit, Candidates, Precedes;
    var hops := Lookup(s.routes, i.name);
    LookupIsLongestPrefixMatch(s.routes, i.name);
    NoHopsNoForward(cfg, s, i, clk);
    CandidatesRefineDecision(i, hops, PendingFor(s, i.name), CacheHit(cfg, s.rows, i, clk.wall), s.failures,
      cfg.tuning, clk.mono);
  }

  lemma NoHopsNoForward(cfg: Config, s: State, i: Interest, clk: Clock)
    requires Verdict(cfg, s, i, clk).ForwardTo?
    ensures Lookup(s.routes, i.name) != []
  {
    hide CacheHit, Lookup;
  }

  /** A call that is forwarded works down its candidate list, with one hop less, whatever happens at
      once to its first faces. */
  lemma ForwardStartsWithCandidates(cfg: Config, s: State, i: Interest, inFace: FaceId, clk: Clock, nonce: bytes)
    returns (faces: seq<FaceId>)
    requires cfg.Valid() && Inv(cfg, s) && !Seen(s.nonces, inFace, i.nonce) && Verdict(cfg, s, i, clk).ForwardTo?
    ensures IsCandidateList(cfg, s, i, clk, faces)
    ensures var s' := Express(cfg, s, i, inFace, clk, nonce);
      && |s'.tasks| == |s.tasks| + 1 && s'.tasks[..|s.tasks|] == s.tasks
      && IsSuffix(Ahead(s'.tasks[|s.tasks|]), faces)
      && s'.tasks[|s.tasks|].interest == (if i.hopLimit > 0 then i.(hopLimit := i.hopLimit - 1) else i)
  {
    hide CacheHit, Candidates, Lookup, StartForward, RecordNonce, Verdict, IsCandidateList, PitOk,
      WaitersOk, TasksOk, RefreshOk, Seen, Store.Live;
    CandidatesOf(cfg, s, i, clk);
    faces := Candidates(Lookup(s.routes, i.name), Verdict(cfg, s, i, clk).face, s.failures, cfg.tuning, clk.mono);
    var s' := Express(cfg, s, i, inFace, clk, nonce);
    var s1 := AddTask(Admitted(cfg, s, i, inFace, clk), i, inFace, Scheduled(Verdict(cfg, s, i, clk).face));
    assert OneHop(s1, s', |s.tasks|, faces);
  }

  lemma DistinctSuffix(a: seq<FaceId>, b: seq<FaceId>)
    requires IsSuffix(a, b) && Distinct(b)
    ensures Distinct(a)
  {
    forall i, j | 0 <= i < j < |a| ensures a[i] != a[j] {
      assert a[i] == b[|b| - |a| + i] && a[j] == b[|b| - |a| + j];
    }
  }

  /** No forward has a face twice among its next hops. */
  ghost predicate ListsOk(tasks: seq<Task>) {
    forall t :: 0 <= t < |tasks| ==> Distinct(Ahead(tasks[t]))
  }

  lemma ExpressKeepsLists(cfg: Config, s: State, i: Interest, inFace: FaceId, clk: Clock, nonce: bytes)
    requires cfg.Valid() && Inv(cfg, s) && ListsOk(s.tasks)
    ensures ListsOk(Express(cfg, s, i, inFace, clk, nonce).tasks)
  {
    hide Inv, CacheHit, Candidates, Lookup, StartForward, RecordNonce, Verdict, Distinct, IsSuffix;
    var s' := Express(cfg, s, i, inFace, clk, nonce);
    NothingIsDistinct();
    if !Seen(s.nonces, inFace, i.nonce) && Verdict(cfg, s, i, clk).ForwardTo? {
      var faces := ForwardStartsWithCandidates(cfg, s, i, inFace, clk, nonce);
      DistinctSuffix(Ahead(s'.tasks[|s.tasks|]), faces);
      forall t | 0 <= t < |s'.tasks| ensures Distinct(Ahead(s'.tasks[t])) {
        assert t < |s.tasks| ==> s'.tasks[t] == s'.tasks[..|s.tasks|][t];
      }
    } else {
      UnforwardedIsIdle(cfg, s, i, inFace, clk, nonce);
    }
  }

  lemma NothingIsDistinct()
    ensures forall l: seq<FaceId> :: l == [] ==> Distinct(l)
  {
  }

  lemma UnforwardedIsIdle(cfg: Config, s: State, i: Interest, inFace: FaceId, clk: Clock, nonce: bytes)
    requires cfg.Valid() && (Seen(s.nonces, inFace, i.nonce) || !Verdict(cfg, s, i, clk).ForwardTo?)
    ensures var s' := Express(cfg, s, i, inFace, clk, nonce);
      && s.tasks <= s'.tasks && s'.sent == s.sent
      && forall t :: |s.tasks| <= t < |s'.tasks| ==> Ahead(s'.tasks[t]) == []
  {
    hide CacheHit, Candidates, Lookup, StartForward, RecordNonce, Verdict, Store.Live, Seen;
  }

  lemma RunningKeepsLists(cfg: Config, s: State, e: Event, clk: Clock)
    requires cfg.Valid() && Enabled(s, e) && (e.StartRefreshEvent? || e.RegisterEvent? || e.ResumeEvent?)
    requires ListsOk(s.tasks)
    ensures ListsOk(Step(cfg, s, e, clk).tasks)
  {
    hide Step, Enabled, Distinct, IsSuffix, Ahead, Advances;
    var s' := Step(cfg, s, e, clk);
    RunningKeepsOthers(cfg, s, e, clk);
    forall t | 0 <= t < |s'.tasks| ensures Distinct(Ahead(s'.tasks[t])) {
      if t == e.task {
        RunningListShrinks(cfg, s, e, clk);
      } else {
        assert s'.tasks[t] == s.tasks[t];
      }
    }
  }

  lemma RunningKeepsOthers(cfg: Config, s: State, e: Event, clk: Clock)
    requires cfg.Valid() && Enabled(s, e) && (e.StartRefreshEvent? || e.RegisterEvent? || e.ResumeEvent?)
    ensures var s' := Step(cfg, s, e, clk);
      && e.task < |s.tasks| && |s'.tasks| == |s.tasks|
      && forall t :: 0 <= t < |s.tasks| && t != e.task ==> s'.tasks[t] == s.tasks[t]
  {
    hide Express, StartForward, TryFaces, Drop, ReceiveData, Purge;
    if e.ResumeEvent? {
      ResumeKeepsOthers(cfg, s, e.task, e.overtaken, clk.mono);
    }
  }

  lemma ResumeKeepsOthers(cfg: Config, s: State, t: nat, overtaken: bool, mono: nat)
    requires Resumable(s, t)
    ensures var s' := Resume(cfg, s, t, overtaken, mono);
      |s'.tasks| == |s.tasks| && forall u :: 0 <= u < |s.tasks| && u != t ==> s'.tasks[u] == s.tasks[u]
  {
    hide TryFaces, Drop;
  }

  lemma RunningListShrinks(cfg: Config, s: State, e: Event, clk: Clock)
    requires cfg.Valid() && Enabled(s, e) && (e.StartRefreshEvent? || e.RegisterEvent? || e.ResumeEvent?)
    requires ListsOk(s.tasks) && e.task < |Step(cfg, s, e, clk).tasks|
    ensures Distinct(Ahead(Step(cfg, s, e, clk).tasks[e.task]))
  {
    hide Express, StartForward, Resume, Drop, ReceiveData, Purge, Distinct;
    NothingIsDistinct();
    var t := e.task;
    assert Distinct(Ahead(s.tasks[t]));
    if e.StartRefreshEvent? {
      OneIsDistinct();
      var s' := Step(cfg, s, e, clk);
      assert OneHop(s, s', t, [s.tasks[t].phase.face]);
    } else if e.ResumeEvent? && s.tasks[t].Active() {
      hide Step;
      StepAdvances(cfg, s, e, clk, t);
      DistinctSuffix(Ahead(Step(cfg, s, e, clk).tasks[t]), Ahead(s.tasks[t]));
    } else if e.ResumeEvent? {
      JoinedResumes(cfg, s, t, e.overtaken, clk.mono);
    }
  }

  lemma OneIsDistinct()
    ensures forall l: seq<FaceId> :: |l| <= 1 ==> Distinct(l)
  {
  }

  lemma JoinedResumes(cfg: Config, s: State, t: nat, overtaken: bool, mono: nat)
    requires Resumable(s, t) && s.tasks[t].phase.Joined?
    ensures var s' := Resume(cfg, s, t, overtaken, mono);
      && t < |s'.tasks| && s'.tasks[t].phase.Done? && s'.sent == s.sent
      && (s'.tasks[t].phase.result.Some? ==>
            s.futures[s.tasks[t].phase.fut].outcome == Answered(s'.tasks[t].phase.result.value))
  {
  }

  lemma StepKeepsLists(cfg: Config, s: State, e: Event, clk: Clock)
    requires cfg.Valid() && Enabled(s, e) && Inv(cfg, s) && ListsOk(s.tasks)
    ensures ListsOk(Step(cfg, s, e, clk).tasks)
  {
    hide Inv, ListsOk, Express, Step, Enabled;
    if e.ExpressEvent? {
      StepIsExpress(cfg, s, e, clk);
      ExpressKeepsLists(cfg, s, e.interest, e.inFace, clk, e.refreshNonce);
    } else if e.StartRefreshEvent? || e.RegisterEvent? || e.ResumeEvent? {
      RunningKeepsLists(cfg, s, e, clk);
    } else {
      OtherStepsKeepTasks(cfg, s, e, clk);
    }
  }

  lemma {:induction false} ReachableListsAreDistinct(cfg: Config, states: seq<State>, events: seq<Timed>, k: nat)
    requires cfg.Valid() && IsRun(cfg, states, events) && states[0] == START && k <= |events|
    ensures Inv(cfg, states[k]) && ListsOk(states[k].tasks)
  {
    hide Inv, Step, Enabled;
    StartKeepsInv(cfg);
    RunKeepsInv(cfg, states, events, k);
    if k > 0 {
      hide ListsOk;
      ReachableListsAreDistinct(cfg, states, events, k - 1);
      StepKeepsLists(cfg, states[k - 1], events[k - 1].0, events[k - 1].1);
    }
  }

  /** In every run from the start a forward tries each next hop at most once: a face it moves on to at
      step `k` is none that it was trying at any earlier step `m`. */
  lemma TriedAtMostOnce(cfg: Config, states: seq<State>, events: seq<Timed>, t: nat, m: nat, k: nat)
    requires cfg.Valid() && IsRun(cfg, states, events) && states[0] == START && m < k <= |events|
    requires t < |states[m].tasks| && states[m].tasks[t].Active()
    ensures t < |states[k - 1].tasks| && t < |states[k].tasks|
    ensures states[k].tasks[t].phase.Sending? && states[k].tasks[t] != states[k - 1].tasks[t] ==>
      states[k].tasks[t].phase.face != states[m].tasks[t].phase.face
  {
    hide Inv, Step, Enabled;
    ReachableListsAreDistinct(cfg, states, events, m);
    MovesToOtherFaces(cfg, states, events, t, m, m, k);
  }

  // ----- aggregation -----

  /** An Interest that is suppressed: its name is pending and the store cannot answer it. */
  ghost predicate IsSuppressed(cfg: Config, s: State, i: Interest, clk: Clock) {
    && i.name in s.pit.entries && !s.pit.entries[i.name].satisfied
    && var hit := CacheHit(cfg, s.rows, i, clk.wall); hit.Some? ==> !SelectorSatisfied(i, hit.value)
  }

  /** Suppression sends nothing and leaves the table alone: the call is dropped as a duplicate, or waits
      on a future of its own. */
  lemma SuppressedStep(cfg: Config, s: State, i: Interest, inFace: FaceId, clk: Clock, nonce: bytes)
    requires cfg.Valid() && IsSuppressed(cfg, s, i, clk)
    ensures var s' := Express(cfg, s, i, inFace, clk, nonce);
      && s'.sent == s.sent && s'.pit == s.pit
      && |s'.tasks| == |s.tasks| + 1 && s'.tasks[..|s.tasks|] == s.tasks
      && (if Seen(s.nonces, inFace, i.nonce) then s'.futures == s.futures && s'.tasks[|s.tasks|].phase == Done(None)
          else s'.futures == s.futures + [Future(i.name, Pending)] && s'.tasks[|s.tasks|].phase == Joined(|s.futures|))
  {
    hide CacheHit, Lookup, Candidates, StartForward, RecordNonce;
  }

  /** What a step makes of a suppressed call: nothing, or it returns, in a step that sends nothing, with
      nothing or with what its own future was answered with. */
  ghost predicate StaysSuppressed(s: State, s': State, t: nat)
    requires t < |s.tasks| && s.tasks[t].phase.Joined?
  {
    && t < |s'.tasks|
    && (s'.tasks[t] == s.tasks[t] ||
        (&& s'.tasks[t].phase.Done? && s'.sent == s.sent
         && (s'.tasks[t].phase.result.Some? ==>
               && s.tasks[t].phase.fut < |s.futures|
               && s.futures[s.tasks[t].phase.fut].outcome == Answered(s'.tasks[t].phase.result.value))))
  }

  lemma StepKeepsSuppressed(cfg: Config, s: State, e: Event, clk: Clock, t: nat)
    requires cfg.Valid() && Enabled(s, e) && t < |s.tasks| && s.tasks[t].phase.Joined?
    ensures StaysSuppressed(s, Step(cfg, s, e, clk), t)
  {
    hide Express, Step, Resume, Enabled;
    if e.ExpressEvent? {
      StepIsExpress(cfg, s, e, clk);
      ExpressKeepsTasks(cfg, s, e.interest, e.inFace, clk, e.refreshNonce);
    } else if e.ResumeEvent? && e.task == t {
      StepIsResume(cfg, s, e, clk);
      JoinedResumes(cfg, s, t, e.overtaken, clk.mono);
    } else if e.StartRefreshEvent? || e.RegisterEvent? || e.ResumeEvent? {
      RunningKeepsOthers(cfg, s, e, clk);
      if !e.ResumeEvent? {
        RunsAnother(s, e, t);
      }
    } else {
      OtherStepsKeepTasks(cfg, s, e, clk);
    }
  }

  lemma StepIsResume(cfg: Config, s: State, e: Event, clk: Clock)
    requires cfg.Valid() && Enabled(s, e) && e.ResumeEvent?
    ensures Resumable(s, e.task) && Step(cfg, s, e, clk) == Resume(cfg, s, e.task, e.overtaken, clk.mono)
  {
    hide Resume;
  }

  lemma RunsAnother(s: State, e: Event, t: nat)
    requires Enabled(s, e) && t < |s.tasks| && s.tasks[t].phase.Joined?
    requires e.StartRefreshEvent? || e.RegisterEvent?
    ensures e.task != t
  {
  }

  /** The forward a transmission belongs to: it has just begun sending, and was not waiting behind
      another before. */
  ghost predicate SendsFor(s: State, s': State, u: nat) {
    && u < |s'.tasks| && s'.tasks[u].phase.Sending?
    && s'.sent == s.sent + [Transmission(s'.tasks[u].phase.face, s'.tasks[u].interest)]
    && (u < |s.tasks| ==> s.tasks[u].phase.Scheduled? || s.tasks[u].phase.Waiting?)
  }

  /** Every transmission is made by the step of one forward that is not suppressed. */
  lemma SenderIsForward(cfg: Config, s: State, e: Event, clk: Clock)
    requires cfg.Valid() && Enabled(s, e) && Step(cfg, s, e, clk).sent != s.sent
    ensures exists u :: SendsFor(s, Step(cfg, s, e, clk), u)
  {
    hide Express, Step, Resume, Enabled;
    if e.ExpressEvent? {
      StepIsExpress(cfg, s, e, clk);
      ExpressSender(cfg, s, e.interest, e.inFace, clk, e.refreshNonce);
    } else if e.StartRefreshEvent? || e.RegisterEvent? {
      BeginningSender(cfg, s, e, clk);
    } else if e.ResumeEvent? {
      StepIsResume(cfg, s, e, clk);
      ResumeSender(cfg, s, e.task, e.overtaken, clk.mono);
    } else {
      OtherStepsKeepTasks(cfg, s, e, clk);
    }
  }

  lemma ExpressSender(cfg: Config, s: State, i: Interest, inFace: FaceId, clk: Clock, nonce: bytes)
    requires cfg.Valid()
    ensures var s' := Express(cfg, s, i, inFace, clk, nonce); s'.sent != s.sent ==> SendsFor(s, s', |s.tasks|)
  {
    hide CacheHit, Candidates, Lookup, StartForward, RecordNonce, Verdict;
  }

  lemma BeginningSender(cfg: Config, s: State, e: Event, clk: Clock)
    requires cfg.Valid() && Enabled(s, e) && (e.StartRefreshEvent? || e.RegisterEvent?)
    ensures var s' := Step(cfg, s, e, clk); s'.sent != s.sent ==> SendsFor(s, s', e.task)
  {
    hide Express, StartForward, Resume, ReceiveData, Purge;
  }

  lemma ResumeSender(cfg: Config, s: State, t: nat, overtaken: bool, mono: nat)
    requires Resumable(s, t)
    ensures var s' := Resume(cfg, s, t, overtaken, mono); s'.sent != s.sent ==> SendsFor(s, s', t)
  {
    hide TryFaces, Drop;
  }

  ghost predicate ChangesSilently(s: State, s': State, t: nat) {
    && t < |s.tasks| && t < |s'.tasks|
    && (s'.tasks[t] == s.tasks[t] || (s.tasks[t].phase.Joined? && s'.sent == s.sent))
  }

  /** Over any run, whatever happens before, between and after: an Interest that arrives at step `j`
      for a pending name the store cannot answer is not sent upstream then, and its call, the last one
      after that step, never sends later either. It is dropped, or waits until it returns. */
  lemma {:induction false} AggregationNeverResends(cfg: Config, states: seq<State>, events: seq<Timed>, j: nat, k: nat)
    requires cfg.Valid() && IsRun(cfg, states, events) && j < k <= |events|
    requires events[j].0.ExpressEvent? && IsSuppressed(cfg, states[j], events[j].0.interest, events[j].1)
    ensures var t := |states[j].tasks|;
      && states[j + 1].sent == states[j].sent && states[j + 1].pit == states[j].pit
      && t < |states[k].tasks| && (states[k].tasks[t].phase.Joined? || states[k].tasks[t].phase.Done?)
      && (k > j + 1 ==> ChangesSilently(states[k - 1], states[k], t))
  {
    hide Step, Enabled, IsSuppressed, Express;
    var t := |states[j].tasks|;
    var e := events[j].0;
    assert Enabled(states[j], e) && states[j + 1] == Step(cfg, states[j], e, events[j].1);
    StepIsExpress(cfg, states[j], e, events[j].1);
    SuppressedStep(cfg, states[j], e.interest, e.inFace, events[j].1, e.refreshNonce);
    if k > j + 1 {
      AggregationNeverResends(cfg, states, events, j, k - 1);
      assert states[k] == Step(cfg, states[k - 1], events[k - 1].0, events[k - 1].1);
      if states[k - 1].tasks[t].phase.Joined? {
        StepKeepsSuppressed(cfg, states[k - 1], events[k - 1].0, events[k - 1].1, t);
      } else {
        StepSettles(cfg, states[k - 1], events[k - 1].0, events[k - 1].1);
      }
    }
  }
}
