/** What calls return (rns_icn/forwarder.py): from the store at once, from their own future when
    resumed, or nothing; and what they do otherwise, said without the strategy's own words. */
module ForwardingAnswers {
  import opened Base
  import opened Names
  import opened Packets
  import Store
  import opened Fibs
  import opened Pits
  import opened Strategies
  import opened Forwarding
  import opened ForwardingSafety
  import opened ForwardingRuns

  // ----- what the store offers -----

  function ChildOf(i: Interest): ChildSelector {
    if i.selector.None? then AnyChild else i.selector.value.child
  }

  function FloorOf(i: Interest): Option<nat> {
    if i.selector.None? then None else i.selector.value.minSequence
  }

  /** A sequence walk: the oldest at or above a floor. */
  predicate IsWalk(i: Interest) { ChildOf(i) == Oldest && FloorOf(i).Some? }

  /** What an exact Interest is offered is the row asked for; what a prefix Interest is offered is the
      extreme eligible row, on a walk only one exactly on the floor. */
  lemma OfferIsExact(cfg: Config, rows: Store.Rows, i: Interest, wall: nat)
    requires Store.DistinctNames(rows)
    ensures var hit := CacheHit(cfg, rows, i, wall);
      && (!i.canBePrefix ==>
            && (hit.Some? <==> exists r :: r in rows && Store.IsAskedFor(cfg.store, rows, r, i.name, wall))
            && (hit.Some? ==> exists r ::
                  Store.IsAskedFor(cfg.store, rows, r, i.name, wall) && Store.IsCopyOfRow(hit.value, r, wall)))
      && (i.canBePrefix ==>
            && (hit.Some? <==> exists r :: r in rows && IsOffered(cfg, rows, r, i, wall))
            && (hit.Some? ==> exists r ::
                  && Store.IsBest(cfg.store, rows, r, i.name, ChildOf(i), FloorOf(i), wall)
                  && IsOffered(cfg, rows, r, i, wall) && Store.IsCopyOfRow(hit.value, r, wall)))
  {
    hide Store.Get, Store.GetPrefix, Store.Eligible, Store.IsAskedFor;
    if i.canBePrefix {
      PrefixOfferIsExact(cfg, rows, i, wall);
    } else {
      Store.GetIsExact(cfg.store, rows, i.name, wall);
    }
  }

  /** A row a prefix Interest may be offered. */
  predicate IsOffered(cfg: Config, rows: Store.Rows, r: Store.Row, i: Interest, wall: nat) {
    && Store.Eligible(cfg.store, rows, r, i.name, ChildOf(i), FloorOf(i), wall)
    && (IsWalk(i) ==> r.sequence == FloorOf(i))
  }

  lemma PrefixOfferIsExact(cfg: Config, rows: Store.Rows, i: Interest, wall: nat)
    requires Store.DistinctNames(rows) && i.canBePrefix
    ensures var hit := CacheHit(cfg, rows, i, wall);
      && (hit.Some? <==> exists r :: r in rows && IsOffered(cfg, rows, r, i, wall))
      && (hit.Some? ==> exists r ::
            && Store.IsBest(cfg.store, rows, r, i.name, ChildOf(i), FloorOf(i), wall)
            && IsOffered(cfg, rows, r, i, wall) && Store.IsCopyOfRow(hit.value, r, wall))
  {
    hide Store.GetPrefix, Store.Eligible;
    var child, floor := ChildOf(i), FloorOf(i);
    assert child == i.Child() && floor == i.Floor();
    Store.GetPrefixIsExact(cfg.store, rows, i.name, child, floor, wall);
    var got := Store.GetPrefix(cfg.store, rows, i.name, child, floor, wall);
    if got.Some? {
      var best :| Store.IsBest(cfg.store, rows, best, i.name, child, floor, wall)
        && Store.IsCopyOfRow(got.value, best, wall);
      EligibleIsThere(cfg, rows, best, i, wall);
      if best.sequence != floor && IsWalk(i) {
        forall r | r in rows ensures !IsOffered(cfg, rows, r, i, wall) {
          if Store.Eligible(cfg.store, rows, r, i.name, child, floor, wall) {
            EligibleIsThere(cfg, rows, r, i, wall);
            assert Store.Beats(best, r, child);
          }
        }
      } else {
        assert IsOffered(cfg, rows, best, i, wall);
      }
    }
  }

  lemma EligibleIsThere(cfg: Config, rows: Store.Rows, r: Store.Row, i: Interest, wall: nat)
    requires Store.Eligible(cfg.store, rows, r, i.name, ChildOf(i), FloorOf(i), wall)
    ensures r in rows && (IsWalk(i) ==> r.sequence.Some? && r.sequence.value >= FloorOf(i).value)
  {
  }

  /** Data good enough for an Interest: fresh where it must be, and not below its floor. */
  predicate Meets(i: Interest, d: Data) {
    && (i.mustBeFresh ==> d.metadata.isFresh)
    && (FloorOf(i).Some? ==> d.metadata.sequence.Some? && d.metadata.sequence.value >= FloorOf(i).value)
  }

  /** No record of this nonce from this face. */
  predicate IsNew(s: State, i: Interest, inFace: FaceId) {
    forall r :: r in s.nonces ==> r.face != inFace || r.nonce != i.nonce
  }

  /** The store holds an answer to the Interest. */
  predicate Held(cfg: Config, s: State, i: Interest, wall: nat) {
    CacheHit(cfg, s.rows, i, wall).Some? && Meets(i, CacheHit(cfg, s.rows, i, wall).value)
  }

  // ----- next hops -----

  /** The first hop that is not backed off. */
  predicate IsFirstHop(hops: seq<NextHop>, fs: Failures, t: Tuning, mono: nat, k: int) {
    && 0 <= k < |hops| && !InBackoff(fs, t, hops[k].face, mono)
    && forall j :: 0 <= j < k ==> InBackoff(fs, t, hops[j].face, mono)
  }

  /** The first hop that is not backed off and whose face is registered. */
  predicate IsFirstRegistered(hops: seq<NextHop>, fs: Failures, t: Tuning, mono: nat, faces: set<FaceId>, k: int) {
    && 0 <= k < |hops| && !InBackoff(fs, t, hops[k].face, mono) && hops[k].face in faces
    && forall j :: 0 <= j < k ==> InBackoff(fs, t, hops[j].face, mono) || hops[j].face !in faces
  }

  lemma {:induction false} FirstUsableIsFirst(hops: seq<NextHop>, fs: Failures, t: Tuning, mono: nat) returns (k: nat)
    ensures k <= |hops| && forall j :: 0 <= j < k ==> InBackoff(fs, t, hops[j].face, mono)
    ensures k < |hops| ==> IsFirstHop(hops, fs, t, mono, k) && FirstUsable(hops, fs, t, mono) == Some(hops[k].face)
    ensures k == |hops| ==> FirstUsable(hops, fs, t, mono) == None && UsableFaces(hops, fs, t, mono) == []
    ensures k < |hops| ==> UsableFaces(hops, fs, t, mono) != []
  {
    if hops == [] || !InBackoff(fs, t, hops[0].face, mono) {
      k := 0;
    } else {
      k := FirstUsableIsFirst(hops[1..], fs, t, mono);
      k := k + 1;
    }
  }

  /** Where a list of faces has its first registered one. */
  predicate IsFirstIn(faces: seq<FaceId>, registered: set<FaceId>, k: int) {
    0 <= k < |faces| && faces[k] in registered && forall j :: 0 <= j < k ==> faces[j] !in registered
  }

  lemma {:induction false} UsableRegistered(hops: seq<NextHop>, fs: Failures, t: Tuning, mono: nat, faces: set<FaceId>)
    returns (k: nat, u: nat)
    ensures var us := UsableFaces(hops, fs, t, mono);
      && k <= |hops| && u <= |us| && (k < |hops| <==> u < |us|)
      && (k < |hops| ==>
            && IsFirstRegistered(hops, fs, t, mono, faces, k) && IsFirstIn(us, faces, u)
            && us[u] == hops[k].face)
      && (k == |hops| ==>
            && (forall j :: 0 <= j < |hops| ==> InBackoff(fs, t, hops[j].face, mono) || hops[j].face !in faces)
            && forall j :: 0 <= j < |us| ==> us[j] !in faces)
  {
    if hops == [] {
      k, u := 0, 0;
    } else {
      var us, rest := UsableFaces(hops, fs, t, mono), UsableFaces(hops[1..], fs, t, mono);
      k, u := UsableRegistered(hops[1..], fs, t, mono, faces);
      if InBackoff(fs, t, hops[0].face, mono) {
        k := k + 1;
      } else if hops[0].face in faces {
        k, u := 0, 0;
      } else {
        assert us == [hops[0].face] + rest;
        k, u := k + 1, u + 1;
      }
    }
  }

  /** After a failure a face is left alone for twice the base, then twice as long after each further one,
      up to 64 times the base, and never longer than the maximum; a face without a record is not. */
  lemma BackoffDoubles(t: Tuning, fs: Failures, f: FaceId, mono: nat)
    ensures f !in fs ==> !InBackoff(fs, t, f, mono)
    ensures f in fs ==> (InBackoff(fs, t, f, mono) <==> mono < fs[f].last + Backoff(t, fs[f].consecutive))
    ensures Backoff(t, 1) == if 2 * t.backoffBase < t.maxBackoff then 2 * t.backoffBase else t.maxBackoff
    ensures forall c: nat :: c < 6 ==>
      Backoff(t, c + 1) == if 2 * Backoff(t, c) < t.maxBackoff then 2 * Backoff(t, c) else t.maxBackoff
    ensures forall c: nat :: c >= 6 ==> Backoff(t, c) == Backoff(t, 6)
  {
    assert Power2(1) == 2 * Power2(0);
    forall c: nat | c < 6
      ensures Backoff(t, c + 1) == if 2 * Backoff(t, c) < t.maxBackoff then 2 * Backoff(t, c) else t.maxBackoff
    {
      assert Power2(c + 1) == 2 * Power2(c);
      assert t.backoffBase * Power2(c + 1) == 2 * (t.backoffBase * Power2(c));
    }
  }

  // ----- sending -----

  /** The entry a forward leaves behind: inserted, and marked with the face sent to. */
  predicate IsSentEntry(before: Option<PitEntry>, after: PitEntry, task: Task, face: FaceId, mono: nat) {
    var out := if before.Some? && !before.value.satisfied then before.value.outFace else None;
    after.outFace == Some(face) && IsInsertedEntry(before, after.(outFace := out), task.inFace, task.interest, mono)
  }

  /** The call's Interest is sent to this face, and its entry, joined to one that is pending or new, says
      so. */
  predicate SendsTo(s: State, r: State, t: nat, task: Task, face: FaceId, mono: nat)
    requires t < |s.tasks|
  {
    && t < |r.tasks| && r.tasks == s.tasks[t := task.(phase := r.tasks[t].phase)]
    && r.tasks[t].phase.Sending? && r.tasks[t].phase.face == face
    && r.sent == s.sent + [Transmission(face, task.interest)]
    && task.Key() in r.pit.entries
    && var entry := r.pit.entries[task.Key()];
    || IsSentEntry(EntryOf(s.pit, task.Key()), entry, task, face, mono) || IsSentEntry(None, entry, task, face, mono)
  }

  /** The call ends with this result and sends nothing; a refresh releases its name. */
  predicate Ends(s: State, r: State, t: nat, task: Task, result: Option<Data>)
    requires t < |s.tasks|
  {
    && r.tasks == s.tasks[t := task.(phase := Done(result))] && r.sent == s.sent
    && r.refreshing == if task.background then s.refreshing - {task.interest.name} else s.refreshing
  }

  /** The failover loop sends to the first registered face of its list, or ends the call with nothing. */
  lemma {:induction false} TriesFirstRegistered(cfg: Config, s: State, t: nat, faces: seq<FaceId>, mono: nat, k: nat)
    requires t < |s.tasks| && s.pit.Valid() && k <= |faces|
    requires k < |faces| ==> IsFirstIn(faces, s.faces, k)
    requires k == |faces| ==> forall j :: 0 <= j < |faces| ==> faces[j] !in s.faces
    ensures var r := TryFaces(cfg, s, t, faces, mono);
      && (k < |faces| ==> SendsTo(s, r, t, s.tasks[t], faces[k], mono) && r.tasks[t].phase.rest == faces[k + 1..])
      && (k == |faces| ==> Ends(s, r, t, s.tasks[t], None))
    decreases |faces|
  {
    hide InsertOrAggregate, SetOutFace, Drop, IsSentEntry;
    if faces != [] {
      var task := s.tasks[t];
      HopEntry(s.pit, cfg.pitLimit, task, faces[0], mono);
      var pit := WithHop(cfg.pitLimit, s.pit, task, faces[0], mono);
      if faces[0] !in s.faces {
        assert k > 0;
        var next := s.(pit := Drop(pit, task.Key()));
        TriesFirstRegistered(cfg, next, t, faces[1..], mono, k - 1);
        if k < |faces| {
          assert faces[1..][k - 1] == faces[k] && faces[1..][k - 1 + 1..] == faces[k + 1..];
        }
        EntryGone(next.pit, task.Key());
      } else {
        assert k == 0;
      }
    }
  }

  lemma EntryGone(t: Table, n: Name)
    ensures n !in t.entries ==> EntryOf(t, n) == None
  {
  }

  lemma HopEntry(t: Table, limit: int, task: Task, face: FaceId, mono: nat)
    requires t.Valid()
    ensures var pit := WithHop(limit, t, task, face, mono);
      && task.Key() in pit.entries && IsSentEntry(EntryOf(t, task.Key()), pit.entries[task.Key()], task, face, mono)
      && Drop(pit, task.Key()).Valid() && task.Key() !in Drop(pit, task.Key()).entries
  {
    var key := task.Key();
    InsertFacts(t, limit, key, task.inFace, task.interest, mono);
    var inserted := InsertOrAggregate(t, limit, key, task.inFace, task.interest, mono);
    hide InsertOrAggregate, SetOutFace, Drop, Satisfy;
    TouchFacts(inserted, key, face);
    TouchFacts(SetOutFace(inserted, key, face), key, face);
  }

  // ----- express -----

  /** A duplicate gets nothing and leaves no trace. */
  lemma DuplicateGetsNothing(cfg: Config, s: State, i: Interest, inFace: FaceId, clk: Clock, nonce: bytes)
    requires cfg.Valid() && !IsNew(s, i, inFace)
    ensures Express(cfg, s, i, inFace, clk, nonce) == s.(tasks := s.tasks + [Task(i, inFace, false, Done(None))])
  {
  }

  /** What any other call changes besides: expired rows leave the store, and neither routes, nor faces, nor
      failure records are touched. */
  lemma CallsPurgeTheStore(cfg: Config, s: State, i: Interest, inFace: FaceId, clk: Clock, nonce: bytes)
    requires cfg.Valid() && IsNew(s, i, inFace) && Store.DistinctNames(s.rows)
    ensures var s' := Express(cfg, s, i, inFace, clk, nonce);
      && s'.routes == s.routes && s'.faces == s.faces && s'.failures == s.failures
      && forall r :: r in s'.rows <==> Store.IsLive(s.rows, r, clk.wall)
  {
    NewIsUnseen(s, i, inFace);
    CallKeepsRoutes(cfg, s, i, inFace, clk, nonce);
    forall r ensures r in Store.Live(s.rows, clk.wall) <==> Store.IsLive(s.rows, r, clk.wall) {
      Store.LiveIsUnexpired(s.rows, clk.wall, r);
    }
    hide Express, Store.Live, Store.IsLive;
  }

  lemma CallKeepsRoutes(cfg: Config, s: State, i: Interest, inFace: FaceId, clk: Clock, nonce: bytes)
    requires cfg.Valid() && !Seen(s.nonces, inFace, i.nonce)
    ensures var s' := Express(cfg, s, i, inFace, clk, nonce);
      && s'.routes == s.routes && s'.faces == s.faces && s'.failures == s.failures
      && s'.rows == Store.Live(s.rows, clk.wall)
  {
    hide Seen, CacheHit, Lookup, Candidates, RecordNonce, Store.Live, InBackoff, FirstUsable, Verdict, TryFaces;
  }

  /** Whether a stale answer is refreshed in the background: it is within the stale window, no refresh
      of the name is in flight, and there is a next hop to ask. */
  ghost predicate RefreshDue(cfg: Config, s: State, i: Interest, d: Data, mono: nat) {
    && !d.metadata.isFresh && d.metadata.freshnessPeriod.Some? && cfg.tuning.staleWhileRevalidate > 0
    && d.metadata.age < d.metadata.freshnessPeriod.value + cfg.tuning.staleWhileRevalidate
    && i.name !in s.refreshing
    && exists k :: IsFirstHop(Lookup(s.routes, i.name), s.failures, cfg.tuning, mono, k)
  }

  /** An answer in the store is returned at once, whatever is pending; a refresh is scheduled along with
      it exactly when one is due, for the first usable hop, and must bring fresh Data. */
  lemma HeldIsReturned(cfg: Config, s: State, i: Interest, inFace: FaceId, clk: Clock, nonce: bytes)
    requires cfg.Valid() && IsNew(s, i, inFace) && Held(cfg, s, i, clk.wall)
    ensures var d := CacheHit(cfg, s.rows, i, clk.wall).value;
      var s' := Express(cfg, s, i, inFace, clk, nonce);
      && s'.pit == s.pit && s'.futures == s.futures && s'.sent == s.sent
      && |s'.tasks| > |s.tasks| && s'.tasks[..|s.tasks|] == s.tasks
      && s'.tasks[|s.tasks|] == Task(i, inFace, false, Done(Some(d)))
      && (if RefreshDue(cfg, s, i, d, clk.mono) then
            && |s'.tasks| == |s.tasks| + 2 && s'.refreshing == s.refreshing + {i.name}
            && exists k ::
                 && IsFirstHop(Lookup(s.routes, i.name), s.failures, cfg.tuning, clk.mono, k)
                 && s'.tasks[|s.tasks| + 1] ==
                      Task(i.(nonce := nonce, mustBeFresh := true), inFace, true,
                           Scheduled(Lookup(s.routes, i.name)[k].face))
          else |s'.tasks| == |s.tasks| + 1 && s'.refreshing == s.refreshing)
  {
    hide CacheHit, Lookup, Candidates, StartForward, RecordNonce, Store.Live, InBackoff, FirstUsable;
    var hops := Lookup(s.routes, i.name);
    var k := FirstUsableIsFirst(hops, s.failures, cfg.tuning, clk.mono);
    NewIsUnseen(s, i, inFace);
    MeetsIsSatisfied(i, CacheHit(cfg, s.rows, i, clk.wall).value);
  }

  lemma NewIsUnseen(s: State, i: Interest, inFace: FaceId)
    ensures IsNew(s, i, inFace) <==> !Seen(s.nonces, inFace, i.nonce)
  {
  }

  lemma MeetsIsSatisfied(i: Interest, d: Data)
    ensures Meets(i, d) <==> SelectorSatisfied(i, d)
  {
  }

  /** Without an answer in the store, a call for a name that is pending waits on a future of its own. */
  lemma PendingIsJoined(cfg: Config, s: State, i: Interest, inFace: FaceId, clk: Clock, nonce: bytes)
    requires cfg.Valid() && IsNew(s, i, inFace) && !Held(cfg, s, i, clk.wall)
    requires i.name in s.pit.entries && !s.pit.entries[i.name].satisfied
    ensures var s' := Express(cfg, s, i, inFace, clk, nonce);
      && s'.pit == s.pit && s'.sent == s.sent && s'.refreshing == s.refreshing
      && s'.futures == s.futures + [Future(i.name, Pending)]
      && s'.tasks == s.tasks + [Task(i, inFace, false, Joined(|s.futures|))]
      && i.name in s'.notifiers && |s.futures| in s'.notifiers[i.name]
  {
    hide CacheHit, Lookup, Candidates, StartForward, RecordNonce, Store.Live, InBackoff, FirstUsable;
    NewIsUnseen(s, i, inFace);
    if CacheHit(cfg, s.rows, i, clk.wall).Some? {
      MeetsIsSatisfied(i, CacheHit(cfg, s.rows, i, clk.wall).value);
    }
  }

  /** Without an answer in the store and with nothing pending, a call is forwarded, one hop spent, to the
      first next hop that is registered and not backed off; it ends with nothing if there is none, or if
      it has no hop left. */
  lemma OthersAreForwarded(cfg: Config, s: State, i: Interest, inFace: FaceId, clk: Clock, nonce: bytes)
    requires cfg.Valid() && s.pit.Valid() && IsNew(s, i, inFace) && !Held(cfg, s, i, clk.wall)
    requires i.name in s.pit.entries ==> s.pit.entries[i.name].satisfied
    ensures var s' := Express(cfg, s, i, inFace, clk, nonce);
      var s1 := s.(tasks := s.tasks + [Task(i, inFace, false, Done(None))]);
      var hops := Lookup(s.routes, i.name);
      && s'.futures == s.futures && s'.refreshing == s.refreshing && |s'.tasks| == |s.tasks| + 1
      && (forall k :: IsFirstRegistered(hops, s.failures, cfg.tuning, clk.mono, s.faces, k) && i.hopLimit > 0 ==>
            SendsTo(s1, s', |s.tasks|, Task(i.(hopLimit := i.hopLimit - 1), inFace, false, Done(None)), hops[k].face,
              clk.mono))
      && (i.hopLimit == 0 || !(exists k :: IsFirstRegistered(hops, s.failures, cfg.tuning, clk.mono, s.faces, k)) ==>
            && s'.sent == s.sent && s'.tasks[..|s.tasks|] == s.tasks && s'.tasks[|s.tasks|].phase == Done(None))
  {
    hide CacheHit, Lookup, RecordNonce, Store.Live, InBackoff, FirstUsable, UsableFaces, TryFaces, SendsTo;
    NewIsUnseen(s, i, inFace);
    if CacheHit(cfg, s.rows, i, clk.wall).Some? {
      MeetsIsSatisfied(i, CacheHit(cfg, s.rows, i, clk.wall).value);
    }
    var hops := Lookup(s.routes, i.name);
    var first := FirstUsableIsFirst(hops, s.failures, cfg.tuning, clk.mono);
    var k, u := UsableRegistered(hops, s.failures, cfg.tuning, clk.mono, s.faces);
    forall x | IsFirstRegistered(hops, s.failures, cfg.tuning, clk.mono, s.faces, x) ensures x == k {
      OneFirstRegistered(hops, s.failures, cfg.tuning, clk.mono, s.faces, x, k);
    }
    if first < |hops| {
      ForwardsTo(cfg, s, i, inFace, clk, nonce, hops[first].face, u);
    }
  }

  lemma OneFirstRegistered(hops: seq<NextHop>, fs: Failures, t: Tuning, mono: nat, faces: set<FaceId>, j: int, k: int)
    requires IsFirstRegistered(hops, fs, t, mono, faces, j)
    requires 0 <= k <= |hops| && (k < |hops| ==> IsFirstRegistered(hops, fs, t, mono, faces, k))
    requires k == |hops| ==>
      forall x :: 0 <= x < |hops| ==> InBackoff(fs, t, hops[x].face, mono) || hops[x].face !in faces
    ensures j == k
  {
    hide InBackoff;
  }

  /** The forward itself, on the usable faces, of which the `u`-th is the first registered. */
  lemma ForwardsTo(cfg: Config, s: State, i: Interest, inFace: FaceId, clk: Clock, nonce: bytes, first: FaceId, u: nat)
    requires cfg.Valid() && s.pit.Valid() && !Seen(s.nonces, inFace, i.nonce)
    requires Verdict(cfg, s, i, clk) == ForwardTo(first)
    requires var us := UsableFaces(Lookup(s.routes, i.name), s.failures, cfg.tuning, clk.mono);
      && us != [] && u <= |us| && (u < |us| ==> IsFirstIn(us, s.faces, u))
      && (u == |us| ==> forall j :: 0 <= j < |us| ==> us[j] !in s.faces)
    ensures var s' := Express(cfg, s, i, inFace, clk, nonce);
      var us := UsableFaces(Lookup(s.routes, i.name), s.failures, cfg.tuning, clk.mono);
      var s1 := s.(tasks := s.tasks + [Task(i, inFace, false, Done(None))]);
      && s'.futures == s.futures && s'.refreshing == s.refreshing && |s'.tasks| == |s.tasks| + 1
      && (u < |us| && i.hopLimit > 0 ==>
            SendsTo(s1, s', |s.tasks|, Task(i.(hopLimit := i.hopLimit - 1), inFace, false, Done(None)),
              us[u], clk.mono))
      && (u == |us| || i.hopLimit == 0 ==>
            s'.sent == s.sent && s'.tasks[..|s.tasks|] == s.tasks && s'.tasks[|s.tasks|].phase == Done(None))
  {
    hide CacheHit, Lookup, RecordNonce, Store.Live, UsableFaces, TryFaces, Verdict, Seen, IsFirstIn;
    var us := UsableFaces(Lookup(s.routes, i.name), s.failures, cfg.tuning, clk.mono);
    var s2 := AddTask(Admitted(cfg, s, i, inFace, clk), i, inFace, Scheduled(first));
    if i.hopLimit > 0 {
      var t := |s.tasks|;
      var s3 := s2.(tasks := s2.tasks[t := s2.tasks[t].(interest := i.(hopLimit := i.hopLimit - 1))]);
      TriesFirstRegistered(cfg, s3, t, us, clk.mono, u);
      var r := TryFaces(cfg, s3, t, us, clk.mono);
      assert Express(cfg, s, i, inFace, clk, nonce) == r;
      assert r.tasks[..t] == s.tasks;
    }
  }

  // ----- resuming -----

  /** A call whose future was answered returns that Data; a forward also gives up its entry and clears
      its face's failures, and nothing else is touched. */
  lemma AnswerIsReturned(cfg: Config, s: State, t: nat, d: Data, mono: nat)
    requires t < |s.tasks| && (s.tasks[t].phase.Waiting? || s.tasks[t].phase.Joined?) && s.pit.Valid()
    requires s.tasks[t].phase.fut < |s.futures| && s.futures[s.tasks[t].phase.fut].outcome == Answered(d)
    ensures Resumable(s, t)
    ensures var s' := Resume(cfg, s, t, false, mono);
      && Ends(s, s', t, s.tasks[t], Some(d))
      && s' == s.(pit := s'.pit, failures := s'.failures, tasks := s'.tasks, refreshing := s'.refreshing)
      && (if s.tasks[t].phase.Waiting? then
            && s'.pit.entries == s.pit.entries - {s.tasks[t].Key()}
            && s'.failures == s.failures - {s.tasks[t].phase.face}
          else s'.pit == s.pit && s'.failures == s.failures)
  {
    TouchFacts(s.pit, s.tasks[t].Key(), 0);
  }

  /** A NACK or a timeout: a joined call ends with nothing; a forward charges its face with a failure at
      this time, one more than before, and no other face, gives up its entry, and goes on to the next
      registered face of its list, or ends with nothing. */
  lemma FailureMovesOn(cfg: Config, s: State, t: nat, overtaken: bool, mono: nat, k: nat)
    requires Resumable(s, t) && s.pit.Valid()
    requires overtaken || !s.futures[s.tasks[t].phase.fut].outcome.Answered?
    requires s.tasks[t].phase.Waiting? ==>
      && k <= |s.tasks[t].phase.rest| && (k < |s.tasks[t].phase.rest| ==> IsFirstIn(s.tasks[t].phase.rest, s.faces, k))
      && (k == |s.tasks[t].phase.rest| ==>
            forall j :: 0 <= j < |s.tasks[t].phase.rest| ==> s.tasks[t].phase.rest[j] !in s.faces)
    ensures var s' := Resume(cfg, s, t, overtaken, mono);
      var task := s.tasks[t];
      if task.phase.Joined? then Ends(s, s', t, task, None) && s'.pit == s.pit && s'.failures == s.failures
      else
        && task.phase.face in s'.failures && s'.failures == s.failures[task.phase.face := s'.failures[task.phase.face]]
        && s'.failures[task.phase.face].last == mono
        && s'.failures[task.phase.face].consecutive
             == (if task.phase.face in s.failures then s.failures[task.phase.face].consecutive + 1 else 1)
        && (if k < |task.phase.rest| then
              SendsTo(s, s', t, task, task.phase.rest[k], mono) && s'.tasks[t].phase.rest == task.phase.rest[k + 1..]
            else Ends(s, s', t, task, None))
  {
    hide TryFaces, IsFirstIn, SendsTo, Ends;
    var task := s.tasks[t];
    if task.phase.Joined? {
      JoinedEnds(cfg, s, t, overtaken, mono);
    } else {
      DropKeepsValid(s.pit, task.Key());
      var s1 := s.(failures := AfterFailure(s.failures, task.phase.face, mono), pit := Drop(s.pit, task.Key()));
      TriesFirstRegistered(cfg, s1, t, task.phase.rest, mono, k);
      SameStart(s1, s, Resume(cfg, s, t, overtaken, mono), t, task, task.phase.rest, k, mono);
    }
  }

  lemma JoinedEnds(cfg: Config, s: State, t: nat, overtaken: bool, mono: nat)
    requires Resumable(s, t) && s.tasks[t].phase.Joined?
    requires overtaken || !s.futures[s.tasks[t].phase.fut].outcome.Answered?
    ensures var s' := Resume(cfg, s, t, overtaken, mono);
      Ends(s, s', t, s.tasks[t], None) && s'.pit == s.pit && s'.failures == s.failures
  {
  }

  lemma SameStart(s1: State, s: State, r: State, t: nat, task: Task, rest: seq<FaceId>, k: nat,
      mono: nat)
    requires t < |s.tasks| && s1.tasks == s.tasks && s1.sent == s.sent && s1.refreshing == s.refreshing
    requires task.Key() !in s1.pit.entries
    ensures k < |rest| && SendsTo(s1, r, t, task, rest[k], mono) ==> SendsTo(s, r, t, task, rest[k], mono)
    ensures Ends(s1, r, t, task, None) ==> Ends(s, r, t, task, None)
  {
  }

  /** Once sent, a forward waits on a future of its own, listed under its hash-free name. */
  lemma SentIsAwaited(s: State, t: nat)
    requires t < |s.tasks| && s.tasks[t].phase.Sending?
    ensures var s' := Register(s, t);
      var task := s.tasks[t];
      && s' == s.(tasks := s'.tasks, futures := s'.futures, notifiers := s'.notifiers)
      && s'.futures == s.futures + [Future(task.interest.name.(pin := None), Pending)]
      && s'.tasks == s.tasks[t := task.(phase := Waiting(task.phase.face, task.phase.rest, |s.futures|))]
      && task.Key() in s'.notifiers && |s.futures| in s'.notifiers[task.Key()]
      && forall n :: n in s.notifiers ==> n in s'.notifiers && s.notifiers[n] <= s'.notifiers[n]
  {
  }

  lemma SameHop(s1: State, s: State, r: State, t: nat, task: Task, face: FaceId, mono: nat)
    requires t < |s.tasks| && s1 == s.(tasks := s.tasks[t := task])
    requires SendsTo(s1, r, t, task, face, mono)
    ensures SendsTo(s, r, t, task, face, mono)
  {
  }

  lemma SameEnd(s1: State, s: State, r: State, t: nat, task: Task)
    requires t < |s.tasks| && s1 == s.(tasks := s.tasks[t := task])
    requires Ends(s1, r, t, task, None)
    ensures Ends(s, r, t, task, None)
  {
  }

  /** A scheduled refresh asks the one face it was scheduled for, with one hop less, or ends and releases
      its name. */
  lemma RefreshAsksItsFace(cfg: Config, s: State, t: nat, mono: nat)
    requires t < |s.tasks| && s.tasks[t].phase.Scheduled? && s.pit.Valid()
    ensures var s' := StartRefresh(cfg, s, t, mono);
      var task := s.tasks[t];
      if task.interest.hopLimit > 0 then
        var spent := task.(interest := task.interest.(hopLimit := task.interest.hopLimit - 1));
        if task.phase.face in s.faces
          then SendsTo(s, s', t, spent, task.phase.face, mono) && s'.tasks[t].phase.rest == []
        else Ends(s, s', t, spent, None)
      else Ends(s, s', t, task, None)
  {
    hide TryFaces;
    var task := s.tasks[t];
    if task.interest.hopLimit > 0 {
      hide SendsTo, Ends;
      var spent := task.(interest := task.interest.(hopLimit := task.interest.hopLimit - 1));
      var s1 := s.(tasks := s.tasks[t := spent]);
      var face := task.phase.face;
      assert StartRefresh(cfg, s, t, mono) == TryFaces(cfg, s1, t, [face], mono);
      var r := TryFaces(cfg, s1, t, [face], mono);
      if face in s.faces {
        assert IsFirstIn([face], s.faces, 0);
        TriesFirstRegistered(cfg, s1, t, [face], mono, 0);
        assert [face][1..] == [];
        SameHop(s1, s, r, t, spent, face, mono);
      } else {
        TriesFirstRegistered(cfg, s1, t, [face], mono, 1);
        SameEnd(s1, s, r, t, spent);
      }
    }
  }

  /** Faces, routes and purges: what each of these steps makes of the state. */
  lemma ControlStepsMean(cfg: Config, s: State, f: FaceId, prefix: Name, cost: int, mono: nat, isPrefix: bool)
    requires s.pit.Valid() && ValidEntries(s.routes)
    ensures AddFace(s, f) == s.(faces := s.faces + {f}) && DropFaceOnly(s, f) == s.(faces := s.faces - {f})
    ensures AddRoute(s, prefix, f, cost) == s.(routes := AddRoute(s, prefix, f, cost).routes)
    ensures forall p, g, c :: HasRoute(AddRoute(s, prefix, f, cost).routes, p, g, c) <==>
      if p == prefix && g == f then c == cost else HasRoute(s.routes, p, g, c)
    ensures var s' := WithdrawFace(s, f); s' == s.(routes := s'.routes, faces := s.faces - {f})
    ensures forall p, g, c :: HasRoute(WithdrawFace(s, f).routes, p, g, c) <==> g != f && HasRoute(s.routes, p, g, c)
    ensures var s' := PurgePit(s, mono); s' == s.(pit := s'.pit, nonces := s'.nonces)
    ensures forall n :: n in PurgePit(s, mono).pit.entries <==>
      && n in s.pit.entries
      && !s.pit.entries[n].satisfied
      && mono < s.pit.entries[n].expiresAt
    ensures forall r :: r in PurgePit(s, mono).nonces <==> r in s.nonces && mono < r.expiresAt
    ensures forall r :: r in InvalidateRows(s.rows, prefix, isPrefix) <==>
      && r in s.rows
      && !(if isPrefix then prefix.pin == None && prefix.Components() <= r.name.Components() else r.name == prefix)
  {
    InsertedRoute(s.routes, prefix, f, cost);
    WithdrawnRoutes(s.routes, f, None);
    PurgeIsExact(s.pit, mono);
    SweepKeepsLive(s.nonces, mono);
    forall r: Store.Row ensures r.name.StartsWith(prefix) <==> prefix.Components() <= r.name.Components() {
      StartsWithIsComponentPrefix(r.name, prefix);
    }
  }

  /** A forward returns the Data that answers it: once Data arrives that its pending entry is matched by,
      then whatever happens before it is resumed, if it is resumed from this wait without its lifetime
      having overtaken it, it returns this Data. */
  lemma ForwardReturnsItsAnswer(cfg: Config, states: seq<State>, events: seq<Timed>, t: nat, d: Data, unsolicited: bool,
      k: nat)
    requires cfg.Valid() && IsRun(cfg, states, events) && Inv(cfg, states[0]) && 0 < k < |events|
    requires t < |states[0].tasks| && (states[0].tasks[t].phase.Waiting? || states[0].tasks[t].phase.Joined?)
    requires states[0].futures[states[0].tasks[t].phase.fut].outcome == Pending
    requires events[0].0 == DataEvent(d, unsolicited) && !AncestorRaises(states[0], d)
    requires IsNearest(states[0].pit.entries, d.name.Unpinned(), Some(states[0].tasks[t].Key()))
    requires t < |states[k].tasks| && states[k].tasks[t].phase == states[0].tasks[t].phase
    requires events[k].0 == ResumeEvent(t, false)
    ensures t < |states[k + 1].tasks| && states[k + 1].tasks[t].phase == Done(Some(d))
  {
    hide Inv, Step, Enabled, Resume, ReceiveData, IsNearest, Settled;
    var fut := states[0].tasks[t].phase.fut;
    FutureIsForKey(cfg, states[0], t);
    ArrivalAnswers(cfg, states[0], d, unsolicited, events[0].1.wall, states[0].tasks[t].Key(), fut);
    StepIsArrival(cfg, states[0], events[0].0, events[0].1);
    RunSettles(cfg, states, events, 1, k);
    StaysAnswered(states[1], states[k], fut, d);
    ResumedWith(cfg, states[k], events[k].0, events[k].1, t, d);
  }

  lemma FutureIsForKey(cfg: Config, s: State, t: nat)
    requires Inv(cfg, s) && t < |s.tasks| && (s.tasks[t].phase.Waiting? || s.tasks[t].phase.Joined?)
    ensures s.tasks[t].phase.fut < |s.futures| && s.futures[s.tasks[t].phase.fut].key == s.tasks[t].Key()
  {
    assert TaskOk(s.futures, s.tasks[t]);
  }

  lemma ArrivalAnswers(cfg: Config, s: State, d: Data, unsolicited: bool, wall: nat, key: Name, fut: nat)
    requires Inv(cfg, s) && !AncestorRaises(s, d) && IsNearest(s.pit.entries, d.name.Unpinned(), Some(key))
    requires fut < |s.futures| && s.futures[fut].key == key && s.futures[fut].outcome == Pending
    ensures var s' := ReceiveData(cfg, s, d, unsolicited, wall);
      |s'.futures| == |s.futures| && s'.futures[fut].outcome == Answered(d)
  {
    hide Inv, ReceiveData, IsMatch;
    ArrivalIsDelivered(cfg, s, d, unsolicited, wall);
    var m :| IsNearest(s.pit.entries, d.name.Unpinned(), m)
      && DeliveredTo(cfg, s, ReceiveData(cfg, s, d, unsolicited, wall), d, unsolicited, wall, m);
    NearestIsUnique(s.pit.entries, d.name.Unpinned(), Some(key), m);
  }

  lemma NearestIsUnique(entries: map<Name, PitEntry>, key: Name, a: Option<Name>, b: Option<Name>)
    requires key.pin == None && IsNearest(entries, key, a) && IsNearest(entries, key, b)
    ensures a == b
  {
    if a.Some? && b.Some? && key !in entries {
      PrefixesFormAChain(key, a.value, b.value);
    }
  }

  lemma StepIsArrival(cfg: Config, s: State, e: Event, clk: Clock)
    requires cfg.Valid() && Enabled(s, e) && e.DataEvent?
    ensures Step(cfg, s, e, clk) == ReceiveData(cfg, s, e.data, e.unsolicited, clk.wall)
  {
  }

  lemma StaysAnswered(s: State, s': State, f: nat, d: Data)
    requires Settled(s, s') && f < |s.futures| && s.futures[f].outcome == Answered(d)
    ensures f < |s'.futures| && s'.futures[f].outcome == Answered(d)
  {
  }

  lemma ResumedWith(cfg: Config, s: State, e: Event, clk: Clock, t: nat, d: Data)
    requires cfg.Valid() && Enabled(s, e) && e == ResumeEvent(t, false)
    requires s.futures[s.tasks[t].phase.fut].outcome == Answered(d)
    ensures var s' := Step(cfg, s, e, clk); t < |s'.tasks| && s'.tasks[t].phase == Done(Some(d))
  {
    hide Drop;
  }
}
