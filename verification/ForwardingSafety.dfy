/** What every interleaving of the forwarder's steps keeps. */
module ForwardingSafety {
  import opened Base
  import opened Names
  import opened Packets
  import Store
  import opened Fibs
  import opened Pits
  import opened Strategies
  import opened Forwarding

  // ----- the invariant -----

  ghost predicate Owns(tasks: seq<Task>, t: nat, n: Name) {
    t < |tasks| && tasks[t].Active() && tasks[t].Key() == n
  }

  /** Some running forward other than `but` is working on the name. */
  ghost predicate Owned(tasks: seq<Task>, but: int, n: Name) {
    exists t :: t != but && Owns(tasks, t, n)
  }

  /** PIT keys are hash-free and within the limit, and each belongs to a running forward. */
  ghost predicate PitOk(limit: int, pit: Table, tasks: seq<Task>, but: int) {
    && pit.Valid()
    && |pit.entries| <= Max(1, limit)
    && forall n :: n in pit.entries ==> n.pin == None && Owned(tasks, but, n)
  }

  /** Notifier keys are hash-free and list only futures made for that key, among them every
      future that is still pending; an answer starts with the name it was awaited under. */
  ghost predicate WaitersOk(notifiers: map<Name, seq<nat>>, futures: seq<Future>) {
    && (forall n :: n in notifiers ==> n.pin == None)
    && (forall n, f: nat :: Listed(notifiers, n, f) ==> f < |futures| && futures[f].key == n)
    && (forall f :: 0 <= f < |futures| && futures[f].outcome == Pending ==> Listed(notifiers, futures[f].key, f))
    && (forall f :: 0 <= f < |futures| && futures[f].outcome.Answered? ==>
          futures[f].outcome.data.name.StartsWith(futures[f].key))
  }

  ghost predicate Listed(notifiers: map<Name, seq<nat>>, n: Name, f: nat) {
    n in notifiers && f in notifiers[n]
  }

  ghost predicate TaskOk(futures: seq<Future>, task: Task) {
    match task.phase
    case Waiting(_, _, f) => f < |futures| && futures[f].key == task.Key()
    case Joined(f) => f < |futures| && futures[f].key == task.Key()
    case Done(r) => r.Some? ==> r.value.name.StartsWith(task.interest.name)
    case _ => true
  }

  ghost predicate TasksOk(tasks: seq<Task>, futures: seq<Future>) {
    forall t :: 0 <= t < |tasks| ==> TaskOk(futures, tasks[t])
  }

  predicate Refreshing(task: Task, n: Name) { task.background && !task.phase.Done? && task.interest.name == n }

  /** At most one refresh per name is in flight, and `refreshing` names exactly those. */
  ghost predicate RefreshOk(tasks: seq<Task>, refreshing: set<Name>) {
    && (forall n :: n in refreshing <==> exists t :: 0 <= t < |tasks| && Refreshing(tasks[t], n))
    && (forall t, u, n ::
        0 <= t < |tasks| && 0 <= u < |tasks| && Refreshing(tasks[t], n) && Refreshing(tasks[u], n) ==> t == u)
  }

  /** The store is within its capacity and both tables are well formed. */
  ghost predicate TablesOk(capacity: nat, rows: Store.Rows, routes: Entries) {
    Store.ValidRows(rows) && |rows| <= capacity && ValidEntries(routes)
  }

  ghost predicate Inv(cfg: Config, s: State) {
    && PitOk(cfg.pitLimit, s.pit, s.tasks, -1)
    && WaitersOk(s.notifiers, s.futures)
    && TasksOk(s.tasks, s.futures)
    && RefreshOk(s.tasks, s.refreshing)
    && TablesOk(cfg.store.capacity, s.rows, s.routes)
  }

  // ----- forwards -----

  lemma OwnedMonotone(tasks: seq<Task>, tasks': seq<Task>, but: int, n: Name)
    requires Owned(tasks, but, n) && |tasks| <= |tasks'|
    requires forall u :: 0 <= u < |tasks| && u != but ==>
      tasks'[u].Key() == tasks[u].Key() && (tasks[u].Active() ==> tasks'[u].Active())
    ensures Owned(tasks', but, n) && Owned(tasks', -1, n)
  {
    var u :| u != but && Owns(tasks, u, n);
    assert Owns(tasks', u, n);
  }

  lemma PitAfterDrop(limit: int, pit: Table, n: Name)
    requires pit.Valid() && |pit.entries| <= Max(1, limit)
    ensures Drop(pit, n).Valid() && |Drop(pit, n).entries| <= Max(1, limit)
  {
    DropKeepsValid(pit, n);
    SubsetSize(Drop(pit, n).entries.Keys, pit.entries.Keys);
  }

  lemma PitAfterInsert(limit: int, pit: Table, tasks: seq<Task>, t: nat, face: FaceId, mono: nat)
    requires t < |tasks| && PitOk(limit, pit, tasks, t)
    ensures var task := tasks[t];
      var r :=
        SetOutFace(InsertOrAggregate(pit, limit, task.Key(), task.inFace, task.interest, mono), task.Key(), face);
      && r.Valid() && |r.entries| <= Max(1, limit)
      && (forall n :: n in r.entries && n != task.Key() ==> n in pit.entries && r.entries[n] == pit.entries[n])
      && task.Key() in r.entries && !r.entries[task.Key()].satisfied
  {
    var task := tasks[t];
    InsertFacts(pit, limit, task.Key(), task.inFace, task.interest, mono);
    var p := InsertOrAggregate(pit, limit, task.Key(), task.inFace, task.interest, mono);
    PutFacts(p, task.Key(), p.entries[task.Key()].(outFace := Some(face)));
  }

  /** Every entry is owned again once the call is sending. */
  lemma SenderOwns(limit: int, pit: Table, tasks: seq<Task>, t: nat, face: FaceId, phase: Phase, mono: nat)
    requires t < |tasks| && phase.Sending? && PitOk(limit, pit, tasks, t)
    ensures PitOk(limit, WithHop(limit, pit, tasks[t], face, mono), tasks[t := tasks[t].(phase := phase)], -1)
  {
    PitAfterInsert(limit, pit, tasks, t, face, mono);
    hide InsertOrAggregate, SetOutFace;
    var tasks' := tasks[t := tasks[t].(phase := phase)];
    var key := tasks[t].Key();
    assert Owns(tasks', t, key);
    forall n | n in WithHop(limit, pit, tasks[t], face, mono).entries && n != key ensures Owned(tasks', -1, n) {
      OwnedMonotone(tasks, tasks', t, n);
    }
  }

  /** The table with an entry for a hop about to be tried. */
  function WithHop(limit: int, pit: Table, task: Task, face: FaceId, mono: nat): Table {
    SetOutFace(InsertOrAggregate(pit, limit, task.Key(), task.inFace, task.interest, mono), task.Key(), face)
  }

  /** A hop without a face leaves no entry behind. */
  lemma SkippedHop(limit: int, pit: Table, tasks: seq<Task>, t: nat, face: FaceId, mono: nat)
    requires t < |tasks| && PitOk(limit, pit, tasks, t)
    ensures PitOk(limit, Drop(WithHop(limit, pit, tasks[t], face, mono), tasks[t].Key()), tasks, t)
  {
    PitAfterInsert(limit, pit, tasks, t, face, mono);
    hide InsertOrAggregate, SetOutFace;
    PitAfterDrop(limit, WithHop(limit, pit, tasks[t], face, mono), tasks[t].Key());
  }

  lemma EndedOwns(limit: int, pit: Table, tasks: seq<Task>, tasks': seq<Task>, t: nat)
    requires PitOk(limit, pit, tasks, t) && |tasks'| == |tasks|
    requires forall u :: 0 <= u < |tasks| && u != t ==> tasks'[u] == tasks[u]
    ensures PitOk(limit, pit, tasks', -1)
  {
    forall n | n in pit.entries ensures Owned(tasks', -1, n) {
      OwnedMonotone(tasks, tasks', t, n);
    }
  }

  lemma {:induction false} TryFacesPit(cfg: Config, s: State, t: nat, faces: seq<FaceId>, mono: nat)
    requires t < |s.tasks| && PitOk(cfg.pitLimit, s.pit, s.tasks, t)
    ensures PitOk(cfg.pitLimit, TryFaces(cfg, s, t, faces, mono).pit, TryFaces(cfg, s, t, faces, mono).tasks, -1)
    decreases |faces|
  {
    hide SetOutFace, InsertOrAggregate, PitOk, Drop;
    if faces == [] {
      EndedOwns(cfg.pitLimit, s.pit, s.tasks, TryFaces(cfg, s, t, faces, mono).tasks, t);
    } else if faces[0] !in s.faces {
      SkippedHop(cfg.pitLimit, s.pit, s.tasks, t, faces[0], mono);
      var pit := WithHop(cfg.pitLimit, s.pit, s.tasks[t], faces[0], mono);
      TryFacesPit(cfg, s.(pit := Drop(pit, s.tasks[t].Key())), t, faces[1..], mono);
    } else {
      SenderOwns(cfg.pitLimit, s.pit, s.tasks, t, faces[0], Sending(faces[0], faces[1..]), mono);
    }
  }

  lemma RefreshAfterPhase(tasks: seq<Task>, refreshing: set<Name>, t: nat, task: Task)
    requires t < |tasks| && RefreshOk(tasks, refreshing)
    requires task.background == tasks[t].background && task.interest.name == tasks[t].interest.name
    requires !tasks[t].phase.Done?
    ensures RefreshOk(tasks[t := task],
      if task.background && task.phase.Done? then refreshing - {task.interest.name} else refreshing)
  {
    var tasks' := tasks[t := task];
    var refreshing' := if task.background && task.phase.Done? then refreshing - {task.interest.name} else refreshing;
    forall n ensures n in refreshing' <==> exists u :: 0 <= u < |tasks'| && Refreshing(tasks'[u], n) {
      if n in refreshing' {
        var u :| 0 <= u < |tasks| && Refreshing(tasks[u], n);
        assert Refreshing(tasks'[u], n);
      }
      if u :| 0 <= u < |tasks'| && Refreshing(tasks'[u], n) {
        assert Refreshing(tasks[u], n);
      }
    }
  }

  lemma TryFacesKeeps(cfg: Config, s: State, t: nat, faces: seq<FaceId>, mono: nat)
    requires t < |s.tasks| && !s.tasks[t].phase.Done?
    requires PitOk(cfg.pitLimit, s.pit, s.tasks, t) && WaitersOk(s.notifiers, s.futures) && TasksOk(s.tasks, s.futures)
    requires RefreshOk(s.tasks, s.refreshing) && TablesOk(cfg.store.capacity, s.rows, s.routes)
    ensures Inv(cfg, TryFaces(cfg, s, t, faces, mono))
  {
    hide PitOk, WaitersOk, TasksOk, RefreshOk, TablesOk, TryFaces;
    var task' := TryFaces(cfg, s, t, faces, mono).tasks[t];
    TryFacesPit(cfg, s, t, faces, mono);
    TaskChangeOk(s.tasks, s.futures, t, task');
    RefreshAfterPhase(s.tasks, s.refreshing, t, task');
  }

  lemma PitFrame(limit: int, pit: Table, tasks: seq<Task>, tasks': seq<Task>, but: int)
    requires PitOk(limit, pit, tasks, but) && |tasks| <= |tasks'|
    requires forall u :: 0 <= u < |tasks| && u != but ==>
      tasks'[u].Key() == tasks[u].Key() && (tasks[u].Active() ==> tasks'[u].Active())
    ensures PitOk(limit, pit, tasks', but) && PitOk(limit, pit, tasks', -1)
  {
    forall n | n in pit.entries ensures Owned(tasks', but, n) && Owned(tasks', -1, n) {
      OwnedMonotone(tasks, tasks', but, n);
    }
  }

  /** An idle task owns nothing, so the table does not depend on it. */
  lemma PitWithout(limit: int, pit: Table, tasks: seq<Task>, t: nat)
    requires PitOk(limit, pit, tasks, -1)
    requires t < |tasks| && (tasks[t].Active() ==> tasks[t].Key() !in pit.entries)
    ensures PitOk(limit, pit, tasks, t)
  {
    forall n | n in pit.entries ensures Owned(tasks, t, n) {
      var u :| u != -1 && Owns(tasks, u, n);
      assert u != t;
    }
  }

  lemma TaskChangeOk(tasks: seq<Task>, futures: seq<Future>, t: nat, task: Task)
    requires t < |tasks| && TasksOk(tasks, futures) && TaskOk(futures, task)
    ensures TasksOk(tasks[t := task], futures)
  {
  }

  lemma TaskAddOk(tasks: seq<Task>, futures: seq<Future>, task: Task)
    requires TasksOk(tasks, futures) && TaskOk(futures, task)
    ensures TasksOk(tasks + [task], futures)
  {
  }

  lemma StartForwardKeeps(cfg: Config, s: State, t: nat, faces: seq<FaceId>, mono: nat)
    requires t < |s.tasks| && s.tasks[t].phase.Scheduled? && Inv(cfg, s)
    ensures Inv(cfg, StartForward(cfg, s, t, faces, mono))
  {
    hide PitOk, WaitersOk, TasksOk, RefreshOk, TablesOk, TryFaces;
    var task := s.tasks[t];
    PitWithout(cfg.pitLimit, s.pit, s.tasks, t);
    if task.interest.hopLimit == 0 {
      FinishKeeps(cfg, s, t, None);
    } else {
      var task' := task.(interest := task.interest.(hopLimit := task.interest.hopLimit - 1));
      var s1 := s.(tasks := s.tasks[t := task']);
      RefreshAfterPhase(s.tasks, s.refreshing, t, task');
      PitFrame(cfg.pitLimit, s.pit, s.tasks, s1.tasks, t);
      TaskChangeOk(s.tasks, s.futures, t, task');
      TryFacesKeeps(cfg, s1, t, faces, mono);
    }
  }

  lemma FinishKeeps(cfg: Config, s: State, t: nat, r: Option<Data>)
    requires t < |s.tasks| && !s.tasks[t].phase.Done?
    requires PitOk(cfg.pitLimit, s.pit, s.tasks, t) && WaitersOk(s.notifiers, s.futures) && TasksOk(s.tasks, s.futures)
    requires RefreshOk(s.tasks, s.refreshing) && TablesOk(cfg.store.capacity, s.rows, s.routes)
    requires r.Some? ==> r.value.name.StartsWith(s.tasks[t].interest.name)
    ensures Inv(cfg, Finish(s, t, r))
  {
    hide PitOk, WaitersOk, TasksOk, RefreshOk, TablesOk;
    TaskChangeOk(s.tasks, s.futures, t, s.tasks[t].(phase := Done(r)));
    RefreshAfterPhase(s.tasks, s.refreshing, t, s.tasks[t].(phase := Done(r)));
    PitFrame(cfg.pitLimit, s.pit, s.tasks, Finish(s, t, r).tasks, t);
  }

  // ----- calls -----

  /** A store answer always lies under the name that was asked for. */
  lemma CacheHitIsUnder(cfg: Config, rows: Store.Rows, i: Interest, wall: nat)
    requires Store.DistinctNames(rows)
    ensures CacheHit(cfg, rows, i, wall).Some? ==> CacheHit(cfg, rows, i, wall).value.name.StartsWith(i.name)
  {
    hide Store.GetPrefix, Store.Get;
    Store.AnswersAreUnder(cfg.store, rows, i.name, i.Child(), i.Floor(), wall);
  }

  lemma RefreshAfterAdd(tasks: seq<Task>, refreshing: set<Name>, task: Task)
    requires RefreshOk(tasks, refreshing)
    requires Refreshing(task, task.interest.name) ==> task.interest.name !in refreshing
    ensures RefreshOk(tasks + [task],
      if Refreshing(task, task.interest.name) then refreshing + {task.interest.name} else refreshing)
  {
    var tasks' := tasks + [task];
    var refreshing' := if Refreshing(task, task.interest.name) then refreshing + {task.interest.name} else refreshing;
    forall n ensures n in refreshing' <==> exists u :: 0 <= u < |tasks'| && Refreshing(tasks'[u], n) {
      if n in refreshing {
        var u :| 0 <= u < |tasks| && Refreshing(tasks[u], n);
        assert Refreshing(tasks'[u], n);
      } else if n in refreshing' {
        assert Refreshing(tasks'[|tasks|], n);
      }
      if u :| 0 <= u < |tasks'| && Refreshing(tasks'[u], n) {
        assert u < |tasks| ==> Refreshing(tasks[u], n);
      }
    }
  }

  lemma AddTaskKeeps(cfg: Config, s: State, task: Task)
    requires Inv(cfg, s) && TaskOk(s.futures, task) && !task.background
    ensures Inv(cfg, s.(tasks := s.tasks + [task]))
  {
    hide PitOk, WaitersOk, TasksOk, RefreshOk, TablesOk;
    TaskAddOk(s.tasks, s.futures, task);
    RefreshAfterAdd(s.tasks, s.refreshing, task);
    PitFrame(cfg.pitLimit, s.pit, s.tasks, s.tasks + [task], -1);
  }

  lemma ScheduleKeeps(cfg: Config, s: State, i: Interest, inFace: FaceId, face: FaceId, nonce: bytes)
    requires Inv(cfg, s)
    ensures Inv(cfg, ScheduleRefresh(s, i, inFace, face, nonce))
  {
    hide PitOk, WaitersOk, TasksOk, RefreshOk, TablesOk;
    if i.name !in s.refreshing {
      var task := Task(i.(nonce := nonce, mustBeFresh := true), inFace, true, Scheduled(face));
      TaskAddOk(s.tasks, s.futures, task);
      RefreshAfterAdd(s.tasks, s.refreshing, task);
      PitFrame(cfg.pitLimit, s.pit, s.tasks, s.tasks + [task], -1);
    }
  }

  lemma AddFutureKeeps(cfg: Config, s: State, key: Name)
    requires Inv(cfg, s) && key.pin == None
    ensures Inv(cfg, AddFuture(s, key))
  {
    hide PitOk, TasksOk, RefreshOk, TablesOk;
    ListedAfterAdd(s.notifiers, s.futures, key);
    ResolvedTasksOk(s.tasks, s.futures, AddFuture(s, key).futures);
  }

  lemma ListedAfterAdd(notifiers: map<Name, seq<nat>>, futures: seq<Future>, key: Name)
    requires WaitersOk(notifiers, futures) && key.pin == None
    ensures var listed := if key in notifiers then notifiers[key] else [];
      WaitersOk(notifiers[key := listed + [|futures|]], futures + [Future(key, Pending)])
  {
    var listed := if key in notifiers then notifiers[key] else [];
    var notifiers', futures' := notifiers[key := listed + [|futures|]], futures + [Future(key, Pending)];
    forall f | 0 <= f < |futures'| && futures'[f].outcome == Pending ensures Listed(notifiers', futures'[f].key, f) {
      if f < |futures| {
        assert Listed(notifiers, futures[f].key, f);
      }
    }
    forall n, f: nat | Listed(notifiers', n, f) ensures f < |futures'| && futures'[f].key == n {
      assert Listed(notifiers, n, f) || (n == key && f == |futures|);
    }
  }

  lemma {:induction false} WithoutShrinks(rows: Store.Rows, names: set<Name>)
    ensures |Store.Without(rows, names)| <= |rows|
  {
    if rows != [] {
      WithoutShrinks(rows[1..], names);
    }
  }

  lemma LiveRowsValid(rows: Store.Rows, names: set<Name>)
    requires Store.ValidRows(rows)
    ensures Store.ValidRows(Store.Without(rows, names)) && |Store.Without(rows, names)| <= |rows|
  {
    Store.WithoutFacts(rows, names);
    WithoutShrinks(rows, names);
  }

  lemma ExpressKeeps(cfg: Config, s: State, i: Interest, inFace: FaceId, clk: Clock, nonce: bytes)
    requires cfg.Valid() && Inv(cfg, s)
    ensures Inv(cfg, Express(cfg, s, i, inFace, clk, nonce))
  {
    if Seen(s.nonces, inFace, i.nonce) {
      AddTaskKeeps(cfg, s, Task(i, inFace, false, Done(None)));
    } else {
      var s1 := Admitted(cfg, s, i, inFace, clk);
      CacheHitIsUnder(cfg, s.rows, i, clk.wall);
      LiveRowsValid(s.rows, Store.ExpiredNames(s.rows, clk.wall));
      assert Inv(cfg, s1);
      ActKeeps(cfg, s, s1, i, inFace, clk, nonce);
    }
  }

  lemma ActKeeps(cfg: Config, s: State, s1: State, i: Interest, inFace: FaceId, clk: Clock, nonce: bytes)
    requires cfg.Valid() && Inv(cfg, s1) && !Seen(s.nonces, inFace, i.nonce)
    requires s1 == Admitted(cfg, s, i, inFace, clk) && (forall n :: n in s.pit.entries ==> n.pin == None)
    requires var hit := CacheHit(cfg, s.rows, i, clk.wall); hit.Some? ==> hit.value.name.StartsWith(i.name)
    ensures Inv(cfg, Express(cfg, s, i, inFace, clk, nonce))
  {
    hide PitOk, WaitersOk, TasksOk, RefreshOk, TablesOk;
    hide CacheHit, Candidates, Lookup, StartForward;
    var hit := CacheHit(cfg, s.rows, i, clk.wall);
    match Verdict(cfg, s, i, clk)
    case ServeFromCache => AddTaskKeeps(cfg, s1, Task(i, inFace, false, Done(hit)));
    case ServeStaleRevalidate(face) =>
      AddTaskKeeps(cfg, s1, Task(i, inFace, false, Done(hit)));
      ScheduleKeeps(cfg, AddTask(s1, i, inFace, Done(hit)), i, inFace, face, nonce);
    case SuppressAggregate =>
      AddFutureKeeps(cfg, s1, i.name);
      AddTaskKeeps(cfg, AddFuture(s1, i.name), Task(i, inFace, false, Joined(|s.futures|)));
    case ForwardTo(face) =>
      AddTaskKeeps(cfg, s1, Task(i, inFace, false, Scheduled(face)));
      var faces := Candidates(Lookup(s.routes, i.name), face, s.failures, cfg.tuning, clk.mono);
      StartForwardKeeps(cfg, AddTask(s1, i, inFace, Scheduled(face)), |s.tasks|, faces, clk.mono);
    case DropNoRoute => AddTaskKeeps(cfg, s1, Task(i, inFace, false, Done(None)));
  }

  lemma RegisterKeeps(cfg: Config, s: State, t: nat)
    requires Inv(cfg, s) && t < |s.tasks| && s.tasks[t].phase.Sending?
    ensures Inv(cfg, Register(s, t))
  {
    hide PitOk, WaitersOk, TasksOk, RefreshOk, TablesOk;
    var p := s.tasks[t].phase;
    var s1 := AddFuture(s, s.tasks[t].Key());
    var task' := s.tasks[t].(phase := Waiting(p.face, p.rest, |s.futures|));
    AddFutureKeeps(cfg, s, s.tasks[t].Key());
    TaskChangeOk(s1.tasks, s1.futures, t, task');
    RefreshAfterPhase(s1.tasks, s1.refreshing, t, task');
    PitFrame(cfg.pitLimit, s.pit, s.tasks, s.tasks[t := task'], -1);
  }

  lemma ResumeKeeps(cfg: Config, s: State, t: nat, overtaken: bool, mono: nat)
    requires Inv(cfg, s) && Resumable(s, t)
    ensures Inv(cfg, Resume(cfg, s, t, overtaken, mono))
  {
    hide PitOk, RefreshOk, TablesOk, TryFaces, Drop;
    var task := s.tasks[t];
    var outcome := Found(s, t, overtaken);
    assert TaskOk(s.futures, task);
    assert outcome.Answered? ==> outcome.data.name.StartsWith(task.interest.name);
    hide WaitersOk, TasksOk;
    if task.phase.Joined? {
      PitWithout(cfg.pitLimit, s.pit, s.tasks, t);
      FinishKeeps(cfg, s, t, if outcome.Answered? then Some(outcome.data) else None);
    } else {
      var pit := Drop(s.pit, task.Key());
      PitWithoutKey(cfg.pitLimit, s.pit, s.tasks, t);
      if outcome.Answered? {
        FinishKeeps(cfg, s.(failures := AfterSuccess(s.failures, task.phase.face), pit := pit), t, Some(outcome.data));
      } else {
        TryFacesKeeps(cfg, s.(failures := AfterFailure(s.failures, task.phase.face, mono), pit := pit), t,
          task.phase.rest, mono);
      }
    }
  }

  /** Once its name is dropped from the table, the table no longer depends on a task. */
  lemma PitWithoutKey(limit: int, pit: Table, tasks: seq<Task>, t: nat)
    requires PitOk(limit, pit, tasks, -1) && t < |tasks|
    ensures PitOk(limit, Drop(pit, tasks[t].Key()), tasks, t)
  {
    PitAfterDrop(limit, pit, tasks[t].Key());
    PitWithout(limit, Drop(pit, tasks[t].Key()), tasks, t);
  }

  // ----- arrivals -----

  lemma NotifyKeeps(notifiers: map<Name, seq<nat>>, futures: seq<Future>, key: Name, outcome: Outcome)
    requires WaitersOk(notifiers, futures) && outcome != Pending
    requires outcome.Answered? ==> outcome.data.name.StartsWith(key)
    ensures var ids := if key in notifiers then notifiers[key] else [];
      WaitersOk(notifiers - {key}, ResolveAll(futures, ids, outcome))
  {
    var ids := if key in notifiers then notifiers[key] else [];
    var r := ResolveAll(futures, ids, outcome);
    forall f | 0 <= f < |r| && r[f].outcome == Pending ensures Listed(notifiers - {key}, r[f].key, f) {
      assert Listed(notifiers, futures[f].key, f);
    }
    forall f | 0 <= f < |r| && r[f].outcome.Answered? ensures r[f].outcome.data.name.StartsWith(r[f].key) {
      assert f in ids ==> Listed(notifiers, key, f);
    }
    forall n, f: nat | Listed(notifiers - {key}, n, f) ensures f < |r| && r[f].key == n {
      assert Listed(notifiers, n, f);
    }
  }

  lemma ResolvedTasksOk(tasks: seq<Task>, futures: seq<Future>, futures': seq<Future>)
    requires TasksOk(tasks, futures) && |futures| <= |futures'|
    requires forall f :: 0 <= f < |futures| ==> futures'[f].key == futures[f].key
    ensures TasksOk(tasks, futures')
  {
    forall t | 0 <= t < |tasks| ensures TaskOk(futures', tasks[t]) {
      assert TaskOk(futures, tasks[t]);
    }
  }

  predicate AcceptsLonger(entries: map<Name, PitEntry>, n: Name) {
    n in entries && entries[n].interest.canBePrefix
  }

  lemma {:induction false} AncestorIsNearest(entries: map<Name, PitEntry>, n: Name, i: nat)
    requires i <= n.Len() && n.pin == None
    ensures var a := Ancestor(entries, n, i);
      && (a.Some? ==>
            && 1 <= a.value.Len() <= i && a.value == n.Prefix(a.value.Len()) && AcceptsLonger(entries, a.value)
            && forall j :: a.value.Len() < j <= i ==> !AcceptsLonger(entries, n.Prefix(j)))
      && (a.None? ==> forall j :: 1 <= j <= i ==> !AcceptsLonger(entries, n.Prefix(j)))
  {
    if i > 0 && !AcceptsLonger(entries, n.Prefix(i)) {
      AncestorIsNearest(entries, n, i - 1);
    }
  }

  lemma MatchedIsPrefix(entries: map<Name, PitEntry>, n: Name)
    requires n.pin == None
    ensures Matched(entries, n).Some? ==>
      Matched(entries, n).value in entries && n.StartsWith(Matched(entries, n).value)
        && Matched(entries, n).value.pin == None
  {
    AncestorIsNearest(entries, n, n.Len() - 1);
  }

  lemma PitShrinks(limit: int, pit: Table, pit': Table, tasks: seq<Task>)
    requires PitOk(limit, pit, tasks, -1) && pit'.Valid() && pit'.entries.Keys <= pit.entries.Keys
    ensures PitOk(limit, pit', tasks, -1)
  {
    SubsetSize(pit'.entries.Keys, pit.entries.Keys);
  }

  /** Satisfying an entry and then dropping one leaves the table owned as before. */
  lemma PitAfterArrival(limit: int, pit: Table, tasks: seq<Task>, matched: Option<Name>, gone: Name)
    requires PitOk(limit, pit, tasks, -1) && (matched.Some? ==> matched.value in pit.entries)
    ensures var pit1 := if matched.Some? then Satisfy(pit, matched.value) else pit;
      PitOk(limit, pit1, tasks, -1) && PitOk(limit, Drop(pit1, gone), tasks, -1)
  {
    hide Owned;
    if matched.Some? {
      PutFacts(pit, matched.value, pit.entries[matched.value].(satisfied := true));
    }
    var pit1 := if matched.Some? then Satisfy(pit, matched.value) else pit;
    assert pit1.entries.Keys == pit.entries.Keys;
    DropKeepsValid(pit1, gone);
    PitShrinks(limit, pit, pit1, tasks);
    PitShrinks(limit, pit, Drop(pit1, gone), tasks);
  }

  lemma TablesAfterInsert(cfg: Config, rows: Store.Rows, routes: Entries, d: Data, wall: nat)
    requires TablesOk(cfg.store.capacity, rows, routes)
    ensures TablesOk(cfg.store.capacity, Store.Inserted(cfg.store, rows, d.name, d, wall), routes)
  {
    hide Store.Inserted;
    Store.InsertKeepsValid(cfg.store, rows, d.name, d, wall);
    Store.InsertKeepsCapacity(cfg.store, rows, d.name, d, wall);
  }

  lemma ReceiveDataKeeps(cfg: Config, s: State, d: Data, unsolicited: bool, wall: nat)
    requires Inv(cfg, s)
    ensures Inv(cfg, ReceiveData(cfg, s, d, unsolicited, wall))
  {
    hide PitOk, WaitersOk, TasksOk, RefreshOk, TablesOk, Store.Inserted, Matched, Drop, Satisfy;
    var key := d.name.Unpinned();
    if !AncestorRaises(s, d) {
      var matched := Matched(s.pit.entries, key);
      MatchedIsPrefix(s.pit.entries, key);
      PitAfterArrival(cfg.pitLimit, s.pit, s.tasks, matched, if matched.Some? then matched.value else key);
      TablesAfterInsert(cfg, s.rows, s.routes, d, wall);
      if matched.Some? {
        NotifyKeeps(s.notifiers, s.futures, matched.value, Answered(d));
        ResolvedTasksOk(s.tasks, s.futures,
                        Notify(s.(pit := Satisfy(s.pit, matched.value)), matched.value, Answered(d)).futures);
      }
    }
    var r := ReceiveData(cfg, s, d, unsolicited, wall);
    assert PitOk(cfg.pitLimit, r.pit, r.tasks, -1);
    assert WaitersOk(r.notifiers, r.futures);
    assert TasksOk(r.tasks, r.futures);
    assert RefreshOk(r.tasks, r.refreshing);
    assert TablesOk(cfg.store.capacity, r.rows, r.routes);
  }

  lemma PurgeKeeps(cfg: Config, s: State, mono: nat)
    requires Inv(cfg, s)
    ensures Inv(cfg, PurgePit(s, mono))
  {
    DropAllFacts(s.pit, StaleNames(s.pit, s.pit.order, mono));
    SubsetSize(Purge(s.pit, mono).entries.Keys, s.pit.entries.Keys);
  }

  lemma RoutesKeep(cfg: Config, s: State, p: Name, f: FaceId, cost: int)
    requires Inv(cfg, s)
    ensures Inv(cfg, AddRoute(s, p, f, cost)) && Inv(cfg, WithdrawFace(s, f))
  {
    WithRouteIsUpdate(s.routes, p, f, cost);
    WithoutFaceIsFilter(s.routes, f, None);
  }

  /** Every step keeps the invariant. */
  lemma StepKeeps(cfg: Config, s: State, e: Event, clk: Clock)
    requires cfg.Valid() && Inv(cfg, s) && Enabled(s, e)
    ensures Inv(cfg, Step(cfg, s, e, clk))
  {
    hide PitOk, RefreshOk, Express, StartForward, Register, Resume, ReceiveData;
    match e
    case ExpressEvent(i, inFace, nonce) => ExpressKeeps(cfg, s, i, inFace, clk, nonce);
    case StartRefreshEvent(t) => StartForwardKeeps(cfg, s, t, [s.tasks[t].phase.face], clk.mono);
    case RegisterEvent(t) => RegisterKeeps(cfg, s, t);
    case ResumeEvent(t, overtaken) => ResumeKeeps(cfg, s, t, overtaken, clk.mono);
    case TimeoutEvent(f) => ResolvedTasksOk(s.tasks, s.futures, Timeout(s, f).futures);
    case DataEvent(d, unsolicited) => ReceiveDataKeeps(cfg, s, d, unsolicited, clk.wall);
    case NackEvent(n) =>
      NotifyKeeps(s.notifiers, s.futures, n.Unpinned(), Nacked);
      ResolvedTasksOk(s.tasks, s.futures, ReceiveNack(s, n).futures);
    case AddFaceEvent(f) =>
    case UnregisterEvent(f) =>
    case WithdrawEvent(f) => RoutesKeep(cfg, s, Name([], [], None), f, 0);
    case RouteEvent(p, f, cost) => RoutesKeep(cfg, s, p, f, cost);
    case PurgeEvent => PurgeKeeps(cfg, s, clk.mono);
    case InvalidateEvent(n, isPrefix) =>
      LiveRowsValid(s.rows,
        if isPrefix then set r | r in s.rows && n.pin == None && r.name.StartsWith(n) :: r.name else {n});
  }
}
