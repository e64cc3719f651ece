/** The forwarder itself (rns_icn/forwarder.py): an object that owns the tables and updates them in
    place.  A coroutine of the source is cut at its `await`s; each method is the stretch of code up
    to the next one, and its contract ties the whole state after it to the step machine in
    Forwarding.dfy, about whose runs the safety theorems speak. */
module Forwarders {
  import opened Base
  import opened Names
  import opened Packets
  import Store
  import opened ContentStores
  import opened Fibs
  import opened Pits
  import opened Strategies
  import F = Forwarding
  import opened ForwardingSafety
  import ForwardingRuns

  lemma TryFacesNone(cfg: F.Config, s: F.State, t: nat, mono: nat)
    requires t < |s.tasks|
    ensures F.TryFaces(cfg, s, t, [], mono) == F.Finish(s, t, None)
  {
  }

  lemma InvWaiters(cfg: F.Config, s: F.State)
    requires Inv(cfg, s)
    ensures WaitersOk(s.notifiers, s.futures)
  {
  }

  /** When arriving Data is handled without raising. */
  predicate Accepted(s: F.State, d: Data, unsolicited: bool) {
    && !F.AncestorRaises(s, d)
    && (F.Matched(s.pit.entries, d.name.Unpinned()).Some? || unsolicited ==> Store.Storable(d))
  }

  /** Resolving one more waiter of a list. */
  lemma ResolveNext(fs: seq<F.Future>, ids: seq<nat>, k: nat, outcome: F.Outcome)
    requires k < |ids| && ids[k] < |fs| && outcome != F.Pending
    ensures var some := F.ResolveAll(fs, ids[..k], outcome);
      F.ResolveAll(fs, ids[..k + 1], outcome) ==
        if some[ids[k]].outcome == F.Pending then some[ids[k] := some[ids[k]].(outcome := outcome)] else some
  {
    assert ids[..k + 1] == ids[..k] + [ids[k]];
  }

  class Forwarder {
    const cfg: F.Config
    const cs: ContentStore
    const pit: Pit
    const fib: Fib
    const strategy: BestRoute
    var faces: set<FaceId>
    var notifiers: map<Name, seq<nat>>
    var futures: seq<F.Future>
    var tasks: seq<F.Task>
    var refreshing: set<Name>
    var sent: seq<F.Transmission>

    ghost predicate Valid()
      reads this, cs, pit, fib, strategy
    {
      && cfg.Valid() && cs.Valid() && pit.Valid() && fib.Valid()
      && cs.cfg == cfg.store && strategy.tuning == cfg.tuning
      && pit.nonceTtl == cfg.nonceTtl && pit.maxEntries == cfg.pitLimit && pit.maxNonces == cfg.nonceLimit
    }

    /** Everything the steps read and write. */
    ghost function View(): F.State
      reads this, cs, pit, fib, strategy
    {
      F.State(cs.content, pit.table, pit.nonces, fib.entries, strategy.failures,
              faces, notifiers, futures, tasks, refreshing, sent)
    }

    /** Between steps the tables are valid and the safety invariant holds. */
    ghost predicate Safe()
      reads this, cs, pit, fib, strategy
    {
      Valid() && Inv(cfg, View())
    }

    constructor (hash: bytes -> bytes, ttl: Name -> Option<int>, csMax: int, pitMax: int, nonceTtl: nat,
        nonceLimit: nat, tuning: Tuning)
      requires nonceLimit >= 1
      ensures Safe() && View() == F.START
      ensures fresh(cs) && fresh(pit) && fresh(fib) && fresh(strategy)
    {
      cfg := F.Config(Store.Config(hash, ttl, Max(1, csMax)), nonceTtl, pitMax, nonceLimit, tuning);
      cs := new ContentStore(hash, ttl, csMax);
      pit := new Pit(nonceTtl, pitMax, nonceLimit);
      fib := new Fib();
      strategy := new BestRoute(tuning);
      faces, notifiers, futures, tasks, refreshing, sent := {}, map[], [], [], {}, [];
      new;
      ForwardingRuns.StartKeepsInv(cfg);
    }

    // ----- faces and routes -----

    method RegisterFace(f: FaceId)
      requires Safe()
      modifies this`faces
      ensures Safe() && View() == F.AddFace(old(View()), f)
    {
      hide Inv;
      StepKeeps(cfg, View(), F.AddFaceEvent(f), Clock(0, 0));
      faces := faces + {f};
    }

    method UnregisterFace(f: FaceId)
      requires Safe()
      modifies this`faces
      ensures Safe() && View() == F.DropFaceOnly(old(View()), f)
    {
      hide Inv;
      StepKeeps(cfg, View(), F.UnregisterEvent(f), Clock(0, 0));
      faces := faces - {f};
    }

    method AddRoute(prefix: Name, f: FaceId, cost: int)
      requires Safe()
      modifies fib
      ensures Safe() && View() == F.AddRoute(old(View()), prefix, f, cost)
    {
      hide Fibs.WithRoute, ValidEntries, Inv;
      StepKeeps(cfg, View(), F.RouteEvent(prefix, f, cost), Clock(0, 0));
      fib.Insert(prefix, f, cost);
    }

    /** A closed link: its routes go first, then the face. */
    method WithdrawFace(f: FaceId)
      requires Safe()
      modifies this`faces, fib
      ensures Safe() && View() == F.WithdrawFace(old(View()), f)
    {
      hide Fibs.WithoutFace, ValidEntries, Inv;
      StepKeeps(cfg, View(), F.WithdrawEvent(f), Clock(0, 0));
      var withdrawn := fib.RemoveAllForFace(f);
      faces := faces - {f};
    }

    method PurgePit(mono: nat)
      requires Safe()
      modifies pit
      ensures Safe() && View() == F.PurgePit(old(View()), mono)
    {
      hide Purge, SweepNonces, Inv;
      StepKeeps(cfg, View(), F.PurgeEvent, Clock(0, mono));
      var removed := pit.PurgeExpired(mono);
    }

    // ----- waiters -----

    method AddWaiter(key: Name) returns (fut: nat)
      requires Valid()
      modifies this`futures, this`notifiers
      ensures Valid() && View() == F.AddFuture(old(View()), key) && fut == |old(futures)|
    {
      fut := |futures|;
      var listed := if key in notifiers then notifiers[key] else [];
      futures := futures + [F.Future(key, F.Pending)];
      notifiers := notifiers[key := listed + [fut]];
    }

    /** Takes the waiters of a name off the table and resolves those not yet done, one by one. */
    method NotifyWaiters(key: Name, outcome: F.Outcome)
      requires Valid() && outcome != F.Pending
      requires WaitersOk(notifiers, futures)
      modifies this`futures, this`notifiers
      ensures Valid() && View() == F.Notify(old(View()), key, outcome)
    {
      hide F.ResolveAll;
      assert forall f: nat :: Listed(notifiers, key, f) ==> f < |futures|;
      var waiting := if key in notifiers then notifiers[key] else [];
      assert forall f :: f in waiting ==> Listed(notifiers, key, f);
      notifiers := notifiers - {key};
      for k := 0 to |waiting|
        invariant notifiers == old(notifiers) - {key}
        invariant futures == F.ResolveAll(old(futures), waiting[..k], outcome)
      {
        assert waiting[k] in waiting;
        ResolveNext(old(futures), waiting, k, outcome);
        if futures[waiting[k]].outcome == F.Pending {
          futures := futures[waiting[k] := futures[waiting[k]].(outcome := outcome)];
        }
      }
      assert waiting[..|waiting|] == waiting;
    }

    method ReceiveNack(n: Name)
      requires Safe()
      modifies this`futures, this`notifiers
      ensures Safe() && View() == F.ReceiveNack(old(View()), n)
    {
      hide Inv;
      StepKeeps(cfg, View(), F.NackEvent(n), Clock(0, 0));
      InvWaiters(cfg, View());
      NotifyWaiters(n.Unpinned(), F.Nacked);
    }

    // ----- forwarding -----

    /** A call returns to its caller; a background refresh also releases its name. */
    method Return(t: nat, result: Option<Data>)
      requires Valid() && t < |tasks|
      modifies this`tasks, this`refreshing
      ensures Valid() && View() == F.Finish(old(View()), t, result)
    {
      var task := tasks[t];
      tasks := tasks[t := task.(phase := F.Done(result))];
      if task.background {
        refreshing := refreshing - {task.interest.name};
      }
    }

    /** One next hop: a PIT entry, then the transmission if the face is there. */
    method ForwardOne(t: nat, face: FaceId, rest: seq<FaceId>, mono: nat) returns (sending: bool)
      requires Valid() && t < |tasks|
      modifies this`tasks, this`sent, pit
      ensures Valid() && |tasks| == |old(tasks)|
      ensures F.TryFaces(cfg, old(View()), t, [face] + rest, mono) ==
        if sending then View() else F.TryFaces(cfg, View(), t, rest, mono)
      ensures !sending ==> View() == old(View()).(pit := pit.table)
    {
      hide InsertOrAggregate, SetOutFace, Drop;
      var task := tasks[t];
      var name := task.Key();
      assert ([face] + rest)[1..] == rest;
      var aggregated := pit.Insert(name, task.inFace, task.interest, mono);
      pit.SetOut(name, face);
      sending := face in faces;
      if sending {
        sent := sent + [F.Transmission(face, task.interest)];
        tasks := tasks[t := task.(phase := F.Sending(face, rest))];
      } else {
        var removed := pit.RemoveEntry(name);
      }
    }

    /** The failover loop, entered or resumed with the next hops still to try. */
    method TryFaces(t: nat, candidates: seq<FaceId>, mono: nat)
      requires Valid() && t < |tasks|
      modifies this`tasks, this`sent, this`refreshing, pit
      ensures Valid() && View() == F.TryFaces(cfg, old(View()), t, candidates, mono)
    {
      hide F.TryFaces;
      for k := 0 to |candidates|
        invariant Valid() && t < |tasks|
        invariant View() == old(View()).(pit := pit.table)
        invariant F.TryFaces(cfg, View(), t, candidates[k..], mono) == F.TryFaces(cfg, old(View()), t, candidates, mono)
      {
        assert candidates[k..] == [candidates[k]] + candidates[k + 1..];
        var sending := ForwardOne(t, candidates[k], candidates[k + 1..], mono);
        if sending {
          return;
        }
      }
      TryFacesNone(cfg, View(), t, mono);
      Return(t, None);
    }

    /** The hop limit is enforced once, however many next hops follow. */
    method Forward(t: nat, candidates: seq<FaceId>, mono: nat)
      requires Valid() && t < |tasks|
      modifies this`tasks, this`sent, this`refreshing, pit
      ensures Valid() && View() == F.StartForward(cfg, old(View()), t, candidates, mono)
    {
      hide F.TryFaces;
      var i := tasks[t].interest;
      if i.hopLimit == 0 {
        Return(t, None);
        return;
      }
      tasks := tasks[t := tasks[t].(interest := i.(hopLimit := i.hopLimit - 1))];
      TryFaces(t, candidates, mono);
    }

    method ScheduleRevalidation(i: Interest, inFace: FaceId, face: FaceId, nonce: bytes)
      requires Valid()
      modifies this`tasks, this`refreshing
      ensures Valid() && View() == F.ScheduleRefresh(old(View()), i, inFace, face, nonce)
    {
      if i.name in refreshing {
        return;
      }
      refreshing := refreshing + {i.name};
      tasks := tasks + [F.Task(i.(nonce := nonce, mustBeFresh := true), inFace, true, F.Scheduled(face))];
    }

    /** The store's offer, with the sequence-walk rule. */
    method CacheLookup(i: Interest, wall: nat) returns (hit: Option<Data>)
      requires Valid()
      modifies cs
      ensures Valid() && cs.content == Store.Live(old(cs.content), wall)
      ensures hit == F.CacheHit(cfg, old(cs.content), i, wall)
    {
      hide Store.GetPrefix, Store.Get, Store.Live;
      if i.canBePrefix {
        hit := cs.FetchPrefix(i.name, i.Child(), i.Floor(), wall);
        if hit.Some? && i.Child() == Oldest && i.Floor().Some? && hit.value.metadata.sequence != i.Floor() {
          hit := None;
        }
      } else {
        hit := cs.Fetch(i.name, wall);
      }
    }

    /** An Interest arrives: everything up to the first `await`, or to the return. */
    method Express(i: Interest, inFace: FaceId, clk: Clock, refreshNonce: bytes)
      requires Safe()
      modifies this, pit, cs
      ensures Safe() && View() == F.Express(cfg, old(View()), i, inFace, clk, refreshNonce)
    {
      hide Inv, F.Express;
      ExpressKeeps(cfg, View(), i, inFace, clk, refreshNonce);
      Admit(i, inFace, clk, refreshNonce);
    }

    method Admit(i: Interest, inFace: FaceId, clk: Clock, refreshNonce: bytes)
      requires Valid()
      modifies this, pit, cs
      ensures Valid() && View() == F.Express(cfg, old(View()), i, inFace, clk, refreshNonce)
    {
      hide F.CacheHit, F.StartForward, F.AddFuture, F.ScheduleRefresh, RecordNonce, Fibs.Lookup, Candidates,
        Store.Live, Decide, Seen, ValidEntries, Pits.Table.Valid, PrefixIndex, Store.ValidRows;
      if pit.CheckLoop(inFace, i.nonce) {
        tasks := tasks + [F.Task(i, inFace, false, F.Done(None))];
        return;
      }
      var _ := pit.Record(inFace, i.nonce, clk.mono);
      var hit := CacheLookup(i, clk.wall);
      var pending := pit.Find(i.name);
      var found := fib.LookupHops(i.name);
      var hops := if found.Some? then found.value else [];
      match Decide(i, hops, pending, hit, strategy.failures, strategy.tuning, clk.mono)
      case ServeFromCache =>
        tasks := tasks + [F.Task(i, inFace, false, F.Done(hit))];
      case ServeStaleRevalidate(face) =>
        tasks := tasks + [F.Task(i, inFace, false, F.Done(hit))];
        ScheduleRevalidation(i, inFace, face, refreshNonce);
      case SuppressAggregate =>
        var fut := AddWaiter(i.name);
        tasks := tasks + [F.Task(i, inFace, false, F.Joined(fut))];
      case ForwardTo(face) =>
        tasks := tasks + [F.Task(i, inFace, false, F.Scheduled(face))];
        Forward(|tasks| - 1, Candidates(hops, face, strategy.failures, strategy.tuning, clk.mono), clk.mono);
      case DropNoRoute =>
        tasks := tasks + [F.Task(i, inFace, false, F.Done(None))];
    }

    /** The loop starts a scheduled refresh. */
    method StartRefresh(t: nat, mono: nat)
      requires Safe() && t < |tasks| && tasks[t].phase.Scheduled?
      modifies this`tasks, this`sent, this`refreshing, pit
      ensures Safe() && View() == F.StartRefresh(cfg, old(View()), t, mono)
    {
      hide F.StartForward, Inv;
      StepKeeps(cfg, View(), F.StartRefreshEvent(t), Clock(0, mono));
      Forward(t, [tasks[t].phase.face], mono);
    }

    /** The transmission is done: only now does the forward list its waiter. */
    method AfterSend(t: nat)
      requires Safe() && t < |tasks| && tasks[t].phase.Sending?
      modifies this`tasks, this`futures, this`notifiers
      ensures Safe() && View() == F.Register(old(View()), t)
    {
      hide Inv;
      StepKeeps(cfg, View(), F.RegisterEvent(t), Clock(0, 0));
      var task := tasks[t];
      var fut := AddWaiter(task.Key());
      tasks := tasks[t := task.(phase := F.Waiting(task.phase.face, task.phase.rest, fut))];
    }

    /** A lifetime elapses: the waiter is cancelled but stays listed. */
    method LifetimeElapses(fut: nat)
      requires Safe() && fut < |futures| && futures[fut].outcome == F.Pending
      modifies this`futures
      ensures Safe() && View() == F.Timeout(old(View()), fut)
    {
      hide Inv;
      StepKeeps(cfg, View(), F.TimeoutEvent(fut), Clock(0, 0));
      futures := futures[fut := futures[fut].(outcome := F.TimedOut)];
    }

    /** A waiter is done: an answer ends the call, anything else fails over. */
    method AfterWait(t: nat, overtaken: bool, mono: nat)
      requires Safe() && F.Resumable(View(), t)
      modifies this`tasks, this`sent, this`refreshing, pit, strategy
      ensures Safe() && View() == F.Resume(cfg, old(View()), t, overtaken, mono)
    {
      hide F.TryFaces, Drop, Inv;
      StepKeeps(cfg, View(), F.ResumeEvent(t, overtaken), Clock(0, mono));
      var task := tasks[t];
      var outcome := if overtaken then F.TimedOut else futures[task.phase.fut].outcome;
      if task.phase.Joined? {
        Return(t, if outcome.Answered? then Some(outcome.data) else None);
      } else if outcome.Answered? {
        strategy.RecordSuccess(task.phase.face, mono);
        var removed := pit.RemoveEntry(task.Key());
        Return(t, Some(outcome.data));
      } else {
        var removed := pit.RemoveEntry(task.Key());
        strategy.RecordFailure(task.phase.face, mono);
        TryFaces(t, task.phase.rest, mono);
      }
    }

    // ----- arriving Data -----

    /** The nearest pending ancestor that accepts longer names, longest first. */
    method NearestAncestor(key: Name) returns (found: Option<Name>)
      ensures found == F.Ancestor(pit.table.entries, key, key.Len() - 1)
      ensures found.Some? ==> found.value in pit.table.entries
    {
      var k := key.Len() - 1;
      while k > 0
        invariant 0 <= k <= key.Len() - 1
        invariant F.Ancestor(pit.table.entries, key, key.Len() - 1) == F.Ancestor(pit.table.entries, key, k)
      {
        var candidate := Name(key.addr, key.path[..k - 1], None);
        var entry := pit.Find(candidate);
        if entry.Some? && entry.value.interest.canBePrefix {
          return Some(candidate);
        }
        k := k - 1;
      }
      return None;
    }

    /** Data arrives.  `ok` is false where the source raises. */
    method ReceiveData(d: Data, unsolicited: bool, wall: nat) returns (ok: bool)
      requires Safe()
      modifies this`futures, this`notifiers, pit, cs
      ensures Safe() && View() == F.ReceiveData(cfg, old(View()), d, unsolicited, wall)
      ensures ok <==> Accepted(old(View()), d, unsolicited)
    {
      hide Inv, F.ReceiveData;
      ReceiveDataKeeps(cfg, View(), d, unsolicited, wall);
      InvWaiters(cfg, View());
      ok := Deliver(d, unsolicited, wall);
    }

    method Deliver(d: Data, unsolicited: bool, wall: nat) returns (ok: bool)
      requires Valid() && WaitersOk(notifiers, futures)
      modifies this`futures, this`notifiers, pit, cs
      ensures Valid() && View() == F.ReceiveData(cfg, old(View()), d, unsolicited, wall)
      ensures ok <==> Accepted(old(View()), d, unsolicited)
    {
      hide F.Ancestor, F.Notify, Drop, Store.Inserted, ValidEntries, Pits.Table.Valid, PrefixIndex, Store.ValidRows,
        Store.Storable;
      var key := d.name.Unpinned();
      var inFaces := pit.SatisfyEntry(key);
      if inFaces.None? && key.path != [] && |key.addr| != ADDRESS_BYTES {
        return false;
      }
      if inFaces.None? {
        var ancestor := NearestAncestor(key);
        if ancestor.Some? {
          key := ancestor.value;
          inFaces := pit.SatisfyEntry(key);
        }
      }
      ghost var matched := F.Matched(old(pit.table.entries), d.name.Unpinned());
      assert matched == if inFaces.Some? then Some(key) else None;
      assert inFaces.None? ==> key == d.name.Unpinned();
      ghost var s1 := if matched.None? then old(View())
                      else F.Notify(old(View()).(pit := Satisfy(old(pit.table), key)), key, F.Answered(d));
      if inFaces.Some? {
        NotifyWaiters(key, F.Answered(d));
      }
      assert View() == s1;
      if inFaces.Some? || unsolicited {
        assert d.(name := d.name) == d;
        ok := cs.Insert(d.name, d, wall);
        if !ok {
          return;
        }
      }
      var removed := pit.RemoveEntry(key);
      return true;
    }
  }
}
