/** The forwarder (rns_icn/forwarder.py) as a state machine.  The source is one event loop:
    code runs alone between two `await`s, so one step is one stretch of code from a resumption
    to the next `await`, and a run is any interleaving of steps.  A call or background refresh
    in progress is a `Task`; a PIT notifier is a `Future`; a face is its log of transmissions. */
module Forwarding {
  import opened Base
  import opened Names
  import opened Packets
  import Store
  import opened Fibs
  import opened Pits
  import opened Strategies

  datatype Outcome = Pending | Answered(data: Data) | Nacked | TimedOut

  /** A waiter's future, with the hash-free name it was registered under. */
  datatype Future = Future(key: Name, outcome: Outcome)

  datatype Phase =
    | Scheduled(face: FaceId)                                // about to forward
    | Sending(face: FaceId, rest: seq<FaceId>)               // awaiting send_raw
    | Waiting(face: FaceId, rest: seq<FaceId>, fut: nat)     // awaiting its own future
    | Joined(fut: nat)                                       // aggregated behind another forward
    | Done(result: Option<Data>)

  datatype Task = Task(interest: Interest, inFace: FaceId, background: bool, phase: Phase) {
    function Key(): Name { interest.name.Unpinned() }

    predicate Active() { phase.Sending? || phase.Waiting? }

    /** Next hops the task may still transmit on after its current one. */
    function Rest(): seq<FaceId> {
      match phase
      case Sending(_, rest) => rest
      case Waiting(_, rest, _) => rest
      case _ => []
    }
  }

  datatype Transmission = Transmission(face: FaceId, interest: Interest)

  datatype Config = Config(store: Store.Config, nonceTtl: nat, pitLimit: int, nonceLimit: nat, tuning: Tuning) {
    predicate Valid() { nonceLimit >= 1 && store.capacity >= 1 }
  }

  datatype State = State(
    rows: Store.Rows,
    pit: Table,
    nonces: seq<NonceRecord>,
    routes: Entries,
    failures: Failures,
    faces: set<FaceId>,
    notifiers: map<Name, seq<nat>>,
    futures: seq<Future>,
    tasks: seq<Task>,
    refreshing: set<Name>,
    sent: seq<Transmission>)

  const START := State([], EMPTY_TABLE, [], [], map[], {}, map[], [], [], {}, [])

  // ----- building blocks -----

  function SetPhase(s: State, t: nat, p: Phase): State
    requires t < |s.tasks|
  {
    s.(tasks := s.tasks[t := s.tasks[t].(phase := p)])
  }

  /** A call returns; a background refresh also releases its name. */
  function Finish(s: State, t: nat, result: Option<Data>): State
    requires t < |s.tasks|
  {
    var s1 := SetPhase(s, t, Done(result));
    if s.tasks[t].background then s1.(refreshing := s.refreshing - {s.tasks[t].interest.name}) else s1
  }

  /** Adds a pending future for a task and lists it under `key`. */
  function AddFuture(s: State, key: Name): State {
    var listed := if key in s.notifiers then s.notifiers[key] else [];
    s.(futures := s.futures + [Future(key, Pending)], notifiers := s.notifiers[key := listed + [|s.futures|]])
  }

  /** Pops the waiters listed under `key` and resolves those still pending. */
  function Notify(s: State, key: Name, outcome: Outcome): State {
    var ids := if key in s.notifiers then s.notifiers[key] else [];
    s.(notifiers := s.notifiers - {key}, futures := ResolveAll(s.futures, ids, outcome))
  }

  function ResolveAll(fs: seq<Future>, ids: seq<nat>, outcome: Outcome): (r: seq<Future>)
    ensures |r| == |fs|
    ensures forall f :: 0 <= f < |fs| ==>
      r[f] == if f in ids && fs[f].outcome == Pending then fs[f].(outcome := outcome) else fs[f]
  {
    seq(|fs|, f requires 0 <= f < |fs| =>
      if f in ids && fs[f].outcome == Pending then fs[f].(outcome := outcome) else fs[f])
  }

  /** The failover loop from some point on: each next hop gets a PIT entry, a hop without a
      registered face loses it again at once, and the first registered face is sent to. */
  function TryFaces(cfg: Config, s: State, t: nat, faces: seq<FaceId>, mono: nat): (r: State)
    requires t < |s.tasks|
    ensures OneAttempt(s, r, t, faces)
    decreases |faces|
  {
    if faces == [] then Finish(s, t, None)
    else
      var task := s.tasks[t];
      var pit :=
        SetOutFace(InsertOrAggregate(s.pit, cfg.pitLimit, task.Key(), task.inFace, task.interest, mono), task.Key(),
                   faces[0]);
      if faces[0] !in s.faces then TryFaces(cfg, s.(pit := Drop(pit, task.Key())), t, faces[1..], mono)
      else
        SetPhase(s.(pit := pit, sent := s.sent + [Transmission(faces[0], task.interest)]), t,
          Sending(faces[0], faces[1..]))
  }

  /** Trying next hops ends in one of two ways: an Interest is on its way to one registered face
      and only the hops after it are left, or the task is over and nothing was sent. */
  predicate OneAttempt(s: State, r: State, t: nat, faces: seq<FaceId>)
    requires t < |s.tasks|
  {
    && r == s.(pit := r.pit, tasks := r.tasks, sent := r.sent, refreshing := r.refreshing)
    && t < |r.tasks|
    && r.tasks == s.tasks[t := s.tasks[t].(phase := r.tasks[t].phase)]
    && match r.tasks[t].phase
       case Sending(f, rest) =>
         && |rest| < |faces| && [f] + rest == faces[|faces| - |rest| - 1..]
         && f in s.faces && r.sent == s.sent + [Transmission(f, s.tasks[t].interest)] && r.refreshing == s.refreshing
       case Done(d) =>
         && d == None && r.sent == s.sent
         && r.refreshing == if s.tasks[t].background then s.refreshing - {s.tasks[t].interest.name} else s.refreshing
       case _ => false
  }

  /** A forward that may still travel sends its Interest with one hop less, at most once. */
  predicate OneHop(s: State, r: State, t: nat, faces: seq<FaceId>)
    requires t < |s.tasks|
  {
    && r == s.(pit := r.pit, tasks := r.tasks, sent := r.sent, refreshing := r.refreshing)
    && t < |r.tasks| && r.tasks == s.tasks[t := r.tasks[t]]
    && var i := s.tasks[t].interest;
    if i.hopLimit == 0 then r.sent == s.sent && r.tasks[t] == s.tasks[t].(phase := Done(None))
    else
      && r.tasks[t] == s.tasks[t].(interest := i.(hopLimit := i.hopLimit - 1), phase := r.tasks[t].phase)
      && match r.tasks[t].phase
         case Sending(f, rest) =>
           && |rest| < |faces| && [f] + rest == faces[|faces| - |rest| - 1..]
           && f in s.faces && r.sent == s.sent + [Transmission(f, r.tasks[t].interest)]
         case Done(d) => d == None && r.sent == s.sent
         case _ => false
  }

  /** One forward decision costs one hop, however many next hops it tries. */
  function StartForward(cfg: Config, s: State, t: nat, faces: seq<FaceId>, mono: nat): (r: State)
    requires t < |s.tasks|
    ensures OneHop(s, r, t, faces)
  {
    var i := s.tasks[t].interest;
    if i.hopLimit == 0 then Finish(s, t, None)
    else
      var s1 := s.(tasks := s.tasks[t := s.tasks[t].(interest := i.(hopLimit := i.hopLimit - 1))]);
      TryFaces(cfg, s1, t, faces, mono)
  }

  /** What the content store offers an Interest: on a sequence walk only a row exactly on the
      floor, because only the producer can vouch for a gap. */
  function CacheHit(cfg: Config, rows: Store.Rows, i: Interest, wall: nat): Option<Data> {
    if i.canBePrefix then
      var hit := Store.GetPrefix(cfg.store, rows, i.name, i.Child(), i.Floor(), wall);
      if hit.Some? && i.Child() == Oldest && i.Floor().Some? && hit.value.metadata.sequence != i.Floor() then None
        else hit
    else Store.Get(cfg.store, rows, i.name, wall)
  }

  // ----- the steps -----

  function AddTask(s: State, i: Interest, inFace: FaceId, p: Phase): State {
    s.(tasks := s.tasks + [Task(i, inFace, false, p)])
  }

  /** A stale hit is refreshed in the background unless its name already is. */
  function ScheduleRefresh(s: State, i: Interest, inFace: FaceId, face: FaceId, nonce: bytes): State {
    if i.name in s.refreshing then s
    else s.(refreshing := s.refreshing + {i.name},
            tasks := s.tasks + [Task(i.(nonce := nonce, mustBeFresh := true), inFace, true, Scheduled(face))])
  }

  function PendingFor(s: State, n: Name): Option<PitEntry> {
    if n in s.pit.entries then Some(s.pit.entries[n]) else None
  }

  /** The strategy's verdict on an Interest that is not a duplicate. */
  function Verdict(cfg: Config, s: State, i: Interest, clk: Clock): Decision {
    Decide(i, Lookup(s.routes, i.name), PendingFor(s, i.name), CacheHit(cfg, s.rows, i, clk.wall),
           s.failures, cfg.tuning, clk.mono)
  }

  /** The nonce is recorded and the store lookup purges expired rows. */
  function Admitted(cfg: Config, s: State, i: Interest, inFace: FaceId, clk: Clock): State
    requires cfg.Valid()
  {
    s.(nonces := RecordNonce(s.nonces, cfg.nonceLimit, NonceRecord(inFace, i.nonce, clk.mono + cfg.nonceTtl)),
       rows := Store.Live(s.rows, clk.wall))
  }

  /** A call of `express`, up to its first `await` or its return.  The new task is the last one,
      or the last but one when a refresh was scheduled with it. */
  function Express(cfg: Config, s: State, i: Interest, inFace: FaceId, clk: Clock, refreshNonce: bytes): State
    requires cfg.Valid()
  {
    if Seen(s.nonces, inFace, i.nonce) then AddTask(s, i, inFace, Done(None))
    else
      var hit := CacheHit(cfg, s.rows, i, clk.wall);
      var s1 := Admitted(cfg, s, i, inFace, clk);
      match Verdict(cfg, s, i, clk)
      case ServeFromCache => AddTask(s1, i, inFace, Done(hit))
      case ServeStaleRevalidate(face) =>
        ScheduleRefresh(AddTask(s1, i, inFace, Done(hit)), i, inFace, face, refreshNonce)
      case SuppressAggregate =>
        AddTask(AddFuture(s1, i.name), i, inFace, Joined(|s.futures|))
      case ForwardTo(face) =>
        var faces := Candidates(Lookup(s.routes, i.name), face, s.failures, cfg.tuning, clk.mono);
        StartForward(cfg, AddTask(s1, i, inFace, Scheduled(face)), |s.tasks|, faces, clk.mono)
      case DropNoRoute => AddTask(s1, i, inFace, Done(None))
  }

  /** The loop starts a scheduled refresh. */
  function StartRefresh(cfg: Config, s: State, t: nat, mono: nat): State
    requires t < |s.tasks| && s.tasks[t].phase.Scheduled?
  {
    StartForward(cfg, s, t, [s.tasks[t].phase.face], mono)
  }

  /** `send_raw` is over: only now does the forward register its notifier. */
  function Register(s: State, t: nat): State
    requires t < |s.tasks| && s.tasks[t].phase.Sending?
  {
    var p := s.tasks[t].phase;
    SetPhase(AddFuture(s, s.tasks[t].Key()), t, Waiting(p.face, p.rest, |s.futures|))
  }

  /** A lifetime elapses: the future is cancelled where it is listed. */
  function Timeout(s: State, f: nat): State
    requires f < |s.futures| && s.futures[f].outcome == Pending
  {
    s.(futures := s.futures[f := s.futures[f].(outcome := TimedOut)])
  }

  predicate Resumable(s: State, t: nat) {
    && t < |s.tasks|
    && (s.tasks[t].phase.Waiting? || s.tasks[t].phase.Joined?)
    && s.tasks[t].phase.fut < |s.futures|
    && s.futures[s.tasks[t].phase.fut].outcome != Pending
  }

  /** What a resumed task finds: its future's outcome, unless the end of its lifetime was noticed in the
      same turn of the loop and overtook it, as newer interpreters allow. */
  function Found(s: State, t: nat, overtaken: bool): Outcome
    requires Resumable(s, t)
  {
    if overtaken then TimedOut else s.futures[s.tasks[t].phase.fut].outcome
  }

  /** A task whose future is done runs on: an answer ends it, anything else fails over. */
  function Resume(cfg: Config, s: State, t: nat, overtaken: bool, mono: nat): State
    requires Resumable(s, t)
  {
    var task := s.tasks[t];
    var outcome := Found(s, t, overtaken);
    if task.phase.Joined? then Finish(s, t, if outcome.Answered? then Some(outcome.data) else None)
    else if outcome.Answered? then
      Finish(s.(failures := AfterSuccess(s.failures, task.phase.face), pit := Drop(s.pit, task.Key())), t,
        Some(outcome.data))
    else
      TryFaces(cfg, s.(failures := AfterFailure(s.failures, task.phase.face, mono), pit := Drop(s.pit, task.Key())),
               t, task.phase.rest, mono)
  }

  /** The nearest pending ancestor that accepts longer names, searching from `i` components. */
  function Ancestor(entries: map<Name, PitEntry>, n: Name, i: nat): Option<Name>
    requires i <= n.Len()
  {
    if i == 0 then None
    else if n.Prefix(i) in entries && entries[n.Prefix(i)].interest.canBePrefix then Some(n.Prefix(i))
    else Ancestor(entries, n, i - 1)
  }

  /** The PIT entry a Data name satisfies: its own, or the nearest ancestor's. */
  function Matched(entries: map<Name, PitEntry>, n: Name): Option<Name> {
    if n in entries then Some(n) else Ancestor(entries, n, n.Len() - 1)
  }

  /** Rebuilding an ancestor's name raises for an address of the wrong size. */
  predicate AncestorRaises(s: State, d: Data) {
    d.name.Unpinned() !in s.pit.entries && d.name.path != [] && |d.name.addr| != ADDRESS_BYTES
  }

  /** Data arrives.  Where storing it raises, the entry it satisfied is left behind. */
  function ReceiveData(cfg: Config, s: State, d: Data, unsolicited: bool, wall: nat): State {
    var key := d.name.Unpinned();
    if AncestorRaises(s, d) then s
    else
      var matched := Matched(s.pit.entries, key);
      var s1 := if matched.None? then s
                else Notify(s.(pit := Satisfy(s.pit, matched.value)), matched.value, Answered(d));
      if matched.None? && !unsolicited then s1.(pit := Drop(s1.pit, key))
      else if !Store.Storable(d) then s1
      else
        s1.(rows := Store.Inserted(cfg.store, s.rows, d.name, d, wall),
            pit := Drop(s1.pit, if matched.Some? then matched.value else key))
  }

  function ReceiveNack(s: State, n: Name): State {
    Notify(s, n.Unpinned(), Nacked)
  }

  function AddFace(s: State, f: FaceId): State { s.(faces := s.faces + {f}) }

  function DropFaceOnly(s: State, f: FaceId): State { s.(faces := s.faces - {f}) }

  function AddRoute(s: State, prefix: Name, f: FaceId, cost: int): State {
    s.(routes := WithRoute(s.routes, prefix, f, cost))
  }

  function WithdrawFace(s: State, f: FaceId): State {
    s.(routes := WithoutFace(s.routes, f, None), faces := s.faces - {f})
  }

  function PurgePit(s: State, mono: nat): State {
    s.(pit := Purge(s.pit, mono), nonces := SweepNonces(s.nonces, mono))
  }

  // ----- runs -----

  datatype Event =
    | ExpressEvent(interest: Interest, inFace: FaceId, refreshNonce: bytes)
    | StartRefreshEvent(task: nat)
    | RegisterEvent(task: nat)
    | ResumeEvent(task: nat, overtaken: bool)
    | TimeoutEvent(fut: nat)
    | DataEvent(data: Data, unsolicited: bool)
    | NackEvent(name: Name)
    | AddFaceEvent(face: FaceId)
    | UnregisterEvent(face: FaceId)
    | WithdrawEvent(face: FaceId)
    | RouteEvent(prefix: Name, face: FaceId, cost: int)
    | PurgeEvent
    | InvalidateEvent(name: Name, isPrefix: bool)

  /** The store is also purged by invalidations, whatever the forwarder is doing. */
  function InvalidateRows(rows: Store.Rows, n: Name, isPrefix: bool): Store.Rows {
    Store.Without(rows, if isPrefix then set r | r in rows && n.pin == None && r.name.StartsWith(n) :: r.name else {n})
  }

  predicate Enabled(s: State, e: Event) {
    match e
    case StartRefreshEvent(t) => t < |s.tasks| && s.tasks[t].phase.Scheduled?
    case RegisterEvent(t) => t < |s.tasks| && s.tasks[t].phase.Sending?
    case ResumeEvent(t, _) => Resumable(s, t)
    case TimeoutEvent(f) => f < |s.futures| && s.futures[f].outcome == Pending
    case _ => true
  }

  function Step(cfg: Config, s: State, e: Event, clk: Clock): State
    requires cfg.Valid() && Enabled(s, e)
  {
    match e
    case ExpressEvent(i, inFace, nonce) => Express(cfg, s, i, inFace, clk, nonce)
    case StartRefreshEvent(t) => StartRefresh(cfg, s, t, clk.mono)
    case RegisterEvent(t) => Register(s, t)
    case ResumeEvent(t, overtaken) => Resume(cfg, s, t, overtaken, clk.mono)
    case TimeoutEvent(f) => Timeout(s, f)
    case DataEvent(d, unsolicited) => ReceiveData(cfg, s, d, unsolicited, clk.wall)
    case NackEvent(n) => ReceiveNack(s, n)
    case AddFaceEvent(f) => AddFace(s, f)
    case UnregisterEvent(f) => DropFaceOnly(s, f)
    case WithdrawEvent(f) => WithdrawFace(s, f)
    case RouteEvent(p, f, cost) => AddRoute(s, p, f, cost)
    case PurgeEvent => PurgePit(s, clk.mono)
    case InvalidateEvent(n, isPrefix) => s.(rows := InvalidateRows(s.rows, n, isPrefix))
  }

  /** Steps that run no task leave tasks and transmissions alone. */
  lemma OtherStepsKeepTasks(cfg: Config, s: State, e: Event, clk: Clock)
    requires cfg.Valid() && Enabled(s, e)
    requires !e.ExpressEvent? && !e.StartRefreshEvent? && !e.RegisterEvent? && !e.ResumeEvent?
    ensures Step(cfg, s, e, clk).tasks == s.tasks && Step(cfg, s, e, clk).sent == s.sent
  {
    hide Express, StartForward, TryFaces, Matched, Drop, Satisfy, Purge, SweepNonces, WithRoute, WithoutFace;
  }

  /** A run: the states passed through and the events, with their clock readings, between them. */
  ghost predicate IsRun(cfg: Config, states: seq<State>, events: seq<(Event, Clock)>)
    requires cfg.Valid()
  {
    && |states| == |events| + 1
    && forall k :: 0 <= k < |events| ==>
         Enabled(states[k], events[k].0) && states[k + 1] == Step(cfg, states[k], events[k].0, events[k].1)
  }
}
