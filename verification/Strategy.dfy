/** The forwarding strategy (rns_icn/strategy.py): what to do with an Interest, and which next
    hops are worth trying. */
module Strategies {
  import opened Base
  import opened Packets
  import opened Fibs
  import opened Pits

  datatype Failure = Failure(last: nat, consecutive: nat)

  type Failures = map<FaceId, Failure>

  datatype Tuning = Tuning(backoffBase: nat, maxBackoff: nat, staleWhileRevalidate: int)

  datatype Decision =
    | ServeFromCache
    | ServeStaleRevalidate(refresh: FaceId)
    | SuppressAggregate
    | ForwardTo(face: FaceId)
    | DropNoRoute

  function Power2(k: nat): nat { if k == 0 then 1 else 2 * Power2(k - 1) }

  function Backoff(t: Tuning, consecutive: nat): nat {
    Min(t.backoffBase * Power2(Min(consecutive, 6)), t.maxBackoff)
  }

  predicate InBackoff(fs: Failures, t: Tuning, f: FaceId, mono: nat) {
    f in fs && mono - fs[f].last < Backoff(t, fs[f].consecutive)
  }

  function AfterFailure(fs: Failures, f: FaceId, mono: nat): Failures {
    fs[f := Failure(mono, (if f in fs then fs[f].consecutive else 0) + 1)]
  }

  function AfterSuccess(fs: Failures, f: FaceId): Failures { fs - {f} }

  function FirstUsable(hops: seq<NextHop>, fs: Failures, t: Tuning, mono: nat): Option<FaceId> {
    if hops == [] then None
    else if !InBackoff(fs, t, hops[0].face, mono) then Some(hops[0].face)
    else FirstUsable(hops[1..], fs, t, mono)
  }

  function UsableFaces(hops: seq<NextHop>, fs: Failures, t: Tuning, mono: nat): (r: seq<FaceId>)
    ensures |r| <= |hops|
  {
    if hops == [] then []
    else if !InBackoff(fs, t, hops[0].face, mono) then [hops[0].face] + UsableFaces(hops[1..], fs, t, mono)
    else UsableFaces(hops[1..], fs, t, mono)
  }

  predicate SequenceSatisfied(i: Interest, d: Data) {
    i.Floor().None? || (d.metadata.sequence.Some? && d.metadata.sequence.value >= i.Floor().value)
  }

  predicate SelectorSatisfied(i: Interest, d: Data) {
    (i.mustBeFresh ==> d.metadata.isFresh) && SequenceSatisfied(i, d)
  }

  predicate WithinStaleWindow(d: Data, t: Tuning) {
    && d.metadata.freshnessPeriod.Some? && t.staleWhileRevalidate > 0
    && d.metadata.age < d.metadata.freshnessPeriod.value + t.staleWhileRevalidate
  }

  function Decide(i: Interest, hops: seq<NextHop>, pending: Option<PitEntry>, hit: Option<Data>, fs: Failures,
      t: Tuning, mono: nat): Decision
  {
    var first := FirstUsable(hops, fs, t, mono);
    if hit.Some? && SelectorSatisfied(i, hit.value) then
      if !hit.value.metadata.isFresh && WithinStaleWindow(hit.value, t) && first.Some?
      then ServeStaleRevalidate(first.value)
      else ServeFromCache
    else if pending.Some? && !pending.value.satisfied then SuppressAggregate
    else if first.Some? then ForwardTo(first.value)
    else DropNoRoute
  }

  /** The usable faces are the hops that are not backed off, each once and cheapest first. */
  lemma {:induction false} UsableIsFilter(hops: seq<NextHop>, fs: Failures, t: Tuning, mono: nat)
    requires DistinctFaces(hops)
    ensures forall f :: f in UsableFaces(hops, fs, t, mono) <==> Uses(hops, f) && !InBackoff(fs, t, f, mono)
    ensures Distinct(UsableFaces(hops, fs, t, mono))
    ensures FirstUsable(hops, fs, t, mono) ==
      var u := UsableFaces(hops, fs, t, mono); if u == [] then None else Some(u[0])
  {
    if hops != [] {
      UsableIsFilter(hops[1..], fs, t, mono);
      assert hops == [hops[0]] + hops[1..];
      assert forall f :: Uses(hops, f) <==> f == hops[0].face || Uses(hops[1..], f) by {
        assert hops[0] in hops;
      }
    }
  }

  lemma {:induction false} UsableIsByCost(hops: seq<NextHop>, fs: Failures, t: Tuning, mono: nat, i: nat, j: nat)
    returns (a: nat, b: nat)
    requires i < j < |UsableFaces(hops, fs, t, mono)|
    ensures a < b < |hops|
    ensures hops[a].face == UsableFaces(hops, fs, t, mono)[i] && hops[b].face == UsableFaces(hops, fs, t, mono)[j]
  {
    var rest := UsableFaces(hops[1..], fs, t, mono);
    if InBackoff(fs, t, hops[0].face, mono) {
      a, b := UsableIsByCost(hops[1..], fs, t, mono, i, j);
      a, b := a + 1, b + 1;
    } else if i > 0 {
      a, b := UsableIsByCost(hops[1..], fs, t, mono, i - 1, j - 1);
      a, b := a + 1, b + 1;
    } else {
      b := UsableAt(hops[1..], fs, t, mono, j - 1);
      a, b := 0, b + 1;
    }
  }

  lemma {:induction false} UsableAt(hops: seq<NextHop>, fs: Failures, t: Tuning, mono: nat, i: nat) returns (a: nat)
    requires i < |UsableFaces(hops, fs, t, mono)|
    ensures a < |hops| && hops[a].face == UsableFaces(hops, fs, t, mono)[i]
  {
    if InBackoff(fs, t, hops[0].face, mono) {
      a := UsableAt(hops[1..], fs, t, mono, i);
      a := a + 1;
    } else if i > 0 {
      a := UsableAt(hops[1..], fs, t, mono, i - 1);
      a := a + 1;
    } else {
      a := 0;
    }
  }

  /** What the forwarder tries after the strategy chose a face: the usable faces in order, or the
      chosen face alone should there be none. */
  function Candidates(hops: seq<NextHop>, primary: FaceId, fs: Failures, t: Tuning, mono: nat): seq<FaceId> {
    var usable := UsableFaces(hops, fs, t, mono);
    if usable != [] then usable else [primary]
  }

  /** `f` stands before `g` in the list and costs no more. */
  ghost predicate Precedes(hops: seq<NextHop>, f: FaceId, g: FaceId) {
    exists a, b :: 0 <= a < b < |hops| && hops[a].face == f && hops[b].face == g && hops[a].cost <= hops[b].cost
  }

  /** Failover refines the strategy: read at the same instant, the candidate list starts with the
      face `decide` chose and continues with every other face of the list that is not backed off,
      each once, in order of cost. */
  lemma CandidatesRefineDecision(i: Interest, hops: seq<NextHop>, pending: Option<PitEntry>, hit: Option<Data>,
      fs: Failures, t: Tuning, mono: nat)
    requires ValidHops(hops)
    requires Decide(i, hops, pending, hit, fs, t, mono).ForwardTo?
    ensures var c := Candidates(hops, Decide(i, hops, pending, hit, fs, t, mono).face, fs, t, mono);
      && c != [] && c[0] == Decide(i, hops, pending, hit, fs, t, mono).face
      && Distinct(c) && |c| <= |hops|
      && (forall f :: f in c <==> Uses(hops, f) && !InBackoff(fs, t, f, mono))
      && (forall x, y :: 0 <= x < y < |c| ==> Precedes(hops, c[x], c[y]))
  {
    UsableIsFilter(hops, fs, t, mono);
    var c := Candidates(hops, Decide(i, hops, pending, hit, fs, t, mono).face, fs, t, mono);
    forall x, y | 0 <= x < y < |c|
      ensures Precedes(hops, c[x], c[y])
    {
      var a, b := UsableIsByCost(hops, fs, t, mono, x, y);
      assert CheaperFirst(hops[a], hops[b]);
    }
  }

  /** As time passes without new failures, backoff only ends: a face usable now stays usable. */
  lemma BackoffOnlyEnds(hops: seq<NextHop>, fs: Failures, t: Tuning, now: nat, later: nat, f: FaceId)
    requires now <= later && DistinctFaces(hops) && f in UsableFaces(hops, fs, t, now)
    ensures f in UsableFaces(hops, fs, t, later)
  {
    UsableIsFilter(hops, fs, t, now);
    UsableIsFilter(hops, fs, t, later);
  }

  class BestRoute {
    const tuning: Tuning
    var failures: Failures

    constructor (tuning: Tuning)
      ensures this.tuning == tuning && failures == map[]
    {
      this.tuning := tuning;
      failures := map[];
    }

    method RecordFailure(f: FaceId, mono: nat)
      modifies this
      ensures failures == AfterFailure(old(failures), f, mono)
      ensures tuning.backoffBase > 0 && tuning.maxBackoff > 0 ==> InBackoff(failures, tuning, f, mono)
    {
      var r := if f in failures then failures[f] else Failure(0, 0);
      failures := failures[f := Failure(mono, r.consecutive + 1)];
      PowerPositive(Min(r.consecutive + 1, 6));
    }

    method RecordSuccess(f: FaceId, mono: nat)
      modifies this
      ensures failures == AfterSuccess(old(failures), f)
      ensures !InBackoff(failures, tuning, f, mono)
    {
      failures := failures - {f};
    }
  }

  lemma PowerPositive(k: nat)
    ensures Power2(k) >= 1
  {
  }
}
