/** What a client accepts over a whole run of fetches, latest-version fetches and pushes, in any order
    (rns_icn/client.py): its watermarks are those of the run of accepted Data. */
module ClientRuns {
  import opened Base
  import opened Names
  import opened Packets
  import opened Signing
  import opened Client
  import Access

  type Capabilities = map<bytes, seq<Capability>>

  /** One call of the client, with the capabilities and subscriptions it has at the time. */
  datatype Op =
    | Fetch(caps: Capabilities, name: Name, attempts: seq<Attempt>, require: bool, raiseOnFailure: bool, now: nat)
    | Latest(caps: Capabilities, prefix: Name, pointerAttempts: seq<Attempt>, targetAttempts: Name -> seq<Attempt>,
             fallbackAttempts: seq<Attempt>, now: nat)
    | Push(subs: seq<Name>, data: Data)

  /** What the methods of the client promise of their call. */
  ghost predicate IsOp(s: Settings, before: Watermarks, op: Op, after: Watermarks) {
    match op
    case Fetch(caps, name, attempts, require, raiseOnFailure, now) =>
      exists r :: IsOutcome(s, caps, before, name, attempts, require, raiseOnFailure, now, r, after)
    case Latest(caps, prefix, pointerAttempts, targetAttempts, fallbackAttempts, now) =>
      exists r, target ::
        IsLatest(s, caps, before, prefix, pointerAttempts, targetAttempts, fallbackAttempts, now, r, target, after)
    case Push(subs, d) => IsPush(s, subs, before, d, after)
  }

  // ----- what a call accepts -----

  function FirstOf(s: Settings, marks: Watermarks, name: Name, attempts: seq<Attempt>, require: bool): seq<Data> {
    var k := FirstAcceptable(s, marks, name, attempts, require);
    if k < |attempts| then [attempts[k].data] else []
  }

  function MarkAll(s: Settings, marks: Watermarks, ds: seq<Data>): Watermarks {
    if ds == [] then marks else Marked(s, MarkAll(s, marks, ds[..|ds| - 1]), ds[|ds| - 1])
  }

  /** The name an accepted pointer leads to. */
  function Followed(s: Settings, caps: Capabilities, prefix: Name, pointer: seq<Data>, now: nat): Option<Name> {
    if pointer == [] then None
    else TargetUnder(prefix, Decrypted(s, CapsIn(caps, pointer[0].name), pointer[0], now))
  }

  /** The Data a call accepts, in order: the pointer of a latest-version fetch counts too. */
  function AcceptedBy(s: Settings, marks: Watermarks, op: Op): seq<Data> {
    match op
    case Fetch(caps, name, attempts, require, raiseOnFailure, now) => FirstOf(s, marks, name, attempts, require)
    case Latest(caps, prefix, pointerAttempts, targetAttempts, fallbackAttempts, now) =>
      var metaName := Access.MetaName(prefix);
      if metaName.Err? then []
      else
        var pointer := FirstOf(s, marks, metaName.value, pointerAttempts, true);
        var middle := MarkAll(s, marks, pointer);
        var target := Followed(s, caps, prefix, pointer, now);
        pointer
        + if target.Some? then FirstOf(s, middle, target.value, targetAttempts(target.value), s.requireSignature)
          else FirstOf(s, middle, prefix, fallbackAttempts, s.requireSignature)
    case Push(subs, d) => if Passes(s, marks, d) && Wanted(subs, d) then [d] else []
  }

  /** None of them rolls its name back, given those before it. */
  ghost predicate Accepts(s: Settings, marks: Watermarks, ds: seq<Data>) {
    forall i :: 0 <= i < |ds| ==> !RollsBack(s, MarkAll(s, marks, ds[..i]), ds[i])
  }

  lemma OutcomeAccepts(s: Settings, caps: Capabilities, before: Watermarks, name: Name, attempts: seq<Attempt>,
      require: bool, raiseOnFailure: bool, now: nat, r: Fetched, after: Watermarks)
    requires IsOutcome(s, caps, before, name, attempts, require, raiseOnFailure, now, r, after)
    ensures var ds := FirstOf(s, before, name, attempts, require);
      && Accepts(s, before, ds) && after == MarkAll(s, before, ds)
      && (r.Accepted? <==> ds != [])
      && (r.Accepted? ==> r.data == Decrypted(s, CapsIn(caps, ds[0].name), ds[0], now))
  {
    hide Marked, Decrypted, RollsBack, ContentOk, SignatureAccepted, FirstAcceptable;
    var ds := FirstOf(s, before, name, attempts, require);
    if ds != [] {
      assert ds[..0] == [] && ds[..|ds| - 1] == [];
    }
  }

  lemma AcceptsJoin(s: Settings, marks: Watermarks, a: seq<Data>, b: seq<Data>)
    requires Accepts(s, marks, a) && Accepts(s, MarkAll(s, marks, a), b)
    ensures Accepts(s, marks, a + b) && MarkAll(s, marks, a + b) == MarkAll(s, MarkAll(s, marks, a), b)
  {
    hide RollsBack, MarkAll;
    MarkAllJoin(s, marks, a, b);
    forall i | 0 <= i < |a + b| ensures !RollsBack(s, MarkAll(s, marks, (a + b)[..i]), (a + b)[i]) {
      if i < |a| {
        assert (a + b)[..i] == a[..i] && (a + b)[i] == a[i];
      } else {
        assert (a + b)[i] == b[i - |a|];
        assert (a + b)[..i] == a + b[..i - |a|];
        MarkAllJoin(s, marks, a, b[..i - |a|]);
      }
    }
  }

  lemma {:induction false} MarkAllJoin(s: Settings, marks: Watermarks, a: seq<Data>, b: seq<Data>)
    ensures MarkAll(s, marks, a + b) == MarkAll(s, MarkAll(s, marks, a), b)
  {
    if b == [] {
      assert a + b == a;
    } else {
      MarkAllJoin(s, marks, a, b[..|b| - 1]);
      assert (a + b)[..|a + b| - 1] == a + b[..|b| - 1];
    }
  }

  /** Every call raises the watermarks by exactly what it accepts. */
  lemma OpAccepts(s: Settings, before: Watermarks, op: Op, after: Watermarks)
    requires IsOp(s, before, op, after)
    ensures Accepts(s, before, AcceptedBy(s, before, op)) && after == MarkAll(s, before, AcceptedBy(s, before, op))
  {
    hide IsOutcome, FirstOf, Marked, Decrypted, TargetUnder, Accepts;
    match op
    case Fetch(caps, name, attempts, require, raiseOnFailure, now) =>
      var r :| IsOutcome(s, caps, before, name, attempts, require, raiseOnFailure, now, r, after);
      OutcomeAccepts(s, caps, before, name, attempts, require, raiseOnFailure, now, r, after);
    case Latest(caps, prefix, pointerAttempts, targetAttempts, fallbackAttempts, now) =>
      LatestAccepts(s, before, op, after);
    case Push(subs, d) => PushAccepts(s, before, op, after);
  }

  lemma PushAccepts(s: Settings, before: Watermarks, op: Op, after: Watermarks)
    requires op.Push? && IsOp(s, before, op, after)
    ensures Accepts(s, before, AcceptedBy(s, before, op)) && after == MarkAll(s, before, AcceptedBy(s, before, op))
  {
    hide RollsBack, Marked, Wanted;
    assert [op.data][..0] == [];
  }

  lemma NothingAccepted(s: Settings, marks: Watermarks)
    ensures Accepts(s, marks, []) && MarkAll(s, marks, []) == marks
  {
  }

  lemma LatestAccepts(s: Settings, before: Watermarks, op: Op, after: Watermarks)
    requires op.Latest? && IsOp(s, before, op, after)
    ensures Accepts(s, before, AcceptedBy(s, before, op)) && after == MarkAll(s, before, AcceptedBy(s, before, op))
  {
    hide IsOutcome, FirstOf, MarkAll, Decrypted, TargetUnder, Accepts, Access.MetaName;
    var metaName := Access.MetaName(op.prefix);
    if metaName.Err? {
      NothingAccepted(s, before);
    } else {
      var r, target :|
        IsLatest(s, op.caps, before, op.prefix, op.pointerAttempts, op.targetAttempts, op.fallbackAttempts, op.now,
                 r, target, after);
      var meta, middle :|
        && IsOutcome(s, op.caps, before, metaName.value, op.pointerAttempts, true, false, op.now, meta, middle)
        && target == (if meta.Accepted? then TargetUnder(op.prefix, meta.data) else None)
        && if target.Some? then
             IsOutcome(s, op.caps, middle, target.value, op.targetAttempts(target.value), s.requireSignature, true,
                       op.now, r, after)
           else
             IsOutcome(s, op.caps, middle, op.prefix, op.fallbackAttempts, s.requireSignature, false, op.now, r, after);
      OutcomeAccepts(s, op.caps, before, metaName.value, op.pointerAttempts, true, false, op.now, meta, middle);
      var pointer := FirstOf(s, before, metaName.value, op.pointerAttempts, true);
      assert Followed(s, op.caps, op.prefix, pointer, op.now) == target;
      if target.Some? {
        OutcomeAccepts(s, op.caps, middle, target.value, op.targetAttempts(target.value), s.requireSignature, true,
          op.now, r, after);
        AcceptsJoin(s, before, pointer,
          FirstOf(s, middle, target.value, op.targetAttempts(target.value), s.requireSignature));
      } else {
        OutcomeAccepts(s, op.caps, middle, op.prefix, op.fallbackAttempts, s.requireSignature, false, op.now, r, after);
        AcceptsJoin(s, before, pointer, FirstOf(s, middle, op.prefix, op.fallbackAttempts, s.requireSignature));
      }
    }
  }

  // ----- runs -----

  /** A new client's calls, with its watermarks before and after each. */
  ghost predicate IsRun(s: Settings, marks: seq<Watermarks>, ops: seq<Op>) {
    && |marks| == |ops| + 1 && marks[0] == map[]
    && forall k :: 0 <= k < |ops| ==> IsOp(s, marks[k], ops[k], marks[k + 1])
  }

  /** All that was accepted in the first `n` calls. */
  function AcceptedUpTo(s: Settings, marks: seq<Watermarks>, ops: seq<Op>, n: nat): seq<Data>
    requires |marks| == |ops| + 1 && n <= |ops|
  {
    if n == 0 then [] else AcceptedUpTo(s, marks, ops, n - 1) + AcceptedBy(s, marks[n - 1], ops[n - 1])
  }

  lemma {:induction false} RunAccepts(s: Settings, marks: seq<Watermarks>, ops: seq<Op>, n: nat)
    requires IsRun(s, marks, ops) && n <= |ops|
    ensures Accepts(s, map[], AcceptedUpTo(s, marks, ops, n))
    ensures marks[n] == MarkAll(s, map[], AcceptedUpTo(s, marks, ops, n))
  {
    hide IsOp, AcceptedBy, Accepts;
    if n == 0 {
      NothingAccepted(s, map[]);
    } else {
      RunAccepts(s, marks, ops, n - 1);
      OpAccepts(s, marks[n - 1], ops[n - 1], marks[n]);
      AcceptsJoin(s, map[], AcceptedUpTo(s, marks, ops, n - 1), AcceptedBy(s, marks[n - 1], ops[n - 1]));
    }
  }

  /** Accepted Data raise the watermarks as a run of checked Data does. */
  lemma {:induction false} AcceptedMarks(s: Settings, ds: seq<Data>)
    requires Accepts(s, map[], ds)
    ensures MarkAll(s, map[], ds) == MarksAfter(s, ds)
    ensures forall i :: 0 <= i < |ds| ==> AcceptedAt(s, ds, i)
  {
    hide RollsBack, Marked;
    if ds != [] {
      var init := ds[..|ds| - 1];
      forall i | 0 <= i < |init| ensures !RollsBack(s, MarkAll(s, map[], init[..i]), init[i]) {
        assert init[..i] == ds[..i];
      }
      AcceptedMarks(s, init);
      forall i | 0 <= i < |ds| ensures AcceptedAt(s, ds, i) {
        if i < |init| {
          assert AcceptedAt(s, init, i) && init[..i] == ds[..i];
        } else {
          assert ds[..i] == init;
        }
      }
    }
  }

  /** Whether a call insists on a signature that can be checked. */
  function Requires(s: Settings, op: Op): bool { if op.Fetch? then op.require else s.requireSignature }

  lemma FirstIsAuthentic(s: Settings, marks: Watermarks, name: Name, attempts: seq<Attempt>, require: bool)
    ensures forall d :: d in FirstOf(s, marks, name, attempts, require) ==>
      IsAuthentic(s, d, require) && (name.pin.Some? ==> d.metadata.contentHash == name.pin)
  {
    hide IsAuthentic, Acceptable, IsStale;
    var k := FirstAcceptable(s, marks, name, attempts, require);
    if k < |attempts| {
      AcceptableMeans(s, marks, name, attempts[k].data, require);
    }
  }

  lemma AuthenticAnyway(s: Settings, d: Data, require: bool)
    requires IsAuthentic(s, d, true)
    ensures IsAuthentic(s, d, require)
  {
  }

  lemma OpIsAuthentic(s: Settings, marks: Watermarks, op: Op)
    ensures forall d :: d in AcceptedBy(s, marks, op) ==> IsAuthentic(s, d, Requires(s, op))
  {
    hide IsAuthentic, FirstOf, Access.MetaName, Followed, MarkAll, Passes;
    match op
    case Fetch(caps, name, attempts, require, raiseOnFailure, now) =>
      FirstIsAuthentic(s, marks, name, attempts, require);
    case Push(subs, d) => PassesMeans(s, marks, d);
    case Latest(caps, prefix, pointerAttempts, targetAttempts, fallbackAttempts, now) =>
      var metaName := Access.MetaName(prefix);
      if metaName.Ok? {
        var pointer := FirstOf(s, marks, metaName.value, pointerAttempts, true);
        var middle := MarkAll(s, marks, pointer);
        var target := Followed(s, caps, prefix, pointer, now);
        FirstIsAuthentic(s, marks, metaName.value, pointerAttempts, true);
        forall d | d in pointer ensures IsAuthentic(s, d, s.requireSignature) {
          AuthenticAnyway(s, d, s.requireSignature);
        }
        if target.Some? {
          FirstIsAuthentic(s, middle, target.value, targetAttempts(target.value), s.requireSignature);
        } else {
          FirstIsAuthentic(s, middle, prefix, fallbackAttempts, s.requireSignature);
        }
      }
  }

  /** A latest-version fetch follows only a pointer whose signature was there and checked, whatever the
      policy, and that names a target under the prefix. */
  lemma FollowedIsSigned(s: Settings, marks: Watermarks, op: Op)
    requires op.Latest? && Access.MetaName(op.prefix).Ok?
    ensures var pointer := FirstOf(s, marks, Access.MetaName(op.prefix).value, op.pointerAttempts, true);
      Followed(s, op.caps, op.prefix, pointer, op.now).Some? ==>
        |pointer| == 1 && IsAuthentic(s, pointer[0], true) && AcceptedBy(s, marks, op)[0] == pointer[0]
  {
    hide IsAuthentic;
    FirstIsAuthentic(s, marks, Access.MetaName(op.prefix).value, op.pointerAttempts, true);
  }

  /** Over any run of calls, whatever relays and caches answer or push: everything the client accepts has
      the content its recorded hash says; a signature by a producer whose key is known is good for it; and
      where the call or the policy requires a signature there is one, by such a producer. */
  lemma {:induction false} AcceptedIsAuthentic(s: Settings, marks: seq<Watermarks>, ops: seq<Op>, n: nat)
    requires IsRun(s, marks, ops) && n <= |ops|
    ensures forall d :: d in AcceptedUpTo(s, marks, ops, n) ==> IsAuthentic(s, d, false)
    ensures forall d, k :: 0 <= k < n && d in AcceptedBy(s, marks[k], ops[k]) ==> IsAuthentic(s, d, Requires(s, ops[k]))
  {
    hide IsOp, AcceptedBy, IsAuthentic;
    if n > 0 {
      AcceptedIsAuthentic(s, marks, ops, n - 1);
      OpIsAuthentic(s, marks[n - 1], ops[n - 1]);
      forall d | d in AcceptedBy(s, marks[n - 1], ops[n - 1]) ensures IsAuthentic(s, d, false) {
        AuthenticIsAuthentic(s, d, Requires(s, ops[n - 1]));
      }
    }
  }

  lemma AuthenticIsAuthentic(s: Settings, d: Data, require: bool)
    requires IsAuthentic(s, d, require)
    ensures IsAuthentic(s, d, false)
  {
  }

  /** So what the client accepts from a producer whose key is known, signed, is what that producer signed:
      under a hash without collisions, it is one of the originals in name, content, content hash, sequence,
      signing time and encryption, if it is laid out like all of them and has as many optional fields. */
  lemma AcceptedWasSigned(s: Settings, marks: seq<Watermarks>, ops: seq<Op>, d: Data, originals: set<Data>)
    returns (o: Data)
    requires IsRun(s, marks, ops) && d in AcceptedUpTo(s, marks, ops, |ops|)
    requires d.signature.Some? && s.recall(d.name.addr).Some? && Injective(s.hash)
    requires SignsOnly(s.hash, s.recall(d.name.addr).value, originals)
    ensures o in originals && (SameLayout(d, o) && SameTail(d.metadata, o.metadata) ==> SameSigned(d, o))
  {
    hide IsOp, AcceptedBy, DataPreimage, SameLayout, SameTail, SameSigned;
    AcceptedIsAuthentic(s, marks, ops, |ops|);
    assert IsAuthentic(s, d, false);
    o := ValidMeansOriginal(s.hash, s.recall(d.name.addr).value, originals, d, d.signature.value);
  }

  /** Two versions of the name. */
  predicate TwoVersions(ds: seq<Data>, i: nat, j: nat, n: Name)
    requires i < |ds| && j < |ds|
  {
    ds[i].name == n && ds[j].name == n && HasVersion(ds[i]) && HasVersion(ds[j])
  }

  function VersionOf(d: Data): Key { (OrZero(d.metadata.signedAt), OrZero(d.metadata.sequence)) }

  lemma VersionMeans(d: Data)
    ensures FreshnessKey(d).Some? <==> HasVersion(d)
    ensures HasVersion(d) ==> FreshnessKey(d) == Some(VersionOf(d))
  {
  }

  lemma AtMostMeans(a: Key, d: Data)
    ensures AtMost(a, VersionOf(d)) <==> !IsOlderThan(d, a)
  {
  }

  /** Over any run of calls, with rollback protection on: of two signed versions of one name the client
      accepted, whichever way they came, the later is not older, by signing time and then by sequence; and
      the watermark of a name is that of a version it accepted, and none it accepted is newer; there is no
      watermark if it accepted none. */
  lemma ClientNeverGoesBack(s: Settings, marks: seq<Watermarks>, ops: seq<Op>, n: Name)
    requires s.rejectRollback && IsRun(s, marks, ops)
    ensures var ds := AcceptedUpTo(s, marks, ops, |ops|);
      && (forall i: nat, j: nat :: i < j < |ds| && TwoVersions(ds, i, j, n) ==> !IsOlderThan(ds[j], VersionOf(ds[i])))
      && (n in marks[|ops|] <==> exists i :: 0 <= i < |ds| && ds[i].name == n && HasVersion(ds[i]))
      && (n in marks[|ops|] ==> exists m ::
            && 0 <= m < |ds| && ds[m].name == n && HasVersion(ds[m]) && marks[|ops|][n] == VersionOf(ds[m])
            && forall i :: 0 <= i < |ds| && ds[i].name == n && HasVersion(ds[i])
                ==> !IsOlderThan(ds[m], VersionOf(ds[i])))
  {
    hide IsOp, AcceptedBy, RollsBack, Marked, FreshnessKey, AtMost, Accepts, HasVersion, IsOlderThan;
    var ds := AcceptedUpTo(s, marks, ops, |ops|);
    RunAccepts(s, marks, ops, |ops|);
    AcceptedMarks(s, ds);
    WatermarkIsMaximum(s, ds, n);
    assert forall i: nat :: i < |ds| ==> AcceptedAt(s, ds, i);
    forall i: nat | i < |ds|
      ensures Counts(s, ds, i, n) <==> ds[i].name == n && HasVersion(ds[i])
      ensures HasVersion(ds[i]) ==> FreshnessKey(ds[i]) == Some(VersionOf(ds[i]))
    {
      VersionMeans(ds[i]);
    }
    forall i: nat, j: nat | i < j < |ds| && TwoVersions(ds, i, j, n) ensures !IsOlderThan(ds[j], VersionOf(ds[i])) {
      AcceptedVersionsNeverDecrease(s, ds, i, j);
      AtMostMeans(VersionOf(ds[i]), ds[j]);
    }
    if n in marks[|ops|] {
      var m := LargestAt(s, ds, n, marks[|ops|][n]);
      forall i | 0 <= i < |ds| && ds[i].name == n && HasVersion(ds[i]) ensures !IsOlderThan(ds[m], VersionOf(ds[i])) {
        assert Counts(s, ds, i, n);
        AtMostMeans(VersionOf(ds[i]), ds[m]);
      }
    }
  }
}
