/** Walking a collection's editions in sequence order (rns_icn/client.py:309-350) over a chain of any
    length: the client's own forwarder, any number of caches, and the origin.  What the caches hold
    may differ at every step, and messages may be lost anywhere. */
module SequenceWalk {
  import opened Base
  import opened Names
  import opened Packets
  import opened Strategies
  import opened Client
  import Store
  import Servers
  import Signing
  import Fibs
  import F = Forwarding
  import A = ForwardingAnswers

  // ----- the chain -----

  /** One node: a server answers from its store and then runs its forwarder, the client only the latter. */
  datatype Hop = Hop(cfg: F.Config, own: bytes, sign: Option<Data -> bytes>, rows: Store.Rows, serves: bool)

  /** The chain at the moment of one try, and where on it that try is lost, if it is. */
  datatype World = World(hops: seq<Hop>, origin: Hop, lostAt: Option<nat>, wall: nat)

  function FromStore(h: Hop, i: Interest, wall: nat): Option<Data> {
    Servers.ServeFromCs(h.cfg.store, h.own, h.sign, h.rows, i, wall)
  }

  /** What a node's forwarder serves from cache rather than pass the Interest on. */
  function FromForwarder(h: Hop, i: Interest, wall: nat): Option<Data> {
    var hit := F.CacheHit(h.cfg, h.rows, i, wall);
    if hit.Some? && SelectorSatisfied(i, hit.value) then hit else None
  }

  /** That is what a call of the forwarder returns at once, for an Interest it has not seen. */
  lemma ForwarderReturnsOffer(h: Hop, s: F.State, i: Interest, inFace: Fibs.FaceId, clk: Clock, nonce: bytes, d: Data)
    requires h.cfg.Valid() && s.pit.Valid() && s.rows == h.rows && A.IsNew(s, i, inFace)
    ensures var s' := F.Express(h.cfg, s, i, inFace, clk, nonce);
      && |s'.tasks| > |s.tasks|
      && (s'.tasks[|s.tasks|].phase == F.Done(Some(d)) <==> FromForwarder(h, i, clk.wall) == Some(d))
  {
    hide F.CacheHit, F.Express;
    var hit := F.CacheHit(h.cfg, s.rows, i, clk.wall);
    if hit.Some? {
      A.MeetsIsSatisfied(i, hit.value);
    }
    if A.Held(h.cfg, s, i, clk.wall) {
      A.HeldIsReturned(h.cfg, s, i, inFace, clk, nonce);
    } else if i.name in s.pit.entries && !s.pit.entries[i.name].satisfied {
      A.PendingIsJoined(h.cfg, s, i, inFace, clk, nonce);
    } else {
      A.OthersAreForwarded(h.cfg, s, i, inFace, clk, nonce);
    }
  }

  /** The answer an Interest gets that has reached node `k`; the origin is behind the last hop. */
  function Ask(w: World, i: Interest, k: nat): Option<Data>
    requires k <= |w.hops|
    decreases |w.hops| - k
  {
    if w.lostAt == Some(k) then None
    else if k == |w.hops| then FromStore(w.origin, i, w.wall)
    else
      var served := if w.hops[k].serves then FromStore(w.hops[k], i, w.wall) else None;
      if served.Some? then served
      else
        var hit := FromForwarder(w.hops[k], i, w.wall);
        if hit.Some? then hit else Ask(w, i, k + 1)
  }

  /** How the client sees the outcome of a try. */
  function Heard(w: World, i: Interest): Attempt {
    var d := Ask(w, i, 0);
    if d.Some? then Got(d.value) else if w.lostAt.Some? then Failed else Empty
  }

  // ----- editions and genuine copies -----

  datatype Edition = Edition(
    name: Name, content: bytes, sequence: nat, freshnessPeriod: Option<nat>, signedAt: Option<nat>, encrypted: bool)

  /** The row is a copy of the edition; signing it later adds no more than a time and a signature. */
  predicate IsRowOf(r: Store.Row, e: Edition) {
    && r.name == e.name && r.content == e.content && r.sequence == Some(e.sequence)
    && r.freshnessPeriod == e.freshnessPeriod && r.encrypted == e.encrypted
        && (e.signedAt.Some? ==> r.signedAt == e.signedAt)
  }

  predicate IsCopyOf(d: Data, e: Edition) {
    && d.name == e.name && d.content == e.content && d.metadata.sequence == Some(e.sequence)
    && d.metadata.freshnessPeriod == e.freshnessPeriod && d.metadata.encrypted == e.encrypted
    && (e.signedAt.Some? ==> d.metadata.signedAt == e.signedAt)
  }

  /** Every sequenced row a node could answer with is a genuine copy. */
  ghost predicate HoldsCopies(h: Hop, prefix: Name, es: set<Edition>, wall: nat) {
    && Store.DistinctNames(h.rows)
    && forall r :: Store.Eligible(h.cfg.store, h.rows, r, prefix, Oldest, None, wall) ==>
        exists e :: e in es && IsRowOf(r, e)
  }

  /** The origin has every edition, live and valid. */
  ghost predicate HoldsAll(h: Hop, prefix: Name, es: set<Edition>, wall: nat) {
    forall e :: e in es ==>
      exists r :: Store.Eligible(h.cfg.store, h.rows, r, prefix, Oldest, None, wall) && IsRowOf(r, e)
  }

  /** Caches are not the producer and hold genuine copies, whichever they hold; the origin is, and holds
      them all. */
  ghost predicate Genuine(w: World, prefix: Name, es: set<Edition>) {
    && (forall k :: 0 <= k < |w.hops| ==> w.hops[k].own != prefix.addr && HoldsCopies(w.hops[k], prefix, es, w.wall))
    && w.origin.own == prefix.addr && HoldsCopies(w.origin, prefix, es, w.wall)
        && HoldsAll(w.origin, prefix, es, w.wall)
  }

  predicate AsksFor(i: Interest, prefix: Name, floor: nat) {
    i.name == prefix && i.canBePrefix && !i.mustBeFresh && i.selector == Some(Selector(Some(floor), Oldest))
  }

  /** The first edition at or above the floor. */
  ghost predicate IsNext(es: set<Edition>, floor: nat, e: Edition) {
    e in es && floor <= e.sequence && forall x :: x in es && floor <= x.sequence ==> e.sequence <= x.sequence
  }

  ghost predicate AnswersNext(es: set<Edition>, floor: nat, d: Data) {
    exists e :: IsNext(es, floor, e) && IsCopyOf(d, e)
  }

  // ----- each node answers with the next edition or not at all -----

  /** What a prefix lookup with a floor returns is a copy of an edition at or above it. */
  lemma LookupIsCopy(h: Hop, prefix: Name, es: set<Edition>, floor: nat, wall: nat) returns (e: Edition)
    requires HoldsCopies(h, prefix, es, wall)
    requires Store.GetPrefix(h.cfg.store, h.rows, prefix, Oldest, Some(floor), wall).Some?
    ensures var d := Store.GetPrefix(h.cfg.store, h.rows, prefix, Oldest, Some(floor), wall).value;
      e in es && IsCopyOf(d, e) && floor <= e.sequence
      && forall r :: Store.Eligible(h.cfg.store, h.rows, r, prefix, Oldest, Some(floor), wall) ==>
          e.sequence <= r.sequence.value
  {
    Store.GetPrefixIsExact(h.cfg.store, h.rows, prefix, Oldest, Some(floor), wall);
    var d := Store.GetPrefix(h.cfg.store, h.rows, prefix, Oldest, Some(floor), wall).value;
    var best :| Store.IsBest(h.cfg.store, h.rows, best, prefix, Oldest, Some(floor), wall)
      && Store.IsCopyOfRow(d, best, wall);
    assert Store.Eligible(h.cfg.store, h.rows, best, prefix, Oldest, None, wall);
    e :| e in es && IsRowOf(best, e);
  }

  lemma CacheAnswersNext(h: Hop, i: Interest, prefix: Name, es: set<Edition>, floor: nat, wall: nat)
    requires HoldsCopies(h, prefix, es, wall) && h.own != prefix.addr && AsksFor(i, prefix, floor)
    ensures FromStore(h, i, wall).Some? ==> AnswersNext(es, floor, FromStore(h, i, wall).value)
    ensures FromForwarder(h, i, wall).Some? ==> AnswersNext(es, floor, FromForwarder(h, i, wall).value)
  {
    hide Store.GetPrefix, Store.Eligible, HoldsCopies;
    if Store.GetPrefix(h.cfg.store, h.rows, prefix, Oldest, Some(floor), wall).Some? {
      var e := LookupIsCopy(h, prefix, es, floor, wall);
      var d := Store.GetPrefix(h.cfg.store, h.rows, prefix, Oldest, Some(floor), wall).value;
      if d.metadata.sequence == Some(floor) {
        assert IsNext(es, floor, e);
      }
    }
  }

  /** The origin answers exactly when there is an edition to answer with. */
  lemma OriginAnswersNext(h: Hop, i: Interest, prefix: Name, es: set<Edition>, floor: nat, wall: nat)
    requires HoldsCopies(h, prefix, es, wall) && HoldsAll(h, prefix, es, wall) && h.own == prefix.addr
    requires AsksFor(i, prefix, floor)
    ensures FromStore(h, i, wall).Some? ==> AnswersNext(es, floor, FromStore(h, i, wall).value)
    ensures FromStore(h, i, wall).Some? <==> exists e :: e in es && floor <= e.sequence
  {
    hide Store.GetPrefix, HoldsCopies;
    var hit := Store.GetPrefix(h.cfg.store, h.rows, prefix, Oldest, Some(floor), wall);
    if hit.Some? {
      var e := LookupIsCopy(h, prefix, es, floor, wall);
      forall x | x in es && floor <= x.sequence ensures e.sequence <= x.sequence {
        var r :| Store.Eligible(h.cfg.store, h.rows, r, prefix, Oldest, None, wall) && IsRowOf(r, x);
        assert Store.Eligible(h.cfg.store, h.rows, r, prefix, Oldest, Some(floor), wall);
      }
      assert IsNext(es, floor, e);
    } else {
      NothingToFind(h, prefix, es, floor, wall);
    }
  }

  lemma NothingToFind(h: Hop, prefix: Name, es: set<Edition>, floor: nat, wall: nat)
    requires HoldsCopies(h, prefix, es, wall) && HoldsAll(h, prefix, es, wall)
    requires Store.GetPrefix(h.cfg.store, h.rows, prefix, Oldest, Some(floor), wall).None?
    ensures forall e :: e in es ==> e.sequence < floor
  {
    hide Store.Eligible, Store.GetPrefix;
    NoneEligible(h, prefix, floor, wall);
    forall e | e in es ensures e.sequence < floor {
      var r :| Store.Eligible(h.cfg.store, h.rows, r, prefix, Oldest, None, wall) && IsRowOf(r, e);
      BelowFloor(h, r, e, prefix, floor, wall);
    }
  }

  lemma NoneEligible(h: Hop, prefix: Name, floor: nat, wall: nat)
    requires Store.DistinctNames(h.rows)
    requires Store.GetPrefix(h.cfg.store, h.rows, prefix, Oldest, Some(floor), wall).None?
    ensures forall r :: r in h.rows ==> !Store.Eligible(h.cfg.store, h.rows, r, prefix, Oldest, Some(floor), wall)
  {
    hide Store.Eligible;
    Store.GetPrefixIsExact(h.cfg.store, h.rows, prefix, Oldest, Some(floor), wall);
  }

  lemma BelowFloor(h: Hop, r: Store.Row, e: Edition, prefix: Name, floor: nat, wall: nat)
    requires Store.Eligible(h.cfg.store, h.rows, r, prefix, Oldest, None, wall) && IsRowOf(r, e)
    requires forall x :: x in h.rows ==> !Store.Eligible(h.cfg.store, h.rows, x, prefix, Oldest, Some(floor), wall)
    ensures e.sequence < floor
  {
    assert !Store.Eligible(h.cfg.store, h.rows, r, prefix, Oldest, Some(floor), wall);
  }

  /** Over a chain of any length, an answer is the next edition; and unless the try is lost there is
      an answer exactly when there is a next edition. */
  lemma {:induction false} ChainAnswersNext(w: World, i: Interest, prefix: Name, es: set<Edition>, floor: nat, k: nat)
    requires Genuine(w, prefix, es) && AsksFor(i, prefix, floor) && k <= |w.hops|
    ensures Ask(w, i, k).Some? ==> AnswersNext(es, floor, Ask(w, i, k).value)
    ensures w.lostAt == None ==> (Ask(w, i, k).Some? <==> exists e :: e in es && floor <= e.sequence)
    decreases |w.hops| - k
  {
    hide FromStore, FromForwarder, HoldsCopies, HoldsAll, AsksFor;
    if k < |w.hops| {
      CacheAnswersNext(w.hops[k], i, prefix, es, floor, w.wall);
      ChainAnswersNext(w, i, prefix, es, floor, k + 1);
    } else {
      OriginAnswersNext(w.origin, i, prefix, es, floor, w.wall);
    }
  }

  // ----- the walk -----

  ghost function Above(ns: set<nat>, floor: nat): set<nat> { set n | n in ns && n >= floor }

  ghost predicate IsLeast(ns: set<nat>, m: nat) {
    m in ns && forall n :: n in ns ==> m <= n
  }

  lemma {:induction false} LeastExists(ns: set<nat>)
    requires ns != {}
    ensures exists m :: IsLeast(ns, m)
    decreases |ns|
  {
    var x :| x in ns;
    var rest := ns - {x};
    if rest == {} {
      forall n | n in ns ensures n == x {
        assert n !in rest;
      }
      assert IsLeast(ns, x);
    } else {
      LeastExists(rest);
      var m :| IsLeast(rest, m);
      var least := if x < m then x else m;
      forall n | n in ns ensures least <= n {
        assert n == x || n in rest;
      }
      assert IsLeast(ns, least);
    }
  }

  /** The numbers at or above the floor, in order. */
  ghost function Ascending(ns: set<nat>, floor: nat): seq<nat>
    decreases |Above(ns, floor)|
  {
    var above := Above(ns, floor);
    if above == {} then []
    else
      LeastExists(above);
      var m :| IsLeast(above, m);
      Fewer(ns, floor, m);
      [m] + Ascending(ns, m + 1)
  }

  lemma Fewer(ns: set<nat>, floor: nat, m: nat)
    requires m in ns && floor <= m
    ensures |Above(ns, m + 1)| < |Above(ns, floor)|
  {
    assert Above(ns, m + 1) <= Above(ns, floor) - {m};
    SubsetSize(Above(ns, m + 1), Above(ns, floor) - {m});
  }

  /** `Ascending` is what it says: strictly increasing, and exactly the numbers at or above the floor. */
  lemma {:induction false} AscendingIsSorted(ns: set<nat>, floor: nat)
    ensures forall n :: n in Ascending(ns, floor) <==> n in ns && n >= floor
    ensures forall a, b :: 0 <= a < b < |Ascending(ns, floor)| ==> Ascending(ns, floor)[a] < Ascending(ns, floor)[b]
    decreases |Above(ns, floor)|
  {
    var l := Ascending(ns, floor);
    if l != [] {
      var m := l[0];
      assert m in Above(ns, floor);
      Fewer(ns, floor, m);
      AscendingIsSorted(ns, m + 1);
      assert l == [m] + Ascending(ns, m + 1);
      forall n | n in ns && n >= floor ensures n in l {
        assert n in Above(ns, floor);
      }
      forall b | 0 < b < |l| ensures m < l[b] {
        assert l[b] in Ascending(ns, m + 1);
      }
    } else {
      assert forall n :: n in ns && n >= floor ==> n in Above(ns, floor);
    }
  }

  lemma NextIsHead(ns: set<nat>, floor: nat, m: nat)
    requires m in ns && floor <= m && forall n :: n in ns && n >= floor ==> m <= n
    ensures Ascending(ns, floor) == [m] + Ascending(ns, m + 1)
  {
    assert IsLeast(Above(ns, floor), m);
  }

  ghost function Sequences(es: set<Edition>): set<nat> { set e | e in es :: e.sequence }

  function SequencesOf(ds: seq<Data>): seq<nat>
    requires forall d :: d in ds ==> d.metadata.sequence.Some?
  {
    seq(|ds|, k requires 0 <= k < |ds| => ds[k].metadata.sequence.value)
  }

  /** The walk's Interests differ only in nonce and lifetime. */
  function WalkInterest(prefix: Name, floor: nat, nonce: bytes, lifetime: nat): Interest {
    Interest(prefix, nonce, lifetime, true, false, Some(Selector(Some(floor), Oldest)), 16)
  }

  function Tries(worlds: seq<World>, i: Interest): (r: seq<Attempt>)
    ensures |r| == |worlds|
  {
    seq(|worlds|, k requires 0 <= k < |worlds| => Heard(worlds[k], i))
  }

  /** An accepted answer to one step of the walk is a copy of the next edition, perhaps decrypted. */
  ghost predicate IsYieldOf(s: Settings, caps: map<bytes, seq<Signing.Capability>>, now: nat, d: Data, e: Edition) {
    exists raw ::
      IsCopyOf(raw, e) && d == Decrypted(s, if raw.name.addr in caps then caps[raw.name.addr] else [], raw, now)
  }

  lemma StepIsNext(client: ICNClient, prefix: Name, es: set<Edition>, floor: nat, worlds: seq<World>, i: Interest,
      k: nat, now: nat)
    returns (e: Edition)
    requires AsksFor(i, prefix, floor) && k < |worlds| && Genuine(worlds[k], prefix, es) && Tries(worlds, i)[k].Got?
    ensures var raw := Tries(worlds, i)[k].data; var d := Decrypted(client.s, client.CapsFor(raw.name), raw, now);
      && IsNext(es, floor, e) && d.metadata.sequence == Some(e.sequence) && d.name == e.name
      && IsYieldOf(client.s, client.capabilities, now, d, e)
  {
    hide Decrypted, Ask, Genuine, AsksFor;
    ChainAnswersNext(worlds[k], i, prefix, es, floor, 0);
    var raw := Tries(worlds, i)[k].data;
    e :| IsNext(es, floor, e) && IsCopyOf(raw, e);
    DecryptionKeepsVersion(client.s, client.CapsFor(raw.name), raw, now);
  }

  lemma DecryptionKeepsVersion(s: Settings, caps: seq<Signing.Capability>, d: Data, now: nat)
    ensures Decrypted(s, caps, d, now).name == d.name
    ensures Decrypted(s, caps, d, now).metadata.sequence == d.metadata.sequence
  {
  }

  /** The floor the walk goes on at. */
  function NextFloor(start: nat, yielded: seq<Data>): nat
    requires forall d :: d in yielded ==> d.metadata.sequence.Some?
  {
    if yielded == [] then start else yielded[|yielded| - 1].metadata.sequence.value + 1
  }

  /** Where a walk stands that has yielded `yielded` and goes on at `minSeq`. */
  ghost predicate Walked(s: Settings, caps: map<bytes, seq<Signing.Capability>>, now: nat, es: set<Edition>,
      start: nat, minSeq: nat, yielded: seq<Data>) {
    && (forall d :: d in yielded ==> d.metadata.sequence.Some?)
    && minSeq == NextFloor(start, yielded)
    && SequencesOf(yielded) + Ascending(Sequences(es), minSeq) == Ascending(Sequences(es), start)
    && (forall d :: d in yielded ==> exists e :: e in es && IsYieldOf(s, caps, now, d, e))
  }

  lemma WalkedOn(s: Settings, caps: map<bytes, seq<Signing.Capability>>, now: nat, es: set<Edition>, start: nat,
      minSeq: nat, yielded: seq<Data>, d: Data, e: Edition)
    requires Walked(s, caps, now, es, start, minSeq, yielded)
    requires IsNext(es, minSeq, e) && d.metadata.sequence == Some(e.sequence) && IsYieldOf(s, caps, now, d, e)
    ensures Walked(s, caps, now, es, start, e.sequence + 1, yielded + [d])
    ensures |Above(Sequences(es), e.sequence + 1)| < |Above(Sequences(es), minSeq)|
  {
    hide IsYieldOf, Above;
    assert e.sequence in Sequences(es);
    NextIsHead(Sequences(es), minSeq, e.sequence);
    Fewer(Sequences(es), minSeq, e.sequence);
    assert SequencesOf(yielded + [d]) == SequencesOf(yielded) + [e.sequence];
  }

  lemma WalkedMeans(s: Settings, caps: map<bytes, seq<Signing.Capability>>, now: nat, es: set<Edition>, start: nat,
      minSeq: nat, yielded: seq<Data>)
    requires Walked(s, caps, now, es, start, minSeq, yielded)
    ensures (forall d :: d in yielded ==> d.metadata.sequence.Some?) && minSeq == NextFloor(start, yielded)
    ensures SequencesOf(yielded) <= Ascending(Sequences(es), start)
    ensures Ascending(Sequences(es), minSeq) == [] ==> SequencesOf(yielded) == Ascending(Sequences(es), start)
    ensures forall d :: d in yielded ==> exists e :: e in es && IsYieldOf(s, caps, now, d, e)
  {
    hide IsYieldOf, Above, Ascending;
  }

  /** Every try got no answer on a chain that lost it, or an answer that was refused. */
  ghost predicate EveryTryFailed(s: Settings, marks: Watermarks, prefix: Name, worlds: seq<World>, i: Interest) {
    forall j :: 0 <= j < |worlds| ==> TryFailed(s, marks, prefix, worlds[j], i)
  }

  predicate TryFailed(s: Settings, marks: Watermarks, prefix: Name, w: World, i: Interest) {
    if Ask(w, i, 0).Some? then !Acceptable(s, marks, prefix, Ask(w, i, 0).value, s.requireSignature) else w.lostAt.Some?
  }

  /** A step without an accepted answer is the end of the list, or all its tries failed. */
  lemma StopsOnlyThen(s: Settings, marks: Watermarks, prefix: Name, es: set<Edition>, floor: nat, worlds: seq<World>,
      i: Interest)
    requires AsksFor(i, prefix, floor) && forall j :: 0 <= j < |worlds| ==> Genuine(worlds[j], prefix, es)
    requires FirstAcceptable(s, marks, prefix, Tries(worlds, i), s.requireSignature) == |worlds|
    ensures Ascending(Sequences(es), floor) == [] || EveryTryFailed(s, marks, prefix, worlds, i)
  {
    hide Acceptable, Ask, Genuine, AsksFor, FirstAcceptable;
    if Ascending(Sequences(es), floor) != [] {
      var n := Ascending(Sequences(es), floor)[0];
      AscendingIsSorted(Sequences(es), floor);
      assert n in Sequences(es) && n >= floor;
      var e :| e in es && e.sequence == n;
      forall j | 0 <= j < |worlds| ensures TryFailed(s, marks, prefix, worlds[j], i) {
        ChainAnswersNext(worlds[j], i, prefix, es, floor, 0);
        assert Tries(worlds, i)[j] == Heard(worlds[j], i);
      }
    }
  }

  /** A walk that stopped before it had as many as asked for: it was through, or every try of its last
      step failed. */
  ghost predicate StoppedFor(s: Settings, marks: Watermarks, prefix: Name, es: set<Edition>, start: nat,
      yielded: seq<Data>, worlds: seq<World>, i: Interest)
    requires forall d :: d in yielded ==> d.metadata.sequence.Some?
  {
    SequencesOf(yielded) == Ascending(Sequences(es), start) || EveryTryFailed(s, marks, prefix, worlds, i)
  }

  /** The walk yields, in order and without a gap, the editions from the start onwards, as far as it
      gets: what it yields is a prefix of the sorted list, and each item is a genuine edition.  Short
      of the number asked for it stops only at the end of the list, or where every try of a step is
      lost or its answer refused.
      `tries(k)` is the network at each try of the walk's step `k`. */
  method FetchRange(client: ICNClient, prefix: Name, start: nat, maxItems: Option<nat>, tries: nat -> seq<World>,
      nonces: nat -> bytes, lifetime: nat, now: nat, ghost es: set<Edition>)
    returns (yielded: seq<Data>)
    requires forall k: nat, j :: 0 <= j < |tries(k)| ==> Genuine(tries(k)[j], prefix, es)
    modifies client`marks
    ensures forall d :: d in yielded ==> d.metadata.sequence.Some?
    ensures SequencesOf(yielded) <= Ascending(Sequences(es), start)
    ensures forall d :: d in yielded ==> exists e :: e in es && IsYieldOf(client.s, client.capabilities, now, d, e)
    ensures maxItems.Some? ==> |yielded| <= maxItems.value
    ensures (maxItems.None? || |yielded| < maxItems.value) ==>
      var last := WalkInterest(prefix, NextFloor(start, yielded), nonces(|yielded|), lifetime);
      StoppedFor(client.s, client.marks, prefix, es, start, yielded, tries(|yielded|), last)
  {
    hide EveryTryFailed, NextFloor, FirstAcceptable, IsYieldOf, Genuine, Decrypted, Heard, Walked, Ascending,
      Sequences, SequencesOf, Above;
    var minSeq: nat := start;
    yielded := [];
    NothingWalked(client.s, client.capabilities, now, es, start);
    WalkedMeans(client.s, client.capabilities, now, es, start, minSeq, yielded);
    while maxItems.None? || |yielded| < maxItems.value
      invariant Walked(client.s, client.capabilities, now, es, start, minSeq, yielded)
      invariant maxItems.Some? ==> |yielded| <= maxItems.value
      decreases |Above(Sequences(es), minSeq)|
    {
      WalkedMeans(client.s, client.capabilities, now, es, start, minSeq, yielded);
      var step := |yielded|;
      var i := WalkInterest(prefix, minSeq, nonces(step), lifetime);
      var attempts := Tries(tries(step), i);
      ghost var k := FirstAcceptable(client.s, client.marks, prefix, attempts, client.s.requireSignature);
      var r := client.FetchVerified(prefix, attempts, None, false, now);
      if !r.Accepted? {
        StopsOnlyThen(client.s, client.marks, prefix, es, minSeq, tries(step), i);
        return;
      }
      ghost var e := StepIsNext(client, prefix, es, minSeq, tries(step), i, k, now);
      var d := r.data;
      if d.metadata.sequence.None? || d.metadata.sequence.value < minSeq {
        return;
      }
      WalkedOn(client.s, client.capabilities, now, es, start, minSeq, yielded, d, e);
      minSeq := d.metadata.sequence.value + 1;
      yielded := yielded + [d];
    }
    WalkedMeans(client.s, client.capabilities, now, es, start, minSeq, yielded);
  }

  lemma NothingWalked(s: Settings, caps: map<bytes, seq<Signing.Capability>>, now: nat, es: set<Edition>, start: nat)
    ensures Walked(s, caps, now, es, start, start, [])
  {
    assert SequencesOf([]) == [];
    assert [] + Ascending(Sequences(es), start) == Ascending(Sequences(es), start);
  }
}
