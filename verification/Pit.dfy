/** The pending interest table and the loop-detection nonces (rns_icn/pit.py).  Both are Python
    dictionaries whose insertion order decides ties, so order is kept beside the contents. */
module Pits {
  import opened Base
  import opened Names
  import opened Packets
  import opened Fibs

  datatype PitEntry = PitEntry(
    interest: Interest,
    inFaces: seq<FaceId>,
    outFace: Option<FaceId>,
    expiresAt: nat,
    satisfied: bool)

  /** Pending entries by hash-free name, and their keys in insertion order. */
  datatype Table = Table(entries: map<Name, PitEntry>, order: seq<Name>) {
    ghost predicate Valid() {
      && Distinct(order)
      && forall n :: n in order <==> n in entries
    }
  }

  const EMPTY_TABLE := Table(map[], [])

  function Put(t: Table, n: Name, e: PitEntry): Table {
    Table(t.entries[n := e], if n in t.entries then t.order else t.order + [n])
  }

  function Drop(t: Table, n: Name): Table {
    Table(t.entries - {n}, Remove(t.order, n))
  }

  /** `min` over the keys by expiry: the first in insertion order among the earliest. */
  function NearestExpiry(t: Table, keys: seq<Name>): (v: Name)
    requires keys != [] && forall n :: n in keys ==> n in t.entries
    ensures v in keys
    ensures forall n :: n in keys ==> t.entries[v].expiresAt <= t.entries[n].expiresAt
  {
    if |keys| == 1 then keys[0]
    else
      var v := NearestExpiry(t, keys[1..]);
      if t.entries[keys[0]].expiresAt <= t.entries[v].expiresAt then keys[0] else v
  }

  predicate IsFirstNearest(t: Table, keys: seq<Name>, k: int)
    requires forall n :: n in keys ==> n in t.entries
  {
    && 0 <= k < |keys|
    && (forall j :: 0 <= j < k ==> t.entries[keys[k]].expiresAt < t.entries[keys[j]].expiresAt)
    && forall j :: k < j < |keys| ==> t.entries[keys[k]].expiresAt <= t.entries[keys[j]].expiresAt
  }

  /** Of several entries that expire soonest it is the one inserted first. */
  lemma {:induction false} NearestIsFirst(t: Table, keys: seq<Name>) returns (k: nat)
    requires keys != [] && forall n :: n in keys ==> n in t.entries
    ensures IsFirstNearest(t, keys, k) && keys[k] == NearestExpiry(t, keys)
  {
    if |keys| == 1 {
      k := 0;
    } else {
      var rest := keys[1..];
      k := NearestIsFirst(t, rest);
      var v := NearestExpiry(t, rest);
      assert forall j :: 0 < j < |keys| ==> keys[j] == rest[j - 1];
      k := if t.entries[keys[0]].expiresAt <= t.entries[v].expiresAt then 0 else k + 1;
    }
  }

  function MakeRoom(t: Table): Table {
    if t.order == [] || !(forall n :: n in t.order ==> n in t.entries) then t
    else Drop(t, NearestExpiry(t, t.order))
  }

  function InsertOrAggregate(t: Table, limit: int, n: Name, inFace: FaceId, i: Interest, mono: nat): Table {
    if n in t.entries && !t.entries[n].satisfied then
      var e := t.entries[n];
      if inFace in e.inFaces then t else Put(t, n, e.(inFaces := e.inFaces + [inFace]))
    else
      var room := if n !in t.entries && |t.entries| >= limit then MakeRoom(t) else t;
      Put(room, n, PitEntry(i, [inFace], None, mono + i.lifetime, false))
  }

  function SetOutFace(t: Table, n: Name, f: FaceId): Table {
    if n in t.entries then Put(t, n, t.entries[n].(outFace := Some(f))) else t
  }

  function Satisfy(t: Table, n: Name): Table {
    if n in t.entries then Put(t, n, t.entries[n].(satisfied := true)) else t
  }

  predicate Stale(e: PitEntry, mono: nat) { e.satisfied || e.expiresAt <= mono }

  function DropAll(t: Table, names: seq<Name>): Table
    decreases |names|
  {
    if names == [] then t else DropAll(Drop(t, names[0]), names[1..])
  }

  function StaleNames(t: Table, keys: seq<Name>, mono: nat): (r: seq<Name>)
    ensures forall n :: n in r <==> n in keys && n in t.entries && Stale(t.entries[n], mono)
  {
    if keys == [] then []
    else if keys[0] in t.entries && Stale(t.entries[keys[0]], mono) then [keys[0]] + StaleNames(t, keys[1..], mono)
    else StaleNames(t, keys[1..], mono)
  }

  function Purge(t: Table, mono: nat): Table {
    DropAll(t, StaleNames(t, t.order, mono))
  }

  lemma DropKeepsValid(t: Table, n: Name)
    requires t.Valid()
    ensures Drop(t, n).Valid()
  {
    RemoveKeepsDistinct(t.order, n);
  }

  lemma {:induction false} DropAllFacts(t: Table, names: seq<Name>)
    requires t.Valid()
    ensures DropAll(t, names).Valid()
    ensures DropAll(t, names).entries == t.entries - set n | n in names
    decreases |names|
  {
    if names == [] {
      assert t.entries - (set n | n in names) == t.entries;
    } else {
      DropKeepsValid(t, names[0]);
      DropAllFacts(Drop(t, names[0]), names[1..]);
      DifferenceTwice(t.entries, names);
    }
  }

  lemma DifferenceTwice(m: map<Name, PitEntry>, names: seq<Name>)
    requires names != []
    ensures m - {names[0]} - (set n | n in names[1..]) == m - set n | n in names
  {
    assert (set n | n in names) == {names[0]} + set n | n in names[1..];
  }

  lemma DropAllStep(t: Table, names: seq<Name>, i: nat)
    requires i < |names|
    ensures DropAll(t, names[i..]) == DropAll(Drop(t, names[i]), names[i + 1..])
  {
    assert names[i..][0] == names[i] && names[i..][1..] == names[i + 1..];
  }

  lemma DropAllNone(t: Table, names: seq<Name>)
    ensures DropAll(t, names[|names|..]) == t && names[0..] == names
  {
  }

  lemma MakeRoomFacts(t: Table)
    requires t.Valid() && t.entries != map[]
    ensures MakeRoom(t).Valid() && |MakeRoom(t).entries| == |t.entries| - 1
    ensures MakeRoom(t).entries == t.entries - {Victim(t)}
  {
    OrderNotEmpty(t);
    var v := NearestExpiry(t, t.order);
    DropKeepsValid(t, v);
    assert (t.entries - {v}).Keys == t.entries.Keys - {v};
  }

  lemma OrderNotEmpty(t: Table)
    requires t.Valid() && t.entries != map[]
    ensures t.order != []
  {
    var n :| n in t.entries;
    assert n in t.order;
  }

  /** The entry capacity pressure drops: none expires sooner. */
  ghost function Victim(t: Table): (v: Name)
    requires t.Valid() && t.entries != map[]
    ensures v in t.entries
    ensures forall n :: n in t.entries ==> t.entries[v].expiresAt <= t.entries[n].expiresAt
  {
    OrderNotEmpty(t);
    NearestExpiry(t, t.order)
  }

  /** An insertion that has to evict: the name is new and the table is full. */
  predicate Evicts(t: Table, limit: int, n: Name) {
    n !in t.entries && |t.entries| >= limit && t.entries != map[]
  }

  lemma PutFacts(t: Table, n: Name, e: PitEntry)
    requires t.Valid()
    ensures Put(t, n, e).Valid()
    ensures |Put(t, n, e).entries| == |t.entries| + (if n in t.entries then 0 else 1)
  {
    assert Put(t, n, e).entries.Keys == t.entries.Keys + {n};
  }

  /** What insertion makes of the entry of its own name: a pending one gains the in-face, if it does not
      list it, and keeps its Interest, out-face and expiry; otherwise a new one holds this Interest,
      this in-face, no out-face, and expires a lifetime from now. */
  predicate IsInsertedEntry(before: Option<PitEntry>, after: PitEntry, inFace: FaceId, i: Interest, mono: nat) {
    if before.Some? && !before.value.satisfied then
      && after.interest == before.value.interest && after.outFace == before.value.outFace
      && after.expiresAt == before.value.expiresAt && !after.satisfied
      && after.inFaces == before.value.inFaces + (if inFace in before.value.inFaces then [] else [inFace])
    else
      && after.interest == i && after.inFaces == [inFace] && after.outFace == None
      && after.expiresAt == mono + i.lifetime && !after.satisfied
  }

  /** The name an insertion evicts: it is the table's, the table is full, the name inserted is new, and
      no entry expires sooner. */
  predicate IsVictim(t: Table, limit: int, n: Name, v: Name) {
    && v in t.entries && n !in t.entries && |t.entries| >= limit
    && forall x :: x in t.entries ==> t.entries[v].expiresAt <= t.entries[x].expiresAt
  }

  function EntryOf(t: Table, n: Name): Option<PitEntry> {
    if n in t.entries then Some(t.entries[n]) else None
  }

  /** Inserting keeps the table within its limit, makes the name pending with its in-face, and
      changes nothing else, except that a full table drops one entry, the soonest to expire. */
  lemma InsertFacts(t: Table, limit: int, n: Name, inFace: FaceId, i: Interest, mono: nat)
    requires t.Valid()
    ensures InsertOrAggregate(t, limit, n, inFace, i, mono).Valid()
    ensures var r := InsertOrAggregate(t, limit, n, inFace, i, mono).entries;
      && n in r && IsInsertedEntry(EntryOf(t, n), r[n], inFace, i, mono)
      && !r[n].satisfied && inFace in r[n].inFaces
      && r == Room(t, limit, n)[n := r[n]]
      && (|t.entries| <= Max(1, limit) ==> |r| <= Max(1, limit))
  {
    hide IsInsertedEntry, MakeRoom;
    InsertedEntry(t, limit, n, inFace, i, mono);
    var r := InsertOrAggregate(t, limit, n, inFace, i, mono);
    if n in t.entries && !t.entries[n].satisfied {
      AggregateFacts(t, n, inFace);
      assert Room(t, limit, n) == t.entries;
    } else {
      var e := PitEntry(i, [inFace], None, mono + i.lifetime, false);
      NewEntryFacts(t, limit, n, e);
      assert r.entries == Room(t, limit, n)[n := e];
    }
  }

  lemma InsertedEntry(t: Table, limit: int, n: Name, inFace: FaceId, i: Interest, mono: nat)
    ensures var r := InsertOrAggregate(t, limit, n, inFace, i, mono).entries;
      n in r && IsInsertedEntry(EntryOf(t, n), r[n], inFace, i, mono)
  {
    hide MakeRoom;
  }

  /** What an insertion does to the other entries: none, or one, the victim, and that exactly when the
      name is new and the table full. */
  lemma InsertEvictsOne(t: Table, limit: int, n: Name, inFace: FaceId, i: Interest, mono: nat)
    requires t.Valid()
    ensures var r := InsertOrAggregate(t, limit, n, inFace, i, mono).entries;
      && (forall x :: x in r && x != n ==> x in t.entries && r[x] == t.entries[x])
      && (forall x, y :: x in t.entries && x !in r && y in t.entries && y !in r ==> x == y && IsVictim(t, limit, n, x))
      && (n !in t.entries && |t.entries| >= limit && t.entries != map[] ==> exists x :: x in t.entries && x !in r)
  {
    hide InsertOrAggregate, IsInsertedEntry;
    InsertFacts(t, limit, n, inFace, i, mono);
    if Evicts(t, limit, n) {
      assert Victim(t) !in InsertOrAggregate(t, limit, n, inFace, i, mono).entries;
    }
  }

  /** Recording an out-face, satisfying and removing change the one entry, if it is there, in the one
      respect. */
  lemma TouchFacts(t: Table, n: Name, f: FaceId)
    requires t.Valid()
    ensures SetOutFace(t, n, f).Valid() && Satisfy(t, n).Valid() && Drop(t, n).Valid()
    ensures Drop(t, n).entries == t.entries - {n}
    ensures n !in t.entries ==> SetOutFace(t, n, f).entries == Satisfy(t, n).entries == t.entries
    ensures n in t.entries ==>
      var e, out, sat := t.entries[n], SetOutFace(t, n, f).entries, Satisfy(t, n).entries;
      && n in out && out == t.entries[n := out[n]] && n in sat && sat == t.entries[n := sat[n]]
      && out[n] == PitEntry(e.interest, e.inFaces, Some(f), e.expiresAt, e.satisfied)
      && sat[n] == PitEntry(e.interest, e.inFaces, e.outFace, e.expiresAt, true)
  {
    DropKeepsValid(t, n);
    if n in t.entries {
      PutFacts(t, n, t.entries[n].(outFace := Some(f)));
      PutFacts(t, n, t.entries[n].(satisfied := true));
    }
  }

  /** A sweep leaves exactly the entries that are still pending and not yet expired, as they were. */
  lemma PurgeIsExact(t: Table, mono: nat)
    requires t.Valid()
    ensures Purge(t, mono).Valid()
    ensures forall n :: n in Purge(t, mono).entries <==>
      n in t.entries && !t.entries[n].satisfied && mono < t.entries[n].expiresAt
    ensures forall n :: n in Purge(t, mono).entries ==> Purge(t, mono).entries[n] == t.entries[n]
  {
    DropAllFacts(t, StaleNames(t, t.order, mono));
  }

  /** The other entries an insertion leaves in place. */
  ghost function Room(t: Table, limit: int, n: Name): map<Name, PitEntry>
    requires t.Valid()
  {
    if Evicts(t, limit, n) then t.entries - {Victim(t)} else t.entries
  }

  lemma AggregateFacts(t: Table, n: Name, inFace: FaceId)
    requires t.Valid() && n in t.entries
    ensures var e := t.entries[n];
      && var r := if inFace in e.inFaces then t else Put(t, n, e.(inFaces := e.inFaces + [inFace]));
      && r.Valid() && r.entries == t.entries[n := r.entries[n]] && |r.entries| == |t.entries|
      && r.entries[n] == e.(inFaces := r.entries[n].inFaces) && inFace in r.entries[n].inFaces
  {
    var e := t.entries[n];
    PutFacts(t, n, e.(inFaces := e.inFaces + [inFace]));
    assert t.entries == t.entries[n := e];
  }

  lemma NewEntryFacts(t: Table, limit: int, n: Name, e: PitEntry)
    requires t.Valid()
    ensures var r := Put(if n !in t.entries && |t.entries| >= limit then MakeRoom(t) else t, n, e);
      && r.Valid()
      && r.entries == Room(t, limit, n)[n := e]
      && (|t.entries| <= Max(1, limit) ==> |r.entries| <= Max(1, limit))
  {
    hide MakeRoom, Put;
    if Evicts(t, limit, n) {
      MakeRoomFacts(t);
    } else if t.entries == map[] {
      MakeRoomEmpty(t);
    }
    PutFacts(if n !in t.entries && |t.entries| >= limit then MakeRoom(t) else t, n, e);
    PutEntries(if n !in t.entries && |t.entries| >= limit then MakeRoom(t) else t, n, e);
  }

  lemma PutEntries(t: Table, n: Name, e: PitEntry)
    ensures Put(t, n, e).entries == t.entries[n := e]
  {
  }

  lemma MakeRoomEmpty(t: Table)
    requires t.Valid()
    ensures t.entries == map[] ==> MakeRoom(t) == t
  {
    if t.order != [] { assert t.order[0] in t.entries; }
  }

  // ----- loop detection -----

  datatype NonceRecord = NonceRecord(face: FaceId, nonce: bytes, expiresAt: nat)

  predicate Seen(ns: seq<NonceRecord>, face: FaceId, nonce: bytes) {
    exists r :: r in ns && r.face == face && r.nonce == nonce
  }

  function EarliestAt(ns: seq<NonceRecord>): (k: nat)
    requires ns != []
    ensures k < |ns|
    ensures forall i :: 0 <= i < |ns| ==> ns[k].expiresAt <= ns[i].expiresAt
    ensures forall i :: 0 <= i < k ==> ns[k].expiresAt < ns[i].expiresAt
  {
    if |ns| == 1 then 0
    else
      var k := EarliestAt(ns[1..]);
      if ns[0].expiresAt <= ns[1..][k].expiresAt then 0 else k + 1
  }

  /** Dictionary assignment: an existing key keeps its position. */
  function PutNonce(ns: seq<NonceRecord>, r: NonceRecord): seq<NonceRecord> {
    if ns == [] then [r]
    else if ns[0].face == r.face && ns[0].nonce == r.nonce then [r] + ns[1..]
    else [ns[0]] + PutNonce(ns[1..], r)
  }

  function RecordNonce(ns: seq<NonceRecord>, limit: nat, r: NonceRecord): seq<NonceRecord>
    requires limit >= 1
  {
    var room := if |ns| >= limit then var k := EarliestAt(ns); ns[..k] + ns[k + 1..] else ns;
    PutNonce(room, r)
  }

  function SweepNonces(ns: seq<NonceRecord>, mono: nat): (r: seq<NonceRecord>)
    ensures |r| <= |ns|
  {
    if ns == [] then []
    else if ns[0].expiresAt > mono then [ns[0]] + SweepNonces(ns[1..], mono)
    else SweepNonces(ns[1..], mono)
  }

  /** A sweep keeps what has not expired. */
  lemma {:induction false} SweepKeepsLive(ns: seq<NonceRecord>, mono: nat)
    ensures forall r :: r in SweepNonces(ns, mono) <==> r in ns && mono < r.expiresAt
  {
    if ns != [] {
      assert ns == [ns[0]] + ns[1..];
      SweepKeepsLive(ns[1..], mono);
    }
  }

  lemma {:induction false} PutFreshNonce(ns: seq<NonceRecord>, r: NonceRecord)
    requires !Seen(ns, r.face, r.nonce)
    ensures PutNonce(ns, r) == ns + [r]
  {
    if ns != [] {
      assert ns[0] in ns;
      assert forall x :: x in ns[1..] ==> x in ns;
      PutFreshNonce(ns[1..], r);
    }
  }

  /** What happens to the tracker over time: an Interest arrives (checked, then recorded unless
      flagged), or expired records are swept. */
  datatype NonceEvent = Arrival(face: FaceId, nonce: bytes, at: nat) | Sweep(at: nat)

  ghost predicate Ordered(events: seq<NonceEvent>) {
    forall i, j :: 0 <= i < j < |events| ==> events[i].at <= events[j].at
  }

  function TrackerStep(ns: seq<NonceRecord>, e: NonceEvent, ttl: nat, limit: nat): seq<NonceRecord>
    requires limit >= 1
  {
    match e
    case Arrival(face, nonce, at) =>
      if Seen(ns, face, nonce) then ns else RecordNonce(ns, limit, NonceRecord(face, nonce, at + ttl))
    case Sweep(at) => SweepNonces(ns, at)
  }

  /** The tracker after a run that starts empty. */
  function Tracker(events: seq<NonceEvent>, ttl: nat, limit: nat): seq<NonceRecord>
    requires limit >= 1
  {
    if events == [] then []
    else TrackerStep(Tracker(events[..|events| - 1], ttl, limit), events[|events| - 1], ttl, limit)
  }

  ghost function NewlyRecorded(ns: seq<NonceRecord>, e: NonceEvent, ttl: nat): seq<NonceRecord> {
    if e.Arrival? && !Seen(ns, e.face, e.nonce) then [NonceRecord(e.face, e.nonce, e.at + ttl)] else []
  }

  /** Every pair recorded during a run, in recording order. */
  ghost function Recorded(events: seq<NonceEvent>, ttl: nat, limit: nat): seq<NonceRecord>
    requires limit >= 1
  {
    if events == [] then []
    else
      var before := events[..|events| - 1];
      Recorded(before, ttl, limit) + NewlyRecorded(Tracker(before, ttl, limit), events[|events| - 1], ttl)
  }

  ghost function LastSweep(events: seq<NonceEvent>): nat {
    if events == [] then 0
    else if events[|events| - 1].Sweep? then events[|events| - 1].at
    else LastSweep(events[..|events| - 1])
  }

  ghost predicate Retained(all: seq<NonceRecord>, limit: nat, swept: nat, j: nat)
    requires j < |all|
  {
    |all| - j <= limit && all[j].expiresAt > swept
  }

  ghost predicate Window(all: seq<NonceRecord>, k: nat, limit: nat, swept: nat) {
    && k <= |all|
    && (forall j :: 0 <= j < |all| ==> (j >= k <==> Retained(all, limit, swept, j)))
    && (forall i, j :: 0 <= i < j < |all| ==> all[i].expiresAt <= all[j].expiresAt)
  }

  lemma {:induction false} SweepIsSuffix(ns: seq<NonceRecord>, mono: nat)
    requires forall i, j :: 0 <= i < j < |ns| ==> ns[i].expiresAt <= ns[j].expiresAt
    ensures SweepNonces(ns, mono) == ns[|ns| - |SweepNonces(ns, mono)|..]
    ensures forall j :: 0 <= j < |ns| ==> (j >= |ns| - |SweepNonces(ns, mono)| <==> ns[j].expiresAt > mono)
  {
    if ns != [] {
      var rest := ns[1..];
      SweepIsSuffix(rest, mono);
      var k := |rest| - |SweepNonces(rest, mono)|;
      if ns[0].expiresAt > mono {
        assert forall j :: 0 <= j < |rest| ==> rest[j] == ns[j + 1];
        assert rest != [] ==> rest[0].expiresAt >= ns[0].expiresAt;
        assert k == 0;
        assert SweepNonces(ns, mono) == ns;
      } else {
        forall j | 0 <= j < |ns| ensures j >= k + 1 <==> ns[j].expiresAt > mono {
          if j > 0 { assert rest[j - 1] == ns[j]; }
        }
      }
    }
  }

  lemma RecordDropsFirst(live: seq<NonceRecord>, limit: nat, r: NonceRecord)
    requires limit >= 1 && !Seen(live, r.face, r.nonce)
    requires forall i, j :: 0 <= i < j < |live| ==> live[i].expiresAt <= live[j].expiresAt
    ensures RecordNonce(live, limit, r) == (if |live| >= limit then live[1..] else live) + [r]
  {
    if |live| >= limit {
      assert EarliestAt(live) == 0;
      assert live[..0] + live[1..] == live[1..];
      PutFreshNonce(live[1..], r);
    } else {
      PutFreshNonce(live, r);
    }
  }

  lemma RecordSlides(all: seq<NonceRecord>, k: nat, limit: nat, swept: nat, r: NonceRecord)
    requires Window(all, k, limit, swept) && limit >= 1 && r.expiresAt > swept
    requires forall j :: 0 <= j < |all| ==> all[j].expiresAt <= r.expiresAt
    ensures Window(all + [r], if |all| - k >= limit then k + 1 else k, limit, swept)
  {
    var all' := all + [r];
    var k' := if |all| - k >= limit then k + 1 else k;
    if k < |all| {
      assert Retained(all, limit, swept, k);
    }
    forall j | 0 <= j < |all'|
      ensures j >= k' <==> Retained(all', limit, swept, j)
    {
      if j < |all| {
        assert all'[j] == all[j];
        assert j >= k <==> Retained(all, limit, swept, j);
      }
    }
  }

  lemma SweepShrinks(all: seq<NonceRecord>, k: nat, limit: nat, swept: nat, at: nat)
    requires Window(all, k, limit, swept) && swept <= at
    ensures Window(all, |all| - |SweepNonces(all[k..], at)|, limit, at)
    ensures SweepNonces(all[k..], at) == all[|all| - |SweepNonces(all[k..], at)|..]
  {
    var live := all[k..];
    SweepIsSuffix(live, at);
    var k' := |all| - |SweepNonces(live, at)|;
    forall j | 0 <= j < |all|
      ensures j >= k' <==> Retained(all, limit, at, j)
    {
      assert j >= k <==> Retained(all, limit, swept, j);
      if j >= k {
        assert live[j - k] == all[j];
      }
    }
  }

  /** `live` is the window over `all`, at time `now` and after a last sweep at `swept`. */
  ghost predicate Tracked(all: seq<NonceRecord>, live: seq<NonceRecord>, ttl: nat, limit: nat, swept: nat, now: nat) {
    && |live| <= |all| && |live| <= limit && swept <= now
    && live == all[|all| - |live|..]
    && Window(all, |all| - |live|, limit, swept)
    && forall j :: 0 <= j < |all| ==> all[j].expiresAt <= now + ttl
  }

  lemma ArrivalSlides(all: seq<NonceRecord>, live: seq<NonceRecord>, ttl: nat, limit: nat, swept: nat, now: nat,
      r: NonceRecord)
    requires Tracked(all, live, ttl, limit, swept, now) && limit >= 1 && ttl >= 1
    requires !Seen(live, r.face, r.nonce) && r.expiresAt >= now + ttl
    ensures Tracked(all + [r], RecordNonce(live, limit, r), ttl, limit, swept, r.expiresAt - ttl)
  {
    hide RecordNonce, Window, Retained;
    var k := |all| - |live|;
    WindowSorted(all, k, limit, swept);
    assert forall i :: 0 <= i < |live| ==> live[i] == all[k + i];
    RecordSlides(all, k, limit, swept, r);
    RecordDropsFirst(live, limit, r);
  }

  lemma WindowSorted(all: seq<NonceRecord>, k: nat, limit: nat, swept: nat)
    requires Window(all, k, limit, swept)
    ensures forall i, j :: 0 <= i < j < |all| ==> all[i].expiresAt <= all[j].expiresAt
  {
  }

  lemma SweepSlides(all: seq<NonceRecord>, live: seq<NonceRecord>, ttl: nat, limit: nat, swept: nat, now: nat, at: nat)
    requires Tracked(all, live, ttl, limit, swept, now) && now <= at
    ensures Tracked(all, SweepNonces(live, at), ttl, limit, at, at)
  {
    hide SweepNonces, Retained, Window;
    SweepShrinks(all, |all| - |live|, limit, swept, at);
  }

  ghost function LastTime(events: seq<NonceEvent>): nat {
    if events == [] then 0 else events[|events| - 1].at
  }

  lemma StepSlides(all: seq<NonceRecord>, live: seq<NonceRecord>, ttl: nat, limit: nat, swept: nat, now: nat,
      e: NonceEvent)
    requires Tracked(all, live, ttl, limit, swept, now) && limit >= 1 && ttl >= 1 && now <= e.at
    ensures Tracked(all + NewlyRecorded(live, e, ttl), TrackerStep(live, e, ttl, limit), ttl, limit,
                    if e.Sweep? then e.at else swept, e.at)
  {
    match e
    case Arrival(face, nonce, at) =>
      if Seen(live, face, nonce) {
        assert all + [] == all;
      } else {
        ArrivalSlides(all, live, ttl, limit, swept, now, NonceRecord(face, nonce, at + ttl));
      }
    case Sweep(at) =>
      assert all + [] == all;
      SweepSlides(all, live, ttl, limit, swept, now, at);
  }

  lemma {:induction false} RunIsTracked(events: seq<NonceEvent>, ttl: nat, limit: nat)
    requires limit >= 1 && ttl >= 1 && Ordered(events)
    ensures Tracked(Recorded(events, ttl, limit), Tracker(events, ttl, limit), ttl, limit, LastSweep(events),
      LastTime(events))
  {
    if events != [] {
      var before, last := events[..|events| - 1], events[|events| - 1];
      RunIsTracked(before, ttl, limit);
      assert LastTime(before) <= last.at;
      StepSlides(Recorded(before, ttl, limit), Tracker(before, ttl, limit), ttl, limit, LastSweep(before),
        LastTime(before), last);
    }
  }

  /** The tracker is a sliding window over everything recorded: it holds, in recording order,
      exactly the pairs with fewer than `limit` newer ones whose lifetime outlasted the last
      sweep.  So it never exceeds its limit, and flags a pair exactly while it is in the window. */
  lemma TrackerIsSlidingWindow(events: seq<NonceEvent>, ttl: nat, limit: nat)
    requires limit >= 1 && ttl >= 1 && Ordered(events)
    ensures var all, live := Recorded(events, ttl, limit), Tracker(events, ttl, limit);
      && |live| <= limit && |live| <= |all|
      && live == all[|all| - |live|..]
      && forall j :: 0 <= j < |all| ==>
           (j >= |all| - |live| <==> |all| - j <= limit && all[j].expiresAt > LastSweep(events))
  {
    RunIsTracked(events, ttl, limit);
    var all, live := Recorded(events, ttl, limit), Tracker(events, ttl, limit);
    assert Window(all, |all| - |live|, limit, LastSweep(events));
    forall j | 0 <= j < |all|
      ensures j >= |all| - |live| <==> |all| - j <= limit && all[j].expiresAt > LastSweep(events)
    {
      assert j >= |all| - |live| <==> Retained(all, limit, LastSweep(events), j);
    }
  }

  class Pit {
    const nonceTtl: nat
    const maxEntries: int
    const maxNonces: int
    var table: Table
    var nonces: seq<NonceRecord>
    var evictions: nat

    ghost predicate Valid()
      reads this
    {
      table.Valid() && |table.entries| <= Max(1, maxEntries) && (maxNonces <= 0 ==> nonces == [])
    }

    constructor (nonceTtl: nat, maxEntries: int, maxNonces: int)
      ensures Valid() && table == EMPTY_TABLE && nonces == [] && evictions == 0
      ensures this.nonceTtl == nonceTtl && this.maxEntries == maxEntries && this.maxNonces == maxNonces
    {
      this.nonceTtl, this.maxEntries, this.maxNonces := nonceTtl, maxEntries, maxNonces;
      table, nonces, evictions := EMPTY_TABLE, [], 0;
    }

    function Find(n: Name): Option<PitEntry>
      reads this
    {
      if n in table.entries then Some(table.entries[n]) else None
    }

    method Insert(n: Name, inFace: FaceId, i: Interest, mono: nat) returns (aggregated: bool)
      requires Valid()
      modifies this`table, this`evictions
      ensures Valid()
      ensures table == InsertOrAggregate(old(table), maxEntries, n, inFace, i, mono)
      ensures aggregated <==> n in old(table).entries && !old(table).entries[n].satisfied
      ensures evictions == old(evictions) + if Evicts(old(table), maxEntries, n) then 1 else 0
    {
      InsertFacts(table, maxEntries, n, inFace, i, mono);
      hide IsInsertedEntry, Room;
      if n in table.entries && !table.entries[n].satisfied {
        var e := table.entries[n];
        if inFace !in e.inFaces {
          table := Put(table, n, e.(inFaces := e.inFaces + [inFace]));
        }
        return true;
      }
      if n !in table.entries && |table.entries| >= maxEntries {
        EvictNearestExpiry();
      }
      table := Put(table, n, PitEntry(i, [inFace], None, mono + i.lifetime, false));
      return false;
    }

    method EvictNearestExpiry()
      requires table.Valid()
      modifies this`table, this`evictions
      ensures table == MakeRoom(old(table))
      ensures evictions == old(evictions) + if old(table).entries != map[] then 1 else 0
    {
      if table.order == [] {
        assert table.entries == map[] by {
          if table.entries != map[] { OrderNotEmpty(table); }
        }
        return;
      }
      assert table.order[0] in table.entries;
      var victim := NearestExpiry(table, table.order);
      table := Drop(table, victim);
      evictions := evictions + 1;
    }

    method SetOut(n: Name, f: FaceId)
      requires Valid()
      modifies this`table
      ensures Valid() && table == SetOutFace(old(table), n, f)
    {
      if n in table.entries {
        table := Put(table, n, table.entries[n].(outFace := Some(f)));
        assert table.entries.Keys == old(table).entries.Keys;
      }
    }

    method SatisfyEntry(n: Name) returns (inFaces: Option<seq<FaceId>>)
      requires Valid()
      modifies this`table
      ensures Valid() && table == Satisfy(old(table), n)
      ensures inFaces == if n in old(table).entries then Some(old(table).entries[n].inFaces) else None
    {
      if n in table.entries {
        table := Put(table, n, table.entries[n].(satisfied := true));
        assert table.entries.Keys == old(table).entries.Keys;
        return Some(table.entries[n].inFaces);
      }
      return None;
    }

    method RemoveEntry(n: Name) returns (removed: Option<PitEntry>)
      requires Valid()
      modifies this`table
      ensures Valid() && table == Drop(old(table), n)
      ensures removed == if n in old(table).entries then Some(old(table).entries[n]) else None
    {
      removed := if n in table.entries then Some(table.entries[n]) else None;
      DropKeepsValid(table, n);
      assert (table.entries - {n}).Keys <= table.entries.Keys;
      SubsetSize((table.entries - {n}).Keys, table.entries.Keys);
      table := Drop(table, n);
    }

    /** Sweeps satisfied and expired entries and expired nonces; afterwards neither remains. */
    method PurgeExpired(mono: nat) returns (removed: seq<PitEntry>)
      requires Valid()
      modifies this`table, this`nonces
      ensures Valid() && table == Purge(old(table), mono)
      ensures forall n :: n in table.entries <==> n in old(table).entries && !Stale(old(table).entries[n], mono)
      ensures nonces == SweepNonces(old(nonces), mono)
    {
      hide Drop, DropAll, SweepNonces;
      var expired := StaleNames(table, table.order, mono);
      removed := [];
      DropAllFacts(table, expired);
      ghost var target := DropAll(table, expired);
      DropAllNone(table, expired);
      for i := 0 to |expired|
        invariant Valid()
        invariant target == DropAll(table, expired[i..])
        invariant nonces == old(nonces)
      {
        DropAllStep(table, expired, i);
        var one := RemoveEntry(expired[i]);
        if one.Some? {
          removed := removed + [one.value];
        }
      }
      DropAllNone(table, expired);
      nonces := SweepNonces(nonces, mono);
    }

    predicate CheckLoop(face: FaceId, nonce: bytes)
      reads this
    {
      Seen(nonces, face, nonce)
    }

    /** With a limit of zero or less there is never anything to drop, and recording raises. */
    method Record(face: FaceId, nonce: bytes, mono: nat) returns (ok: bool)
      requires Valid()
      modifies this`nonces
      ensures Valid() && (ok <==> maxNonces >= 1)
      ensures nonces ==
        if ok then RecordNonce(old(nonces), maxNonces, NonceRecord(face, nonce, mono + nonceTtl)) else old(nonces)
    {
      var ns := nonces;
      if |ns| >= maxNonces {
        if ns == [] {
          return false;
        }
        var k := EarliestAt(ns);
        ns := ns[..k] + ns[k + 1..];
      }
      nonces := PutNonce(ns, NonceRecord(face, nonce, mono + nonceTtl));
      return true;
    }
  }
}
