/** What the content store computes, on the rows of its `content` table in row order
    (rns_icn/content_store.py).  The class in ContentStore.dfy keeps a second table beside
    these rows and is proved to compute the functions defined here. */
module Store {
  import opened Base
  import opened Names
  import opened Packets
  import opened Sorting
  import NameCodec

  datatype Row = Row(
    name: Name,
    content: bytes,
    contentHash: bytes,
    sequence: Option<nat>,
    isFresh: bool,
    freshnessPeriod: Option<nat>,
    signedAt: Option<nat>,
    encrypted: bool,
    signature: Option<bytes>,
    insertedAt: nat,
    expiresAt: Option<nat>)
  {
    predicate Expired(now: nat) { expiresAt.Some? && expiresAt.value <= now }
  }

  /** The hash function, the TTL table and the capacity a store is opened with. */
  datatype Config = Config(hash: bytes -> bytes, ttl: Name -> Option<int>, capacity: nat)

  type Rows = seq<Row>

  ghost predicate DistinctNames(rows: Rows) {
    forall i, j :: 0 <= i < j < |rows| ==> rows[i].name != rows[j].name
  }

  ghost predicate ValidRows(rows: Rows) {
    && DistinctNames(rows)
    && forall r :: r in rows ==> r.name.pin == None
  }

  ghost predicate InsertedBy(rows: Rows, now: nat) {
    forall r :: r in rows ==> r.insertedAt <= now
  }

  function NamesOf(rows: Rows): set<Name> {
    set r | r in rows :: r.name
  }

  // ----- building and reading one row -----

  /** Inserting anything else raises before a row is written: rows are keyed by the encoded name,
      prefixes are rebuilt from the address, and integer columns are signed 64-bit. */
  predicate Storable(d: Data) {
    && NameCodec.Encodable(d.name)
    && |d.name.addr| == ADDRESS_BYTES
    && FitsColumn(d.metadata.sequence)
    && FitsColumn(d.metadata.freshnessPeriod)
    && (d.metadata.isFresh || d.metadata.age < COLUMN_LIMIT)
  }

  predicate FitsColumn(v: Option<nat>) {
    v.Some? ==> v.value < COLUMN_LIMIT
  }

  function ExpiresAt(insertedAt: nat, ttl: Option<int>): Option<nat> {
    if ttl.None? || ttl.value <= 0 then None else Some(insertedAt + ttl.value)
  }

  function RowFor(cfg: Config, name: Name, d: Data, now: nat): Row {
    var m := d.metadata;
    var key := name.Unpinned();
    Row(key, d.content,
        if m.contentHash.Some? && m.contentHash.value != [] then m.contentHash.value else cfg.hash(d.content),
        m.sequence, m.isFresh, m.freshnessPeriod, m.signedAt, m.encrypted, d.signature,
        now, ExpiresAt(now, cfg.ttl(key)))
  }

  predicate HashValid(cfg: Config, r: Row) { cfg.hash(r.content) == r.contentHash }

  /** A stored row as the Data it is served as: freshness is recomputed from its age, and an
      empty stored signature reads back as none. */
  function Served(r: Row, now: nat): Data {
    var age := Max(0, now - r.insertedAt);
    var within := r.freshnessPeriod.None? || age < r.freshnessPeriod.value;
    Data(r.name, r.content,
         if r.signature == Some([]) then None else r.signature,
         Metadata(Some(r.contentHash), r.sequence, r.isFresh && within, age,
                  r.freshnessPeriod, r.signedAt, r.encrypted))
  }

  // ----- statements over the whole table -----

  function Lookup(rows: Rows, n: Name): (r: Option<Row>)
    ensures r.Some? ==> r.value in rows && r.value.name == n
    ensures r.None? ==> n !in NamesOf(rows)
  {
    if rows == [] then None
    else if rows[0].name == n then Some(rows[0])
    else Lookup(rows[1..], n)
  }

  /** INSERT .. ON CONFLICT DO UPDATE: an existing row keeps its position. */
  function Upsert(rows: Rows, row: Row): Rows {
    if rows == [] then [row]
    else if rows[0].name == row.name then [row] + rows[1..]
    else [rows[0]] + Upsert(rows[1..], row)
  }

  /** DELETE of every row whose name is in `names`. */
  function Without(rows: Rows, names: set<Name>): (r: Rows)
    ensures forall x :: x in r <==> x in rows && x.name !in names
  {
    if rows == [] then []
    else if rows[0].name in names then Without(rows[1..], names)
    else [rows[0]] + Without(rows[1..], names)
  }

  function ExpiredNames(rows: Rows, now: nat): set<Name> {
    set r | r in rows && r.Expired(now) :: r.name
  }

  function Live(rows: Rows, now: nat): Rows {
    Without(rows, ExpiredNames(rows, now))
  }

  predicate OlderFirst(a: Row, b: Row) { a.insertedAt <= b.insertedAt }

  function OldestNames(rows: Rows, count: nat): set<Name> {
    NamesOf(Sort(rows, OlderFirst)[..Min(count, |rows|)])
  }

  function EvictOldest(rows: Rows, count: nat): Rows {
    Without(rows, OldestNames(rows, count))
  }

  function Inserted(cfg: Config, rows: Rows, name: Name, d: Data, now: nat): Rows {
    var updated := Upsert(rows, RowFor(cfg, name, d, now));
    if |updated| > cfg.capacity then EvictOldest(updated, |updated| - cfg.capacity) else updated
  }

  function Get(cfg: Config, rows: Rows, n: Name, now: nat): Option<Data> {
    var found := Lookup(Live(rows, now), n.Unpinned());
    if found.None? || !HashValid(cfg, found.value) then None
    else if n.pin.Some? && cfg.hash(found.value.content) != n.pin.value then None
    else Some(Served(found.value, now))
  }

  // ----- prefix lookup -----

  /** The WHERE clause of a prefix lookup. */
  predicate Selected(r: Row, child: ChildSelector, floor: Option<nat>) {
    child == AnyChild || (r.sequence.Some? && (floor.None? || floor.value <= r.sequence.value))
  }

  /** The ORDER BY clauses: newest insertion first, within the requested sequence order. */
  predicate NewestFirst(a: Row, b: Row) { b.insertedAt <= a.insertedAt }

  function SequenceKey(r: Row): int { if r.sequence.Some? then r.sequence.value else -1 }

  predicate HighestFirst(a: Row, b: Row) {
    SequenceKey(a) > SequenceKey(b) || (SequenceKey(a) == SequenceKey(b) && NewestFirst(a, b))
  }

  predicate LowestFirst(a: Row, b: Row) {
    SequenceKey(a) < SequenceKey(b) || (SequenceKey(a) == SequenceKey(b) && NewestFirst(a, b))
  }

  function Order(child: ChildSelector): (Row, Row) -> bool {
    match child
    case AnyChild => NewestFirst
    case Latest => HighestFirst
    case Oldest => LowestFirst
  }

  /** Rows under a prefix found by scanning every row, without any index.  A pinned prefix
      names nothing, because rows are kept unpinned. */
  function Under(rows: Rows, prefix: Name, child: ChildSelector, floor: Option<nat>): (r: Rows)
    ensures forall x :: x in r <==>
      x in rows && prefix.pin == None && x.name.StartsWith(prefix) && Selected(x, child, floor)
  {
    if rows == [] then []
    else
      (if prefix.pin == None && rows[0].name.StartsWith(prefix) && Selected(rows[0], child, floor)
       then [rows[0]] else [])
      + Under(rows[1..], prefix, child, floor)
  }

  predicate Answers(cfg: Config, r: Row, child: ChildSelector) {
    (child == AnyChild || !IsReserved(r.name)) && HashValid(cfg, r)
  }

  function FirstAnswer(cfg: Config, ordered: Rows, child: ChildSelector): Option<Row> {
    if ordered == [] then None
    else if Answers(cfg, ordered[0], child) then Some(ordered[0])
    else FirstAnswer(cfg, ordered[1..], child)
  }

  /** Index of the first row that answers, or the number of rows. */
  function FirstAnswerAt(cfg: Config, ordered: Rows, child: ChildSelector): (k: nat)
    ensures k <= |ordered|
    ensures forall i :: 0 <= i < k ==> !Answers(cfg, ordered[i], child)
    ensures k < |ordered| ==> Answers(cfg, ordered[k], child) && FirstAnswer(cfg, ordered, child) == Some(ordered[k])
    ensures k == |ordered| ==> FirstAnswer(cfg, ordered, child) == None
  {
    if ordered == [] || Answers(cfg, ordered[0], child) then 0
    else
      var k := FirstAnswerAt(cfg, ordered[1..], child);
      assert forall i :: 0 < i < |ordered| ==> ordered[i] == ordered[1..][i - 1];
      k + 1
  }

  function BestRow(cfg: Config, rows: Rows, prefix: Name, child: ChildSelector, floor: Option<nat>): Option<Row> {
    FirstAnswer(cfg, Sort(Under(rows, prefix, child, floor), Order(child)), child)
  }

  function GetPrefix(cfg: Config, rows: Rows, prefix: Name, child: ChildSelector, floor: Option<nat>,
      now: nat): Option<Data> {
    var best := BestRow(cfg, Live(rows, now), prefix, child, floor);
    if best.Some? then Some(Served(best.value, now)) else None
  }

  // ----- facts about the table statements -----

  lemma {:induction false} LookupFinds(rows: Rows, r: Row)
    requires DistinctNames(rows) && r in rows
    ensures Lookup(rows, r.name) == Some(r)
  {
    if rows[0] != r {
      assert r in rows[1..];
      var k :| 0 <= k < |rows[1..]| && rows[1..][k] == r;
      assert rows[k + 1] == r;
      LookupFinds(rows[1..], r);
    }
  }

  lemma {:induction false} UpsertFacts(rows: Rows, row: Row)
    requires DistinctNames(rows)
    ensures DistinctNames(Upsert(rows, row))
    ensures forall r :: r in Upsert(rows, row) <==> r == row || (r in rows && r.name != row.name)
    ensures |Upsert(rows, row)| == if row.name in NamesOf(rows) then |rows| else |rows| + 1
  {
    if rows == [] {
    } else if rows[0].name == row.name {
      assert row.name in NamesOf(rows);
      assert rows == [rows[0]] + rows[1..];
      forall r | r in rows[1..] ensures r.name != row.name {
        var k :| 0 <= k < |rows[1..]| && rows[1..][k] == r;
        assert rows[k + 1] == r;
      }
    } else {
      var t := Upsert(rows[1..], row);
      UpsertFacts(rows[1..], row);
      assert rows == [rows[0]] + rows[1..];
      assert row.name in NamesOf(rows) <==> row.name in NamesOf(rows[1..]) by {
        if row.name in NamesOf(rows) {
          var r :| r in rows && r.name == row.name;
          assert r in rows[1..];
        }
        if row.name in NamesOf(rows[1..]) {
          var r :| r in rows[1..] && r.name == row.name;
          assert r in rows;
        }
      }
      forall j | 0 <= j < |t| ensures t[j].name != rows[0].name {
        assert t[j] in t;
        if t[j] != row {
          var k :| 0 <= k < |rows[1..]| && rows[1..][k] == t[j];
          assert rows[k + 1] == t[j];
        }
      }
    }
  }

  lemma {:induction false} WithoutFacts(rows: Rows, names: set<Name>)
    requires DistinctNames(rows)
    ensures DistinctNames(Without(rows, names))
    ensures NamesOf(Without(rows, names)) == NamesOf(rows) - names
  {
    if rows != [] {
      WithoutFacts(rows[1..], names);
      var t := Without(rows[1..], names);
      forall j | 0 <= j < |t| ensures t[j].name != rows[0].name {
        assert t[j] in t;
        var k :| 0 <= k < |rows[1..]| && rows[1..][k] == t[j];
        assert rows[k + 1] == t[j];
      }
    }
    assert forall x :: x in Without(rows, names) ==> x in rows;
  }

  lemma {:induction false} WithoutTwice(rows: Rows, a: set<Name>, b: set<Name>)
    ensures Without(Without(rows, a), b) == Without(rows, a + b)
  {
    if rows != [] {
      WithoutTwice(rows[1..], a, b);
    }
  }

  lemma {:induction false} WithoutNothing(rows: Rows, names: set<Name>)
    requires names !! NamesOf(rows)
    ensures Without(rows, names) == rows
  {
    if rows != [] {
      assert rows[0].name in NamesOf(rows);
      assert forall x :: x in NamesOf(rows[1..]) ==> x in NamesOf(rows);
      WithoutNothing(rows[1..], names);
    }
  }

  lemma {:induction false} NamesCardinality(rows: Rows)
    requires DistinctNames(rows)
    ensures |NamesOf(rows)| == |rows|
  {
    if rows == [] {
      assert NamesOf(rows) == {};
    } else {
      NamesCardinality(rows[1..]);
      assert NamesOf(rows) == {rows[0].name} + NamesOf(rows[1..]);
      assert rows[0].name !in NamesOf(rows[1..]);
    }
  }

  lemma WithoutSize(rows: Rows, names: set<Name>)
    requires DistinctNames(rows) && names <= NamesOf(rows)
    ensures |Without(rows, names)| == |rows| - |names|
  {
    WithoutFacts(rows, names);
    NamesCardinality(rows);
    NamesCardinality(Without(rows, names));
  }

  lemma {:induction false} InsertKeepsDistinct(row: Row, s: Rows, le: (Row, Row) -> bool)
    requires DistinctNames(s) && row.name !in NamesOf(s)
    ensures DistinctNames(InsertSorted(row, s, le))
  {
    if s == [] || le(row, s[0]) {
      assert forall j :: 0 <= j < |s| ==> s[j].name in NamesOf(s);
    } else {
      assert forall x :: x in NamesOf(s[1..]) ==> x in NamesOf(s);
      InsertKeepsDistinct(row, s[1..], le);
      var t := InsertSorted(row, s[1..], le);
      forall j | 0 <= j < |t| ensures t[j].name != s[0].name {
        assert t[j] in t && s[0].name in NamesOf(s);
        if t[j] != row {
          var k :| 0 <= k < |s[1..]| && s[1..][k] == t[j];
          assert s[k + 1] == t[j];
        }
      }
    }
  }

  lemma {:induction false} SortKeepsDistinct(rows: Rows, le: (Row, Row) -> bool)
    requires DistinctNames(rows)
    ensures DistinctNames(Sort(rows, le))
  {
    if rows != [] {
      SortKeepsDistinct(rows[1..], le);
      InsertKeepsDistinct(rows[0], Sort(rows[1..], le), le);
    }
  }

  lemma OldestNamesSize(rows: Rows, count: nat)
    requires DistinctNames(rows)
    ensures OldestNames(rows, count) <= NamesOf(rows)
    ensures |OldestNames(rows, count)| == Min(count, |rows|)
  {
    var s := Sort(rows, OlderFirst);
    SortKeepsDistinct(rows, OlderFirst);
    var k := Min(count, |rows|);
    NamesCardinality(s[..k]);
    assert forall r :: r in s[..k] ==> r in s;
  }

  /** Eviction removes exactly `count` rows, and none of them is newer than a row it keeps. */
  lemma EvictionIsByAge(rows: Rows, count: nat)
    requires DistinctNames(rows) && count <= |rows|
    ensures |EvictOldest(rows, count)| == |rows| - count
    ensures DistinctNames(EvictOldest(rows, count))
    ensures forall kept, gone :: kept in EvictOldest(rows, count) && gone in rows && gone !in EvictOldest(rows, count)
              ==> gone.insertedAt <= kept.insertedAt
  {
    hide Sort, Without, NamesOf, OldestNames;
    OldestNamesSize(rows, count);
    WithoutSize(rows, OldestNames(rows, count));
    WithoutFacts(rows, OldestNames(rows, count));
    forall kept, gone | kept in EvictOldest(rows, count) && gone in rows && gone !in EvictOldest(rows, count)
      ensures gone.insertedAt <= kept.insertedAt
    {
      OldestAreOld(rows, count, kept, gone);
    }
  }

  lemma OldestAreOld(rows: Rows, count: nat, kept: Row, gone: Row)
    requires DistinctNames(rows) && count <= |rows| && kept in rows && gone in rows
    requires kept.name !in OldestNames(rows, count) && gone.name in OldestNames(rows, count)
    ensures gone.insertedAt <= kept.insertedAt
  {
    hide Sort, OldestNames;
    var s := Sort(rows, OlderFirst);
    SortIsSorted(rows, OlderFirst);
    var i := OldestAt(rows, count, gone.name);
    SameRow(rows, s[i], gone);
    var j :| 0 <= j < |s| && s[j] == kept;
    PositionIsOldest(rows, count, j);
    assert OlderFirst(s[i], s[j]);
  }

  lemma OldestAt(rows: Rows, count: nat, n: Name) returns (i: nat)
    requires count <= |rows| && n in OldestNames(rows, count)
    ensures i < count && Sort(rows, OlderFirst)[i].name == n
  {
    var s := Sort(rows, OlderFirst);
    var g :| g in s[..count] && g.name == n;
    i :| 0 <= i < count && s[i] == g;
  }

  lemma PositionIsOldest(rows: Rows, count: nat, j: nat)
    requires count <= |rows| && j < |rows|
    ensures j < count ==> Sort(rows, OlderFirst)[j].name in OldestNames(rows, count)
  {
    if j < count {
      assert Sort(rows, OlderFirst)[..count][j] == Sort(rows, OlderFirst)[j];
    }
  }

  lemma SameRow(rows: Rows, a: Row, b: Row)
    requires DistinctNames(rows) && a in rows && b in rows && a.name == b.name
    ensures a == b
  {
  }

  // ----- what callers rely on -----

  lemma InsertKeepsValid(cfg: Config, rows: Rows, name: Name, d: Data, now: nat)
    requires ValidRows(rows)
    ensures ValidRows(Inserted(cfg, rows, name, d, now))
    ensures forall r :: r in Inserted(cfg, rows, name, d, now) ==> r == RowFor(cfg, name, d, now) || r in rows
  {
    hide Upsert, Without, OldestNames;
    var row := RowFor(cfg, name, d, now);
    UpsertFacts(rows, row);
    var updated := Upsert(rows, row);
    if |updated| > cfg.capacity {
      WithoutFacts(updated, OldestNames(updated, |updated| - cfg.capacity));
    }
  }

  /** However many rows there were, an insert leaves at most `capacity` of them. */
  lemma InsertKeepsCapacity(cfg: Config, rows: Rows, name: Name, d: Data, now: nat)
    requires DistinctNames(rows)
    ensures |Inserted(cfg, rows, name, d, now)| <= cfg.capacity
    ensures |Inserted(cfg, rows, name, d, now)| >= Min(|rows|, cfg.capacity)
  {
    hide Upsert, EvictOldest, RowFor;
    var updated := Upsert(rows, RowFor(cfg, name, d, now));
    UpsertFacts(rows, RowFor(cfg, name, d, now));
    if |updated| > cfg.capacity {
      EvictionIsByAge(updated, |updated| - cfg.capacity);
    }
  }

  /** Under a clock that never runs backwards, a row is never evicted by its own insert. */
  lemma NewRowSurvives(cfg: Config, rows: Rows, name: Name, d: Data, now: nat)
    requires ValidRows(rows) && |rows| <= cfg.capacity && cfg.capacity >= 1 && InsertedBy(rows, now)
    ensures Lookup(Inserted(cfg, rows, name, d, now), name.Unpinned()) == Some(RowFor(cfg, name, d, now))
    ensures InsertedBy(Inserted(cfg, rows, name, d, now), now)
  {
    var row := RowFor(cfg, name, d, now);
    UpsertFacts(rows, row);
    var updated := Upsert(rows, row);
    InsertKeepsValid(cfg, rows, name, d, now);
    assert row in updated;
    if |updated| > cfg.capacity {
      NewestIsNotOldest(rows, row, cfg);
    }
    LookupFinds(Inserted(cfg, rows, name, d, now), row);
  }

  /** Only a full table evicts on insert, and then the new row is last in row order. */
  lemma NewestIsNotOldest(rows: Rows, row: Row, cfg: Config)
    requires DistinctNames(rows) && |rows| <= cfg.capacity && cfg.capacity >= 1 && InsertedBy(rows, row.insertedAt)
    requires |Upsert(rows, row)| > cfg.capacity
    ensures |Upsert(rows, row)| - cfg.capacity == 1
    ensures row in EvictOldest(Upsert(rows, row), 1)
  {
    hide Upsert, Sort, Without;
    UpsertFacts(rows, row);
    var updated := Upsert(rows, row);
    UpsertAppends(rows, row);
    LatestSortsLast(rows, row);
    var s := Sort(updated, OlderFirst);
    SortKeepsDistinct(updated, OlderFirst);
    assert s[|s| - 1] == row;
    assert s[0].name != s[|s| - 1].name;
    assert s[..1] == [s[0]];
    assert row.name !in NamesOf(s[..1]);
  }

  lemma {:induction false} UpsertAppends(rows: Rows, row: Row)
    requires row.name !in NamesOf(rows)
    ensures Upsert(rows, row) == rows + [row]
  {
    if rows != [] {
      assert rows[0].name in NamesOf(rows);
      assert forall x :: x in NamesOf(rows[1..]) ==> x in NamesOf(rows);
      UpsertAppends(rows[1..], row);
    }
  }

  lemma {:induction false} LatestSortsLast(rows: Rows, row: Row)
    requires InsertedBy(rows, row.insertedAt)
    ensures Sort(rows + [row], OlderFirst) == Sort(rows, OlderFirst) + [row]
  {
    if rows == [] {
      assert Sort([row][1..], OlderFirst) == [];
    } else {
      assert (rows + [row])[1..] == rows[1..] + [row];
      LatestSortsLast(rows[1..], row);
      assert rows[0].insertedAt <= row.insertedAt;
      InsertBeforeLatest(rows[0], Sort(rows[1..], OlderFirst), row);
    }
  }

  lemma {:induction false} InsertBeforeLatest(x: Row, s: Rows, row: Row)
    requires x.insertedAt <= row.insertedAt
    ensures InsertSorted(x, s + [row], OlderFirst) == InsertSorted(x, s, OlderFirst) + [row]
  {
    if s != [] && !OlderFirst(x, s[0]) {
      assert (s + [row])[1..] == s[1..] + [row];
      InsertBeforeLatest(x, s[1..], row);
    }
  }

  lemma {:induction false} LiveKeepsRow(rows: Rows, names: set<Name>, n: Name)
    requires n !in names
    ensures Lookup(Without(rows, names), n) == Lookup(rows, n)
  {
    if rows != [] && rows[0].name != n {
      LiveKeepsRow(rows[1..], names, n);
    }
  }

  /** Field by field, the Data a row answers with: its age in the store, and fresh only while the
      producer's flag and declared period say so. */
  predicate IsCopyOfRow(d: Data, r: Row, now: nat) {
    && d.name == r.name && d.content == r.content
    && (if r.signature.Some? && r.signature.value != [] then d.signature == r.signature else d.signature.None?)
    && d.metadata.contentHash == Some(r.contentHash) && d.metadata.sequence == r.sequence
    && d.metadata.signedAt == r.signedAt && d.metadata.encrypted == r.encrypted
    && d.metadata.freshnessPeriod == r.freshnessPeriod
    && (r.insertedAt <= now ==> d.metadata.age == now - r.insertedAt) && (now < r.insertedAt ==> d.metadata.age == 0)
    && (d.metadata.isFresh <==>
        && r.isFresh
        && (r.freshnessPeriod.Some? ==>
              now < r.insertedAt + r.freshnessPeriod.value && r.freshnessPeriod.value > 0))
  }

  /** In the store and not past its time. */
  predicate IsLive(rows: Rows, r: Row, now: nat) {
    r in rows && (r.expiresAt.Some? ==> now < r.expiresAt.value)
  }

  /** The content hash Data comes with, if it comes with any, is that of its content. */
  predicate BearsOwnHash(cfg: Config, d: Data) {
    d.metadata.contentHash in {None, Some([]), Some(cfg.hash(d.content))}
  }

  /** What is stored is what is served, and as long as it should be: Data inserted is read back until
      the time its name is kept for is over, unless it came with a wrong content hash; and then with
      its content, sequence, signing time, encryption flag, declared period and signature, with the
      hash of its content, with the time since then as its age. */
  lemma InsertThenGet(cfg: Config, rows: Rows, d: Data, now: nat, later: nat)
    requires ValidRows(rows) && |rows| <= cfg.capacity && cfg.capacity >= 1 && InsertedBy(rows, now) && now <= later
    ensures var got := Get(cfg, Inserted(cfg, rows, d.name, d, now), d.name.Unpinned(), later);
      var ttl, m := cfg.ttl(d.name.Unpinned()), d.metadata;
      && (got.Some? <==> BearsOwnHash(cfg, d) && (ttl.Some? && ttl.value > 0 ==> later < now + ttl.value))
      && (got.Some? ==>
            && got.value.name == d.name.Unpinned() && got.value.content == d.content
            && (d.signature != Some([]) ==> got.value.signature == d.signature)
            && got.value.metadata.contentHash == Some(cfg.hash(d.content))
            && got.value.metadata.sequence == m.sequence && got.value.metadata.signedAt == m.signedAt
            && got.value.metadata.encrypted == m.encrypted && got.value.metadata.freshnessPeriod == m.freshnessPeriod
            && got.value.metadata.age == later - now
            && got.value.metadata.isFresh ==
                 (m.isFresh && (m.freshnessPeriod.None? || later - now < m.freshnessPeriod.value)))
  {
    var after := Inserted(cfg, rows, d.name, d, now);
    var row := RowFor(cfg, d.name, d, now);
    NewRowSurvives(cfg, rows, d.name, d, now);
    InsertKeepsValid(cfg, rows, d.name, d, now);
    GetIsExact(cfg, after, d.name.Unpinned(), later);
    assert forall r :: r in after && r.name == row.name ==> r == row by {
      forall r | r in after && r.name == row.name ensures r == row {
        LookupFinds(after, r);
      }
    }
  }

  /** A row an exact lookup may answer with. */
  predicate IsAskedFor(cfg: Config, rows: Rows, r: Row, n: Name, now: nat) {
    && IsLive(rows, r, now) && r.name == n.Unpinned()
    && r.contentHash == cfg.hash(r.content) && (n.pin.Some? ==> n.pin.value == cfg.hash(r.content))
  }

  /** An exact lookup answers with the live row of that name whose content has its recorded hash, and
      for a pinned request the hash asked for; and with nothing exactly when there is none. */
  lemma GetIsExact(cfg: Config, rows: Rows, n: Name, now: nat)
    requires DistinctNames(rows)
    ensures Get(cfg, rows, n, now).None? <==> forall r :: r in rows ==> !IsAskedFor(cfg, rows, r, n, now)
    ensures Get(cfg, rows, n, now).Some? ==>
      exists r :: IsAskedFor(cfg, rows, r, n, now) && IsCopyOfRow(Get(cfg, rows, n, now).value, r, now)
  {
    var live := Live(rows, now);
    var found := Lookup(live, n.Unpinned());
    if found.Some? {
      LiveIsUnexpired(rows, now, found.value);
    }
    forall r | r in rows && IsAskedFor(cfg, rows, r, n, now) ensures Get(cfg, rows, n, now).Some? {
      LiveIsUnexpired(rows, now, r);
      assert r.name in NamesOf(live);
      LookupFinds(rows, r);
      LookupFinds(rows, found.value);
    }
  }

  /** A row a prefix lookup may answer with: live, under the prefix, with content matching its hash;
      and for a child selector sequenced, at or above the floor, and not a discovery object, whose
      last label starts with octet 0. */
  predicate Eligible(cfg: Config, rows: Rows, r: Row, prefix: Name, child: ChildSelector, floor: Option<nat>,
      now: nat) {
    && IsLive(rows, r, now) && r.contentHash == cfg.hash(r.content)
    && prefix.pin == None && prefix.Components() <= r.name.Components()
    && (child != AnyChild ==>
          && r.sequence.Some? && (floor.Some? ==> r.sequence.value >= floor.value)
          && var last := r.name.Components()[r.name.Len() - 1]; last == [] || last[0] != 0)
  }

  ghost predicate Beats(best: Row, r: Row, child: ChildSelector) {
    match child
    case AnyChild => r.insertedAt <= best.insertedAt
    case Latest =>
      && best.sequence.Some? && r.sequence.Some? && r.sequence.value <= best.sequence.value
      && (r.sequence == best.sequence ==> r.insertedAt <= best.insertedAt)
    case Oldest =>
      && best.sequence.Some? && r.sequence.Some? && best.sequence.value <= r.sequence.value
      && (r.sequence == best.sequence ==> r.insertedAt <= best.insertedAt)
  }

  lemma OrdersAreTotal(child: ChildSelector)
    ensures TotalPreorder(Order(child))
  {
    match child
    case AnyChild =>
    case Latest =>
    case Oldest =>
  }

  lemma LiveIsUnexpired(rows: Rows, now: nat, r: Row)
    requires DistinctNames(rows)
    ensures r in Live(rows, now) <==> IsLive(rows, r, now)
  {
    if r in rows && r.name in ExpiredNames(rows, now) {
      var x :| x in rows && x.Expired(now) && x.name == r.name;
      LookupFinds(rows, x);
      LookupFinds(rows, r);
    }
  }

  lemma EligibleAnswers(cfg: Config, rows: Rows, r: Row, prefix: Name, child: ChildSelector, floor: Option<nat>,
      now: nat)
    ensures Eligible(cfg, rows, r, prefix, child, floor, now) <==>
      IsLive(rows, r, now) && prefix.pin == None && r.name.StartsWith(prefix) && Selected(r, child, floor)
      && Answers(cfg, r, child)
  {
    StartsWithIsComponentPrefix(r.name, prefix);
  }

  ghost predicate IsBest(cfg: Config, rows: Rows, best: Row, prefix: Name, child: ChildSelector,
      floor: Option<nat>, now: nat) {
    && Eligible(cfg, rows, best, prefix, child, floor, now)
    && forall r :: Eligible(cfg, rows, r, prefix, child, floor, now) ==> Beats(best, r, child)
  }

  /** Child selection is exact: a prefix lookup answers with the extreme eligible row, the newest or
      that of the highest or lowest sequence, and with nothing exactly when no row is eligible. */
  lemma GetPrefixIsExact(cfg: Config, rows: Rows, prefix: Name, child: ChildSelector, floor: Option<nat>, now: nat)
    requires DistinctNames(rows)
    ensures var got := GetPrefix(cfg, rows, prefix, child, floor, now);
      && (got.None? <==> forall r :: r in rows ==> !Eligible(cfg, rows, r, prefix, child, floor, now))
      && (got.Some? ==>
            exists r :: IsBest(cfg, rows, r, prefix, child, floor, now) && IsCopyOfRow(got.value, r, now))
  {
    hide Eligible, Beats, BestRow;
    BestRowIsExact(cfg, rows, prefix, child, floor, now);
  }

  /** Any answer lies under the name asked for. */
  lemma AnswersAreUnder(cfg: Config, rows: Rows, n: Name, child: ChildSelector, floor: Option<nat>, now: nat)
    requires DistinctNames(rows)
    ensures var got := GetPrefix(cfg, rows, n, child, floor, now); got.Some? ==> got.value.name.StartsWith(n)
    ensures var got := Get(cfg, rows, n, now); got.Some? ==> got.value.name.StartsWith(n)
  {
    hide GetPrefix, Get, Beats;
    GetIsExact(cfg, rows, n, now);
    GetPrefixIsExact(cfg, rows, n, child, floor, now);
    var got := GetPrefix(cfg, rows, n, child, floor, now);
    if got.Some? {
      var r :| IsBest(cfg, rows, r, n, child, floor, now) && IsCopyOfRow(got.value, r, now);
      StartsWithIsComponentPrefix(r.name, n);
    }
  }

  lemma BestRowIsExact(cfg: Config, rows: Rows, prefix: Name, child: ChildSelector, floor: Option<nat>, now: nat)
    requires DistinctNames(rows)
    ensures var best := BestRow(cfg, Live(rows, now), prefix, child, floor);
      && (best.None? <==> forall r :: r in rows ==> !Eligible(cfg, rows, r, prefix, child, floor, now))
      && (best.Some? ==> IsBest(cfg, rows, best.value, prefix, child, floor, now))
  {
    hide Eligible, Live, Sort, Selected, Answers, FirstAnswer, FirstAnswerAt, Beats,
      HighestFirst, LowestFirst, NewestFirst;
    var found := Under(Live(rows, now), prefix, child, floor);
    var ordered := Sort(found, Order(child));
    OrdersAreTotal(child);
    SortIsSorted(found, Order(child));
    var k := FirstAnswerAt(cfg, ordered, child);
    assert forall r :: r in ordered ==> Selected(r, child, floor);
    SelectedHaveSequence(ordered, child, floor);
    forall r | Eligible(cfg, rows, r, prefix, child, floor, now)
      ensures k < |ordered| && Beats(ordered[k], r, child)
    {
      EligibleAnswers(cfg, rows, r, prefix, child, floor, now);
      LiveIsUnexpired(rows, now, r);
      assert r in found;
      EarlierBeatsLater(cfg, ordered, child, r, k);
    }
    if k < |ordered| {
      assert ordered[k] in found;
      LiveIsUnexpired(rows, now, ordered[k]);
      EligibleAnswers(cfg, rows, ordered[k], prefix, child, floor, now);
      EligibleIsThere(cfg, rows, ordered[k], prefix, child, floor, now);
    }
  }

  lemma EligibleIsThere(cfg: Config, rows: Rows, r: Row, prefix: Name, child: ChildSelector, floor: Option<nat>,
      now: nat)
    requires Eligible(cfg, rows, r, prefix, child, floor, now)
    ensures r in rows
  {
  }

  lemma SelectedHaveSequence(rows: Rows, child: ChildSelector, floor: Option<nat>)
    requires forall r :: r in rows ==> Selected(r, child, floor)
    ensures child != AnyChild ==> forall r :: r in rows ==> r.sequence.Some?
  {
  }

  lemma EarlierBeatsLater(cfg: Config, ordered: Rows, child: ChildSelector, r: Row, k: nat)
    requires SortedBy(ordered, Order(child)) && r in ordered && Answers(cfg, r, child)
    requires k == FirstAnswerAt(cfg, ordered, child)
    requires child != AnyChild ==> forall x :: x in ordered ==> x.sequence.Some?
    ensures k < |ordered| && Beats(ordered[k], r, child)
  {
    var i :| 0 <= i < |ordered| && ordered[i] == r;
    assert k <= i;
    assert ordered[k] in ordered;
    if k < i {
      assert Order(child)(ordered[k], ordered[i]);
    }
  }
}
