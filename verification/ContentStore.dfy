/** The content store with both of its tables (rns_icn/content_store.py): `content`, and
    `name_prefixes`, which pairs every hash-free prefix of a stored name with that name.
    Each method works on the two tables statement by statement; its contract says that the
    rows end up as the functions in Store.dfy say and that the index still describes them. */
module ContentStores {
  import opened Base
  import opened Names
  import opened Packets
  import opened Sorting
  import opened Store

  type Index = set<(Name, Name)>

  /** The index a table of rows should have. */
  ghost function PrefixIndex(rows: Rows): Index {
    set r, i | r in rows && 1 <= i <= r.name.Len() :: (r.name.Prefix(i), r.name)
  }

  /** A pair is in the index exactly when its second half is stored and its first half is one of
      that name's hash-free prefixes; so the index finds what a scan with `StartsWith` finds. */
  lemma IndexIsScan(rows: Rows, p: Name, n: Name)
    ensures (p, n) in PrefixIndex(rows) <==> n in NamesOf(rows) && p.pin == None && n.StartsWith(p)
  {
    PrefixesAreStartsWith(n, p);
    if n in NamesOf(rows) && p.pin == None && n.StartsWith(p) {
      var r :| r in rows && r.name == n;
      assert p == r.name.Prefix(p.Len());
    }
    if (p, n) in PrefixIndex(rows) {
      var r, i :| r in rows && 1 <= i <= r.name.Len() && (p, n) == (r.name.Prefix(i), r.name);
    }
  }

  lemma IndexAfterDelete(rows: Rows, gone: set<Name>)
    ensures PrefixIndex(Without(rows, gone)) == set e | e in PrefixIndex(rows) && e.1 !in gone
  {
    forall p, n ensures (p, n) in PrefixIndex(Without(rows, gone)) <==> (p, n) in PrefixIndex(rows) && n !in gone {
      IndexIsScan(rows, p, n);
      IndexIsScan(Without(rows, gone), p, n);
      if n in NamesOf(rows) && n !in gone {
        var r :| r in rows && r.name == n;
        assert r in Without(rows, gone);
      }
    }
    assert forall e :: e in PrefixIndex(Without(rows, gone)) <==> (e.0, e.1) in PrefixIndex(Without(rows, gone));
  }

  lemma IndexAfterUpsert(rows: Rows, row: Row)
    requires DistinctNames(rows)
    ensures PrefixIndex(Upsert(rows, row))
         == (set e | e in PrefixIndex(rows) && e.1 != row.name)
            + (set i | 1 <= i <= row.name.Len() :: (row.name.Prefix(i), row.name))
  {
    UpsertFacts(rows, row);
    var added := set i | 1 <= i <= row.name.Len() :: (row.name.Prefix(i), row.name);
    forall p, n ensures (p, n) in PrefixIndex(Upsert(rows, row))
        <==> ((p, n) in PrefixIndex(rows) && n != row.name) || (p, n) in added
    {
      IndexIsScan(rows, p, n);
      IndexIsScan(Upsert(rows, row), p, n);
      PrefixesAreStartsWith(n, p);
      assert row in Upsert(rows, row);
      if n == row.name && n.StartsWith(p) && p.pin == None {
        assert (row.name.Prefix(p.Len()), row.name) in added;
      }
    }
    assert forall e :: e in PrefixIndex(Upsert(rows, row)) <==> (e.0, e.1) in PrefixIndex(Upsert(rows, row));
  }

  /** The JOIN of the two tables behind a prefix lookup. */
  function Joined(rows: Rows, index: Index, prefix: Name, child: ChildSelector, floor: Option<nat>): Rows {
    if rows == [] then []
    else
      (if (prefix, rows[0].name) in index && Selected(rows[0], child, floor) then [rows[0]] else [])
      + Joined(rows[1..], index, prefix, child, floor)
  }

  lemma {:induction false} JoinIsScan(all: Rows, rows: Rows, prefix: Name, child: ChildSelector, floor: Option<nat>)
    requires forall r :: r in rows ==> r in all
    ensures Joined(rows, PrefixIndex(all), prefix, child, floor) == Under(rows, prefix, child, floor)
  {
    if rows != [] {
      IndexIsScan(all, prefix, rows[0].name);
      assert rows[0] in all;
      JoinIsScan(all, rows[1..], prefix, child, floor);
    }
  }

  function ExpiredRows(rows: Rows, now: nat): (r: Rows)
    ensures forall x :: x in r <==> x in rows && x.Expired(now)
  {
    if rows == [] then []
    else (if rows[0].Expired(now) then [rows[0]] else []) + ExpiredRows(rows[1..], now)
  }

  /** The names filed under a prefix in the index, in row order. */
  function IndexedRows(rows: Rows, index: Index, prefix: Name): (r: Rows)
    ensures forall x :: x in r <==> x in rows && (prefix, x.name) in index
  {
    if rows == [] then []
    else (if (prefix, rows[0].name) in index then [rows[0]] else []) + IndexedRows(rows[1..], index, prefix)
  }

  /** The names a scan finds under a prefix; none when the prefix is pinned. */
  function NamesUnder(rows: Rows, prefix: Name): set<Name> {
    set r | r in rows && prefix.pin == None && r.name.StartsWith(prefix) :: r.name
  }

  lemma ValidMeansDistinct(rows: Rows)
    requires ValidRows(rows)
    ensures DistinctNames(rows)
  {
  }

  class ContentStore {
    const cfg: Config
    var content: Rows
    var index: Index
    var hits: nat
    var misses: nat

    ghost predicate Valid()
      reads this
    {
      ValidRows(content) && index == PrefixIndex(content)
    }

    constructor (hash: bytes -> bytes, ttl: Name -> Option<int>, maxEntries: int)
      ensures Valid() && content == [] && hits == 0 && misses == 0
      ensures cfg == Config(hash, ttl, Max(1, maxEntries))
    {
      cfg := Config(hash, ttl, Max(1, maxEntries));
      content, index, hits, misses := [], {}, 0, 0;
    }

    /** The two DELETE statements that always go together. */
    method DeleteRow(n: Name) returns (deleted: nat)
      requires Valid()
      modifies this`content, this`index
      ensures Valid()
      ensures content == Without(old(content), {n})
      ensures deleted == |old(content)| - |content| == if n in NamesOf(old(content)) then 1 else 0
    {
      hide Without, PrefixIndex, NamesOf;
      IndexAfterDelete(content, {n});
      WithoutFacts(content, {n});
      NamesCardinality(content);
      NamesCardinality(Without(content, {n}));
      var before := |content|;
      content := Without(content, {n});
      index := set e | e in index && e.1 != n;
      deleted := before - |content|;
    }

    /** Deletes the selected rows one after the other. */
    method DeleteAll(rows: Rows) returns (deleted: nat)
      requires Valid()
      modifies this`content, this`index
      ensures Valid()
      ensures content == Without(old(content), NamesOf(rows))
      ensures deleted == |old(content)| - |content|
    {
      deleted := 0;
      WithoutNothing(content, {});
      assert NamesOf(rows[..0]) == {};
      for i := 0 to |rows|
        invariant Valid()
        invariant content == Without(old(content), NamesOf(rows[..i]))
        invariant deleted == |old(content)| - |content|
      {
        WithoutTwice(old(content), NamesOf(rows[..i]), {rows[i].name});
        assert rows[..i + 1] == rows[..i] + [rows[i]];
        assert NamesOf(rows[..i + 1]) == NamesOf(rows[..i]) + {rows[i].name};
        var one := DeleteRow(rows[i].name);
        deleted := deleted + one;
      }
      assert rows[..|rows|] == rows;
    }

    /** Keyed by the unpinned name.  `ok` is false where the source raises and rolls back. */
    method Insert(name: Name, d: Data, now: nat) returns (ok: bool)
      requires Valid()
      modifies this`content, this`index
      ensures Valid()
      ensures ok == Storable(d.(name := name))
      ensures ok ==> content == Inserted(cfg, old(content), name, d, now) && |content| <= cfg.capacity
      ensures !ok ==> content == old(content) && index == old(index)
    {
      ok := Storable(d.(name := name));
      if !ok {
        return;
      }
      hide Upsert, EvictOldest, RowFor, ValidRows, PrefixIndex;
      ValidMeansDistinct(content);
      InsertKeepsCapacity(cfg, content, name, d, now);
      UpsertRow(RowFor(cfg, name, d, now));
      if |content| > cfg.capacity {
        var evicted := EvictLru(|content| - cfg.capacity);
      }
    }

    /** The upsert of one row, with its old prefixes replaced by its new ones. */
    method UpsertRow(row: Row)
      requires Valid() && row.name.pin == None
      modifies this`content, this`index
      ensures Valid() && content == Upsert(old(content), row)
    {
      hide Upsert, PrefixIndex;
      UpsertFacts(content, row);
      IndexAfterUpsert(content, row);
      content := Upsert(content, row);
      index := set e | e in index && e.1 != row.name;
      AddPrefixes(row.name);
    }

    /** Files a name under each of its prefixes, shortest first. */
    method AddPrefixes(n: Name)
      modifies this`index
      ensures index == old(index) + set i | 1 <= i <= n.Len() :: (n.Prefix(i), n)
    {
      var i := 1;
      while i < n.Len() + 1
        invariant 1 <= i <= n.Len() + 1
        invariant index == old(index) + set k | 1 <= k < i :: (n.Prefix(k), n)
      {
        index := index + {(n.Prefix(i), n)};
        i := i + 1;
      }
    }

    /** Deletes the `count` rows inserted longest ago, or every row if there are fewer. */
    method EvictLru(count: nat) returns (evicted: nat)
      requires Valid()
      modifies this`content, this`index
      ensures Valid()
      ensures content == EvictOldest(old(content), count)
      ensures evicted == Min(count, |old(content)|) == |old(content)| - |content|
    {
      EvictionIsByAge(content, Min(count, |content|));
      evicted := DeleteAll(Sort(content, OlderFirst)[..Min(count, |content|)]);
    }

    method EvictDownTo(target: nat) returns (evicted: nat)
      requires Valid()
      modifies this`content, this`index
      ensures Valid()
      ensures |content| == Min(target, |old(content)|)
      ensures content == EvictOldest(old(content), evicted)
    {
      evicted := EvictLru(Max(0, |content| - target));
    }

    method PurgeExpired(now: nat) returns (purged: nat)
      requires Valid()
      modifies this`content, this`index
      ensures Valid()
      ensures content == Live(old(content), now)
      ensures purged == |old(content)| - |content|
    {
      var rows := ExpiredRows(content, now);
      assert NamesOf(rows) == ExpiredNames(content, now);
      purged := DeleteAll(rows);
    }

    method Fetch(n: Name, now: nat) returns (d: Option<Data>)
      requires Valid()
      modifies this
      ensures Valid()
      ensures content == Live(old(content), now)
      ensures d == Get(cfg, old(content), n, now)
      ensures hits == old(hits) + (if d.Some? then 1 else 0)
      ensures misses == old(misses) + (if d.Some? then 0 else 1)
    {
      var purged := PurgeExpired(now);
      var row := Lookup(content, n.Unpinned());
      if row.None? || !HashValid(cfg, row.value) || (n.pin.Some? && cfg.hash(row.value.content) != n.pin.value) {
        misses := misses + 1;
        return None;
      }
      hits := hits + 1;
      return Some(Served(row.value, now));
    }

    method FetchPrefix(prefix: Name, child: ChildSelector, floor: Option<nat>, now: nat) returns (d: Option<Data>)
      requires Valid()
      modifies this
      ensures Valid()
      ensures content == Live(old(content), now)
      ensures d == GetPrefix(cfg, old(content), prefix, child, floor, now)
      ensures hits == old(hits) + (if d.Some? then 1 else 0)
      ensures misses == old(misses) + (if d.Some? then 0 else 1)
    {
      hide Sort, Joined, Under, Without, PrefixIndex;
      var purged := PurgeExpired(now);
      JoinIsScan(content, content, prefix, child, floor);
      var rows := Sort(Joined(content, index, prefix, child, floor), Order(child));
      for i := 0 to |rows|
        invariant Valid() && content == Live(old(content), now)
        invariant hits == old(hits) && misses == old(misses)
        invariant FirstAnswer(cfg, rows, child) == FirstAnswer(cfg, rows[i..], child)
      {
        if child != AnyChild && IsReserved(rows[i].name) {
          continue;
        }
        if HashValid(cfg, rows[i]) {
          hits := hits + 1;
          return Some(Served(rows[i], now));
        }
      }
      misses := misses + 1;
      return None;
    }

    method RemoveEntry(n: Name) returns (existed: bool)
      requires Valid()
      modifies this`content, this`index
      ensures Valid()
      ensures content == Without(old(content), {n})
      ensures existed <==> n in NamesOf(old(content))
    {
      var deleted := DeleteRow(n);
      existed := deleted > 0;
    }

    /** Cache invalidation: an exact name, or every stored name under a prefix. */
    method Invalidate(n: Name, prefix: bool) returns (removed: nat)
      requires Valid()
      modifies this`content, this`index
      ensures Valid()
      ensures content == Without(old(content), if prefix then NamesUnder(old(content), n) else {n})
      ensures removed == |old(content)| - |content|
    {
      if !prefix {
        removed := DeleteRow(n);
        return;
      }
      var rows := IndexedRows(content, index, n);
      forall x | x in content ensures (n, x.name) in index <==> n.pin == None && x.name.StartsWith(n) {
        IndexIsScan(content, n, x.name);
      }
      assert NamesOf(rows) == NamesUnder(content, n);
      removed := DeleteAll(rows);
    }

    method Contains(n: Name) returns (found: bool)
      requires Valid()
      ensures found <==> n in NamesOf(content)
    {
      found := Lookup(content, n).Some?;
    }
  }

  /** Prefix invalidation by the index removes exactly the rows a scan would: afterwards nothing
      stored starts with the prefix, and every other row is still there. */
  lemma InvalidationIsExact(rows: Rows, n: Name)
    requires ValidRows(rows) && n.pin == None
    ensures forall r :: r in Without(rows, NamesUnder(rows, n)) <==> r in rows && !r.name.StartsWith(n)
  {
    forall r | r in rows ensures r.name in NamesUnder(rows, n) <==> r.name.StartsWith(n) {
    }
  }
}
