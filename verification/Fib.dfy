/** The forwarding information base (rns_icn/fib.py): prefixes with cost-ordered next hops,
    looked up by longest matching prefix. */
module Fibs {
  import opened Base
  import opened Names
  import opened Sorting

  type FaceId = nat

  datatype NextHop = NextHop(face: FaceId, cost: int)

  datatype FibEntry = FibEntry(prefix: Name, hops: seq<NextHop>)

  type Entries = seq<FibEntry>

  predicate CheaperFirst(a: NextHop, b: NextHop) { a.cost <= b.cost }

  /** Some hop in the list uses the face. */
  predicate Uses(hops: seq<NextHop>, face: FaceId) {
    exists h :: h in hops && h.face == face
  }

  ghost predicate DistinctFaces(hops: seq<NextHop>) {
    hops == [] || (!Uses(hops[1..], hops[0].face) && DistinctFaces(hops[1..]))
  }

  ghost predicate ValidHops(hops: seq<NextHop>) {
    hops != [] && DistinctFaces(hops) && SortedBy(hops, CheaperFirst)
  }

  /** The routing table an entry list stands for: the next hops of exactly this prefix. */
  function HopsOf(entries: Entries, prefix: Name): seq<NextHop> {
    if entries == [] then []
    else if entries[0].prefix == prefix then entries[0].hops
    else HopsOf(entries[1..], prefix)
  }

  ghost predicate ValidEntries(entries: Entries) {
    entries == [] ||
    (ValidHops(entries[0].hops) && HopsOf(entries[1..], entries[0].prefix) == [] && ValidEntries(entries[1..]))
  }

  /** One entry per prefix, each with a non-empty, duplicate-free list sorted by cost. */
  lemma {:induction false} ValidMeans(entries: Entries)
    requires ValidEntries(entries)
    ensures forall e :: e in entries ==> ValidHops(e.hops) && HopsOf(entries, e.prefix) == e.hops
    ensures forall i, j :: 0 <= i < j < |entries| ==> entries[i].prefix != entries[j].prefix
  {
    if entries != [] {
      ValidMeans(entries[1..]);
      forall e | e in entries[1..] ensures e.prefix != entries[0].prefix {
        assert ValidHops(HopsOf(entries[1..], e.prefix));
      }
      assert forall j :: 0 < j < |entries| ==> entries[j] in entries[1..];
      assert forall i :: 0 < i < |entries| ==> entries[i] == entries[1..][i - 1];
    }
  }

  // ----- next-hop lists -----

  function SetHop(hops: seq<NextHop>, face: FaceId, cost: int): seq<NextHop> {
    if hops == [] then [NextHop(face, cost)]
    else if hops[0].face == face then [NextHop(face, cost)] + hops[1..]
    else [hops[0]] + SetHop(hops[1..], face, cost)
  }

  function DropFace(hops: seq<NextHop>, face: FaceId): (r: seq<NextHop>)
    ensures forall h :: h in r <==> h in hops && h.face != face
    ensures |r| <= |hops|
  {
    if hops == [] then []
    else if hops[0].face == face then DropFace(hops[1..], face)
    else [hops[0]] + DropFace(hops[1..], face)
  }

  lemma {:induction false} SetHopFacts(hops: seq<NextHop>, face: FaceId, cost: int)
    requires DistinctFaces(hops)
    ensures DistinctFaces(SetHop(hops, face, cost))
    ensures forall h :: h in SetHop(hops, face, cost) <==> h == NextHop(face, cost) || (h in hops && h.face != face)
    ensures |SetHop(hops, face, cost)| == if Uses(hops, face) then |hops| else |hops| + 1
  {
    if hops != [] {
      assert hops == [hops[0]] + hops[1..];
      if hops[0].face == face {
        assert hops[0] in hops;
      } else {
        SetHopFacts(hops[1..], face, cost);
      }
    }
  }

  lemma {:induction false} DropFaceFacts(hops: seq<NextHop>, face: FaceId)
    requires DistinctFaces(hops) && SortedBy(hops, CheaperFirst)
    ensures DistinctFaces(DropFace(hops, face)) && SortedBy(DropFace(hops, face), CheaperFirst)
    ensures |DropFace(hops, face)| == |hops| <==> !Uses(hops, face)
  {
    if hops != [] {
      var t := DropFace(hops[1..], face);
      DropFaceFacts(hops[1..], face);
      assert Uses(hops, face) <==> hops[0].face == face || Uses(hops[1..], face) by {
        assert hops == [hops[0]] + hops[1..];
        assert hops[0] in hops;
      }
      forall h | h in t ensures CheaperFirst(hops[0], h) {
        var k :| 0 <= k < |hops[1..]| && hops[1..][k] == h;
        assert hops[k + 1] == h;
      }
      if hops[0].face != face {
        var r := [hops[0]] + t;
        assert r[1..] == t;
        assert forall j :: 0 < j < |r| ==> r[j] in t;
        assert forall j :: 0 < j < |r| ==> r[j] == t[j - 1];
      }
    }
  }

  lemma {:induction false} SortKeepsFaces(hops: seq<NextHop>)
    requires DistinctFaces(hops)
    ensures DistinctFaces(Sort(hops, CheaperFirst))
  {
    if hops != [] {
      SortKeepsFaces(hops[1..]);
      InsertKeepsFaces(hops[0], Sort(hops[1..], CheaperFirst));
    }
  }

  lemma {:induction false} InsertKeepsFaces(h: NextHop, s: seq<NextHop>)
    requires DistinctFaces(s) && !Uses(s, h.face)
    ensures DistinctFaces(InsertSorted(h, s, CheaperFirst))
  {
    if s != [] && !CheaperFirst(h, s[0]) {
      assert s[0] in s;
      InsertKeepsFaces(h, s[1..]);
    }
  }

  /** Adding or re-costing a face keeps a next-hop list valid, and sorting it by cost loses no hop and
      doubles none. */
  lemma SetHopKeepsValid(hops: seq<NextHop>, face: FaceId, cost: int)
    requires DistinctFaces(hops)
    ensures ValidHops(Sort(SetHop(hops, face, cost), CheaperFirst))
    ensures multiset(Sort(SetHop(hops, face, cost), CheaperFirst)) == multiset(SetHop(hops, face, cost))
  {
    SortIsPermutation(SetHop(hops, face, cost), CheaperFirst);
    SetHopFacts(hops, face, cost);
    SortKeepsFaces(SetHop(hops, face, cost));
    SortIsSorted(SetHop(hops, face, cost), CheaperFirst);
  }

  // ----- entry lists -----

  /** Insertion: the prefix's own entry re-sorted in place, or a new last entry. */
  function WithRoute(entries: Entries, prefix: Name, face: FaceId, cost: int): Entries {
    if entries == [] then [FibEntry(prefix, [NextHop(face, cost)])]
    else if entries[0].prefix == prefix then
      [FibEntry(prefix, Sort(SetHop(entries[0].hops, face, cost), CheaperFirst))] + entries[1..]
    else [entries[0]] + WithRoute(entries[1..], prefix, face, cost)
  }

  /** Entries a removal touches: all, or those related to a prefix in either direction. */
  predicate Affected(p: Name, scope: Option<Name>) {
    scope.None? || p.StartsWith(scope.value) || scope.value.StartsWith(p)
  }

  function WithoutFace(entries: Entries, face: FaceId, scope: Option<Name>): Entries {
    if entries == [] then []
    else
      var e := entries[0];
      var rest := WithoutFace(entries[1..], face, scope);
      if !Affected(e.prefix, scope) then [e] + rest
      else if DropFace(e.hops, face) == [] then rest
      else [FibEntry(e.prefix, DropFace(e.hops, face))] + rest
  }

  function WithoutPrefix(entries: Entries, prefix: Name): Entries {
    if entries == [] then []
    else if entries[0].prefix.StartsWith(prefix) then WithoutPrefix(entries[1..], prefix)
    else [entries[0]] + WithoutPrefix(entries[1..], prefix)
  }

  function EntriesUsing(entries: Entries, face: FaceId): nat {
    if entries == [] then 0
    else (if Uses(entries[0].hops, face) then 1 else 0) + EntriesUsing(entries[1..], face)
  }

  /** Inserting a route changes the hops of its own prefix, and of no other. */
  lemma {:induction false} WithRouteIsUpdate(entries: Entries, prefix: Name, face: FaceId, cost: int)
    requires ValidEntries(entries)
    ensures ValidEntries(WithRoute(entries, prefix, face, cost))
    ensures HopsOf(WithRoute(entries, prefix, face, cost), prefix)
         == Sort(SetHop(HopsOf(entries, prefix), face, cost), CheaperFirst)
    ensures forall p :: p != prefix ==> HopsOf(WithRoute(entries, prefix, face, cost), p) == HopsOf(entries, p)
  {
    if entries == [] {
      assert Sort([NextHop(face, cost)][1..], CheaperFirst) == [];
      SetHopKeepsValid([], face, cost);
    } else if entries[0].prefix == prefix {
      SetHopKeepsValid(entries[0].hops, face, cost);
    } else {
      WithRouteIsUpdate(entries[1..], prefix, face, cost);
    }
  }

  /** Withdrawal takes the face, and only it, out of the affected prefixes, and leaves no entry
      without a next hop. */
  lemma {:induction false} WithoutFaceIsFilter(entries: Entries, face: FaceId, scope: Option<Name>)
    requires ValidEntries(entries)
    ensures ValidEntries(WithoutFace(entries, face, scope))
    ensures forall p :: HopsOf(WithoutFace(entries, face, scope), p) == FilteredHops(entries, face, scope, p)
  {
    if entries != [] {
      var e := entries[0];
      var t := WithoutFace(entries[1..], face, scope);
      WithoutFaceIsFilter(entries[1..], face, scope);
      DropFaceFacts(e.hops, face);
      assert HopsOf(t, e.prefix) == FilteredHops(entries[1..], face, scope, e.prefix) == [];
      var r := WithoutFace(entries, face, scope);
      forall p ensures HopsOf(r, p) == FilteredHops(entries, face, scope, p) {
        assert HopsOf(t, p) == FilteredHops(entries[1..], face, scope, p);
      }
    }
  }

  lemma WithRouteNew(prefix: Name, face: FaceId, cost: int)
    ensures WithRoute([], prefix, face, cost) == [FibEntry(prefix, [NextHop(face, cost)])]
  {
  }

  lemma WithRouteStep(entries: Entries, i: nat, prefix: Name, face: FaceId, cost: int)
    requires i < |entries|
    ensures WithRoute(entries[i..], prefix, face, cost) ==
      if entries[i].prefix == prefix
      then [FibEntry(prefix, Sort(SetHop(entries[i].hops, face, cost), CheaperFirst))] + entries[i + 1..]
      else [entries[i]] + WithRoute(entries[i + 1..], prefix, face, cost)
  {
    assert entries[i..][1..] == entries[i + 1..];
  }

  lemma WithoutFaceNone(face: FaceId, scope: Option<Name>)
    ensures WithoutFace([], face, scope) == []
  {
  }

  lemma WithoutFaceStep(entries: Entries, i: nat, face: FaceId, scope: Option<Name>)
    requires i < |entries|
    ensures var e, rest := entries[i], WithoutFace(entries[i + 1..], face, scope);
      WithoutFace(entries[i..], face, scope) ==
        if !Affected(e.prefix, scope) then [e] + rest
        else if DropFace(e.hops, face) == [] then rest
        else [FibEntry(e.prefix, DropFace(e.hops, face))] + rest
  {
    assert entries[i..][1..] == entries[i + 1..];
  }

  function FilteredHops(entries: Entries, face: FaceId, scope: Option<Name>, p: Name): seq<NextHop> {
    if Affected(p, scope) then DropFace(HopsOf(entries, p), face) else HopsOf(entries, p)
  }

  lemma {:induction false} WithoutPrefixIsFilter(entries: Entries, prefix: Name)
    requires ValidEntries(entries)
    ensures ValidEntries(WithoutPrefix(entries, prefix))
    ensures forall p ::
      HopsOf(WithoutPrefix(entries, prefix), p) == (if p.StartsWith(prefix) then [] else HopsOf(entries, p))
  {
    if entries != [] {
      WithoutPrefixIsFilter(entries[1..], prefix);
      assert HopsOf(WithoutPrefix(entries[1..], prefix), entries[0].prefix) == [];
    }
  }

  // ----- the same in plain terms -----

  /** The routing table has this route. */
  predicate HasRoute(entries: Entries, p: Name, f: FaceId, cost: int) { NextHop(f, cost) in HopsOf(entries, p) }

  /** Each prefix's hops are in order of cost, one for each face. */
  lemma HopsAreByCost(entries: Entries, p: Name)
    requires ValidEntries(entries)
    ensures var hops := HopsOf(entries, p);
      forall i, j :: 0 <= i < j < |hops| ==> hops[i].cost <= hops[j].cost && hops[i].face != hops[j].face
  {
    EntryHopsValid(entries, p);
    var hops := HopsOf(entries, p);
    if hops != [] {
      forall i, j | 0 <= i < j < |hops| ensures hops[i].cost <= hops[j].cost && hops[i].face != hops[j].face {
        assert CheaperFirst(hops[i], hops[j]);
        DistinctFacesMeans(hops, i, j);
      }
    }
  }

  lemma {:induction false} EntryHopsValid(entries: Entries, p: Name)
    requires ValidEntries(entries)
    ensures HopsOf(entries, p) == [] || ValidHops(HopsOf(entries, p))
  {
    if entries != [] {
      EntryHopsValid(entries[1..], p);
    }
  }

  lemma {:induction false} DistinctFacesMeans(hops: seq<NextHop>, i: nat, j: nat)
    requires DistinctFaces(hops) && i < j < |hops|
    ensures hops[i].face != hops[j].face
  {
    if i == 0 {
      assert hops[j] in hops[1..];
    } else {
      DistinctFacesMeans(hops[1..], i - 1, j - 1);
    }
  }

  /** Inserting a route sets the cost of its face under its prefix, and touches no other route. */
  lemma InsertedRoute(entries: Entries, prefix: Name, face: FaceId, cost: int)
    requires ValidEntries(entries)
    ensures forall p, f, c :: HasRoute(WithRoute(entries, prefix, face, cost), p, f, c) <==>
      if p == prefix && f == face then c == cost else HasRoute(entries, p, f, c)
  {
    WithRouteIsUpdate(entries, prefix, face, cost);
    EntryHopsValid(entries, prefix);
    SetHopFacts(HopsOf(entries, prefix), face, cost);
  }

  /** Withdrawing a face, everywhere or around a prefix, ends exactly its routes for the prefixes under
      that one and for those it is under. */
  lemma WithdrawnRoutes(entries: Entries, face: FaceId, scope: Option<Name>)
    requires ValidEntries(entries)
    ensures forall p, f, c :: HasRoute(WithoutFace(entries, face, scope), p, f, c) <==>
      && HasRoute(entries, p, f, c)
      && !(f == face
           && (scope.Some? ==>
                 scope.value.Components() <= p.Components() || p.Components() <= scope.value.Components()))
  {
    WithoutFaceIsFilter(entries, face, scope);
    forall p: Name ensures scope.Some? ==>
      (p.StartsWith(scope.value) <==> scope.value.Components() <= p.Components())
      && (scope.value.StartsWith(p) <==> p.Components() <= scope.value.Components())
    {
      if scope.Some? {
        StartsWithIsComponentPrefix(p, scope.value);
        StartsWithIsComponentPrefix(scope.value, p);
      }
    }
  }

  // ----- lookup -----

  /** Longest match so far, the earliest entry winning among equal lengths. */
  function Best(entries: Entries, name: Name, best: Option<FibEntry>): Option<FibEntry> {
    if entries == [] then best
    else
      var e := entries[0];
      Best(entries[1..], name,
           if name.StartsWith(e.prefix) && (best.None? || best.value.prefix.Len() < e.prefix.Len()) then Some(e)
             else best)
  }

  function Lookup(entries: Entries, name: Name): seq<NextHop> {
    var best := Best(entries, name, None);
    if best.Some? then best.value.hops else []
  }

  ghost predicate IsLongestMatch(entries: Entries, name: Name, best: FibEntry) {
    && best in entries && name.StartsWith(best.prefix)
    && forall e :: e in entries && name.StartsWith(e.prefix) ==> e.prefix.Len() <= best.prefix.Len()
  }

  lemma {:induction false} BestIsLongest(entries: Entries, name: Name, best: Option<FibEntry>)
    ensures var r := Best(entries, name, best);
      && (r.Some? ==> r == best || (r.value in entries && name.StartsWith(r.value.prefix)))
      && (best.Some? ==> r.Some? && best.value.prefix.Len() <= r.value.prefix.Len())
      && (forall e :: e in entries && name.StartsWith(e.prefix) ==> r.Some? && e.prefix.Len() <= r.value.prefix.Len())
  {
    if entries != [] {
      var e := entries[0];
      var next :=
        if name.StartsWith(e.prefix) && (best.None? || best.value.prefix.Len() < e.prefix.Len()) then Some(e) else best;
      BestIsLongest(entries[1..], name, next);
      assert entries == [e] + entries[1..];
    }
  }

  /** Lookup is longest-prefix match: it answers with the next hops of an entry whose prefix the
      name starts with and than which no matching entry is longer, and with none if none match. */
  lemma LookupIsLongestPrefixMatch(entries: Entries, name: Name)
    requires ValidEntries(entries)
    ensures Lookup(entries, name) == [] <==> forall e :: e in entries ==> !name.StartsWith(e.prefix)
    ensures Lookup(entries, name) != [] ==>
      && ValidHops(Lookup(entries, name))
      && exists e :: IsLongestMatch(entries, name, e) && Lookup(entries, name) == HopsOf(entries, e.prefix)
  {
    BestIsLongest(entries, name, None);
    ValidMeans(entries);
    var r := Best(entries, name, None);
    if r.Some? {
      assert IsLongestMatch(entries, name, r.value);
      assert ValidHops(r.value.hops);
    }
  }

  /** A withdrawn face is in no lookup answer until a route for it is inserted again. */
  lemma WithdrawnIsUnreachable(entries: Entries, face: FaceId, name: Name)
    requires ValidEntries(entries)
    ensures !Uses(Lookup(WithoutFace(entries, face, None), name), face)
  {
    var r := WithoutFace(entries, face, None);
    WithoutFaceIsFilter(entries, face, None);
    LookupIsLongestPrefixMatch(r, name);
    if Lookup(r, name) != [] {
      var e :| IsLongestMatch(r, name, e) && Lookup(r, name) == HopsOf(r, e.prefix);
      assert Affected(e.prefix, None);
    }
  }

  class Fib {
    var entries: Entries

    ghost predicate Valid()
      reads this
    {
      ValidEntries(entries)
    }

    constructor ()
      ensures Valid() && entries == []
    {
      entries := [];
    }

    method Insert(prefix: Name, face: FaceId, cost: int)
      requires Valid()
      modifies this
      ensures Valid()
      ensures entries == WithRoute(old(entries), prefix, face, cost)
    {
      hide WithRoute, ValidEntries, Sort, SetHop;
      assert WithRoute([], prefix, face, cost) == [FibEntry(prefix, [NextHop(face, cost)])] by {
        WithRouteNew(prefix, face, cost);
      }
      assert ValidEntries(WithRoute(entries, prefix, face, cost)) by {
        WithRouteIsUpdate(entries, prefix, face, cost);
      }
      ghost var target := WithRoute(entries, prefix, face, cost);
      for i := 0 to |entries|
        invariant entries == old(entries)
        invariant target == entries[..i] + WithRoute(entries[i..], prefix, face, cost)
      {
        var entry := entries[i];
        WithRouteStep(entries, i, prefix, face, cost);
        if entry.prefix == prefix {
          var hops := Sort(SetHop(entry.hops, face, cost), CheaperFirst);
          entries := entries[..i] + ([FibEntry(prefix, hops)] + entries[i + 1..]);
          return;
        }
      }
      assert entries[|entries|..] == [];
      entries := entries + [FibEntry(prefix, [NextHop(face, cost)])];
      assert entries == target;
    }

    method RemoveFace(prefix: Name, face: FaceId)
      requires Valid()
      modifies this
      ensures Valid()
      ensures entries == WithoutFace(old(entries), face, Some(prefix))
    {
      hide WithoutFace, ValidEntries, DropFace;
      ghost var target := WithoutFace(entries, face, Some(prefix));
      assert WithoutFace([], face, Some(prefix)) == [] by {
        WithoutFaceNone(face, Some(prefix));
      }
      assert ValidEntries(target) by {
        WithoutFaceIsFilter(entries, face, Some(prefix));
      }
      var kept: Entries := [];
      for i := 0 to |entries|
        invariant entries == old(entries)
        invariant target == kept + WithoutFace(entries[i..], face, Some(prefix))
      {
        var entry := entries[i];
        WithoutFaceStep(entries, i, face, Some(prefix));
        ghost var rest := WithoutFace(entries[i + 1..], face, Some(prefix));
        if entry.prefix.StartsWith(prefix) || prefix.StartsWith(entry.prefix) {
          var hops := DropFace(entry.hops, face);
          if hops != [] {
            assert kept + ([FibEntry(entry.prefix, hops)] + rest) == kept + [FibEntry(entry.prefix, hops)] + rest;
            kept := kept + [FibEntry(entry.prefix, hops)];
          }
        } else {
          assert kept + ([entry] + rest) == kept + [entry] + rest;
          kept := kept + [entry];
        }
      }
      assert entries[|entries|..] == [];
      entries := kept;
      assert entries == target;
    }

    method RemovePrefix(prefix: Name)
      requires Valid()
      modifies this
      ensures Valid()
      ensures entries == WithoutPrefix(old(entries), prefix)
    {
      assert ValidEntries(WithoutPrefix(entries, prefix)) by {
        WithoutPrefixIsFilter(entries, prefix);
      }
      entries := WithoutPrefix(entries, prefix);
    }

    /** Withdraws a face everywhere; the result counts the prefixes that had it. */
    method RemoveAllForFace(face: FaceId) returns (withdrawn: nat)
      requires Valid()
      modifies this
      ensures Valid()
      ensures entries == WithoutFace(old(entries), face, None)
      ensures withdrawn == EntriesUsing(old(entries), face)
    {
      hide WithoutFace, DropFace;
      ghost var target := WithoutFace(entries, face, None);
      assert WithoutFace([], face, None) == [] by {
        WithoutFaceNone(face, None);
      }
      assert ValidEntries(target) by {
        WithoutFaceIsFilter(entries, face, None);
      }
      var kept: Entries := [];
      withdrawn := 0;
      assert entries[0..] == entries;
      for i := 0 to |entries|
        invariant entries == old(entries) && ValidEntries(entries[i..])
        invariant target == kept + WithoutFace(entries[i..], face, None)
        invariant EntriesUsing(entries, face) == withdrawn + EntriesUsing(entries[i..], face)
      {
        var entry := entries[i];
        WithoutFaceStep(entries, i, face, None);
        assert entries[i..][1..] == entries[i + 1..];
        var before := |entry.hops|;
        var hops := DropFace(entry.hops, face);
        assert |hops| == before <==> !Uses(entry.hops, face) by {
          DropFaceFacts(entry.hops, face);
        }
        if |hops| != before {
          withdrawn := withdrawn + 1;
        }
        ghost var rest := WithoutFace(entries[i + 1..], face, None);
        if hops != [] {
          assert kept + ([FibEntry(entry.prefix, hops)] + rest) == kept + [FibEntry(entry.prefix, hops)] + rest;
          kept := kept + [FibEntry(entry.prefix, hops)];
        }
      }
      assert entries[|entries|..] == [];
      entries := kept;
      assert entries == target;
    }

    method LookupHops(name: Name) returns (hops: Option<seq<NextHop>>)
      requires Valid()
      ensures hops.None? <==> Lookup(entries, name) == []
      ensures hops.Some? ==> hops.value == Lookup(entries, name)
    {
      var best: Option<FibEntry> := None;
      for i := 0 to |entries|
        invariant Best(entries, name, None) == Best(entries[i..], name, best)
      {
        var entry := entries[i];
        assert entries[i..][1..] == entries[i + 1..];
        if name.StartsWith(entry.prefix) && (best.None? || best.value.prefix.Len() < entry.prefix.Len()) {
          best := Some(entry);
        }
      }
      assert entries[|entries|..] == [];
      BestIsLongest(entries, name, None);
      ValidMeans(entries);
      hops := if best.Some? then Some(best.value.hops) else None;
    }
  }
}
