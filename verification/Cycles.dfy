/** What `Acyclic` means: no simple cycle lies in the part of the graph that links lead to. */
module Cycles {
  import opened PeerGraph

  function Next(c: Walk, i: nat): Link
    requires i < |c|
  {
    if i + 1 < |c| then c[i + 1] else c[0]
  }

  /** A cycle through different servers, each link leading to where the next begins; there and back
      over one link is none. */
  predicate IsSimpleCycle(g: Graph, c: Walk) {
    && c != []
    && (forall i :: 0 <= i < |c| ==> c[i] in g.opposite && g.opposite[c[i]].0 == Next(c, i).0)
    && (forall i, j :: 0 <= i < j < |c| ==> c[i].0 != c[j].0)
    && (|c| == 2 ==> c[1] != g.opposite[c[0]])
  }

  // ----- walks, link by link -----

  predicate Follows(g: Graph, w: Walk) {
    && (forall i :: 0 <= i < |w| ==> w[i] in g.opposite)
    && (forall i :: 0 < i < |w| ==> w[i].0 == g.opposite[w[i - 1]].0)
  }

  predicate NeverBack(g: Graph, w: Walk)
    requires Follows(g, w)
  {
    forall i :: 0 < i < |w| ==> w[i] != g.opposite[w[i - 1]]
  }

  lemma {:induction false} WalkMeans(g: Graph, start: nat, w: Walk)
    ensures IsWalk(g, start, w) <==> Follows(g, w) && (w != [] ==> w[0].0 == start)
  {
    if w != [] {
      var init := Init(w);
      WalkMeans(g, start, init);
      FollowsOneMore(g, init, Last(w));
      assert w == init + [Last(w)];
      if init == [] {
        assert w[0] == Last(w);
      } else {
        assert w[0] == init[0] && Last(init) == w[|w| - 2];
      }
    }
  }

  lemma FollowsOneMore(g: Graph, w: Walk, l: Link)
    ensures Follows(g, w + [l]) <==>
      Follows(g, w) && l in g.opposite && (w != [] ==> l.0 == g.opposite[Last(w)].0)
  {
    var x := w + [l];
    assert x[|w|] == l && forall i :: 0 <= i < |w| ==> x[i] == w[i];
    if Follows(g, x) {
      assert x[|w|] in g.opposite && (|w| > 0 ==> x[|w|].0 == g.opposite[x[|w| - 1]].0);
      forall i | 0 <= i < |w| ensures w[i] in g.opposite {
        assert x[i] in g.opposite;
      }
      forall i | 0 < i < |w| ensures w[i].0 == g.opposite[w[i - 1]].0 {
        assert x[i].0 == g.opposite[x[i - 1]].0;
      }
    }
  }

  lemma {:induction false} ReducedMeans(g: Graph, start: nat, w: Walk)
    ensures Reduced(g, start, w) <==> IsWalk(g, start, w) && Follows(g, w) && NeverBack(g, w)
  {
    WalkMeans(g, start, w);
    if w != [] {
      var init := Init(w);
      ReducedMeans(g, start, init);
      WalkMeans(g, start, init);
      assert w == init + [Last(w)];
      if init != [] {
        assert Last(init) == w[|w| - 2];
      }
      if Follows(g, w) && NeverBack(g, w) {
        assert forall i :: 0 <= i < |init| ==> init[i] == w[i];
      }
    }
  }

  lemma PartFollows(g: Graph, w: Walk, i: nat, j: nat)
    requires Follows(g, w) && i <= j <= |w|
    ensures Follows(g, w[i..j]) && (NeverBack(g, w) ==> NeverBack(g, w[i..j]))
  {
    var part := w[i..j];
    assert forall k :: 0 <= k < |part| ==> part[k] == w[i + k];
  }

  lemma JoinFollows(g: Graph, a: Walk, b: Walk)
    requires Follows(g, a) && Follows(g, b) && (a != [] && b != [] ==> b[0].0 == g.opposite[Last(a)].0)
    ensures Follows(g, a + b)
  {
  }

  lemma ConnectedThrough(g: Graph, u: nat, v: nat, x: nat)
    requires Connected(g, u, v) && Connected(g, v, x)
    ensures Connected(g, u, x)
  {
    var a :| IsWalk(g, u, a) && End(g, u, a) == v;
    var b :| IsWalk(g, v, b) && End(g, v, b) == x;
    WalkMeans(g, u, a);
    WalkMeans(g, v, b);
    JoinFollows(g, a, b);
    WalkMeans(g, u, a + b);
    if b == [] {
      assert a + b == a;
    } else {
      assert Last(a + b) == Last(b);
    }
  }

  // ----- a closed walk holds a cycle -----

  lemma {:induction false} FindCycle(g: Graph, u: nat, w: Walk) returns (c: Walk)
    requires g.Valid() && w != [] && Reduced(g, u, w) && End(g, u, w) == u
    ensures IsSimpleCycle(g, c) && Connected(g, u, c[0].0)
    decreases |w|
  {
    if i, j :| 0 <= i < j < |w| && w[i].0 == w[j].0 {
      InnerIsClosed(g, u, w, i, j);
      hide Reduced, Connected, IsSimpleCycle;
      c := FindCycle(g, w[i].0, w[i..j]);
      ConnectedThrough(g, u, w[i].0, c[0].0);
    } else {
      c := w;
      UnrepeatedIsCycle(g, u, w);
    }
  }

  lemma InnerIsClosed(g: Graph, u: nat, w: Walk, i: nat, j: nat)
    requires g.Valid() && Reduced(g, u, w) && i < j < |w| && w[i].0 == w[j].0
    ensures Reduced(g, w[i].0, w[i..j]) && End(g, w[i].0, w[i..j]) == w[i].0 && Connected(g, u, w[i].0)
  {
    ReducedMeans(g, u, w);
    WalkMeans(g, u, w);
    PartFollows(g, w, i, j);
    WalkMeans(g, w[i].0, w[i..j]);
    ReducedMeans(g, w[i].0, w[i..j]);
    assert Last(w[i..j]) == w[j - 1];
    StartsConnected(g, u, w, i);
  }

  lemma StartsConnected(g: Graph, u: nat, w: Walk, i: nat)
    requires Follows(g, w) && i < |w| && w[0].0 == u
    ensures Connected(g, u, w[i].0)
  {
    PartFollows(g, w, 0, i);
    WalkMeans(g, u, w[..i]);
    assert i > 0 ==> Last(w[..i]) == w[i - 1];
    assert End(g, u, w[..i]) == w[i].0;
  }

  lemma UnrepeatedIsCycle(g: Graph, u: nat, w: Walk)
    requires g.Valid() && w != [] && Reduced(g, u, w) && End(g, u, w) == u
    requires forall i, j :: 0 <= i < j < |w| ==> w[i].0 != w[j].0
    ensures IsSimpleCycle(g, w) && Connected(g, u, w[0].0)
  {
    ReducedMeans(g, u, w);
    WalkMeans(g, u, w);
    forall i | 0 <= i < |w| ensures g.opposite[w[i]].0 == Next(w, i).0 {
      if i + 1 < |w| {
        assert w[i + 1].0 == g.opposite[w[i]].0;
      }
    }
    assert IsWalk(g, u, []) && End(g, u, []) == u;
  }

  // ----- a cycle can be walked -----

  predicate OnCycle(c: Walk, v: nat) {
    exists i :: 0 <= i < |c| && c[i].0 == v
  }

  /** A reduced walk to the cycle that meets it only at its end. */
  lemma {:induction false} Approach(g: Graph, start: nat, c: Walk, w: Walk) returns (p: Walk)
    requires g.Valid() && IsWalk(g, start, w) && OnCycle(c, End(g, start, w))
    ensures Reduced(g, start, p) && OnCycle(c, End(g, start, p))
    ensures forall k :: 0 <= k < |p| ==> !OnCycle(c, p[k].0)
    decreases |w|
  {
    WalkMeans(g, start, w);
    if k :| 0 <= k < |w| && OnCycle(c, w[k].0) {
      PartFollows(g, w, 0, k);
      WalkMeans(g, start, w[..k]);
      assert k > 0 ==> Last(w[..k]) == w[k - 1];
      p := Approach(g, start, c, w[..k]);
    } else if k :| 0 <= k < |w| - 1 && w[k + 1] == g.opposite[w[k]] {
      CutOut(g, start, w, k);
      p := Approach(g, start, c, w[..k] + w[k + 2..]);
    } else {
      forall i | 0 < i < |w| ensures w[i] != g.opposite[w[i - 1]] {
        assert w[(i - 1) + 1] != g.opposite[w[i - 1]];
      }
      ReducedMeans(g, start, w);
      p := w;
    }
  }

  lemma CutOut(g: Graph, start: nat, w: Walk, k: nat)
    requires g.Valid() && IsWalk(g, start, w) && Follows(g, w) && k + 1 < |w| && w[k + 1] == g.opposite[w[k]]
    ensures IsWalk(g, start, w[..k] + w[k + 2..]) && End(g, start, w[..k] + w[k + 2..]) == End(g, start, w)
  {
    hide IsWalk;
    var a, b := w[..k], w[k + 2..];
    WalkMeans(g, start, w);
    PartFollows(g, w, 0, k);
    PartFollows(g, w, k + 2, |w|);
    assert b == w[k + 2..|w|] && g.opposite[w[k + 1]] == w[k];
    CutMeets(g, w, k);
    JoinFollows(g, a, b);
    if b != [] {
      assert Last(a + b) == Last(w);
    } else {
      assert a + b == a && Last(w) == w[k + 1];
    }
    var x: Walk := a + b;
    assert a != [] ==> x[0] == w[0];
    assert a == [] && b != [] ==> x[0] == w[2] && w[0].0 == start;
    WalkMeans(g, start, x);
  }

  lemma CutMeets(g: Graph, w: Walk, k: nat)
    requires g.Valid() && Follows(g, w) && k + 1 < |w| && w[k + 1] == g.opposite[w[k]]
    ensures g.opposite[w[k + 1]] == w[k]
    ensures k > 0 ==> Last(w[..k]) == w[k - 1] && w[k].0 == g.opposite[w[k - 1]].0
    ensures k + 2 < |w| ==> w[k + 2..][0].0 == w[k].0
  {
    assert k + 2 < |w| ==> w[k + 2].0 == g.opposite[w[k + 1]].0;
  }

  lemma CycleNeverBack(g: Graph, c: Walk, i: nat)
    requires g.Valid() && IsSimpleCycle(g, c) && i < |c|
    ensures Next(c, i) != g.opposite[c[i]]
  {
    var j := if i + 1 < |c| then i + 1 else 0;
    assert g.opposite[c[j]].0 == Next(c, j).0 && g.opposite[g.opposite[c[i]]] == c[i];
    assert |c| > 2 ==> Next(c, j).0 != c[i].0;
  }

  /** The cycle, begun at any of its servers, is a reduced walk back to that server. */
  lemma RotatedIsReduced(g: Graph, c: Walk, i: nat)
    requires g.Valid() && IsSimpleCycle(g, c) && i < |c|
    ensures var r := c[i..] + c[..i];
      && r != [] && r[0] == c[i] && Reduced(g, c[i].0, r) && End(g, c[i].0, r) == c[i].0
  {
    var r := c[i..] + c[..i];
    var n := |c|;
    forall k | 0 <= k < n
      ensures r[k] in g.opposite && (k > 0 ==> r[k].0 == g.opposite[r[k - 1]].0 && r[k] != g.opposite[r[k - 1]])
    {
      var at := if k < n - i then i + k else k - (n - i);
      assert r[k] == c[at];
      if k > 0 {
        var before := if k - 1 < n - i then i + (k - 1) else k - 1 - (n - i);
        assert r[k - 1] == c[before] && Next(c, before) == c[at];
        CycleNeverBack(g, c, before);
      }
    }
    WalkMeans(g, c[i].0, r);
    ReducedMeans(g, c[i].0, r);
    var last := if i == 0 then n - 1 else i - 1;
    assert Last(r) == c[last] && Next(c, last) == c[i];
  }

  lemma CycleGivesTwoWalks(g: Graph, start: nat, c: Walk) returns (p: Walk, q: Walk)
    requires g.Valid() && IsSimpleCycle(g, c) && Connected(g, start, c[0].0)
    ensures Reduced(g, start, p) && Reduced(g, start, q) && p != q && End(g, start, p) == End(g, start, q)
  {
    var w :| IsWalk(g, start, w) && End(g, start, w) == c[0].0;
    p := Approach(g, start, c, w);
    var i :| 0 <= i < |c| && c[i].0 == End(g, start, p);
    RotatedIsReduced(g, c, i);
    var r := c[i..] + c[..i];
    if p != [] {
      ReducedMeans(g, start, p);
      assert !OnCycle(c, p[|p| - 1].0);
      var j := if i + 1 < |c| then i + 1 else 0;
      assert g.opposite[c[i]].0 == c[j].0;
      assert OnCycle(c, g.opposite[c[i]].0);
    }
    JoinIsReduced(g, start, p, r);
    q := p + r;
  }

  /** Peer graphs are acyclic from a server exactly when no simple cycle is connected to it. */
  lemma AcyclicMeansNoCycle(g: Graph, start: nat)
    requires g.Valid()
    ensures Acyclic(g, start) <==> forall c: Walk :: IsSimpleCycle(g, c) ==> !Connected(g, start, c[0].0)
  {
    hide Connected, Reduced;
    if c: Walk :| c != [] && IsSimpleCycle(g, c) && Connected(g, start, c[0].0) {
      var p, q := CycleGivesTwoWalks(g, start, c);
      if Acyclic(g, start) {
        ReducedWalkIsUnique(g, start, p, q);
      }
    }
    if !Acyclic(g, start) {
      var w :| w != [] && Reduced(g, start, w) && End(g, start, w) == start;
      var c := FindCycle(g, start, w);
    }
  }
}
