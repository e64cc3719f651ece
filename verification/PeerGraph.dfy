/** Graphs of peered servers and the walks Data can take on them. */
module PeerGraph {
  import opened Base
  import opened Fibs

  /** The sending end of a link: a server and its face. */
  type Link = (nat, FaceId)

  /** Peer faces of each server, and which end lies opposite which. */
  datatype Graph = Graph(peers: seq<seq<FaceId>>, opposite: map<Link, Link>) {
    /** Peering is mutual: a link has two ends, and they are peer faces of each other. */
    ghost predicate Valid() {
      && (forall u :: 0 <= u < |peers| ==> Distinct(peers[u]))
      && (forall l :: l in opposite <==> l.0 < |peers| && l.1 in peers[l.0])
      && (forall l :: l in opposite ==> opposite[l] in opposite && opposite[l] != l && opposite[opposite[l]] == l)
    }
  }

  type Walk = seq<Link>

  function Last(w: Walk): Link
    requires w != []
  {
    w[|w| - 1]
  }

  function Init(w: Walk): Walk
    requires w != []
  {
    w[..|w| - 1]
  }

  /** Where a walk from `start` leads. */
  function End(g: Graph, start: nat, w: Walk): nat {
    if w == [] then start
    else if Last(w) in g.opposite then g.opposite[Last(w)].0 else 0
  }

  /** A walk from `start` that never goes straight back over the link it came by. */
  predicate Reduced(g: Graph, start: nat, w: Walk) {
    w == [] ||
    (&& Reduced(g, start, Init(w))
     && Last(w) in g.opposite && Last(w).0 == End(g, start, Init(w))
     && (Init(w) != [] ==> Last(w) != g.opposite[Last(Init(w))]))
  }

  /** From a server there is no way back to it except over the same links: nothing that links lead
      to from there is on a cycle. */
  ghost predicate Acyclic(g: Graph, start: nat) {
    forall w :: w != [] && Reduced(g, start, w) ==> End(g, start, w) != start
  }

  lemma ExtendReduced(g: Graph, start: nat, w: Walk, l: Link)
    requires g.Valid() && Reduced(g, start, w) && l in g.opposite && l.0 == End(g, start, w)
    requires w != [] ==> l != g.opposite[Last(w)]
    ensures Reduced(g, start, w + [l]) && End(g, start, w + [l]) == g.opposite[l].0
  {
    assert Init(w + [l]) == w;
  }

  /** Two reduced walks to one server that arrive by different links close up to a cycle. */
  lemma {:induction false} DifferentArrivalsClose(g: Graph, start: nat, p: Walk, q: Walk) returns (w: Walk)
    requires g.Valid() && Reduced(g, start, p) && Reduced(g, start, q) && End(g, start, p) == End(g, start, q)
    requires p != [] && q != [] ==> Last(p) != Last(q)
    ensures Reduced(g, start, w) && |w| == |p| + |q| && End(g, start, w) == start
    decreases |q|
  {
    if q == [] {
      w := p;
    } else {
      var back := g.opposite[Last(q)];
      ExtendReduced(g, start, p, back);
      w := DifferentArrivalsClose(g, start, p + [back], Init(q));
    }
  }

  /** On an acyclic graph there is only one reduced walk to each server. */
  lemma {:induction false} ReducedWalkIsUnique(g: Graph, start: nat, p: Walk, q: Walk)
    requires g.Valid() && Acyclic(g, start) && Reduced(g, start, p) && Reduced(g, start, q)
    requires End(g, start, p) == End(g, start, q)
    ensures p == q
    decreases |p|
  {
    if p != [] && q != [] && Last(p) == Last(q) {
      ReducedWalkIsUnique(g, start, Init(p), Init(q));
      assert p == Init(p) + [Last(p)] && q == Init(q) + [Last(q)];
    } else {
      var w := DifferentArrivalsClose(g, start, p, q);
      assert w == [];
    }
  }

  lemma {:induction false} ReducedEnds(g: Graph, start: nat, w: Walk)
    requires g.Valid() && Reduced(g, start, w) && start < |g.peers|
    ensures End(g, start, w) < |g.peers|
  {
  }

  lemma NotBackAtStart(g: Graph, root: nat, w: Walk)
    requires Acyclic(g, root) && w != [] && Reduced(g, root, w)
    ensures End(g, root, w) != root
  {
  }

  /** Any walk along links, back and forth as it likes. */
  predicate IsWalk(g: Graph, start: nat, w: Walk) {
    w == [] || (IsWalk(g, start, Init(w)) && Last(w) in g.opposite && Last(w).0 == End(g, start, Init(w)))
  }

  ghost predicate Connected(g: Graph, u: nat, v: nat) {
    exists w :: IsWalk(g, u, w) && End(g, u, w) == v
  }

  lemma {:induction false} ReducedIsWalk(g: Graph, start: nat, w: Walk)
    requires Reduced(g, start, w)
    ensures IsWalk(g, start, w)
  {
    if w != [] {
      ReducedIsWalk(g, start, Init(w));
    }
  }

  lemma PrefixIsReduced(g: Graph, start: nat, w: Walk, k: nat)
    requires Reduced(g, start, w) && k <= |w|
    ensures Reduced(g, start, w[..k])
    decreases |w|
  {
    if k == |w| {
      assert w[..k] == w;
    } else {
      PrefixIsReduced(g, start, Init(w), k);
      assert Init(w)[..k] == w[..k];
    }
  }

  // ----- cycles -----

  lemma {:induction false} TailIsReduced(g: Graph, start: nat, w: Walk)
    requires w != [] && Reduced(g, start, w)
    ensures w[0] in g.opposite && w[0].0 == start
    ensures Reduced(g, g.opposite[w[0]].0, w[1..])
    ensures End(g, g.opposite[w[0]].0, w[1..]) == End(g, start, w)
  {
    if |w| > 1 {
      TailIsReduced(g, start, Init(w));
      assert Init(w)[1..] == Init(w[1..]) && Init(w)[0] == w[0];
    } else {
      assert w[1..] == [] && Init(w) == [];
    }
  }

  lemma {:induction false} ConsIsReduced(g: Graph, l: Link, w: Walk)
    requires l in g.opposite && Reduced(g, g.opposite[l].0, w) && (w != [] ==> w[0] != g.opposite[l])
    ensures Reduced(g, l.0, [l] + w) && End(g, l.0, [l] + w) == End(g, g.opposite[l].0, w)
  {
    if w == [] {
      var x := [l] + w;
      assert Init(x) == [] && Last(x) == l && Reduced(g, l.0, Init(x)) && Last(x).0 == End(g, l.0, Init(x));
    } else {
      ConsIsReduced(g, l, Init(w));
      assert Init([l] + w) == [l] + Init(w);
      if Init(w) == [] {
        assert w == [Last(w)];
      }
    }
  }

  lemma {:induction false} JoinIsReduced(g: Graph, start: nat, a: Walk, b: Walk)
    requires Reduced(g, start, a) && Reduced(g, End(g, start, a), b)
    requires a != [] && b != [] ==> Last(a) in g.opposite && b[0] != g.opposite[Last(a)]
    ensures Reduced(g, start, a + b) && End(g, start, a + b) == End(g, End(g, start, a), b)
  {
    if b == [] {
      assert a + b == a;
    } else {
      JoinIsReduced(g, start, a, Init(b));
      assert Init(a + b) == a + Init(b) && Last(a + b) == Last(b);
      if Init(b) == [] {
        assert b == [Last(b)] && a + Init(b) == a;
      }
    }
  }

  /** Going round and round: from a cycle that can be walked twice in a row come walks of any length. */
  lemma {:induction false} RoundAndRound(g: Graph, start: nat, w: Walk, n: nat) returns (x: Walk)
    requires w != [] && Reduced(g, start, w) && End(g, start, w) == start
    requires Last(w) in g.opposite && w[0] != g.opposite[Last(w)]
    ensures Reduced(g, start, x) && |x| >= n && x != [] && x[0] == w[0]
    decreases n
  {
    if n <= |w| {
      x := w;
    } else {
      var y := RoundAndRound(g, start, w, n - |w|);
      JoinIsReduced(g, start, w, y);
      x := w + y;
    }
  }

  /** If some reduced walk leads back to where it started, reduced walks from there go on for ever. */
  lemma {:induction false} CyclesAreEndless(g: Graph, start: nat, w: Walk, n: nat) returns (x: Walk)
    requires g.Valid() && w != [] && Reduced(g, start, w) && End(g, start, w) == start
    ensures Reduced(g, start, x) && |x| >= n && x != [] && x[0] == w[0]
    decreases |w|
  {
    if w[0] != g.opposite[Last(w)] {
      x := RoundAndRound(g, start, w, n);
    } else {
      // the walk leaves and returns by the same link, so its inside is a shorter closed walk
      var l, inside := w[0], w[1..|w| - 1];
      var there := g.opposite[l].0;
      TailIsReduced(g, start, w);
      LeavesBehind(g, start, w);
      assert Init(w[1..]) == inside;
      x := CyclesAreEndless(g, there, inside, n);
      ConsIsReduced(g, l, x);
      x := [l] + x;
    }
  }

  lemma LeavesBehind(g: Graph, start: nat, w: Walk)
    requires g.Valid() && Reduced(g, start, w) && w != [] && w[0] == g.opposite[Last(w)]
    ensures |w| >= 3 && w[1] != g.opposite[w[0]]
  {
    if |w| >= 2 {
      PrefixIsReduced(g, start, w, 2);
      assert Init(w[..2]) == [w[0]] && Last(w[..2]) == w[1];
    }
  }
}
