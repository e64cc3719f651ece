/** Hierarchical names (rns_icn/name.py): a producer address, a path of labels and an
    optional content-hash pin.  The source keeps address and path in one non-empty list;
    `Components` is that list. */
module Names {
  import opened Base

  const ADDRESS_BYTES: nat := 16
  const HASH_BYTES: nat := 32

  datatype Name = Name(addr: bytes, path: seq<bytes>, pin: Option<bytes>) {

    function Components(): (c: seq<bytes>)
      ensures |c| == Len()
    {
      [addr] + path
    }

    function Len(): nat { 1 + |path| }

    function Unpinned(): Name { this.(pin := None) }

    /** Component-wise prefix test; neither pin takes part. */
    predicate StartsWith(prefix: Name) {
      prefix.addr == addr && prefix.path <= path
    }

    /** The hash-free prefix made of the first `i` components. */
    function Prefix(i: nat): Name
      requires 1 <= i <= Len()
    {
      Name(addr, path[..i - 1], None)
    }
  }

  lemma StartsWithIsComponentPrefix(n: Name, p: Name)
    ensures n.StartsWith(p) <==> p.Components() <= n.Components()
  {
    var a, b := p.Components(), n.Components();
    assert a[0] == p.addr && b[0] == n.addr;
    assert a[1..] == p.path && b[1..] == n.path;
    if a <= b {
      assert p.path == a[1..] <= b[1..];
    }
    if n.StartsWith(p) {
      assert b == [n.addr] + n.path;
    }
  }

  /** The hash-free names a name starts with are exactly its enumerated prefixes. */
  lemma PrefixesAreStartsWith(n: Name, p: Name)
    ensures p.pin == None && n.StartsWith(p) <==> 1 <= p.Len() <= n.Len() && p == n.Prefix(p.Len())
  {
  }

  /** Two names that one name starts with are ordered by their length. */
  lemma PrefixesFormAChain(n: Name, p: Name, q: Name)
    requires n.StartsWith(p) && n.StartsWith(q) && p.Len() <= q.Len()
    ensures q.StartsWith(p)
    ensures p.Len() == q.Len() ==> p.Unpinned() == q.Unpinned()
  {
    assert p.path == n.path[..|p.path|] && q.path == n.path[..|q.path|];
    assert n.path[..|q.path|][..|p.path|] == n.path[..|p.path|];
  }
}
