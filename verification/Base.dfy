/** Types shared by every component: octets, optional values and results. */
module Base {

  type byte = b: int | 0 <= b < 256
  type bytes = seq<byte>

  datatype Option<+T> = None | Some(value: T)

  /** The wall clock (whole seconds) and the monotonic clock (milliseconds), read together.
      Every operation takes the readings it would have made as an argument. */
  datatype Clock = Clock(wall: nat, mono: nat)

  function Max(a: int, b: int): int { if a < b then b else a }

  function Min(a: int, b: int): int { if a < b then a else b }

  /** SQLite and the wire agree on what fits: signed 64-bit columns, unsigned 64-bit fields. */
  const COLUMN_LIMIT: nat := 0x8000_0000_0000_0000

  ghost predicate Distinct<T>(s: seq<T>) {
    forall i, j :: 0 <= i < j < |s| ==> s[i] != s[j]
  }

  function Remove<T(==,!new)>(s: seq<T>, x: T): (r: seq<T>)
    ensures forall y :: y in r <==> y in s && y != x
  {
    if s == [] then []
    else if s[0] == x then Remove(s[1..], x)
    else [s[0]] + Remove(s[1..], x)
  }

  lemma {:induction false} RemoveKeepsDistinct<T(!new)>(s: seq<T>, x: T)
    requires Distinct(s)
    ensures Distinct(Remove(s, x))
    ensures |Remove(s, x)| == if x in s then |s| - 1 else |s|
  {
    if s != [] {
      RemoveKeepsDistinct(s[1..], x);
      assert s[0] !in s[1..];
      if s[0] == x {
        assert x !in s[1..];
      } else {
        assert x in s <==> x in s[1..];
        assert s[0] !in Remove(s[1..], x);
      }
    }
  }

  lemma SubsetSize<T>(a: set<T>, b: set<T>)
    requires a <= b
    ensures |a| <= |b|
  {
    assert b == a + (b - a);
  }
}
