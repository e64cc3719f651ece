/** The wire form of names (rns_icn/name.py:38-108). */
module NameCodec {
  import opened Base
  import opened Names
  import opened Wire

  const MAX_COMPONENTS := 32
  const HASH_DISCRIMINATOR: byte := 0xFF

  predicate ShortComponents(cs: seq<bytes>) {
    forall c :: c in cs ==> |c| < 256
  }

  /** Counts and lengths are single octets; anything larger raises. */
  predicate Encodable(n: Name) {
    n.Len() < 256 && ShortComponents(n.Components())
  }

  function EncodeComponents(cs: seq<bytes>): bytes
    requires ShortComponents(cs)
  {
    if cs == [] then [] else [|cs[0]|] + cs[0] + EncodeComponents(cs[1..])
  }

  function EncodePin(pin: Option<bytes>): bytes {
    if pin.Some? then [HASH_DISCRIMINATOR] + pin.value else []
  }

  function Encode(n: Name): bytes
    requires Encodable(n)
  {
    [n.Len()] + EncodeComponents(n.Components()) + EncodePin(n.pin)
  }

  type Parsed = Result<(seq<bytes>, bytes)>

  function Prepend(cs: seq<bytes>, tail: Parsed): Parsed {
    if tail.Err? then tail else Ok((cs + tail.value.0, tail.value.1))
  }

  /** `count` components and what follows them. */
  function ParseComponents(count: nat, data: bytes): (r: Parsed)
    ensures r.Err? ==> r.error == NameError
  {
    if count == 0 then Ok(([], data))
    else if data == [] then Err(NameError)
    else
      var size: nat := data[0];
      if |data| < 1 + size then Err(NameError)
      else Prepend([data[1..1 + size]], ParseComponents(count - 1, data[1 + size..]))
  }

  lemma FirstComponent(count: nat, head: bytes, tail: bytes)
    requires count > 0 && |head| < 256
    ensures ParseComponents(count, [|head|] + head + tail) == Prepend([head], ParseComponents(count - 1, tail))
  {
    var data := [|head|] + head + tail;
    assert data[0] == |head| && data[1..1 + |head|] == head && data[1 + |head|..] == tail;
  }

  function ParsePin(rest: bytes): Result<Option<bytes>> {
    if rest == [] || rest[0] != HASH_DISCRIMINATOR then Ok(None)
    else if |rest| < 1 + HASH_BYTES then Err(NameError)
    else Ok(Some(rest[1..1 + HASH_BYTES]))
  }

  /** What a name in its own buffer parses to; octets after it are ignored. */
  function Parse(data: bytes): (r: Result<Name>)
    ensures r.Err? ==> r.error == NameError
  {
    if data == [] || data[0] == 0 || data[0] > MAX_COMPONENTS then Err(NameError)
    else
      var (cs, rest) :- ParseComponents(data[0], data[1..]);
      var pin :- ParsePin(rest);
      if cs == [] then Err(NameError) else Ok(Name(cs[0], cs[1..], pin))
  }

  // ----- components -----

  lemma NoComponents(data: bytes)
    ensures ParseComponents(0, data) == Ok(([], data))
  {
  }

  lemma NextComponent(count: nat, data: bytes)
    ensures ParseComponents(count, data) ==
      if count == 0 then Ok(([], data))
      else if data == [] || |data| < 1 + (data[0] as int) then Err(NameError)
      else Prepend([data[1..1 + (data[0] as int)]], ParseComponents(count - 1, data[1 + (data[0] as int)..]))
  {
  }

  lemma {:induction false} ComponentsRoundTrip(cs: seq<bytes>, rest: bytes)
    requires ShortComponents(cs)
    ensures ParseComponents(|cs|, EncodeComponents(cs) + rest) == Ok((cs, rest))
  {
    hide ParseComponents;
    if cs == [] {
      assert EncodeComponents(cs) + rest == rest;
      NoComponents(rest);
    } else {
      var tail := EncodeComponents(cs[1..]) + rest;
      ComponentsRoundTrip(cs[1..], rest);
      FirstComponent(|cs|, cs[0], tail);
      assert [cs[0]] + cs[1..] == cs;
      assert EncodeComponents(cs) + rest == [|cs[0]|] + cs[0] + tail;
    }
  }

  /** Parsed components, printed, are the front of what was parsed. */
  lemma {:induction false} ComponentsArePrefix(count: nat, data: bytes)
    requires ParseComponents(count, data).Ok?
    ensures var (cs, rest) := ParseComponents(count, data).value;
      |cs| == count && ShortComponents(cs) && data == EncodeComponents(cs) + rest
  {
    hide ParseComponents, EncodeComponents, ShortComponents;
    NextComponent(count, data);
    if count > 0 {
      var size: nat := data[0];
      var head, after := data[1..1 + size], data[1 + size..];
      ComponentsArePrefix(count - 1, after);
      var (tail, rest) := ParseComponents(count - 1, after).value;
      EncodeOneMore(head, tail);
      assert data == [size] + head + (EncodeComponents(tail) + rest);
    } else {
      EncodeNothing();
    }
  }

  lemma EncodeOneMore(head: bytes, tail: seq<bytes>)
    requires |head| < 256 && ShortComponents(tail)
    ensures ShortComponents([head] + tail)
    ensures EncodeComponents([head] + tail) == [|head|] + head + EncodeComponents(tail)
  {
    assert ([head] + tail)[1..] == tail;
  }

  lemma EncodeNothing()
    ensures ShortComponents([]) && EncodeComponents([]) == []
  {
  }

  // ----- names -----

  /** A name may be followed by anything if it is pinned, and otherwise by anything that does not
      start like a pin. */
  predicate MayFollow(n: Name, rest: bytes) {
    n.pin.Some? || rest == [] || rest[0] != HASH_DISCRIMINATOR
  }

  predicate PinFits(n: Name) { n.pin.Some? ==> |n.pin.value| == HASH_BYTES }

  /** An encoded name parses back exactly when it has no more components than the parser allows,
      even with further octets behind it. */
  lemma NameRoundTrip(n: Name, rest: bytes)
    requires Encodable(n) && PinFits(n) && MayFollow(n, rest)
    ensures Parse(Encode(n) + rest) == if n.Len() <= MAX_COMPONENTS then Ok(n) else Err(NameError)
  {
    hide ParseComponents, EncodeComponents, ShortComponents;
    var data := Encode(n) + rest;
    var after := EncodePin(n.pin) + rest;
    ComponentsRoundTrip(n.Components(), after);
    assert data[1..] == EncodeComponents(n.Components()) + after;
    if n.pin.Some? {
      assert after[1..1 + HASH_BYTES] == n.pin.value;
    } else {
      assert after == rest;
    }
  }

  /** Printing a parsed name gives a prefix of the input; so nothing but the ignored tail is lost. */
  lemma ParsedNameIsPrefix(data: bytes)
    requires Parse(data).Ok?
    ensures var n := Parse(data).value;
      && Encodable(n) && PinFits(n) && n.Len() <= MAX_COMPONENTS && Encode(n) <= data
      && MayFollow(n, data[|Encode(n)|..])
  {
    var n := Parse(data).value;
    ComponentsArePrefix(data[0], data[1..]);
    var (cs, rest) := ParseComponents(data[0], data[1..]).value;
    assert n.Components() == cs;
    assert data == [data[0]] + EncodeComponents(cs) + rest;
    if n.pin.Some? {
      assert EncodePin(n.pin) == rest[..1 + HASH_BYTES];
    }
    assert data[..|Encode(n)|] == Encode(n);
  }

  lemma SameComponents(a: Name, b: Name)
    requires a.Components() == b.Components()
    ensures a.addr == b.addr && a.path == b.path
  {
    assert a.addr == a.Components()[0] && a.path == a.Components()[1..];
    assert b.addr == b.Components()[0] && b.path == b.Components()[1..];
  }

  /** Equal fronts and equal counts mean equal components, and then equal remainders. */
  lemma ComponentsDetermined(a: seq<bytes>, restA: bytes, b: seq<bytes>, restB: bytes)
    requires ShortComponents(a) && ShortComponents(b) && |a| == |b|
    requires EncodeComponents(a) + restA == EncodeComponents(b) + restB
    ensures a == b && restA == restB
  {
    ComponentsRoundTrip(a, restA);
    ComponentsRoundTrip(b, restB);
  }

  /** No hash-free name's encoding is the start of another's. */
  lemma UnpinnedNamesArePrefixFree(a: Name, b: Name)
    requires Encodable(a) && Encodable(b) && a.pin == None && b.pin == None && Encode(a) <= Encode(b)
    ensures a == b
  {
    hide EncodeComponents, ShortComponents;
    var suffix := Encode(b)[|Encode(a)|..];
    assert Encode(b) == Encode(a) + suffix;
    assert Encode(b)[1..] == EncodeComponents(a.Components()) + suffix;
    assert Encode(b)[1..] == EncodeComponents(b.Components()) + [];
    assert Encode(a)[0] == Encode(b)[0];
    ComponentsDetermined(a.Components(), suffix, b.Components(), []);
    SameComponents(a, b);
  }

  /** Two names with one encoding are one name, pinned or not. */
  lemma EncodingIsInjective(a: Name, b: Name)
    requires Encodable(a) && Encodable(b) && Encode(a) == Encode(b)
    ensures a == b
  {
    hide EncodeComponents, ShortComponents;
    assert Encode(a)[1..] == EncodeComponents(a.Components()) + EncodePin(a.pin);
    assert Encode(b)[1..] == EncodeComponents(b.Components()) + EncodePin(b.pin);
    assert Encode(a)[0] == Encode(b)[0];
    ComponentsDetermined(a.Components(), EncodePin(a.pin), b.Components(), EncodePin(b.pin));
    SameComponents(a, b);
    if a.pin.Some? {
      assert a.pin.value == EncodePin(a.pin)[1..] && b.pin.value == EncodePin(b.pin)[1..];
    }
  }

  lemma {:induction false} ComponentsSize(cs: seq<bytes>)
    requires ShortComponents(cs)
    ensures |EncodeComponents(cs)| <= 256 * |cs|
  {
    if cs != [] {
      ComponentsSize(cs[1..]);
    }
  }

  // ----- the loops -----

  method ToBytes(n: Name) returns (buf: bytes)
    requires Encodable(n)
    ensures buf == Encode(n)
  {
    var cs := n.Components();
    buf := [|cs|];
    assert cs[0..] == cs;
    for i := 0 to |cs|
      invariant ShortComponents(cs[i..])
      invariant buf + EncodeComponents(cs[i..]) == [|cs|] + EncodeComponents(cs)
    {
      assert cs[i..][1..] == cs[i + 1..];
      assert buf + EncodeComponents(cs[i..]) == buf + [|cs[i]|] + cs[i] + EncodeComponents(cs[i + 1..]);
      assert cs[i] in cs;
      buf := buf + [|cs[i]|];
      buf := buf + cs[i];
    }
    assert EncodeComponents(cs[|cs|..]) == [];
    if n.pin.Some? {
      buf := buf + [HASH_DISCRIMINATOR];
      buf := buf + n.pin.value;
    }
  }

  /** The cursor moves over the buffer; every check is the source's. */
  method FromBytes(data: bytes) returns (r: Result<Name>)
    ensures r == Parse(data)
  {
    hide ParseComponents;
    if data == [] {
      return Err(NameError);
    }
    var count: nat := data[0];
    if count == 0 || count > MAX_COMPONENTS {
      return Err(NameError);
    }
    var pos := 1;
    var components: seq<bytes> := [];
    PrependNothing(ParseComponents(count, data[1..]));
    for i := 0 to count
      invariant 1 <= pos <= |data| && |components| == i
      invariant ParseComponents(count, data[1..]) == Prepend(components, ParseComponents(count - i, data[pos..]))
    {
      ghost var rest := data[pos..];
      NextComponent(count - i, rest);
      if pos >= |data| {
        return Err(NameError);
      }
      var clen: nat := data[pos];
      assert rest[0] == clen;
      pos := pos + 1;
      if pos + clen > |data| {
        return Err(NameError);
      }
      assert rest[1..1 + clen] == data[pos..pos + clen] && rest[1 + clen..] == data[pos + clen..];
      PrependMore(components, data[pos..pos + clen], ParseComponents(count - i - 1, data[pos + clen..]));
      components := components + [data[pos..pos + clen]];
      pos := pos + clen;
    }
    var pin: Option<bytes> := None;
    ghost var rest := data[pos..];
    NoComponents(rest);
    assert components + [] == components;
    assert ParseComponents(count, data[1..]) == Ok((components, rest));
    if pos < |data| && data[pos] == HASH_DISCRIMINATOR {
      pos := pos + 1;
      if pos + HASH_BYTES > |data| {
        return Err(NameError);
      }
      pin := Some(data[pos..pos + HASH_BYTES]);
      assert rest[1..1 + HASH_BYTES] == pin.value;
    }
    return Ok(Name(components[0], components[1..], pin));
  }

  lemma PrependNothing(tail: Parsed)
    ensures Prepend([], tail) == tail
  {
    if tail.Ok? {
      assert [] + tail.value.0 == tail.value.0;
    }
  }

  lemma PrependMore(cs: seq<bytes>, c: bytes, tail: Parsed)
    ensures Prepend(cs, Prepend([c], tail)) == Prepend(cs + [c], tail)
  {
    if tail.Ok? {
      assert cs + ([c] + tail.value.0) == cs + [c] + tail.value.0;
    }
  }
}
