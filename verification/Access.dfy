/** Access control (rns_icn/access.py:284-364) and discovery pointers (rns_icn/discovery.py). */
module Access {
  import opened Base
  import opened Names
  import opened Packets
  import opened Wire
  import NameCodec
  import opened PacketCodec
  import opened Signing

  // ----- discovery pointers -----

  const META_FORMAT: byte := 1
  const META_LABEL: bytes := [0, 109]
  const CATALOG_LABEL: bytes := [0, 99]

  /** The name of a collection's latest-version pointer; raises for an address of the wrong size. */
  function MetaName(prefix: Name): Result<Name> {
    if |prefix.addr| != ADDRESS_BYTES then Err(NameError) else Ok(Name(prefix.addr, prefix.path + [META_LABEL], None))
  }

  function CatalogName(prefix: Name): Result<Name> {
    if |prefix.addr| != ADDRESS_BYTES then Err(NameError)
      else Ok(Name(prefix.addr, prefix.path + [CATALOG_LABEL], None))
  }

  function EncodeMeta(target: Name): bytes
    requires NameCodec.Encodable(target)
  {
    [META_FORMAT] + NameCodec.Encode(target)
  }

  function DecodeMeta(payload: bytes): Result<Name> {
    if payload == [] || payload[0] != META_FORMAT then Err(DiscoveryError)
    else
      var n := NameCodec.Parse(payload[1..]);
      if n.Err? then Err(DiscoveryError) else n
  }

  /** A pointer decodes to its target, pinned or not. */
  lemma MetaRoundTrip(target: Name)
    requires NormalName(target)
    ensures DecodeMeta(EncodeMeta(target)) == Ok(target)
  {
    NameParses(target);
    assert EncodeMeta(target)[1..] == NameCodec.Encode(target);
  }

  /** Pointers and catalogues live under the collection they describe, apart from each other and from
      every edition: their names are reserved, and different collections have different ones. */
  lemma DiscoveryNames(p: Name, q: Name)
    requires |p.addr| == ADDRESS_BYTES && |q.addr| == ADDRESS_BYTES
    ensures MetaName(p).Ok? && CatalogName(p).Ok? && MetaName(q).Ok?
    ensures IsReserved(MetaName(p).value) && IsReserved(CatalogName(p).value)
    ensures MetaName(p).value.StartsWith(p) && CatalogName(p).value.StartsWith(p) && MetaName(p) != CatalogName(p)
    ensures MetaName(p) == MetaName(q) ==> p.Unpinned() == q.Unpinned()
  {
    var a, b := MetaName(p).value, MetaName(q).value;
    assert a.path[..|p.path|] == p.path && b.path[..|q.path|] == q.path;
    assert a.path[|p.path|] == META_LABEL && CatalogName(p).value.path[|p.path|] == CATALOG_LABEL;
    assert META_LABEL[1] != CATALOG_LABEL[1];
  }

  // ----- access rules -----

  datatype Rule = Rule(prefix: Name, consumers: set<bytes>)

  /** The name falls under rule `j`, under none with a longer prefix, and under no earlier one with a
      prefix as long. */
  predicate IsFirstLongest(rules: seq<Rule>, n: Name, j: nat) {
    && j < |rules| && n.StartsWith(rules[j].prefix)
    && (forall i :: 0 <= i < |rules| && n.StartsWith(rules[i].prefix) ==>
        rules[i].prefix.Len() <= rules[j].prefix.Len())
    && (forall i :: 0 <= i < j && n.StartsWith(rules[i].prefix) ==> rules[i].prefix.Len() < rules[j].prefix.Len())
  }

  /** First rule with this prefix, if any. */
  function RuleFor(rules: seq<Rule>, prefix: Name): Option<Rule> {
    if rules == [] then None
    else if rules[0].prefix == prefix then Some(rules[0])
    else RuleFor(rules[1..], prefix)
  }

  /** It is the first one whose prefix is exactly this, pin and all. */
  lemma {:induction false} RuleForIsFirst(rules: seq<Rule>, prefix: Name)
    ensures RuleFor(rules, prefix).None? <==> forall r :: r in rules ==> r.prefix != prefix
    ensures RuleFor(rules, prefix).Some? ==> exists k ::
      0 <= k < |rules| && rules[k] == RuleFor(rules, prefix).value && rules[k].prefix == prefix
      && forall j :: 0 <= j < k ==> rules[j].prefix != prefix
  {
    if rules != [] && rules[0].prefix != prefix {
      RuleForIsFirst(rules[1..], prefix);
      assert rules == [rules[0]] + rules[1..];
      if RuleFor(rules, prefix).Some? {
        var k :| 0 <= k < |rules[1..]| && rules[1..][k] == RuleFor(rules, prefix).value
          && rules[1..][k].prefix == prefix
          && forall j :: 0 <= j < k ==> rules[1..][j].prefix != prefix;
        forall j | 0 <= j < k + 1 ensures rules[j].prefix != prefix {
          assert j > 0 ==> rules[1..][j - 1] == rules[j];
        }
        assert rules[k + 1] == rules[1..][k];
      }
    } else if rules != [] {
      assert rules[0] in rules;
    }
  }

  /** The cryptography, left abstract: whether the producer's private key is at hand, the key it gives
      a prefix, wrapping that for a consumer, and signing. */
  datatype Crypto = Crypto(
    hasPrivateKey: bool,
    keyFor: Name -> bytes,
    wrap: (bytes, bytes) -> bytes,
    encrypt: (bytes, bytes) -> bytes,
    sign: Capability -> bytes)
  {
    /** Deriving a prefix's key raises without the private key, and for a prefix without an encoding. */
    function KeyFor(prefix: Name): Result<bytes> {
      if !hasPrivateKey then Err(CapabilityError)
      else if !NameCodec.Encodable(prefix) then Err(ValueError)
      else Ok(keyFor(prefix))
    }
  }

  class AccessController {
    const producer: bytes
    const crypto: Crypto
    var rules: seq<Rule>

    constructor (producer: bytes, crypto: Crypto, rules: seq<Rule>)
      ensures this.producer == producer && this.crypto == crypto && this.rules == rules
    {
      this.producer, this.crypto, this.rules := producer, crypto, rules;
    }

    /** The most specific rule a name falls under, the first of them where prefixes are equally long;
        none when the name is public. */
    method MatchingRule(n: Name) returns (best: Option<Rule>)
      ensures best.None? <==> forall r :: r in rules ==> !n.StartsWith(r.prefix)
      ensures best.Some? ==> exists j: nat :: IsFirstLongest(rules, n, j) && best.value == rules[j]
    {
      best := None;
      ghost var at: nat := 0;
      for k := 0 to |rules|
        invariant best.None? ==> forall j :: 0 <= j < k ==> !n.StartsWith(rules[j].prefix)
        invariant best.Some? ==> at < k && best.value == rules[at] && IsFirstLongest(rules[..k], n, at)
      {
        if n.StartsWith(rules[k].prefix) && (best.None? || rules[k].prefix.Len() > best.value.prefix.Len()) {
          best := Some(rules[k]);
          at := k;
        }
      }
      assert rules[..|rules|] == rules;
    }

    /** Restricted content is encrypted under the key of its most specific rule, or not published if
        there is no such key; public content and nothing else goes out as it is. */
    method EncryptContent(n: Name, plaintext: bytes) returns (r: Result<(bytes, bool)>)
      ensures (exists x :: x in rules && n.StartsWith(x.prefix)) ==> exists j: nat :: IsFirstLongest(rules, n, j)
      ensures (forall x :: x in rules ==> !n.StartsWith(x.prefix)) ==> r == Ok((plaintext, false))
      ensures forall j: nat :: IsFirstLongest(rules, n, j) ==>
        r == if !crypto.hasPrivateKey then Err(CapabilityError)
             else if !NameCodec.Encodable(rules[j].prefix) then Err(ValueError)
             else Ok((crypto.encrypt(plaintext, crypto.keyFor(rules[j].prefix)), true))
    {
      var rule := MatchingRule(n);
      if rule.None? {
        NoRuleIsLongest(rules, n);
        return Ok((plaintext, false));
      }
      ghost var at: nat :| IsFirstLongest(rules, n, at) && rule.value == rules[at];
      hide IsFirstLongest;
      forall j: nat | IsFirstLongest(rules, n, j) ensures j == at {
        OneFirstLongest(rules, n, j, at);
      }
      LongestMatches(rules, n, at);
      var key :- crypto.KeyFor(rule.value.prefix);
      return Ok((crypto.encrypt(plaintext, key), true));
    }

    /** Whether the rules let a capability be issued. */
    predicate Grants(prefix: Name, consumer: bytes)
      reads this
    {
      RuleFor(rules, prefix).Some? && consumer in RuleFor(rules, prefix).value.consumers
    }

    /** A capability is issued only where a rule for exactly this prefix lists the consumer, and it
        then grants exactly the names under the prefix, from now until it expires.  It must be of the
        sizes that can be signed. */
    method IssueCapability(prefix: Name, consumer: bytes, ttl: int, now: nat) returns (r: Result<Capability>)
      ensures r.Ok? <==>
        (&& Grants(prefix, consumer) && crypto.hasPrivateKey
         && CapabilityFits(Unsigned(prefix, consumer, ttl, now))
         && |crypto.sign(Unsigned(prefix, consumer, ttl, now))| == SIGNATURE_BYTES)
      ensures r.Ok? ==>
        (var c := r.value;
         && c.Valid() && c.producer == producer && c.consumer == consumer && c.prefix == prefix && c.issuedAt == now
         && c.wrappedKey == crypto.wrap(crypto.keyFor(prefix), consumer)
         && c.signature == Some(crypto.sign(c.(signature := None)))
         && forall n: Name, later: nat ::
             c.Covers(n, later) <==> n.StartsWith(prefix) && (ttl <= 0 || later <= now + ttl))
      ensures r == Err(ValueError) <==> Grants(prefix, consumer) && crypto.hasPrivateKey && !NameCodec.Encodable(prefix)
      ensures r == Err(StructError) <==>
        (&& Grants(prefix, consumer) && crypto.hasPrivateKey && NameCodec.Encodable(prefix)
         && Unsigned(prefix, consumer, ttl, now).Valid() && !CapabilityFits(Unsigned(prefix, consumer, ttl, now)))
      ensures r.Err? ==> r.error in {CapabilityError, ValueError, StructError}
    {
      var rule := RuleFor(rules, prefix);
      if rule.None? || consumer !in rule.value.consumers {
        return Err(CapabilityError);
      }
      var key :- crypto.KeyFor(prefix);
      var expiresAt := if ttl > 0 then now + ttl else 0;
      var c := Capability(producer, consumer, prefix, crypto.wrap(key, consumer), now, expiresAt, None);
      if !c.Valid() {
        return Err(CapabilityError);
      }
      if !CapabilityFits(c) {
        return Err(StructError);
      }
      if |crypto.sign(c)| != SIGNATURE_BYTES {
        return Err(CapabilityError);
      }
      return Ok(c.(signature := Some(crypto.sign(c))));
    }

    function Unsigned(prefix: Name, consumer: bytes, ttl: int, now: nat): Capability {
      Capability(producer, consumer, prefix, crypto.wrap(crypto.keyFor(prefix), consumer), now,
        if ttl > 0 then now + ttl else 0, None)
    }
  }

  lemma OneFirstLongest(rules: seq<Rule>, n: Name, i: nat, j: nat)
    requires IsFirstLongest(rules, n, i) && IsFirstLongest(rules, n, j)
    ensures i == j
  {
  }

  lemma LongestMatches(rules: seq<Rule>, n: Name, j: nat)
    requires IsFirstLongest(rules, n, j)
    ensures j < |rules| && rules[j] in rules && n.StartsWith(rules[j].prefix)
  {
  }

  lemma NoRuleIsLongest(rules: seq<Rule>, n: Name)
    requires forall r :: r in rules ==> !n.StartsWith(r.prefix)
    ensures forall j: nat :: !IsFirstLongest(rules, n, j)
  {
    forall j: nat | j < |rules| ensures !n.StartsWith(rules[j].prefix) {
      assert rules[j] in rules;
    }
  }
}
