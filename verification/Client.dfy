/** What a consumer accepts (rns_icn/client.py): the verification pipeline with its rollback
    watermarks, the retry loop, the latest-version fetch and the dispatch of pushed Data. */
module Client {
  import opened Base
  import opened Names
  import opened Packets
  import opened Signing
  import Access
  import NameCodec
  import opened PacketCodec

  /** Whether a signature is good for a digest. */
  type Validator = (bytes, bytes) -> bool

  /** The hash, what is known of producers' keys, the two policy switches, and unwrapping a
      capability's key to decrypt with it. */
  datatype Settings = Settings(
    hash: bytes -> bytes,
    recall: bytes -> Option<Validator>,
    requireSignature: bool,
    rejectRollback: bool,
    open: (Capability, Data) -> Option<bytes>)

  // ----- checks on one Data -----

  predicate ContentOk(s: Settings, d: Data) {
    d.metadata.contentHash.Some? ==> s.hash(d.content) == d.metadata.contentHash.value
  }

  predicate Validates(s: Settings, d: Data, v: Validator) {
    d.signature.Some? && Signable(d) && v(d.signature.value, s.hash(DataPreimage(d)))
  }

  /** A signature that is there and can be checked must be good; one that is missing or cannot be
      checked is a matter of policy. */
  predicate SignatureAccepted(s: Settings, d: Data, require: bool) {
    if d.signature == None || s.recall(d.name.addr).None? then !require
    else Validates(s, d, s.recall(d.name.addr).value)
  }

  type Key = (nat, nat)

  predicate Before(a: Key, b: Key) { a.0 < b.0 || (a.0 == b.0 && a.1 < b.1) }

  /** The authenticated version key of signed Data. */
  function FreshnessKey(d: Data): Option<Key> {
    var m := d.metadata;
    if d.signature == None || (m.signedAt == None && m.sequence == None) then None
    else Some((if m.signedAt.Some? then m.signedAt.value else 0, if m.sequence.Some? then m.sequence.value else 0))
  }

  /** Highest key accepted for each name. */
  type Watermarks = map<Name, Key>

  predicate RollsBack(s: Settings, marks: Watermarks, d: Data) {
    s.rejectRollback && FreshnessKey(d).Some? && d.name in marks && Before(FreshnessKey(d).value, marks[d.name])
  }

  function Marked(s: Settings, marks: Watermarks, d: Data): Watermarks {
    if !s.rejectRollback || FreshnessKey(d).None? then marks
    else if d.name in marks && !Before(marks[d.name], FreshnessKey(d).value) then marks
    else marks[d.name := FreshnessKey(d).value]
  }

  predicate Acceptable(s: Settings, marks: Watermarks, name: Name, d: Data, require: bool) {
    && ContentOk(s, d)
    && (name.pin.Some? ==> d.metadata.contentHash == name.pin)
    && SignatureAccepted(s, d, require)
    && !RollsBack(s, marks, d)
  }

  // ----- decryption -----

  predicate CapabilityUsable(s: Settings, c: Capability, n: Name, now: nat) {
    && c.Covers(n, now)
    && (s.recall(c.producer).Some? ==>
          c.signature.Some? && CapabilityFits(c)
            && s.recall(c.producer).value(c.signature.value, s.hash(CapabilityPreimage(c))))
  }

  /** The plaintext under the first usable capability that opens it. */
  function Opened(s: Settings, caps: seq<Capability>, d: Data, now: nat): Option<bytes> {
    if caps == [] then None
    else if CapabilityUsable(s, caps[0], d.name, now) && s.open(caps[0], d).Some? then s.open(caps[0], d)
    else Opened(s, caps[1..], d, now)
  }

  /** Decrypted Data is new Data: the plaintext with its own hash, unsigned, other fields kept. */
  function Decrypted(s: Settings, caps: seq<Capability>, d: Data, now: nat): Data {
    if !d.metadata.encrypted || Opened(s, caps, d, now).None? then d
    else
      var plain := Opened(s, caps, d, now).value;
      Data(d.name, plain, None, d.metadata.(contentHash := Some(s.hash(plain)), encrypted := false))
  }

  // ----- one fetch -----

  /** How one attempt went: no link, a timeout or an error; no answer; or Data. */
  datatype Attempt = Failed | Empty | Got(data: Data)

  datatype Fetched = Accepted(data: Data) | Nothing | Raised

  /** Position of the first acceptable answer, or the number of attempts. */
  function FirstAcceptable(s: Settings, marks: Watermarks, name: Name, attempts: seq<Attempt>, require: bool): (k: nat)
    ensures k <= |attempts|
    ensures forall i :: 0 <= i < k && attempts[i].Got? ==> !Acceptable(s, marks, name, attempts[i].data, require)
    ensures k < |attempts| ==> attempts[k].Got? && Acceptable(s, marks, name, attempts[k].data, require)
  {
    if attempts == [] || (attempts[0].Got? && Acceptable(s, marks, name, attempts[0].data, require)) then 0
    else
      var k := FirstAcceptable(s, marks, name, attempts[1..], require);
      assert forall i :: 0 < i < |attempts| ==> attempts[i] == attempts[1..][i - 1];
      k + 1
  }

  function CapsIn(caps: map<bytes, seq<Capability>>, n: Name): seq<Capability> {
    if n.addr in caps then caps[n.addr] else []
  }

  /** What one fetch comes to: the first acceptable answer is decrypted and returned, and it alone
      moves the watermark; without one there is nothing, or the last error is raised. */
  predicate IsOutcome(s: Settings, caps: map<bytes, seq<Capability>>, before: Watermarks, name: Name,
      attempts: seq<Attempt>, require: bool, raiseOnFailure: bool, now: nat, r: Fetched, after: Watermarks)
  {
    var k := FirstAcceptable(s, before, name, attempts, require);
    if k < |attempts| then
      && r == Accepted(Decrypted(s, CapsIn(caps, attempts[k].data.name), attempts[k].data, now))
      && after == Marked(s, before, attempts[k].data)
    else
      && after == before
      && r == if raiseOnFailure && (exists i :: 0 <= i < |attempts| && !attempts[i].Empty?) then Raised else Nothing
  }

  // ----- what acceptance means -----

  /** The content hash Data records, if any, is that of its content; a signature that can be checked, is
      good for the octets it should be made on; and where one is required it is there and can be. */
  predicate IsAuthentic(s: Settings, d: Data, require: bool) {
    && (d.metadata.contentHash.Some? ==> s.hash(d.content) == d.metadata.contentHash.value)
    && (d.signature.Some? && s.recall(d.name.addr).Some? ==>
          Signable(d) && s.recall(d.name.addr).value(d.signature.value, s.hash(DataPreimage(d))))
    && (require ==> d.signature.Some? && s.recall(d.name.addr).Some?)
  }

  /** Signed, with a signing time or a sequence. */
  predicate HasVersion(d: Data) {
    d.signature.Some? && (d.metadata.signedAt.Some? || d.metadata.sequence.Some?)
  }

  function OrZero(v: Option<nat>): nat { if v.Some? then v.value else 0 }

  /** Version `d` is older than the watermark: signed earlier, or at the same time with a lower sequence. */
  predicate IsOlderThan(d: Data, mark: Key) {
    || OrZero(d.metadata.signedAt) < mark.0
    || (OrZero(d.metadata.signedAt) == mark.0 && OrZero(d.metadata.sequence) < mark.1)
  }

  predicate IsStale(s: Settings, marks: Watermarks, d: Data) {
    s.rejectRollback && HasVersion(d) && d.name in marks && IsOlderThan(d, marks[d.name])
  }

  /** An answer is acceptable exactly if it is authentic, is what a pin asks for, and is not stale. */
  lemma AcceptableMeans(s: Settings, marks: Watermarks, name: Name, d: Data, require: bool)
    ensures Acceptable(s, marks, name, d, require) <==>
      IsAuthentic(s, d, require) && (name.pin.Some? ==> d.metadata.contentHash == name.pin) && !IsStale(s, marks, d)
  {
  }

  lemma PassesMeans(s: Settings, marks: Watermarks, d: Data)
    ensures Passes(s, marks, d) <==> IsAuthentic(s, d, s.requireSignature) && !IsStale(s, marks, d)
  {
  }

  /** A fetch succeeds exactly when some answer is authentic, as pinned and not stale, and then returns the
      first such answer, decrypted where it can be; failing, it raises exactly where it may and some try
      went wrong. */
  lemma SucceedsExactlyWhenAuthentic(s: Settings, caps: map<bytes, seq<Capability>>, before: Watermarks, name: Name,
      attempts: seq<Attempt>, require: bool, raiseOnFailure: bool, now: nat, r: Fetched, after: Watermarks)
    requires IsOutcome(s, caps, before, name, attempts, require, raiseOnFailure, now, r, after)
    ensures r.Accepted? <==> exists k :: 0 <= k < |attempts| && IsGoodAnswer(s, before, name, attempts[k], require)
    ensures r.Accepted? ==> exists k ::
      && 0 <= k < |attempts| && IsGoodAnswer(s, before, name, attempts[k], require)
      && (forall j :: 0 <= j < k ==> !IsGoodAnswer(s, before, name, attempts[j], require))
      && var d := attempts[k].data;
      r.data == Decrypted(s, if d.name.addr in caps then caps[d.name.addr] else [], d, now)
    ensures !r.Accepted? ==>
      && after == before
      && (r == Raised <==> raiseOnFailure && exists k :: 0 <= k < |attempts| && attempts[k] != Empty)
  {
    hide Acceptable, Decrypted, Marked, IsAuthentic, IsStale;
    forall k | 0 <= k < |attempts| && attempts[k].Got?
      ensures Acceptable(s, before, name, attempts[k].data, require)
        <==> IsGoodAnswer(s, before, name, attempts[k], require)
    {
      AcceptableMeans(s, before, name, attempts[k].data, require);
    }
  }

  predicate IsGoodAnswer(s: Settings, marks: Watermarks, name: Name, a: Attempt, require: bool) {
    && a.Got? && IsAuthentic(s, a.data, require) && (name.pin.Some? ==> a.data.metadata.contentHash == name.pin)
    && !IsStale(s, marks, a.data)
  }

  /** A capability that lets a name be read now: for a prefix of it, not past its time, and signed by the
      producer where the key is known to check that. */
  predicate MayRead(s: Settings, c: Capability, n: Name, now: nat) {
    && c.prefix.Components() <= n.Components() && (c.expiresAt != 0 ==> now <= c.expiresAt)
    && (s.recall(c.producer).Some? ==>
          && c.signature.Some? && CapabilityFits(c)
          && s.recall(c.producer).value(c.signature.value, s.hash(CapabilityPreimage(c))))
  }

  /** Decryption: encrypted Data becomes the plaintext of the first capability that may read it and opens
      it, with its own hash, unsigned and no longer marked encrypted, everything else kept; other Data,
      and Data that no capability opens, stay as they are. */
  lemma DecryptedMeans(s: Settings, caps: seq<Capability>, d: Data, now: nat)
    ensures !d.metadata.encrypted ==> Decrypted(s, caps, d, now) == d
    ensures (forall c :: c in caps ==> !(MayRead(s, c, d.name, now) && s.open(c, d).Some?))
      ==> Decrypted(s, caps, d, now) == d
    ensures forall k :: OpensFirst(s, caps, d, now, k) && d.metadata.encrypted ==>
      var r := Decrypted(s, caps, d, now);
      && r.name == d.name && Some(r.content) == s.open(caps[k], d) && r.signature == None && !r.metadata.encrypted
      && r.metadata.contentHash == Some(s.hash(r.content)) && r.metadata.sequence == d.metadata.sequence
      && r.metadata.signedAt == d.metadata.signedAt && r.metadata.freshnessPeriod == d.metadata.freshnessPeriod
      && r.metadata.isFresh == d.metadata.isFresh && r.metadata.age == d.metadata.age
  {
    OpenedMeans(s, caps, d, now);
  }

  predicate OpensFirst(s: Settings, caps: seq<Capability>, d: Data, now: nat, k: int) {
    && 0 <= k < |caps| && MayRead(s, caps[k], d.name, now) && s.open(caps[k], d).Some?
    && forall j :: 0 <= j < k ==> !(MayRead(s, caps[j], d.name, now) && s.open(caps[j], d).Some?)
  }

  lemma {:induction false} OpenedMeans(s: Settings, caps: seq<Capability>, d: Data, now: nat)
    ensures (forall c :: c in caps ==> !(MayRead(s, c, d.name, now) && s.open(c, d).Some?))
      ==> Opened(s, caps, d, now) == None
    ensures forall k :: OpensFirst(s, caps, d, now, k) ==> Opened(s, caps, d, now) == s.open(caps[k], d)
  {
    if caps != [] {
      StartsWithIsComponentPrefix(d.name, caps[0].prefix);
      assert MayRead(s, caps[0], d.name, now) <==> CapabilityUsable(s, caps[0], d.name, now);
      OpenedMeans(s, caps[1..], d, now);
      hide MayRead, CapabilityUsable;
      forall k | OpensFirst(s, caps, d, now, k) ensures Opened(s, caps, d, now) == s.open(caps[k], d) {
        if k > 0 {
          assert OpensFirst(s, caps[1..], d, now, k - 1) by {
            assert forall j :: 0 <= j < k - 1 ==> caps[1..][j] == caps[j + 1];
          }
        }
      }
    }
  }

  /** The name a decrypted pointer leads to; none when it is malformed or leads out of the prefix. */
  function TargetUnder(prefix: Name, pointer: Data): Option<Name> {
    var decoded := Access.DecodeMeta(pointer.content);
    if decoded.Ok? && decoded.value.addr == prefix.addr && decoded.value.StartsWith(prefix) then Some(decoded.value)
      else None
  }

  /** A pointer that was made for a target under the prefix leads there; and one that leads anywhere starts
      with that very name, which lies under the prefix. */
  lemma PointerLeadsToItsTarget(prefix: Name, pointer: Data, target: Name)
    ensures NormalName(target) && prefix.Components() <= target.Components()
      && pointer.content == Access.EncodeMeta(target)
      ==> TargetUnder(prefix, pointer) == Some(target)
    ensures TargetUnder(prefix, pointer) == Some(target) ==>
      NameCodec.Encodable(target) && Access.EncodeMeta(target) <= pointer.content
      && prefix.Components() <= target.Components()
  {
    StartsWithIsComponentPrefix(target, prefix);
    if NormalName(target) {
      Access.MetaRoundTrip(target);
    }
    if TargetUnder(prefix, pointer) == Some(target) {
      NameCodec.ParsedNameIsPrefix(pointer.content[1..]);
      assert pointer.content == [pointer.content[0]] + pointer.content[1..];
    }
  }

  /** What a latest-version fetch comes to: the first acceptable signed pointer is followed where it
      leads to a name under the prefix; otherwise whatever a cache ranks latest is asked for. */
  ghost predicate IsLatest(s: Settings, caps: map<bytes, seq<Capability>>, before: Watermarks, prefix: Name,
      pointerAttempts: seq<Attempt>, targetAttempts: Name -> seq<Attempt>, fallbackAttempts: seq<Attempt>, now: nat,
      r: Fetched, target: Option<Name>, after: Watermarks)
  {
    var metaName := Access.MetaName(prefix);
    if metaName.Err? then r == Raised && target == None && after == before
    else
      exists meta, middle ::
        && IsOutcome(s, caps, before, metaName.value, pointerAttempts, true, false, now, meta, middle)
        && target == (if meta.Accepted? then TargetUnder(prefix, meta.data) else None)
        && if target.Some? then
             IsOutcome(s, caps, middle, target.value, targetAttempts(target.value), s.requireSignature, true, now,
             r, after)
           else
             IsOutcome(s, caps, middle, prefix, fallbackAttempts, s.requireSignature, false, now, r, after)
  }

  /** The checks on pushed Data. */
  predicate Passes(s: Settings, marks: Watermarks, d: Data) {
    ContentOk(s, d) && SignatureAccepted(s, d, s.requireSignature) && !RollsBack(s, marks, d)
  }

  predicate Wanted(subs: seq<Name>, d: Data) { exists p :: p in subs && d.name.StartsWith(p) }

  /** Pushed Data that passes the checks and is wanted moves the watermark. */
  predicate IsPush(s: Settings, subs: seq<Name>, before: Watermarks, d: Data, after: Watermarks) {
    after == if Passes(s, before, d) && Wanted(subs, d) then Marked(s, before, d) else before
  }

  /** Accepting the same Data again changes nothing. */
  lemma MarkedTwice(s: Settings, marks: Watermarks, d: Data)
    ensures !RollsBack(s, marks, d) ==>
      !RollsBack(s, Marked(s, marks, d), d) && Marked(s, Marked(s, marks, d), d) == Marked(s, marks, d)
  {
  }

  class ICNClient {
    const s: Settings
    var marks: Watermarks
    var capabilities: map<bytes, seq<Capability>>
    var subscriptions: seq<Name>
    var delivered: seq<(nat, Data)>

    constructor (s: Settings)
      ensures this.s == s && marks == map[] && capabilities == map[] && subscriptions == [] && delivered == []
    {
      this.s := s;
      marks, capabilities, subscriptions, delivered := map[], map[], [], [];
    }

    function CapsFor(n: Name): seq<Capability>
      reads this`capabilities
    {
      CapsIn(capabilities, n)
    }

    method AddCapability(c: Capability)
      modifies this`capabilities
      ensures capabilities == old(capabilities)[
        c.producer := (if c.producer in old(capabilities) then old(capabilities)[c.producer] else []) + [c]]
    {
      capabilities := capabilities[c.producer := CapsFor(Name(c.producer, [], None)) + [c]];
    }

    /** Raises the watermark; false when the Data rolls its name back. */
    method CheckRollback(d: Data) returns (ok: bool)
      modifies this`marks
      ensures ok <==> !RollsBack(s, old(marks), d)
      ensures marks == if ok then Marked(s, old(marks), d) else old(marks)
    {
      if !s.rejectRollback {
        return true;
      }
      var key := FreshnessKey(d);
      if key.None? {
        return true;
      }
      if d.name in marks && Before(key.value, marks[d.name]) {
        return false;
      }
      if d.name !in marks || Before(marks[d.name], key.value) {
        marks := marks[d.name := key.value];
      }
      return true;
    }

    method MaybeDecrypt(d: Data, now: nat) returns (r: Data)
      ensures r == Decrypted(s, if d.name.addr in capabilities then capabilities[d.name.addr] else [], d, now)
    {
      if !d.metadata.encrypted {
        return d;
      }
      var caps := CapsFor(d.name);
      assert caps[0..] == caps;
      for k := 0 to |caps|
        invariant Opened(s, caps, d, now) == Opened(s, caps[k..], d, now)
      {
        assert caps[k..][1..] == caps[k + 1..];
        if !CapabilityUsable(s, caps[k], d.name, now) {
          continue;
        }
        var plain := s.open(caps[k], d);
        if plain.Some? {
          return Data(d.name, plain.value, None,
            d.metadata.(contentHash := Some(s.hash(plain.value)), encrypted := false));
        }
      }
      return d;
    }

    /** The checks one answer must pass, in order. */
    method Verify(name: Name, d: Data, require: bool, now: nat) returns (r: Option<Data>)
      modifies this`marks
      ensures r ==
        if Acceptable(s, old(marks), name, d, require) then Some(Decrypted(s, CapsFor(d.name), d, now)) else None
      ensures marks == if r.Some? then Marked(s, old(marks), d) else old(marks)
    {
      hide Decrypted, SignatureAccepted, ContentOk, Marked, RollsBack;
      if !ContentOk(s, d) {
        return None;
      }
      if name.pin.Some? && d.metadata.contentHash != name.pin {
        return None;
      }
      if !SignatureAccepted(s, d, require) {
        return None;
      }
      var ok := CheckRollback(d);
      if !ok {
        return None;
      }
      var plain := MaybeDecrypt(d, now);
      return Some(plain);
    }

    /** The retry loop: the first acceptable answer is decrypted and returned, and it alone moves the
        watermark.  `attempts` are the outcomes of the tries, one for each allowed. */
    method FetchVerified(name: Name, attempts: seq<Attempt>, requireSignature: Option<bool>, raiseOnFailure: bool,
        now: nat) returns (r: Fetched)
      modifies this`marks
      ensures var require := if requireSignature.Some? then requireSignature.value else s.requireSignature;
        IsOutcome(s, capabilities, old(marks), name, attempts, require, raiseOnFailure, now, r, marks)
    {
      hide Decrypted, Acceptable, Marked, CapsIn, FirstAcceptable;
      var require := if requireSignature.Some? then requireSignature.value else s.requireSignature;
      var failed := false;
      for i := 0 to |attempts|
        invariant marks == old(marks)
        invariant forall j :: 0 <= j < i && attempts[j].Got? ==> !Acceptable(s, marks, name, attempts[j].data, require)
        invariant failed <==> exists j :: 0 <= j < i && !attempts[j].Empty?
      {
        if attempts[i].Got? {
          var checked := Verify(name, attempts[i].data, require, now);
          if checked.Some? {
            return Accepted(checked.value);
          }
        }
        if !attempts[i].Empty? {
          failed := true;
        }
      }
      return if failed && raiseOnFailure then Raised else Nothing;
    }

    /** The latest version under a prefix: the producer's signed pointer first, then the exact target
        it names; or, without a usable pointer, whatever version a cache ranks latest. */
    method FetchLatest(prefix: Name, pointerAttempts: seq<Attempt>, targetAttempts: Name -> seq<Attempt>,
        fallbackAttempts: seq<Attempt>, now: nat)
      returns (r: Fetched, target: Option<Name>)
      modifies this`marks
      ensures IsLatest(s, capabilities, old(marks), prefix, pointerAttempts, targetAttempts, fallbackAttempts, now, r,
                       target, marks)
      ensures target.Some? ==> Access.MetaName(prefix).Ok? && target.value.StartsWith(prefix)
    {
      hide IsOutcome;
      target := None;
      var metaName := Access.MetaName(prefix);
      if metaName.Err? {
        return Raised, None;
      }
      var meta := FetchVerified(metaName.value, pointerAttempts, Some(true), false, now);
      if meta.Accepted? {
        var decoded := Access.DecodeMeta(meta.data.content);
        if decoded.Ok? && decoded.value.addr == prefix.addr && decoded.value.StartsWith(prefix) {
          target := Some(decoded.value);
          r := FetchVerified(decoded.value, targetAttempts(decoded.value), None, true, now);
          return;
        }
      }
      r := FetchVerified(prefix, fallbackAttempts, None, false, now);
    }

    /** Pushed Data goes to the matching subscriptions in order, but to none unless it passes the same
        checks as fetched Data. */
    method DispatchPush(d: Data, now: nat)
      modifies this`marks, this`delivered
      ensures IsPush(s, subscriptions, old(marks), d, marks)
      ensures delivered == old(delivered)
        + if Passes(s, old(marks), d) then
            Matches(subscriptions, d, Decrypted(s, CapsFor(d.name), d, now), |subscriptions|)
          else []
    {
      hide Decrypted, SignatureAccepted, ContentOk, Marked, RollsBack;
      MarkedTwice(s, marks, d);
      var plain := Decrypted(s, CapsFor(d.name), d, now);
      for k := 0 to |subscriptions|
        invariant delivered == old(delivered) + Matches(subscriptions, d, plain, k)
        invariant (exists p :: p in subscriptions[..k] && d.name.StartsWith(p)) ==>
          (ContentOk(s, d) && SignatureAccepted(s, d, s.requireSignature) && !RollsBack(s, old(marks), d)
            && marks == Marked(s, old(marks), d))
        invariant !(exists p :: p in subscriptions[..k] && d.name.StartsWith(p)) ==>
          marks == old(marks) && Matches(subscriptions, d, plain, k) == []
      {
        assert subscriptions[..k + 1] == subscriptions[..k] + [subscriptions[k]];
        if !d.name.StartsWith(subscriptions[k]) {
          continue;
        }
        assert subscriptions[k] in subscriptions;
        if !ContentOk(s, d) {
          return;
        }
        if !SignatureAccepted(s, d, s.requireSignature) {
          return;
        }
        var ok := CheckRollback(d);
        if !ok {
          return;
        }
        var r := MaybeDecrypt(d, now);
        delivered := delivered + [(k, r)];
      }
      assert subscriptions[..|subscriptions|] == subscriptions;
    }
  }

  /** The deliveries to the first `k` subscriptions. */
  function Matches(subs: seq<Name>, d: Data, plain: Data, k: nat): seq<(nat, Data)>
    requires k <= |subs|
  {
    if k == 0 then []
    else Matches(subs, d, plain, k - 1) + if d.name.StartsWith(subs[k - 1]) then [(k - 1, plain)] else []
  }

  /** They go to exactly the subscriptions whose prefix the Data is under, each once and in order, and all
      deliver the plaintext. */
  lemma {:induction false} MatchesAreInOrder(subs: seq<Name>, d: Data, plain: Data, k: nat)
    requires k <= |subs|
    ensures forall j, x :: (j, x) in Matches(subs, d, plain, k) <==>
      0 <= j < k && x == plain && subs[j].Components() <= d.name.Components()
    ensures forall a, b :: 0 <= a < b < |Matches(subs, d, plain, k)| ==>
      Matches(subs, d, plain, k)[a].0 < Matches(subs, d, plain, k)[b].0
  {
    if k > 0 {
      MatchesAreInOrder(subs, d, plain, k - 1);
      StartsWithIsComponentPrefix(d.name, subs[k - 1]);
      var init := Matches(subs, d, plain, k - 1);
      forall a | 0 <= a < |init| ensures init[a].0 < k - 1 {
        assert (init[a].0, init[a].1) in init;
      }
    }
  }

  // ----- versions over a run -----

  /** Watermarks after a run of checked Data, from none. */
  function MarksAfter(s: Settings, run: seq<Data>): Watermarks {
    if run == [] then map[]
    else
      var before := MarksAfter(s, run[..|run| - 1]);
      var d := run[|run| - 1];
      if RollsBack(s, before, d) then before else Marked(s, before, d)
  }

  predicate AcceptedAt(s: Settings, run: seq<Data>, i: nat)
    requires i < |run|
  {
    !RollsBack(s, MarksAfter(s, run[..i]), run[i])
  }

  predicate AtMost(a: Key, b: Key) { a == b || Before(a, b) }

  lemma {:induction false} MarksOnlyRise(s: Settings, run: seq<Data>, i: nat, n: Name)
    requires i <= |run| && n in MarksAfter(s, run[..i])
    ensures n in MarksAfter(s, run) && AtMost(MarksAfter(s, run[..i])[n], MarksAfter(s, run)[n])
    decreases |run|
  {
    if i == |run| {
      assert run[..i] == run;
    } else {
      var init := run[..|run| - 1];
      assert init[..i] == run[..i];
      MarksOnlyRise(s, init, i, n);
    }
  }

  /** With rollback protection on, the signed versions accepted for a name never go back, whatever
      relays and caches answer. */
  lemma AcceptedVersionsNeverDecrease(s: Settings, run: seq<Data>, i: nat, j: nat)
    requires s.rejectRollback && i < j < |run| && run[i].name == run[j].name
    requires AcceptedAt(s, run, i) && AcceptedAt(s, run, j) && FreshnessKey(run[i]).Some? && FreshnessKey(run[j]).Some?
    ensures AtMost(FreshnessKey(run[i]).value, FreshnessKey(run[j]).value)
  {
    var n := run[i].name;
    var upTo := run[..j];
    MarkedOnAccepting(s, run, i);
    assert upTo[..i + 1] == run[..i + 1];
    MarksOnlyRise(s, upTo, i + 1, n);
  }

  lemma MarkedOnAccepting(s: Settings, run: seq<Data>, i: nat)
    requires s.rejectRollback && i < |run| && AcceptedAt(s, run, i) && FreshnessKey(run[i]).Some?
    ensures var marks := MarksAfter(s, run[..i + 1]);
      run[i].name in marks && AtMost(FreshnessKey(run[i]).value, marks[run[i].name])
  {
    var to := run[..i + 1];
    assert to[..|to| - 1] == run[..i] && to[|to| - 1] == run[i];
  }

  /** `key` is the largest of the signed keys accepted for a name during a run. */
  ghost predicate IsLargestAccepted(s: Settings, run: seq<Data>, n: Name, key: Key) {
    && (exists i :: 0 <= i < |run| && Counts(s, run, i, n) && FreshnessKey(run[i]).value == key)
    && (forall i :: 0 <= i < |run| && Counts(s, run, i, n) ==> AtMost(FreshnessKey(run[i]).value, key))
  }

  predicate Counts(s: Settings, run: seq<Data>, i: nat, n: Name)
    requires i < |run|
  {
    run[i].name == n && AcceptedAt(s, run, i) && FreshnessKey(run[i]).Some?
  }

  lemma CountsInPrefix(s: Settings, run: seq<Data>, i: nat, n: Name)
    requires i < |run| - 1
    ensures Counts(s, run[..|run| - 1], i, n) <==> Counts(s, run, i, n)
  {
    assert run[..|run| - 1][..i] == run[..i];
  }

  lemma LargestAt(s: Settings, run: seq<Data>, n: Name, key: Key) returns (i: nat)
    requires IsLargestAccepted(s, run, n, key)
    ensures i < |run| && Counts(s, run, i, n) && FreshnessKey(run[i]) == Some(key)
  {
    i :| 0 <= i < |run| && Counts(s, run, i, n) && FreshnessKey(run[i]).value == key;
  }

  lemma LargestExtends(s: Settings, run: seq<Data>, n: Name, key: Key)
    requires run != [] && !Counts(s, run, |run| - 1, n) && IsLargestAccepted(s, run[..|run| - 1], n, key)
    ensures IsLargestAccepted(s, run, n, key)
  {
    hide Counts, Before;
    var init := run[..|run| - 1];
    var i := LargestAt(s, init, n, key);
    CountsInPrefix(s, run, i, n);
    CountsMeans(s, run, i, n);
    forall k | 0 <= k < |run| && Counts(s, run, k, n)
      ensures FreshnessKey(run[k]).Some? && AtMost(FreshnessKey(run[k]).value, key) {
      CountsMeans(s, run, k, n);
      assert k < |run| - 1;
      CountsInPrefix(s, run, k, n);
      assert init[k] == run[k];
    }
  }

  lemma CountsMeans(s: Settings, run: seq<Data>, i: nat, n: Name)
    requires i < |run| && Counts(s, run, i, n)
    ensures FreshnessKey(run[i]).Some?
  {
  }

  lemma NewestIsMarked(s: Settings, run: seq<Data>, n: Name)
    requires s.rejectRollback && run != [] && Counts(s, run, |run| - 1, n)
    ensures FreshnessKey(run[|run| - 1]).Some? && n in MarksAfter(s, run)
    ensures MarksAfter(s, run)[n] == FreshnessKey(run[|run| - 1]).value
    ensures n in MarksAfter(s, run[..|run| - 1]) ==> AtMost(MarksAfter(s, run[..|run| - 1])[n], MarksAfter(s, run)[n])
  {
  }

  lemma AtMostTransitive(a: Key, b: Key, c: Key)
    requires AtMost(a, b) && AtMost(b, c)
    ensures AtMost(a, c)
  {
  }

  /** The newest accepted signed key is the largest. */
  lemma NewestIsLargest(s: Settings, run: seq<Data>, n: Name)
    requires s.rejectRollback && run != [] && Counts(s, run, |run| - 1, n)
    requires n in MarksAfter(s, run[..|run| - 1]) ==>
      IsLargestAccepted(s, run[..|run| - 1], n, MarksAfter(s, run[..|run| - 1])[n])
    requires n !in MarksAfter(s, run[..|run| - 1]) ==> forall i :: 0 <= i < |run| - 1 ==> !Counts(s, run, i, n)
    ensures n in MarksAfter(s, run) && IsLargestAccepted(s, run, n, MarksAfter(s, run)[n])
  {
    hide Counts, MarksAfter, AtMost, FreshnessKey;
    NewestIsMarked(s, run, n);
    var last := |run| - 1;
    var init := run[..last];
    forall k | 0 <= k < |run| && Counts(s, run, k, n)
      ensures FreshnessKey(run[k]).Some? && AtMost(FreshnessKey(run[k]).value, MarksAfter(s, run)[n])
    {
      CountsMeans(s, run, k, n);
      if k < last {
        CountsInPrefix(s, run, k, n);
        assert init[k] == run[k];
        AtMostTransitive(FreshnessKey(run[k]).value, MarksAfter(s, init)[n], MarksAfter(s, run)[n]);
      } else {
        AtMostSelf(MarksAfter(s, run)[n]);
      }
    }
  }

  lemma AtMostSelf(a: Key)
    ensures AtMost(a, a)
  {
  }

  /** The watermark of a name is exactly the largest signed key accepted for it, and there is one as
      soon as something signed was accepted. */
  lemma {:induction false} WatermarkIsMaximum(s: Settings, run: seq<Data>, n: Name)
    requires s.rejectRollback
    ensures n in MarksAfter(s, run) <==> exists i :: 0 <= i < |run| && Counts(s, run, i, n)
    ensures n in MarksAfter(s, run) ==> IsLargestAccepted(s, run, n, MarksAfter(s, run)[n])
  {
    if run != [] {
      hide Counts, IsLargestAccepted;
      var last := |run| - 1;
      var init := run[..last];
      WatermarkIsMaximum(s, init, n);
      forall i | 0 <= i < last ensures Counts(s, init, i, n) <==> Counts(s, run, i, n) {
        CountsInPrefix(s, run, i, n);
      }
      if Counts(s, run, last, n) {
        NewestIsLargest(s, run, n);
      } else {
        MarkUnchanged(s, run, n);
        if n in MarksAfter(s, init) {
          var i :| 0 <= i < |init| && Counts(s, init, i, n);
          assert Counts(s, run, i, n);
          LargestExtends(s, run, n, MarksAfter(s, init)[n]);
        }
      }
    }
  }

  lemma MarkUnchanged(s: Settings, run: seq<Data>, n: Name)
    requires run != [] && !Counts(s, run, |run| - 1, n)
    ensures n in MarksAfter(s, run) <==> n in MarksAfter(s, run[..|run| - 1])
    ensures n in MarksAfter(s, run) ==> MarksAfter(s, run)[n] == MarksAfter(s, run[..|run| - 1])[n]
  {
  }

  /** A pinned fetch that succeeds got the very octets the name asks for, whoever served them. */
  lemma PinnedFetchIsExact(s: Settings, marks: Watermarks, name: Name, d: Data, require: bool, original: bytes)
    requires Injective(s.hash) && Acceptable(s, marks, name, d, require) && name.pin == Some(s.hash(original))
    ensures d.content == original
  {
  }
}
