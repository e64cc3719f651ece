/** Subscriptions to pushed streams (rns_icn/aps.py). */
module Aps {
  import opened Names
  import opened Packets
  import opened Fibs

  type Subscriptions = map<Name, set<FaceId>>

  /** A subscription concerns Data under its name, and Data its name is under. */
  predicate Concerns(stream: Name, n: Name) { n.StartsWith(stream) || stream.StartsWith(n) }

  predicate IsSubscribed(subs: Subscriptions, stream: Name, f: FaceId) {
    stream in subs && f in subs[stream]
  }

  /** The faces a publication of `n` is pushed to. */
  function SubscriberFaces(subs: Subscriptions, n: Name): set<FaceId> {
    set s, f | s in subs && Concerns(s, n) && f in subs[s] :: f
  }

  /** They are those with a subscription whose name is a prefix of the Data's, or has it as one. */
  lemma SubscriberFacesMeans(subs: Subscriptions, n: Name)
    ensures forall f :: f in SubscriberFaces(subs, n) <==> exists s ::
      s in subs && f in subs[s] && (s.Components() <= n.Components() || n.Components() <= s.Components())
  {
    forall s ensures Concerns(s, n) <==> s.Components() <= n.Components() || n.Components() <= s.Components() {
      StartsWithIsComponentPrefix(n, s);
      StartsWithIsComponentPrefix(s, n);
    }
  }

  type Outgoing = seq<(FaceId, Data)>

  ghost predicate SentToEach(out: Outgoing, targets: set<FaceId>, d: Data) {
    && |out| == |targets|
    && (forall k :: 0 <= k < |out| ==> out[k].1 == d)
    && (forall f :: f in targets <==> (f, d) in out)
  }

  class APSManager {
    var subscriptions: Subscriptions
    var sent: Outgoing

    /** No stream is kept without a subscriber. */
    ghost predicate Valid()
      reads this
    {
      forall s :: s in subscriptions ==> subscriptions[s] != {}
    }

    constructor ()
      ensures Valid() && subscriptions == map[] && sent == []
    {
      subscriptions, sent := map[], [];
    }

    method Subscribe(stream: Name, f: FaceId)
      requires Valid()
      modifies this`subscriptions
      ensures Valid()
      ensures forall s, x ::
        IsSubscribed(subscriptions, s, x) <==> IsSubscribed(old(subscriptions), s, x) || (s == stream && x == f)
    {
      var faces := if stream in subscriptions then subscriptions[stream] else {};
      subscriptions := subscriptions[stream := faces + {f}];
    }

    method Unsubscribe(stream: Name, f: FaceId)
      requires Valid()
      modifies this`subscriptions
      ensures Valid()
      ensures forall s, x ::
        IsSubscribed(subscriptions, s, x) <==> IsSubscribed(old(subscriptions), s, x) && !(s == stream && x == f)
    {
      if stream in subscriptions {
        var faces := subscriptions[stream] - {f};
        assert forall x :: x in subscriptions[stream] ==> x == f || x in faces;
        subscriptions := if faces == {} then subscriptions - {stream} else subscriptions[stream := faces];
      }
    }

    /** On link teardown a face leaves every stream. */
    method UnsubscribeFace(f: FaceId)
      requires Valid()
      modifies this`subscriptions
      ensures Valid()
      ensures forall s, x :: IsSubscribed(subscriptions, s, x) <==> IsSubscribed(old(subscriptions), s, x) && x != f
    {
      var streams := subscriptions.Keys;
      while streams != {}
        invariant Valid() && streams <= subscriptions.Keys <= old(subscriptions).Keys
        invariant forall s :: s in streams ==> subscriptions[s] == old(subscriptions)[s]
        invariant forall s :: s in old(subscriptions) && s !in streams ==>
          (if s in subscriptions then subscriptions[s] else {}) == old(subscriptions)[s] - {f}
        decreases |streams|
      {
        var s :| s in streams;
        var faces := subscriptions[s] - {f};
        subscriptions := if faces == {} then subscriptions - {s} else subscriptions[s := faces];
        streams := streams - {s};
      }
    }

    /** Sends to every subscriber of the stream whose face is live, in no particular order; the others
        are reported for the offline queue. */
    method Publish(d: Data, live: set<FaceId>) returns (count: nat, offline: set<FaceId>)
      requires Valid()
      modifies this`sent
      ensures Valid() && |sent| >= |old(sent)| && sent[..|old(sent)|] == old(sent)
      ensures SentToEach(sent[|old(sent)|..], SubscriberFaces(subscriptions, d.name) * live, d)
      ensures count == |SubscriberFaces(subscriptions, d.name) * live|
      ensures offline == SubscriberFaces(subscriptions, d.name) - live
    {
      hide SubscriberFaces, SentToEach, PushedTo;
      var faces := SubscriberFaces(subscriptions, d.name);
      var waiting := faces;
      var out: Outgoing := [];
      offline := {};
      NonePushed(faces, live, d);
      while waiting != {}
        invariant sent == old(sent) && waiting <= faces && PushedTo(faces - waiting, live, d, out, offline)
        decreases |waiting|
      {
        var f :| f in waiting;
        OneMorePushed(faces, waiting, live, d, out, offline, f);
        waiting := waiting - {f};
        if f in live {
          out := out + [(f, d)];
        } else {
          offline := offline + {f};
        }
      }
      AllPushed(faces, live, d, out, offline);
      count := |out|;
      sent := sent + out;
      assert sent[|old(sent)|..] == out;
    }
  }

  /** Of these faces, the live ones were sent the Data and the others are offline. */
  ghost predicate PushedTo(faces: set<FaceId>, live: set<FaceId>, d: Data, out: Outgoing, offline: set<FaceId>) {
    SentToEach(out, faces * live, d) && offline == faces - live
  }

  lemma NonePushed(faces: set<FaceId>, live: set<FaceId>, d: Data)
    ensures PushedTo(faces - faces, live, d, [], {})
  {
    assert (faces - faces) * live == {};
  }

  lemma OneMorePushed(faces: set<FaceId>, waiting: set<FaceId>, live: set<FaceId>, d: Data, out: Outgoing,
      offline: set<FaceId>, f: FaceId)
    requires waiting <= faces && f in waiting && PushedTo(faces - waiting, live, d, out, offline)
    ensures f in live ==> PushedTo(faces - (waiting - {f}), live, d, out + [(f, d)], offline)
    ensures f !in live ==> PushedTo(faces - (waiting - {f}), live, d, out, offline + {f})
  {
    hide SentToEach;
    var done := faces - waiting;
    assert faces - (waiting - {f}) == done + {f};
    if f in live {
      SentToOneMore(out, done * live, d, f);
      assert (done + {f}) * live == done * live + {f};
    } else {
      assert (done + {f}) * live == done * live;
    }
  }

  lemma AllPushed(faces: set<FaceId>, live: set<FaceId>, d: Data, out: Outgoing, offline: set<FaceId>)
    requires PushedTo(faces - {}, live, d, out, offline)
    ensures SentToEach(out, faces * live, d) && offline == faces - live && |out| == |faces * live|
  {
    assert faces - {} == faces;
  }

  lemma SentToOneMore(out: Outgoing, targets: set<FaceId>, d: Data, f: FaceId)
    requires SentToEach(out, targets, d) && f !in targets
    ensures SentToEach(out + [(f, d)], targets + {f}, d)
  {
  }
}
