# RNS-ICN in Dafny

A model of the forwarding plane of rns_icn, an information-centric network over Reticulum, of the
network protocols that run over it, and of its wire formats, with proofs of what they guarantee.
`dafny verify dfyconfig.toml` checks everything.

## How it is built

Code of the source that updates objects in place is modelled by classes whose methods keep the
source's loops and statements: `ContentStore`, `Fib`, `Pit`, `BestRoute`, `Forwarder`, `ICNServer`,
`APSManager`, `PropagationManager`, `Publisher`, `AccessController`, `ICNClient`. Each method's
contract gives the whole new state as a function of the old one. Theorems are then proved about those
functions.

| file | what it models |
|---|---|
| Base, Sorting, Names, Packets | octets and options, stable sorting, names, packet values |
| Store, ContentStore | what the store computes on its rows; the two tables, kept in step statement by statement |
| Fib, Pit, Strategy | routing table, pending interests and nonces, forwarding decisions |
| Forwarding, ForwardingSafety, ForwardingRuns, ForwardingCalls | the forwarder as steps between `await`s; what every step keeps; what holds over every run, of the forwarder and of each call |
| ForwardingAnswers | what each call returns: from the store, by waiting, or by forwarding |
| Forwarder | the forwarder object, refining those steps, with its failover, waiter and ancestor loops |
| Spread, Trails | what one forwarder can still transmit; chains of transmissions through it |
| Network, Manifests | a network of servers that forward Interests and fetch manifests: how far Interests can travel, and which keep to the plain bound |
| Server, Flood, FloodApplied | answering from the store; invalidations flooding over any graph; when a flood applies them all |
| Aps, Propagation | one server's subscribers, peers and publications |
| PeerGraph, Cycles, Replication | walks on the peer graph and its cycles; replication over it |
| Wire, NameCodec, PacketCodec, Signing, Access | numbers, names, seven packet kinds, signed octets, capabilities, discovery pointers, access rules |
| WireExamples | the octets of a packet of each kind, and of what is signed, written out |
| Chunking | chunking and assembly |
| Client, ClientRuns, SequenceWalk | the verification pipeline and rollback watermarks; whole runs of a client; walking a collection over a chain of caches |

The asyncio event loop runs one stretch of code at a time, from a resumption to the next `await`. A
step is one such stretch, a call or background refresh in progress is a `Task`, a waiter is a
`Future`, and a run is any interleaving. In networks, messages are delivered in any order. Clocks are
arguments. The hash function is an argument, required injective only where a theorem says so;
signing, validation, key wrapping and decryption are arguments about which nothing is assumed.

## Main results

- Forwarding: in every reachable state a call only ever returns Data under the name it asked for,
  PIT and notifier keys are hash-free, PIT and store are within their limits, and the PIT is empty
  once nothing runs; a withdrawn face stays silent; a forward tries each next hop at most once and
  spends one hop; a call suppressed behind a pending one never sends, whatever steps come between.
- Answers: a call returns what the store holds for it at once, whatever is pending, and otherwise waits,
  is forwarded or ends, by stated conditions; Data that answers a pending call is what that call returns
  when it is resumed, over every run. An answer from the store is the extreme row that may answer, field
  by field, and there is none only when no row may.
- Store: the two-table store refines a plain scan of its rows.
- Networks: with at most D next hops per lookup, Interests for a name with h hops cause at most
  D + D^2 + ... + D^h transmissions each, if and only if no server of that manifest name has downstream
  peers; with them, a larger bound holds by how deep manifests nest. Invalidation floods end on every
  graph and leave every connected verifying server with the largest epoch; they apply there all that was
  issued, but for what is stored later, if and only if each invalidation of that epoch, with the server's
  own, covers what other servers' cover. A publication reaches every connected server of an acyclic peer
  graph, each at most once if and only if no peer of the publisher has subscribed as well, and on a
  cyclic graph never ends. A sequence walk over any chain of caches is free of gaps and stops short only
  where every try fails.
- Encodings: a packet survives the wire if and only if it is normalised and of parser sizes; signed
  octets determine Data of one layout up to how many optional fields it has; only the original content
  can be assembled from a manifest.
- Client: over any run of fetches and pushes, whatever is answered, all that is accepted is authentic:
  signed by the producer where its key is known and a signature is there or required, and then, among
  Data of one layout with as many optional fields, one of the originals in all that a signature covers;
  accepted signed versions never go back, and the watermark is their maximum.

## Where code and documentation differ

The model follows the code.

- propagation.py:46-47 says loops are prevented by nonces. No nonce is involved in `propagate`, which
  leaves out only the arrival face (propagation.py:318-322). `Replication.EchoesExactlyOnCycles`
  states exactly when Data comes back to its publisher, `NeverEndsOnCycles` that it then circulates
  without end, and `RingEchoes` shows both for three servers.
- server.py:448-449 pushes a publication to subscribers and then propagates it to peers. A peer that
  has subscribed gets it twice on one face, and everything behind that peer gets it twice too. This is
  the ordinary case after a manifest sync, which subscribes a peer to every entry
  (propagation.py:268-272). `Replication.OnceExactlyWhen` has the exact condition,
  `SubscribedPairGetsTwo` the smallest case.
- forwarder.py:166-180 bounds an Interest by its hop limit. A server asked for its own manifest fetches
  those of its downstream peers with fresh Interests, whatever hops the first had left (server.py:312-320,
  propagation.py:193-210). `Manifests.BoundHoldsExactlyWhen` says which Interests keep to the bound,
  `ManifestExceedsBound` gives two servers where one does not.
- name.py:3 says the first component is always 16 octets. `Name.from_bytes` does not check it, so a
  parsed name may break it; inserting such Data, or looking for its pending ancestors, raises
  (`Storable`, `AncestorRaises`).
- packet.py:500-527 says the hash covers content, hash and envelope. It does so without lengths: content
  and optional fields are told apart by position alone. `Signing.SameOctetsSameData` says for which Data
  equal octets mean equal Data, `TailCanPassForContent` gives two that differ.
- Names of more than 32 components can be encoded but not parsed (`NameCodec.NameRoundTrip`).
- propagation.py:74-80 forgets the peer before looking up its producer name, so the synced producer
  that is struck off is the all-zero name.
- server.py:404 ignores the guard's verdict when originating: an invalidation is flooded even if its
  epoch is not newer, and other servers then drop it. The guard's record has no scope, so an exact
  invalidation and one of the whole prefix within the same second exclude each other:
  `FloodApplied.SameSecondIsLost` gives the run, and `AllAppliedExactlyWhenWidest` says when nothing is lost.
- chunker.py:93-119 does not check the chunk size: for zero or less its loop never ends
  (`Chunking.EndsExactlyForPositiveSizes`), which `Chunking.ChunkContent` has as a result of its own.
- pit.py:112-114 looks for a nonce to drop in an empty tracker when the limit is zero or less, which
  raises (`Pits.Pit.Record`). The forwarder always has a positive limit.
- From Python 3.12 on, `asyncio.wait_for` can time out although its future was resolved in the same
  turn of the loop. A resumed call may therefore see a timeout or the answer that was overtaken;
  `Forwarding.Resume` has both.

## Model

| member | source | states |
|---|---|---|
| Names.StartsWithIsComponentPrefix | rns_icn/name.py:91-94 | The prefix test on names is the prefix test on their component lists; pins take no part |
| Names.PrefixesAreStartsWith | rns_icn/content_store.py:222-228 | The prefixes enumerated when a row is indexed are exactly the hash-free names it starts with |
| Names.PrefixesFormAChain | rns_icn/name.py:91-94 | Prefixes of one name are ordered by length, so a longest one is unique |
| Store.UpsertFacts | rns_icn/content_store.py:198-217 | Upsert keeps names unique, replaces the row of the name or adds one, and touches no other row |
| Store.EvictionIsByAge | rns_icn/content_store.py:236-249 | Eviction removes exactly the number asked for, and no removed row is newer than a kept one |
| Store.InsertKeepsValid | rns_icn/content_store.py:167-234 | An insert keeps one hash-free row per name and brings in no row but the new one |
| Store.InsertKeepsCapacity | rns_icn/content_store.py:230-234 | After an insert there are never more rows than the capacity, and none is evicted needlessly |
| Store.NewRowSurvives | rns_icn/content_store.py:230-249 | Under a clock that never runs back, a new row survives the eviction its own insert causes |
| Store.InsertThenGet | rns_icn/content_store.py:167-290 | Data inserted is read back by its hash-free name exactly if it came with no hash or its own and its time is not over, with every signed field, the signature, the time since as its age, and fresh while its period lasts |
| Store.GetIsExact | rns_icn/content_store.py:251-290 | An exact lookup answers with a copy of the live, hash-valid row of that name that meets the pin, field by field, and with nothing exactly when there is none |
| Store.LiveIsUnexpired | rns_icn/content_store.py:409-421 | Purging keeps exactly the unexpired rows |
| Store.GetPrefixIsExact | rns_icn/content_store.py:292-358 | A prefix lookup answers with a copy of the extreme eligible row (newest, highest or lowest sequence), field by field, and with nothing exactly when no row is eligible |
| ContentStores.IndexIsScan | rns_icn/content_store.py:219-228 | A pair is in the index exactly when the row is stored and the first name is one of its hash-free prefixes |
| ContentStores.IndexAfterDelete | rns_icn/content_store.py:245-249 | Deleting by name from both tables keeps the index exact |
| ContentStores.IndexAfterUpsert | rns_icn/content_store.py:219-228 | Replacing a row and re-filing its prefixes keeps the index exact |
| ContentStores.JoinIsScan | rns_icn/content_store.py:326-333 | The join behind a prefix lookup selects what scanning every row would select |
| ContentStores.ContentStore.constructor | rns_icn/content_store.py:29-53 | A new store is empty, valid, and has a capacity of at least one |
| ContentStores.ContentStore.DeleteRow | rns_icn/content_store.py:435-441 | One name leaves both tables; the count says whether it was there |
| ContentStores.ContentStore.DeleteAll | rns_icn/content_store.py:245-249 | The row-by-row deletion loop removes exactly the named rows and counts them |
| ContentStores.ContentStore.Insert | rns_icn/content_store.py:167-234 | Both tables change together to the specified rows within capacity, or, where the source raises, not at all |
| ContentStores.ContentStore.UpsertRow | rns_icn/content_store.py:197-228 | The upsert statement with its index maintenance |
| ContentStores.ContentStore.AddPrefixes | rns_icn/content_store.py:222-228 | The prefix loop files the name under all of its hash-free prefixes |
| ContentStores.ContentStore.EvictLru | rns_icn/content_store.py:236-249 | The eviction loop is eviction by age, with its count |
| ContentStores.ContentStore.EvictDownTo | rns_icn/content_store.py:428-433 | Evicts down to a target size |
| ContentStores.ContentStore.PurgeExpired | rns_icn/content_store.py:409-426 | Removes exactly the expired rows from both tables |
| ContentStores.ContentStore.Fetch | rns_icn/content_store.py:251-290 | Exact lookup refines its specification; one hit or one miss is counted |
| ContentStores.ContentStore.FetchPrefix | rns_icn/content_store.py:292-358 | Prefix lookup through the index refines the index-free specification |
| ContentStores.ContentStore.RemoveEntry | rns_icn/content_store.py:435-441 | Removes one entry and says whether it existed |
| ContentStores.ContentStore.Invalidate | rns_icn/content_store.py:443-474 | Removes the exact name, or every name under a prefix as a scan would find them |
| ContentStores.ContentStore.Contains | rns_icn/content_store.py:476-480 | Membership by name |
| ContentStores.InvalidationIsExact | rns_icn/content_store.py:460-474 | After a prefix invalidation nothing under the prefix is left and everything else still is |
| Fibs.ValidMeans | rns_icn/fib.py:17-32 | One entry per prefix, each with a non-empty, duplicate-free, cost-sorted list |
| Fibs.SetHopKeepsValid | rns_icn/fib.py:21-32 | Adding or re-costing a face and sorting gives a valid next-hop list that loses no hop and doubles none |
| Fibs.WithRouteIsUpdate | rns_icn/fib.py:21-32 | Inserting a route changes the hops of its own prefix and of no other, and keeps the table valid |
| Fibs.HopsAreByCost | rns_icn/fib.py:21-32 | The next hops of a prefix stand in order of cost, each face once |
| Fibs.InsertedRoute | rns_icn/fib.py:21-32 | Inserting a route sets the cost of one face under one prefix and touches no other route |
| Fibs.WithoutFaceIsFilter | rns_icn/fib.py:34-64 | Removing a face takes it, and only it, out of the affected prefixes and leaves no empty entry |
| Fibs.WithdrawnRoutes | rns_icn/fib.py:34-64 | Withdrawing a face ends exactly its routes, everywhere or for the prefixes above and below one |
| Fibs.WithoutPrefixIsFilter | rns_icn/fib.py:45-46 | Removing a prefix drops exactly the entries under it |
| Fibs.LookupIsLongestPrefixMatch | rns_icn/fib.py:66-73 | Lookup is longest-prefix match, and empty exactly when nothing matches |
| Fibs.WithdrawnIsUnreachable | rns_icn/fib.py:48-64 | A withdrawn face is in no lookup answer |
| Fibs.Fib.constructor | rns_icn/fib.py:17-19 | Starts empty |
| Fibs.Fib.Insert | rns_icn/fib.py:21-32 | The loop refines the route update |
| Fibs.Fib.RemoveFace | rns_icn/fib.py:34-43 | The rebuild loop refines removal along related prefixes |
| Fibs.Fib.RemovePrefix | rns_icn/fib.py:45-46 | Refines prefix removal |
| Fibs.Fib.RemoveAllForFace | rns_icn/fib.py:48-64 | Refines withdrawal everywhere and counts the prefixes affected |
| Fibs.Fib.LookupHops | rns_icn/fib.py:66-73 | The best-so-far loop computes longest-prefix match |
| Pits.InsertFacts | rns_icn/pit.py:47-63 | Insertion joins a pending entry, adding only its in-face, or makes one holding this Interest, in-face and expiry, within the cap; other entries survive but for one victim |
| Pits.InsertEvictsOne | rns_icn/pit.py:59-70 | Of the other entries an insertion removes one if the name is new and the table full, none of them expiring sooner, and otherwise none; it changes none |
| Pits.TouchFacts | rns_icn/pit.py:72-93 | Recording an out-face, satisfying and removing change one entry in one respect |
| Pits.PurgeIsExact | rns_icn/pit.py:95-103 | A sweep leaves exactly the entries neither satisfied nor expired, unchanged |
| Pits.SweepKeepsLive | rns_icn/pit.py:102 | A sweep keeps exactly the nonces that have not expired |
| Pits.MakeRoomFacts | rns_icn/pit.py:65-70 | Eviction drops one entry, and it expires no later than any kept one |
| Pits.NearestIsFirst | rns_icn/pit.py:65-70 | Of several entries that expire soonest, the one inserted first is dropped |
| Pits.DropAllFacts | rns_icn/pit.py:95-103 | Sweeping removes exactly the listed entries |
| Pits.SweepIsSuffix | rns_icn/pit.py:102 | A sweep drops exactly the expired front of the tracker |
| Pits.TrackerIsSlidingWindow | rns_icn/pit.py:95-115 | Over any run under a non-decreasing clock the nonce tracker holds exactly the pairs with fewer than the limit newer ones that outlast the last sweep, in recording order |
| Pits.Pit.constructor | rns_icn/pit.py:29-38 | Starts empty with its limits, whatever they are |
| Pits.Pit.Insert | rns_icn/pit.py:47-63 | Refines insertion or aggregation and counts evictions |
| Pits.Pit.EvictNearestExpiry | rns_icn/pit.py:65-70 | Drops the first of the nearest-to-expire entries |
| Pits.Pit.SetOut | rns_icn/pit.py:72-75 | Records the out face of an existing entry |
| Pits.Pit.SatisfyEntry | rns_icn/pit.py:77-82 | Marks the entry satisfied and returns its in faces |
| Pits.Pit.RemoveEntry | rns_icn/pit.py:84-93 | Removes and returns one entry |
| Pits.Pit.PurgeExpired | rns_icn/pit.py:95-103 | Afterwards exactly the entries neither satisfied nor expired remain; expired nonces are gone |
| Pits.Pit.Record | rns_icn/pit.py:108-115 | Records a nonce, dropping the soonest to expire when full; raises exactly when the limit is zero or less |
| Strategies.UsableIsFilter | rns_icn/strategy.py:77-92 | Usable faces are the hops not backed off, each once; the first is the first usable face |
| Strategies.CandidatesRefineDecision | rns_icn/forwarder.py:150-164 | The candidate list starts with the face the strategy chose and holds every other usable hop once, in cost order |
| Strategies.BackoffOnlyEnds | rns_icn/strategy.py:54-59 | As time passes without failures a usable face stays usable |
| ForwardingAnswers.BackoffDoubles | rns_icn/strategy.py:46-59 | A failed face is left alone for twice the base, doubling with each further failure up to 64 times the base and never beyond the maximum |
| Strategies.BestRoute.constructor | rns_icn/strategy.py:36-44 | Starts without failures |
| Strategies.BestRoute.RecordFailure | rns_icn/strategy.py:46-49 | Counts the failure and puts the face into backoff |
| Strategies.BestRoute.RecordSuccess | rns_icn/strategy.py:51-52 | Forgets the face, which is then not in backoff |
| Forwarding.TryFaces | rns_icn/forwarder.py:181-208 | Trying next hops sends on one registered face and keeps only the hops behind it, or ends having sent nothing |
| Forwarding.StartForward | rns_icn/forwarder.py:166-185 | A forward spends exactly one hop however many next hops it tries, and an exhausted Interest sends nothing |
| Forwarding.OtherStepsKeepTasks | rns_icn/forwarder.py:273-337 | Arrivals, NACKs, timeouts, withdrawals and purges send nothing and run no call |
| ForwardingSafety.CacheHitIsUnder | rns_icn/forwarder.py:85-109 | A cache answer lies under the name asked for |
| ForwardingSafety.AncestorIsNearest | rns_icn/forwarder.py:318-330 | The ancestor loop finds the longest pending proper prefix that accepts longer names |
| ForwardingSafety.ExpressKeeps | rns_icn/forwarder.py:78-148 | Expressing an Interest keeps the safety invariant |
| ForwardingSafety.ResumeKeeps | rns_icn/forwarder.py:212-240 | Resuming after an answer, a NACK or a timeout keeps the safety invariant |
| ForwardingSafety.ReceiveDataKeeps | rns_icn/forwarder.py:297-337 | Arriving Data keeps the safety invariant |
| ForwardingSafety.StepKeeps | rns_icn/forwarder.py:59-337 | Every step of the forwarder keeps the safety invariant |
| ForwardingRuns.RunKeepsInv | rns_icn/forwarder.py:59-337 | Every interleaving of steps keeps the safety invariant |
| ForwardingRuns.ReachableStatesAreSafe | rns_icn/forwarder.py:78-337 | In every reachable state returned Data lies under the name asked for, keys are hash-free, PIT and store are within limits, every PIT entry belongs to a running forward, and the PIT is empty once none runs |
| ForwardingRuns.RunSettles | rns_icn/forwarder.py:187-240 | A waiter once resolved and a call once returned never change again |
| ForwardingRuns.StepSendsAtMostOne | rns_icn/forwarder.py:187-208 | One step sends at most one Interest, on a registered face |
| ForwardingRuns.WithdrawnFaceIsSilent | rns_icn/forwarder.py:68-76 | After a face is withdrawn nothing is sent on it until it is registered again, also by a failover loop holding an older list |
| ForwardingRuns.StepAdvances | rns_icn/forwarder.py:181-240 | A running forward only moves down its list, spends no further hop, and stops at the first answer |
| ForwardingCalls.ForwardStartsWithCandidates | rns_icn/forwarder.py:142-185 | A forward starts with the candidates its own routing lookup and strategy give it: distinct usable next hops, the chosen face first; and spends one hop |
| ForwardingCalls.ReachableListsAreDistinct | rns_icn/forwarder.py:150-185 | In every reachable state no forward has a face twice among its next hops |
| ForwardingCalls.TriedAtMostOnce | rns_icn/forwarder.py:181-185 | In every run from the start a forward tries each next hop at most once |
| ForwardingRuns.ArrivalLeavesSatisfied | rns_icn/forwarder.py:317-335 | Arriving Data leaves a satisfied entry behind exactly when it matched one and storing it raised |
| ForwardingRuns.NoEntryLeftSatisfied | rns_icn/forwarder.py:317-335 | As long as Data can be stored no entry is left satisfied between steps |
| ForwardingRuns.MatchedIsNearest | rns_icn/forwarder.py:314-330 | Data matches its exact name or else the longest pending proper prefix that accepts longer names |
| ForwardingRuns.ArrivalIsDelivered | rns_icn/forwarder.py:297-337 | Unless looking for ancestors raises, the waiters of exactly the nearest entry get this Data, whether or not it can be stored; if it can, it is cached when matched or opted in and that entry is gone; all other entries, waiters and futures stay as they were |
| ForwardingRuns.HugeSequenceLeavesSatisfied | rns_icn/forwarder.py:317-335 | At a concrete input: Data with a sequence of 2^63 leaves the entry it matched behind, satisfied |
| ForwardingRuns.LoopDetectionIsSlidingWindow | rns_icn/pit.py:95-115 | Over every run of the forwarder under a non-decreasing clock an Interest is dropped as a duplicate exactly when its nonce is in the sliding window of the nonces recorded so far |
| ForwardingRuns.NackIsDelivered | rns_icn/forwarder.py:282-295 | A NACK reaches every registered waiter of its name and caches nothing |
| ForwardingCalls.SuppressedStep | rns_icn/forwarder.py:132-140 | An Interest for a name that is pending and that the store cannot answer sends nothing: it is dropped as a duplicate or waits on a future of its own |
| ForwardingCalls.StepKeepsSuppressed | rns_icn/forwarder.py:132-140 | No step makes a suppressed call do anything but return what its own future was answered with, or nothing, without sending |
| ForwardingCalls.SenderIsForward | rns_icn/forwarder.py:187-208 | Every transmission is made by the step of one forward, which was not waiting behind another |
| ForwardingCalls.AggregationNeverResends | rns_icn/forwarder.py:132-140 | Over every interleaving: a call suppressed at one step is suppressed or returned at every later one, and no step that changes it sends |
| ForwardingAnswers.OfferIsExact | rns_icn/forwarder.py:87-109 | An exact Interest is offered the row asked for; a prefix Interest the extreme eligible one, on a sequence walk only one exactly on the floor; nothing exactly when there is none |
| ForwardingAnswers.DuplicateGetsNothing | rns_icn/forwarder.py:80-83 | A call with a nonce already seen on its face returns nothing at once and changes nothing else |
| ForwardingAnswers.CallsPurgeTheStore | rns_icn/forwarder.py:78-109 | Any other call also takes exactly the expired rows out of the store, and touches no route, face or failure record |
| ForwardingAnswers.HeldIsReturned | rns_icn/forwarder.py:111-130 | If the store offers Data that is fresh where it must be and not below the floor, the call returns it at once, whatever is pending; a refresh for the first usable hop is scheduled along exactly when the answer is stale but within its window, none is in flight and there is a hop |
| ForwardingAnswers.PendingIsJoined | rns_icn/forwarder.py:132-140 | Without such Data, a call for a pending name waits on a new future under that name and sends nothing |
| ForwardingAnswers.OthersAreForwarded | rns_icn/forwarder.py:142-208 | Otherwise the call sends to the first next hop that is registered and not backed off, one hop spent, its entry saying so; it returns nothing if there is none or no hop is left |
| ForwardingAnswers.SentIsAwaited | rns_icn/forwarder.py:208-211 | After sending, a forward waits on a new future listed under its hash-free name |
| ForwardingAnswers.AnswerIsReturned | rns_icn/forwarder.py:212-240 | A waiting or joined call whose future was answered, and not overtaken, returns that Data; a forward also removes its entry and clears its own face's failures and no other |
| ForwardingAnswers.FailureMovesOn | rns_icn/forwarder.py:212-240 | After a NACK or timeout a joined call returns nothing; a forward charges its face with one more failure, now, removes its entry, and sends to the next registered face of its list or returns nothing |
| ForwardingAnswers.RefreshAsksItsFace | rns_icn/forwarder.py:242-271 | A scheduled refresh sends to its one face, one hop spent, or ends and releases its name |
| ForwardingAnswers.ControlStepsMean | rns_icn/forwarder.py:59-76 | Registering, routing, withdrawing, purging and invalidating change exactly the faces, routes, entries, nonces and rows concerned |
| ForwardingAnswers.ForwardReturnsItsAnswer | rns_icn/forwarder.py:187-337 | Over any run: once Data arrives that a waiting call's pending entry is the nearest for, the call returns that very Data when it is resumed from this wait, whatever happens between, unless its lifetime overtook it |
| Forwarders.Forwarder.constructor | rns_icn/forwarder.py:31-48 | A new forwarder is safe and in the start state |
| Forwarders.Forwarder.RegisterFace | rns_icn/forwarder.py:59-60 | Refines its step and stays safe |
| Forwarders.Forwarder.UnregisterFace | rns_icn/forwarder.py:62-63 | Refines its step and stays safe |
| Forwarders.Forwarder.AddRoute | rns_icn/forwarder.py:65-66 | Refines its step and stays safe |
| Forwarders.Forwarder.WithdrawFace | rns_icn/forwarder.py:68-76 | Refines its step and stays safe |
| Forwarders.Forwarder.PurgePit | rns_icn/pit.py:95-103 | Refines its step and stays safe |
| Forwarders.Forwarder.AddWaiter | rns_icn/forwarder.py:210-211 | Lists a new pending future under its key |
| Forwarders.Forwarder.NotifyWaiters | rns_icn/forwarder.py:273-280 | The loop over waiters resolves exactly the pending ones and empties the list |
| Forwarders.Forwarder.ReceiveNack | rns_icn/forwarder.py:282-295 | Refines its step and stays safe |
| Forwarders.Forwarder.Return | rns_icn/forwarder.py:259-267 | Ends a call; a background refresh releases its name |
| Forwarders.Forwarder.ForwardOne | rns_icn/forwarder.py:187-208 | One turn of the failover loop |
| Forwarders.Forwarder.TryFaces | rns_icn/forwarder.py:181-185 | The failover loop refines its recursive specification |
| Forwarders.Forwarder.Forward | rns_icn/forwarder.py:166-185 | Hop limit check and failover |
| Forwarders.Forwarder.ScheduleRevalidation | rns_icn/forwarder.py:242-271 | At most one background refresh per name |
| Forwarders.Forwarder.CacheLookup | rns_icn/forwarder.py:85-109 | The store lookup with the sequence-walk rule |
| Forwarders.Forwarder.Express | rns_icn/forwarder.py:78-148 | Refines the express step and stays safe |
| Forwarders.Forwarder.StartRefresh | rns_icn/forwarder.py:259-269 | Refines its step and stays safe |
| Forwarders.Forwarder.AfterSend | rns_icn/forwarder.py:208-211 | The waiter is registered only after the transmission; stays safe |
| Forwarders.Forwarder.LifetimeElapses | rns_icn/forwarder.py:213-220 | Refines its step and stays safe |
| Forwarders.Forwarder.AfterWait | rns_icn/forwarder.py:212-240 | Answer, NACK and timeout after a wait, and a timeout that overtakes an answer; stays safe |
| Forwarders.Forwarder.NearestAncestor | rns_icn/forwarder.py:324-330 | The ancestor loop refines its specification |
| Forwarders.Forwarder.ReceiveData | rns_icn/forwarder.py:297-337 | Refines the arrival step, stays safe, and raises exactly under the stated condition |
| Spread.BoundIsSumOfPowers | rns_icn/forwarder.py:166-185 | For an Interest whose serving fetches nothing the recursive bound is D + D^2 + ... + D^h |
| Spread.ExpressSpends | rns_icn/forwarder.py:78-185 | Handling an Interest spends at most what it is worth, failover and refresh included |
| Spread.OtherStepsSpend | rns_icn/forwarder.py:187-240 | No other step of a forwarder creates potential transmissions |
| Trails.ExpressExtends | rns_icn/forwarder.py:177-179 | An Interest sent on is one transmission further down its chain and has used exactly one hop more than the one received |
| Network.FetchFits | rns_icn/propagation.py:193-210 | A manifest fetched has a lower rank than the one it is fetched for, which makes room for its fresh hops |
| Network.NetStepKeepsClaim | rns_icn/server.py:303-332 | Every step of the network keeps: names are ranked, chains have spent the hops claimed, and manifests being built belong to such chains |
| Network.ServeSpends | rns_icn/server.py:312-320 | Serving a manifest, with all it may fetch, is paid for by what its Interest is worth |
| Network.NetStepSpends | rns_icn/server.py:303-332 | No step of the network, serving and fetching manifests included, raises transmissions made plus transmissions still possible |
| Network.SpreadIsBounded | rns_icn/forwarder.py:166-271 | On any topology all the Interests in flight over a quiet network cause at most what they are worth together, with the manifests fetched on the way, provided manifests nest to a finite depth |
| Network.ChainsAreShort | rns_icn/forwarder.py:177-179 | No chain of transmissions is longer than the hop limit and 16 more for each level of nested manifests; where nothing is fetched, exactly one hop is used per transmission |
| Network.QuietNetworkFits | rns_icn/forwarder.py:166-179 | A quiet network with fresh Interests in flight is where such chains start |
| Manifests.PlainSpreadIsBounded | rns_icn/forwarder.py:166-271 | Interests none of which asks a server with downstream peers for its manifest cause at most the sum of D + D^2 + ... + D^h over their hop limits |
| Manifests.PlainInterestIsBounded | rns_icn/forwarder.py:166-271 | One such Interest causes at most D + D^2 + ... + D^h transmissions, in chains that have used one hop per transmission |
| Manifests.FetchTransmits | rns_icn/propagation.py:158-210 | A server asked for its manifest by an Interest without hops sends a fresh one to a downstream peer |
| Manifests.BoundHoldsExactlyWhen | rns_icn/server.py:303-332 | Interests for a name keep to D + D^2 + ... + D^h from every quiet network if and only if no server with that manifest name has a downstream peer |
| Manifests.ManifestExceedsBound | rns_icn/server.py:312-320 | At a concrete input: two servers, the second downstream of the first, one transmission for a hop limit of zero |
| Manifests.PairIsNested | rns_icn/propagation.py:158-191 | The general bound applies to these two servers |
| Servers.DigestKeySeparatesNames | rns_icn/server.py:366 | Under an injective hash each name has its own invalidation record |
| Servers.Purge | rns_icn/server.py:385 | Purging drops exactly the rows the invalidation covers |
| Servers.PurgeMeans | rns_icn/server.py:385 | An invalidation leaves exactly the rows under other names, or for a prefix those not under it; a pinned prefix removes none |
| Servers.SignedMeans | rns_icn/server.py:140-155 | Own unsigned Data goes out stamped, unless it bears a time, and signed as stamped; all other Data unchanged |
| Servers.ServedMeans | rns_icn/server.py:157-196 | A server answers with what its store finds, signed if its own, except away from the producer off the floor of a sequence walk or stale where fresh is asked |
| Servers.ICNServer.constructor | rns_icn/server.py:94-122 | Starts with no faces, nothing seen and an empty store |
| Servers.ICNServer.NewFace | rns_icn/server.py:128-138 | Face ids are never reused |
| Servers.ICNServer.Lookup | rns_icn/server.py:173-196 | Store lookup with signing of own Data and the floor rule |
| Servers.ICNServer.Serve | rns_icn/server.py:157-171 | A stale hit does not answer a must-be-fresh Interest except at the producer |
| Servers.ICNServer.IsFresh | rns_icn/server.py:364-371 | The epoch guard: true exactly for a newer epoch, which is recorded |
| Servers.ICNServer.HandleInvalidate | rns_icn/server.py:373-392 | The loop over faces refines: drop, or record, purge and send to all faces but the arrival face |
| Servers.ICNServer.Invalidate | rns_icn/server.py:394-409 | Origination records, purges and floods; nothing happens without a signer |
| Flood.DeliveryIsProgress | rns_icn/server.py:364-392 | Every delivery uses up news at a server or a message |
| Flood.FloodTerminates | rns_icn/server.py:364-409 | On any finite graph, cyclic or not, and whatever is stored meanwhile, the flood ends within a stated number of deliveries |
| Flood.MeasureIsFinite | rns_icn/server.py:364-371 | That number is bounded by servers times invalidations times faces plus messages in flight |
| Flood.StepKeepsFloodInv | rns_icn/server.py:373-409 | Every step keeps: what one end of a link has recorded the other has too or is being told |
| Flood.LastRecord | rns_icn/server.py:364-392 | What a server ends up with as recorded it recorded at one step, at which it purged what that covers, and nothing was recorded after |
| Flood.RowStayed | rns_icn/content_store.py:443-474 | A row that is there has been there throughout, or was stored since |
| Flood.FloodConverges | rns_icn/server.py:364-409 | When nothing is in flight every connected verifying server has recorded exactly the largest epoch, and one invalidation of that epoch covers nothing it holds, but for what it stored after recording it |
| Flood.FloodPurges | rns_icn/server.py:364-409 | Where no store changes otherwise meanwhile, nothing that one invalidation of the largest epoch covers is left |
| FloodApplied.WidestMeans | rns_icn/server.py:385 | For one unpinned name the condition is about scopes alone |
| FloodApplied.OwnIsApplied | rns_icn/server.py:394-409 | What a server itself issues it applies, in any run |
| FloodApplied.WidestIsEnough | rns_icn/server.py:364-409 | If each invalidation of the largest epoch, together with the server's own of that epoch, covers all that other servers' cover, every finished flood has applied them all at a reached verifying server, issuing or not, but for rows stored since |
| FloodApplied.NarrowCanWin | rns_icn/server.py:364-409 | If not, in some order of issues and deliveries a row stored before is left although another server's invalidation covers it |
| FloodApplied.AllAppliedExactlyWhenWidest | rns_icn/server.py:364-409 | Every finished flood, whatever is stored and evicted meanwhile, has applied all invalidations at a reached verifying server, but for rows stored since, if and only if that condition holds |
| FloodApplied.SameSecondIsLost | rns_icn/server.py:364-409 | At a concrete input: of an exact and a prefix invalidation issued within one second the second is dropped elsewhere, and a row it covers stays |
| Replication.TargetsDistinct | rns_icn/propagation.py:318-322 | No peer is sent to twice |
| PeerGraph.ReducedWalkIsUnique | rns_icn/propagation.py:318-329 | On an acyclic peer graph one non-returning walk leads to each server |
| PeerGraph.CyclesAreEndless | rns_icn/propagation.py:318-329 | On a cyclic one there are non-returning walks of every length |
| Cycles.FindCycle | rns_icn/propagation.py:318-329 | A walk that comes back without turning round holds a simple cycle |
| Cycles.AcyclicMeansNoCycle | rns_icn/propagation.py:318-329 | A peer graph is acyclic from a server if and only if no simple cycle is connected to it |
| Replication.PublishedIsCounted | rns_icn/server.py:437-449 | A publication puts one copy on every peer link of the publisher and one more on those whose peer has subscribed, and nothing else |
| Replication.PublishedIsOk | rns_icn/server.py:437-449 | It also stores the Data, and is a state that replication keeps the invariants from |
| Replication.CopiesAreOnwards | rns_icn/propagation.py:318-329 | A propagation sends one copy over every link but the one the Data came by |
| Replication.ArrivalIsCached | rns_icn/propagation.py:379-381 | A copy that arrives is in the store afterwards |
| Replication.RunKeepsNetOk | rns_icn/propagation.py:305-384 | Every run keeps: on each non-returning walk as many copies are in flight or arrived as were due there, none elsewhere, and the Data is cached where it arrived |
| Replication.CopiesAreBounded | rns_icn/propagation.py:305-384 | On no walk are there ever more copies than were sent on its first link |
| Replication.ReplicationTerminates | rns_icn/propagation.py:305-384 | On an acyclic graph of n servers at most 2(n - 1) copies ever arrive, and at most n - 1 if no peer of the publisher has subscribed |
| Replication.ReplicationIsComplete | rns_icn/propagation.py:305-384 | When nothing is in flight the Data has arrived at exactly the other connected servers, at each by one walk and as often as it was sent on the first link of that walk; it is cached there and at the publisher, and has not come back to it |
| Replication.PublishingReplicates | rns_icn/server.py:437-449 | From one publication on an acyclic graph: the bounds above, and when quiet exactly the other connected servers have had the Data |
| Replication.EchoesExactlyOnCycles | rns_icn/propagation.py:46-47 | The Data can come back to its publisher in some run if and only if the graph is cyclic from there |
| Replication.NeverEndsOnCycles | rns_icn/propagation.py:318-329 | On a cyclic graph replication never ends: at no point of any run is nothing in flight |
| Replication.OnceExactlyWhen | rns_icn/server.py:437-449 | In every run every server gets the Data at most once and the publisher not at all, if and only if the graph is acyclic from the publisher and none of its peers has subscribed |
| Replication.SubscribedPeerGetsTwo | rns_icn/server.py:448-449 | A subscribed peer of the publisher can get the Data twice over one face |
| Replication.SubscribedPairGetsTwo | rns_icn/server.py:448-449 | At a concrete input: two servers, the second subscribed, two arrivals |
| Replication.RingEchoes | rns_icn/propagation.py:318-329 | At a concrete input: in a ring of three servers the Data comes back to its publisher, and copies are still in flight |
| Propagation.PropagationManager.constructor | rns_icn/propagation.py:54-61 | Starts without peers |
| Propagation.PropagationManager.AddPeer | rns_icn/propagation.py:65-72 | Adds or re-addresses a peer, keeping order |
| Propagation.PropagationManager.RemovePeer | rns_icn/propagation.py:74-80 | Forgets a peer; what is struck off the synced producers is the all-zero name |
| Propagation.PropagationManager.MarkDownstream | rns_icn/propagation.py:96-104 | Only peers can be downstream |
| Propagation.PropagationManager.MarkUpstream | rns_icn/propagation.py:106-108 | Unmarks a downstream peer |
| Propagation.PropagationManager.BeginSync | rns_icn/propagation.py:231-239 | Records the producer; raises for a face that is no peer |
| Propagation.PropagationManager.Propagate | rns_icn/propagation.py:305-329 | The loop over peers sends to exactly the targets and counts them |
| Propagation.PropagationManager.HandlePeerData | rns_icn/propagation.py:365-384 | Receives and caches, then sends on to all other peers; sends nothing where receiving raised |
| Propagation.PropagationManager.HandleHandshake | rns_icn/propagation.py:386-399 | Registers the peer and routes its names to it |
| Propagation.Publisher.constructor | rns_icn/server.py:94-122 | Holds its managers |
| Propagation.Publisher.PublishPushed | rns_icn/server.py:437-449 | Signs and stores, then sends to every live subscriber face and after that to every live peer; where storing raises, sends nothing |
| Aps.APSManager.constructor | rns_icn/aps.py:41-43 | Starts without subscriptions |
| Aps.SubscriberFacesMeans | rns_icn/aps.py:98-115 | A publication concerns exactly the faces with a subscription whose name is a prefix of the Data's, or has it as one |
| Aps.APSManager.Subscribe | rns_icn/aps.py:45-49 | Adds one subscription and no other |
| Aps.APSManager.Unsubscribe | rns_icn/aps.py:51-57 | Ends one subscription and no other; a stream without subscribers goes |
| Aps.APSManager.UnsubscribeFace | rns_icn/aps.py:59-64 | The loop takes a face out of every stream and no other face out of any |
| Aps.APSManager.Publish | rns_icn/aps.py:98-140 | The loop sends once to each live subscriber of a matching stream, counts them, and reports the others for the offline queue |
| Wire.VarintRoundTrip | rns_icn/packet.py:75-97 | Reading a written varint gives the value and its length under any suffix |
| Wire.VarintCanonical | rns_icn/packet.py:75-97 | Rewriting a read varint reproduces the octets exactly when they were the shortest form |
| Wire.FlagBits | rns_icn/packet.py:384-397 | Six flags in one octet are read back one by one |
| NameCodec.NameRoundTrip | rns_icn/name.py:38-108 | An encoded name parses back exactly when it has at most 32 components, whatever follows that does not look like a pin |
| NameCodec.ParsedNameIsPrefix | rns_icn/name.py:38-65 | Printing a parsed name gives a prefix of the input |
| NameCodec.UnpinnedNamesArePrefixFree | rns_icn/name.py:99-108 | No hash-free encoding is the start of another |
| NameCodec.EncodingIsInjective | rns_icn/name.py:99-108 | Equal encodings mean equal names, pinned or not |
| NameCodec.ToBytes | rns_icn/name.py:99-108 | The buffer loop refines the recursive encoding |
| NameCodec.FromBytes | rns_icn/name.py:38-65 | The cursor loop refines the recursive parser, errors included |
| PacketCodec.SelectorRoundTrip | rns_icn/packet.py:169-202 | A selector parses back with the right remainder under any suffix |
| PacketCodec.InterestRoundTrip | rns_icn/packet.py:269-338 | An Interest survives the wire, its empty selector normalised |
| PacketCodec.MetadataRoundTrip | rns_icn/packet.py:384-451 | Metadata survive the wire, the age of fresh Data normalised |
| PacketCodec.DataRoundTrip | rns_icn/packet.py:580-657 | Data survive the wire |
| PacketCodec.SubscribeRoundTrip | rns_icn/packet.py:681-720 | A subscription survives the wire |
| PacketCodec.PropPeerRoundTrip | rns_icn/packet.py:744-772 | A peering handshake survives exactly with the current version; its address is padded or cut |
| PacketCodec.CapPeerRoundTrip | rns_icn/packet.py:791-810 | A capability exchange survives exactly with the current version |
| PacketCodec.InvalidateRoundTrip | rns_icn/packet.py:871-919 | An invalidation survives the wire |
| PacketCodec.NackRoundTrip | rns_icn/packet.py:957-987 | A NACK survives the wire |
| PacketCodec.PacketRoundTrip | rns_icn/packet.py:1003-1030 | All seven kinds survive the dispatching parser under any suffix |
| PacketCodec.ParsedIsNormal | rns_icn/packet.py:1003-1030 | Whatever octets arrive, a packet that parses can be encoded and parsed again |
| PacketCodec.RoundTripsExactlyWhenNormal | rns_icn/packet.py:1003-1030 | A packet comes back unchanged if and only if it is of parser sizes and normalised |
| PacketCodec.OtherVersionsAreRefused | rns_icn/packet.py:41-56 | The version error is raised for exactly the packets of a known kind with another version octet that are long enough to be looked at: 19 octets for a handshake, 7 for a capability exchange, 2 otherwise |
| Signing.EnvelopeIsReadable | rns_icn/packet.py:507-526 | The signed tail can be read back field by field |
| Signing.EnvelopeBindsFields | rns_icn/packet.py:500-527 | For one name, content and hash the preimage determines sequence, signing time and encryption, absent told from zero |
| Signing.SameOctetsSameData | rns_icn/packet.py:500-527 | Two Data of one layout signed as the same octets agree in name, content, content hash, sequence, signing time and encryption if and only if they have as many optional fields |
| Signing.TailCanPassForContent | rns_icn/packet.py:500-527 | At a concrete input: without content hashes, content ending like a tagged sequence is signed as the same octets as the shorter content with that sequence |
| Signing.ValidMeansOriginal | rns_icn/packet.py:500-578 | Under an injective hash a validator good for the originals only takes only an original: the same preimage, and for one layout and as many optional fields all that is signed |
| Signing.InvalidatePreimageIsInjective | rns_icn/packet.py:849-855 | A signed invalidation binds name, epoch and scope |
| Signing.CapabilityRoundTrip | rns_icn/access.py:218-270 | A capability token survives saving and loading |
| Signing.CapabilityPreimageIsInjective | rns_icn/access.py:145-156 | The signing preimage determines every field of the grant |
| Signing.DomainsSeparate | rns_icn/packet.py:59-65 | No object of one kind shares a digest with another kind |
| WireExamples.VarintExamples | rns_icn/packet.py:75-84 | At concrete inputs: the lengths and octets of numbers around each limit |
| WireExamples.NameExample | rns_icn/name.py:99-108 | At a concrete input: count, then each component with its length; a pin behind octet 255 |
| WireExamples.WalkInterestExample | rns_icn/packet.py:269-292 | At a concrete input: type, version, name, nonce, lifetime, flags, selector, hop limit |
| WireExamples.LatestInterestExample | rns_icn/packet.py:269-292 | At a concrete input: a selector without a floor |
| WireExamples.PlainInterestExample | rns_icn/packet.py:269-292 | At a concrete input: no flags but that of the hop limit |
| WireExamples.HopLimitMayBeMissing | rns_icn/packet.py:294-338 | At a concrete input: an Interest without a hop limit has 16 |
| WireExamples.HashAndSequenceExample | rns_icn/packet.py:384-410 | At concrete inputs: the flags of content hash and sequence |
| WireExamples.TimesExample | rns_icn/packet.py:384-410 | At concrete inputs: the flags of age, period and signing time |
| WireExamples.EncryptedExample | rns_icn/packet.py:384-410 | At a concrete input: the flag of encryption |
| WireExamples.AllMetadataExample | rns_icn/packet.py:384-410 | At a concrete input: the flag octet and all fields in their order |
| WireExamples.SignedDataExample | rns_icn/packet.py:580-613 | At a concrete input: type, version, name, content, flags, metadata, signature |
| WireExamples.PlainDataExample | rns_icn/packet.py:580-613 | At a concrete input: Data without metadata or signature |
| WireExamples.SubscribeExample | rns_icn/packet.py:681-692 | At a concrete input: name and flag |
| WireExamples.PeerExamples | rns_icn/packet.py:744-798 | At concrete inputs: handshake and capability exchange |
| WireExamples.InvalidateExamples | rns_icn/packet.py:871-887 | At concrete inputs: name, epoch, flags, signature |
| WireExamples.NackExamples | rns_icn/packet.py:957-966 | At concrete inputs: name and each reason |
| WireExamples.DataPreimageExample | rns_icn/packet.py:500-527 | At a concrete input: the octets that are signed, the domain in front |
| WireExamples.InvalidatePreimageExample | rns_icn/packet.py:849-855 | At concrete inputs: the octets that are signed, with either scope |
| WireExamples.CapabilityExample | rns_icn/access.py:145-243 | At a concrete input: a token as stored and as signed |
| WireExamples.DiscoveryExample | rns_icn/discovery.py:35-57 | At a concrete input: pointer and catalogue names, and a pointer payload |
| Access.MetaRoundTrip | rns_icn/discovery.py:51-70 | A pointer payload decodes to its target |
| Access.DiscoveryNames | rns_icn/discovery.py:35-48 | Pointer and catalogue names are reserved, under their collection, and distinct |
| Access.RuleForIsFirst | rns_icn/access.py:338-348 | A grant is made under the first rule of exactly that prefix, and refused exactly when there is none |
| Access.AccessController.constructor | rns_icn/access.py:303-311 | Holds its rules |
| Access.AccessController.MatchingRule | rns_icn/access.py:313-321 | The loop finds the first of the longest matching rules, and none exactly when the name is public |
| Access.AccessController.EncryptContent | rns_icn/access.py:326-336 | Restricted content is encrypted under the first of its most specific rules, or raises where there is no private key or no encoding of the prefix; public content goes out unchanged |
| Access.AccessController.IssueCapability | rns_icn/access.py:338-364 | Issued exactly when a rule lists the consumer, the private key is there and the grant is of sizes that can be signed, and then covers exactly the names under the prefix until it expires; which error is raised otherwise |
| Chunking.LabelsAreDistinct | rns_icn/chunker.py:51-53 | Labels are distinct for every pair of indices |
| Chunking.LabelExamples | rns_icn/chunker.py:51-53 | At concrete inputs: the labels of 0, 42 and 12345 |
| Chunking.PiecesPartition | rns_icn/chunker.py:93-119 | Pieces join to the content, sizes add up, all but the last are full |
| Chunking.ChunkMeans | rns_icn/chunker.py:93-131 | The k-th reference has label, hash, size and number of the k-th piece; the k-th packet is named by content and label, pinned, hashed and numbered, and signed if there is a signer |
| Chunking.EndsExactlyForPositiveSizes | rns_icn/chunker.py:93-119 | The offset of the chunking loop ever reaches the end of some content if and only if the chunk size is positive |
| Chunking.ChunkContent | rns_icn/chunker.py:56-131 | For any chunk size: the loop builds the manifest and packets of the specification, and never returns exactly where its offset never reaches the end; empty content and bad addresses are refused |
| Chunking.GatherIsExact | rns_icn/assembler.py:90-107 | Assembly succeeds exactly when every chunk is present and verifies, and joins contents in manifest order |
| Chunking.GatherReportsFirst | rns_icn/assembler.py:90-132 | Assembly that fails reports the first reference with something wrong, and what: missing, other hash, or bad signature, in this order |
| Chunking.WholeCheckedMeans | rns_icn/assembler.py:52-89 | Assembled content is refused exactly when the manifest has an overall hash and the content another |
| Chunking.AssembleVerified | rns_icn/assembler.py:110-132 | The loop reports the first problem or the joined content |
| Chunking.Assemble | rns_icn/assembler.py:52-107 | The overall hash is checked last |
| Chunking.AssembleFast | rns_icn/assembler.py:135-150 | Succeeds exactly when nothing is missing, and otherwise reports the first missing label of the manifest |
| Chunking.LastReferenceDecides | rns_icn/assembler.py:174-192 | Where a manifest repeats a label its last reference decides |
| Chunking.VerifyChunks | rns_icn/assembler.py:174-192 | Reports for exactly the labels of the manifest whether the chunk is present and verifies against the last reference with the label |
| Chunking.MissingLabels | rns_icn/assembler.py:195-200 | Lists exactly the labels without a chunk, in manifest order and as often as the manifest has them |
| Chunking.NothingMissing | rns_icn/assembler.py:195-200 | Nothing is listed exactly when every reference has its chunk |
| Chunking.AssembleUndoesChunking | rns_icn/assembler.py:52-132 | Chunk then assemble gives the content back |
| Chunking.ChunkedPacketsDeliver | rns_icn/chunker.py:106-116 | The packets chunking makes are an acceptable delivery |
| Chunking.OnlyTheOriginalAssembles | rns_icn/assembler.py:52-132 | Under an injective hash no dictionary of chunks assembles to anything but the original |
| Chunking.ManifestLabelsDistinct | rns_icn/chunker.py:93-119 | A chunked manifest has distinct labels |
| Client.AcceptedVersionsNeverDecrease | rns_icn/client.py:481-504 | Over any run the signed versions accepted for a name never go back |
| Client.WatermarkIsMaximum | rns_icn/client.py:495-504 | The watermark is exactly the largest signed key accepted |
| Client.PinnedFetchIsExact | rns_icn/client.py:203-213 | A pinned fetch that succeeds got the very octets named |
| Client.AcceptableMeans | rns_icn/client.py:203-228 | An answer is acceptable exactly if its recorded hash is that of its content, its signature by a recalled key validates the hash of its preimage, one is there where required, the pin is met, and it is not older than the watermark |
| Client.PassesMeans | rns_icn/client.py:423-504 | The same for pushed Data, under the client's policy |
| Client.DecryptedMeans | rns_icn/client.py:518-556 | Encrypted Data becomes the plaintext of the first capability that covers it, is signed by a known producer where one is known, and opens it; all but content, hash, signature and the encrypted mark is kept |
| Client.PointerLeadsToItsTarget | rns_icn/client.py:275-300 | A pointer made for a target under the prefix leads there, and one that leads anywhere starts with that name, under the prefix |
| Client.MatchesAreInOrder | rns_icn/client.py:423-441 | A push goes to exactly the subscriptions it is under, each once, in order |
| Client.ICNClient.constructor | rns_icn/client.py:45-61 | Starts without watermarks or subscriptions |
| Client.ICNClient.AddCapability | rns_icn/client.py:106-118 | Files a capability under its producer |
| Client.ICNClient.CheckRollback | rns_icn/client.py:481-504 | Accepts exactly what does not roll back, and raises the watermark |
| Client.ICNClient.MaybeDecrypt | rns_icn/client.py:518-556 | Decrypts with the first usable capability that opens, else returns the ciphertext |
| Client.ICNClient.Verify | rns_icn/client.py:203-228 | The check pipeline of one answer |
| Client.ICNClient.FetchVerified | rns_icn/client.py:146-249 | Returns the first acceptable answer, decrypted; only it moves the watermark; otherwise nothing or the last error |
| Client.SucceedsExactlyWhenAuthentic | rns_icn/client.py:146-249 | A fetch succeeds exactly when some answer is authentic, as pinned and not stale, and then returns the first such answer, decrypted; failing, it raises exactly where it may and some try went wrong, and leaves the watermarks alone |
| Client.ICNClient.FetchLatest | rns_icn/client.py:251-307 | The first acceptable signed pointer is followed exactly when it leads to a name under the prefix, and then the fetch of that target decides; otherwise the ranked fallback decides |
| Client.ICNClient.DispatchPush | rns_icn/client.py:423-441 | Pushed Data reaches every matching subscription in order, and none unless it passes the checks; wanted Data that passes moves the watermark |
| ClientRuns.OpAccepts | rns_icn/client.py:146-307 | Every fetch, latest-version fetch and push raises the watermarks by exactly the Data it accepts, none of which rolls its name back |
| ClientRuns.AcceptedIsAuthentic | rns_icn/client.py:146-307 | Over any run, whatever is answered or pushed, all the client accepts has content of its recorded hash and, from a known key, a signature good for its preimage; and a signature by a known key is there wherever the call requires one |
| ClientRuns.AcceptedWasSigned | rns_icn/client.py:443-479 | So signed Data accepted from a known producer is what it signed: its preimage is that of an original, and for one layout and as many optional fields all that is signed |
| ClientRuns.FollowedIsSigned | rns_icn/client.py:251-307 | A latest-version fetch follows only a pointer whose signature was there and validated, whatever the policy |
| ClientRuns.ClientNeverGoesBack | rns_icn/client.py:481-504 | Over any run of calls of a client, of two signed versions of one name it accepted the later is not older by signing time and then sequence, and its watermark is the largest it accepted |
| SequenceWalk.CacheAnswersNext | rns_icn/content_store.py:307-357 | A cache answers a walk with the next edition or not at all |
| SequenceWalk.OriginAnswersNext | rns_icn/server.py:173-195 | The origin answers with the next edition, exactly when there is one |
| SequenceWalk.ForwarderReturnsOffer | rns_icn/forwarder.py:78-117 | What a forwarder on the chain answers from cache is what its call returns at once |
| SequenceWalk.ChainAnswersNext | rns_icn/forwarder.py:87-107 | Over a chain of any length an answer is the next edition, and without loss there is one exactly when a next edition exists |
| SequenceWalk.AscendingIsSorted | rns_icn/client.py:329-350 | The list walked along is strictly increasing and exactly the sequences from the start onwards |
| SequenceWalk.StopsOnlyThen | rns_icn/client.py:331-350 | A step without an accepted answer is the end of the list, or each of its tries was lost or its answer refused |
| SequenceWalk.FetchRange | rns_icn/client.py:309-350 | What the walk yields is a prefix of the sorted origin sequences, each a genuine edition; short of the number asked for it stops only at the end of the list, or where every try of a step was lost or its answer refused |

## Left out

- Exceptions raised by sends and cancellation from outside are assumed not to happen; a transmission
  always completes, at any later time.
- The exact time at which a lifetime elapses: a pending waiter may time out at any step.
- Liveness: eviction, a second owner removing the entry, or Data arriving before its waiter is
  registered leave a waiter to time out, as in the code.
- Mutation of the caller's Interest object when its hop limit is lowered: Interests are values here.
- The data callback of the forwarder is not part of its state; what it does is in `Client.ICNClient.DispatchPush`.
- Network.SpreadIsBounded: gives no bound where downstream peers nest in a circle. Which peers a server
  has marked downstream may change during a run, but only among those listed for it, and a face keeps
  its peer's address.
- What a manifest contains: the Data stored for it is an argument, fetched ones are not parsed, and the
  exceptions of parsing, which skip a peer, do not occur. Fetches at peering (propagation.py:221-285) are
  Interests of their own, not caused by another.
- Other activity at a server during one replication, such as eviction between arrivals, is not part of
  Replication; the Data is taken to be normalised, so that the wire does not change it.
- Flood and Replication take links to be reliable and handle one message at a time, which holds for
  the server's unbounded send queues.
- SQLite mechanics: journal, schema migration, salvage after corruption, reopening, JSON text. Ties in
  ORDER BY are taken in row order. TTL lookup by name text is a function. A sequence floor of 2^63 or
  more, which SQLite refuses, finds nothing here. Reading back a stored name of more than 32
  components, which raises, returns it here.
- Servers.ICNServer.HandleInvalidate: keyed by an abstract function of the name; `DigestKeySeparatesNames` covers the digest used.
- SequenceWalk.FetchRange: assumes that only answers to the walk arrive under the prefix, and that the
  origin's editions do not change during it.
- Looking up a name without an encoding (a component over 255 octets, or over 255 of them) raises in the
  source; here no row has such a name (`Storable`), and nothing is found.
- Signatures are taken to have the length signing checks for, except in `IssueCapability`, where the
  check is part of the contract.
- Links, channels, resources, announces, path requests (rns_server.py, link_pool.py,
  resource_transport.py, peer_discovery.py, face.py, rns_utils.py): foreign calls and threads.
- offline_queue.py: `Aps.APSManager.Publish` reports the subscribers that were offline, but what is
  queued for them, kept on disk and drained when they return is not modelled, nor the catch-up a new
  subscriber is sent (server.py:411-435). Deliveries to subscribers that come back are therefore
  missing from the counts in Replication, as are subscribers that are not peers.
- JSON manifests and the text form of names; command lines, configuration, logging, metrics, health.
- Floating-point times: natural numbers of seconds or milliseconds.
