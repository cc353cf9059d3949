# Membrane, verified

Membrane is a distributed cache for key-value fragments of language-model prompts.
This project models its hardest parts in Dafny and proves what they promise:

- the self-balancing interval tree that indexes fragments by token span, on the heap,
  with its cached heights and maxima and its side table of live nodes;
- the replication protocol: pushing and verifying copies, handing over ownership,
  quorum fan-out, and digest-based repair with its table of verified buckets;
- placement: the consistent-hashing ring and the ownership table cached over it;
- residency: the byte budget of a node, its three-stage eviction, and the shared
  content blobs behind its fragments;
- reconstruction of a prompt from indexed fragments, with the windows and the prefill
  it falls back on, and the longest-prefix cache;
- encodings: the Merkle tree over an inventory, the int8, fp8 and NF4 quantizers, and
  the wire frame around them.

Code that updates objects in place is modelled by classes with `modifies` clauses,
loops by loops with invariants. Each such method is proved against a function or a
relation on values, and the laws are proved about those: for all inputs, for all runs,
or for all reachable states.

## How things are modelled

- A content hash is a number: a fixed-width hexadecimal digest compares as the number it
  writes. Where ideal hashing matters it is either an injective function parameter (ring
  points, token hashes, bucket digests) or a symbolic term (Merkle digests, prefix-cache
  handles), so no law rests on an impossible assumption about fixed-width digests. The
  Merkle model also keeps digests inside a preimage apart from text, so that a leaf is never
  an inner node. Injective hashing alone does not give that, and the code adds no prefix that
  would.
- Times and scores are reals. Clocks, the weather of the network (who is reachable, which
  request fails, which reply is lost) and scheduling are parameters or unconstrained
  choices, so every statement holds for all of them. A locked method is one atomic step.
- A Python dictionary that is iterated in insertion order is a sequence of its values with
  distinct keys; other dictionaries and sets are `map` and `set`.
- A node's storage key (tenant and content hash) is a pair; the tenant part never contains
  the separator of the string form.
- The heap tree is tied to a value tree by a representation relation over a ghost skeleton
  of its physical nodes; `AvlTree`, `AvlContents` and `AvlQueries` reason about the value
  tree, `IntervalTree` proves that the heap methods compute exactly those functions.
- Hand-off is a state machine over send-bytes, send-metadata, verify and drop-flag steps of
  any number of concurrent transfers, each of which may fail or lose its reply. The hand-off
  that one node carries out, request by request, is proved to be a run of that machine.
- In replication, hand-off, quorum writes and repair a peer has unlimited room: it keeps what
  it has and what it acknowledges. A real peer stores within its budget and may evict;
  `ResidentStates.AcknowledgedKeepsRestIff` and `ResidentStates.AcknowledgedHasBytesIff` say
  when it behaves as assumed.
- What becomes of each request of a hand-off is a parameter: it is carried out and answered,
  carried out with its answer lost, or never arrives. A request that raises ends the hand-off,
  as if the later ones never arrived.
- The order an eviction policy gives may be another at each operation.
- A repair pass reads a peer twice, its digests first and the pages of each bucket later.
  The two reads are two inventories that need not agree.
- A digest word is an element of any type with an operation that obeys the laws used of
  exclusive-or; 64-bit words, as sets of their one bits, are shown to obey them.

## Where the code and its documentation differ

The model follows the code.

- `Tree.insert` says an existing hash is overwritten (`membrane/tree.py:264-266`); the code
  adds a second node. `AvlContents.InsertIsPutIffAbsent` says exactly when the two agree.
- `Tree.find_adjacent` describes open ends (`membrane/tree.py:442-445`); the tests are closed,
  and a fragment that is the single position asked about is reported twice
  (`AvlQueries.ReportedTwiceIff`).
- A quorum of zero or fewer, or no peers, is answered with failure and a timeout at once
  (`Quorum.FanOut.Run`). A peer listed twice counts twice; counting answers counts peers
  exactly when no peer is listed twice (`Quorum.AnswersArePeersIff`).
- A replica is said to acknowledge only once it holds bytes and metadata
  (`membrane/quorum.py:97-98`). The handler looks for the bytes and then stores, and making
  room can evict the only residents that share them, so a peer can acknowledge without the
  bytes (`ResidentStates.AcknowledgedCanLackBytes`). An acknowledgement means the bytes exactly
  when that room did not take them (`ResidentStates.AcknowledgedHasBytesIff`).
- A peer that has other bytes under a payload key keeps them, so the hand-off of that fragment
  to it can never succeed (`Replication.HandOffPrimary`).
- Repair over the full inventory ignores versions, and a peer never replaces an older
  version on a push, so a stale copy is pushed again in every pass
  (`Repair.StaleIsPushedAgain`, and exactly when in `Repair.SecondPassQuietIff`).
- The peer's digests are read before its buckets are paged, and a bucket found complete is
  recorded under the earlier digest. A fragment that arrives between the two reads and is then
  lost is never looked for again (`Repair.ArrivalBetweenReadsHidesLoss`). The table of verified
  buckets stays sound exactly when every bucket recorded was complete at the first read
  (`Repair.PassKeepsSoundIff`), for one when nothing arrives in between.
- Hand-off is safe exactly when the nodes' views of who owns a hash lead to a common owner;
  views that go round in a loop can lose every owner (`HandOffLoops.SafeIffConverges`).
- `Shard.rebalance` refreshes replicas only of entries whose primary changed. An entry whose
  primary stays keeps its replicas although the ring gives it others
  (`Shard.ReplicasGoStale`): they stay right exactly when the joining or leaving node is not
  among the key's first `replica_count + 1` nodes (`Shard.Shard.AddNode`,
  `Shard.Shard.RemoveNode`).
- `Shard.migrate_primary` adds the new primary to the replicas of the entry, so a primary is
  then among its own replicas (`Shard.MigrationStaysPairedIff`) and stays there through
  rebalancing (`Shard.MigratedListsItself`).
- A fragment with a time to live of zero expires as soon as its age is positive.
- The default eviction policy is said to go first for older and for less reused fragments
  (`membrane/store/eviction.py:62`). It divides the time of last use by the reuse, so of two
  fragments last used at one positive time the more reused goes first
  (`Residents.WeightedLruPrefers`).
- Storing a key that is resident refreshes its access time and does not replace the fragment.
- Making room for a fragment can evict every resident that shares its content blob. The blob
  is then deleted and the fragment is admitted without its bytes
  (`ResidentStates.StoreCanLoseItsOwnBytes`); `ResidentStates.StepKeepsBytesIff` gives the
  exact condition.
- `max_prefix_attempts` is documented as the largest number of prefix lengths tried
  (`membrane/reconstructor.py:77-80`). The step is rounded down, so more can be tried
  (`Reconstructor.CapIsExceeded`); exactly when not is `Reconstructor.CapHoldsIff`.
- Extension takes the first adjacent fragment the positional tree reports. That order follows
  the shape of the tree, so the fragment need not be the nearest
  (`Reconstructor.Engine.NextFollowsShape`).
- Reconstruction deduplicates by content hash alone, so equal windows at different places
  collapse (`Reconstruction.RepeatedWindowIsLost`) while the coverage ratio counts both. The
  returned list covers what the ratio reports exactly when no two assembled fragments share a
  hash (`Reconstruction.ResultCoversIff`, and as a clause of
  `Reconstructor.Engine.RebuildContext`).
- A leaf of the Merkle tree is the digest of hash, bar and owner with no escape, so a bar in a
  hash can give two pairs one leaf (`Merkle.BarsConfuseLeaves`). Roots compare leaf texts
  (`Merkle.EqualRootsIff`); what is said of pairs holds where texts are not ambiguous.
- A frame with a negative or non-finite scale, or with reserved bytes that are not zero, parses,
  and is not what the writer would write (`QuantizedFrames.BadScaleIsReadNotWritten`,
  `QuantizedFrames.ReserializesIff`).
- A Merkle tree does not see some repetitions: listing the last pair of an odd inventory
  again leaves the root unchanged (`MerkleTrees.RepeatedLastIsInvisible`).

## Model

| member | source | states |
|---|---|---|
| `AvlTree.MaxEndIsMaximum` | membrane/tree.py:121-145 | The cached maximum of a subtree is an upper bound of every end in it and is attained. |
| `AvlTree.RebalanceKeepsOrder` | membrane/tree.py:148-253 | Single and double rotations keep the in-order sequence. |
| `AvlTree.RebalanceRestores` | membrane/tree.py:220-253 | A node whose balanced subtrees differ by at most two becomes balanced, at most one level lower; a balanced node is not touched. |
| `AvlTree.InsertKeepsBalance` | membrane/tree.py:270-302 | Insertion keeps every node balanced and adds at most one level. |
| `AvlTree.RemoveKeepsBalance` | membrane/tree.py:325-363 | Removal, with two-child deletion by successor, keeps every node balanced and loses at most one level. |
| `AvlContents.InsertIsPutInOrder` | membrane/tree.py:270-302 | For any ordered tree, equal keys included, the in-order sequence gains exactly the new fragment in its place. |
| `AvlContents.RemoveIsWithout` | membrane/tree.py:325-363 | Removal deletes exactly the named entry from the in-order sequence. |
| `AvlContents.InsertRefinesPut` | membrane/tree.py:259-302 | Inserting an absent hash adds exactly that entry to the map the tree stands for and keeps the tree good. |
| `AvlContents.RemoveRefinesDrop` | membrane/tree.py:304-363 | Removing deletes exactly the named entry of the map and keeps the tree good. |
| `AvlContents.StepRefinesMap` | membrane/tree.py:259-363 | One operation acts on the tree as on a finite map. |
| `AvlContents.RunRefinesMap` | membrane/tree.py:132-381 | After every run of inserts of absent hashes and removes the tree is a balanced strict search tree holding exactly the map's entries. |
| `AvlContents.BalancedIsLarge` | membrane/tree.py:219-302 | A balanced tree of height h holds at least Fib(h + 2) - 1 fragments. |
| `AvlContents.RunHeight` | membrane/tree.py:219-363 | After any run the height is logarithmic in the number of fragments stored. |
| `AvlContents.InsertIsPutIffAbsent` | membrane/tree.py:259-302 | Insertion always adds an entry, and the contents are those of an overwriting insert exactly when the hash was absent. |
| `AvlContents.SecondInsertKeepsTheFirst` | membrane/tree.py:264-299 | Two inserts of one hash at different spans leave both fragments. |
| `AvlQueries.FindOverlappingIsScan` | membrane/tree.py:403-435 | The pruned overlap search equals the linear scan in key order. |
| `AvlQueries.ScanOverlappingExact` | membrane/tree.py:387-435 | The scan holds every overlapping fragment as often as it is stored and nothing else. |
| `AvlQueries.OverlapsIff` | membrane/tree.py:431 | A span and a query, neither empty, overlap exactly when they have a token in common. |
| `AvlQueries.ScanAscends` | membrane/tree.py:387-435 | Overlap results ascend by key. |
| `AvlQueries.FindAdjacentIsScan` | membrane/tree.py:460-491 | For every gap, negative ones included, the pruned adjacency search equals the unpruned scan. |
| `AvlQueries.FindAdjacentExact` | membrane/tree.py:437-491 | Every stored fragment is reported once per adjacency test it passes. |
| `AvlQueries.ReportedTwiceIff` | membrane/tree.py:479-484 | A fragment is reported twice exactly when it is the single position asked about. |
| `IntervalTree.Update` | membrane/tree.py:133-145 | Recomputed height and maximum are the true ones of the subtree. |
| `IntervalTree.RotateRight` | membrane/tree.py:148-172 | The heap rotation realizes the rotated value tree over the same physical nodes. |
| `IntervalTree.RotateLeft` | membrane/tree.py:175-199 | The mirror image of the right rotation. |
| `IntervalTree.Rebalance` | membrane/tree.py:220-253 | Heap rebalancing realizes the rebalanced value tree over the same nodes. |
| `IntervalTree.LeastNode` | membrane/tree.py:366-381 | The leftmost walk ends at the node that carries the least fragment. |
| `IntervalTree.Tree.constructor` | membrane/tree.py:99-102 | A new tree is valid and empty. |
| `IntervalTree.Tree.InsertNode` | membrane/tree.py:270-302 | Recursive insertion realizes the value insertion, allocates one node and registers it in the side table. |
| `IntervalTree.Tree.Insert` | membrane/tree.py:259-302 | Insertion keeps balance, order and cached measures for any contents; with an absent hash it adds exactly one map entry and the side table follows. |
| `IntervalTree.Tree.RemoveNode` | membrane/tree.py:325-363 | Recursive removal realizes the value removal, and every stored hash is still registered at the live node that holds its fragment. |
| `IntervalTree.Tree.AdoptSuccessor` | membrane/tree.py:348-355 | Copying the successor's contents into another node moves its registration there. |
| `IntervalTree.Tree.ReplaceBySuccessor` | membrane/tree.py:348-363 | Two-child deletion realizes the value tree with the successor in place, registrations included. |
| `IntervalTree.Tree.Remove` | membrane/tree.py:304-363 | Says whether the hash was stored, deletes exactly its entry, and keeps every invariant. |
| `IntervalTree.Tree.FindOverlapping` | membrane/tree.py:387-435 | Returns each overlapping fragment as often as stored, in ascending order, and nothing else. |
| `IntervalTree.Tree.FindAdjacent` | membrane/tree.py:437-491 | Returns each fragment once per adjacency test it passes, for every gap. |
| `Replication.Push` | membrane/replication.py:133-159 | Bytes go before metadata; succeeds exactly when there are no bytes to send or they are found or sent, and the metadata is answered; success means the peer holds both, a peer only ever gains, and whatever fails the peer is left in one of the states the protocol allows; a peer files the fragment exactly as sent, bytes reference included, unless it already had an entry, and no other entry changes. |
| `Replication.PushNeeds` | membrane/replication.py:133-159 | What success of a push takes: the metadata answered and bytes for every reference; if the bytes need not be sent the metadata is enough, otherwise it is exactly bytes, their request and the metadata. |
| `Replication.VerifyReplica` | membrane/replication.py:162-178 | Positive exactly when both questions are answered and the peer has the metadata and a byte-identical payload. |
| `Replication.HandOffPrimary` | membrane/replication.py:181-195 | Succeeds exactly when the push does, the checks are answered and the peer has no other bytes under the key; the target is then primary with a verified copy; the effect of all requests is one the protocol allows; the fragment filed is the one sent unless there was an entry. |
| `Replication.CalmHandOffWorksIff` | membrane/replication.py:133-195 | When no request fails a hand-off succeeds exactly where the sender has the bytes and the peer has no others under their key. |
| `Replication.HandOff` | membrane/replicator.py:380-413 | Says exactly when ownership moves; the sender's flag is dropped only when the peer owns an identical copy; otherwise the sender is untouched; the effect on the peer is one the protocol allows; the fragment filed is the one sent unless there was an entry. |
| `Replication.PassAlong` | membrane/replicator.py:380-413 | However many hand-offs follow one another and whichever fails, the last node reached is primary of exactly the fragment the first one had, with exactly its bytes. |
| `Replication.Replicator.MisplacedPrimaries` | membrane/replicator.py:438-459 | Exactly the local primaries that the ring gives to a healthy peer. |
| `Replication.Replicator.Rebalance` | membrane/replicator.py:415-436 | Whatever fails and wherever it is stopped, every hash owned before has an owner, the count is the number of flags given away, and only misplaced movable primaries move; every one of these moves when its requests do not fail and the pass is not stopped. |
| `HandOff.StepKeepsOwner` | membrane/replicator.py:380-413 | No step of any transfer leaves a hash without an owner of the bytes it had. |
| `HandOff.RunKeepsOwner` | membrane/replicator.py:380-459 | The ownership invariant holds at every point of every interleaving. |
| `HandOff.FailureKeepsSender` | membrane/replicator.py:380-413 | A flag disappears exactly in the last step of a verified transfer; a failure anywhere keeps the sender primary. |
| `HandOff.ConvergentIsSafe` | membrane/replicator.py:380-459 | Convergent views of ownership keep every hash owned in every reachable state. |
| `HandOff.AgreedRingIsSafe` | membrane/replicator.py:415-459 | Under one agreed ring, any number of rebalancing nodes keep every hash owned with its bytes. |
| `HandOffLoops.LoopLoses` | membrane/replicator.py:380-413 | If views go round in a loop, some run ends with nobody owning the hash. |
| `HandOffLoops.SafeIffConverges` | membrane/replicator.py:380-459 | Hand-off keeps ownership in all runs exactly when the views converge. |
| `HandOffRuns.HandOffIsRun` | membrane/replicator.py:380-413 | Whatever the requests of one hand-off came to, the cluster went through a run of the protocol, and the sender gave up its flag exactly on success. |
| `HandOffRuns.HandOffKeepsOwners` | membrane/replicator.py:380-413 | Where views of ownership converge, one hand-off leaves every owned hash owned with its bytes. |
| `Quorum.PeersAtCount` | membrane/quorum.py:124-175 | Among different peers, counted positions are as many different peers. |
| `Quorum.AnswersArePeersIff` | membrane/quorum.py:124-175 | Any set of answered calls is as many peers exactly when no peer is listed twice. |
| `Quorum.PeerListedTwice` | membrane/quorum.py:124-175 | When both calls of a peer listed twice were answered and collected, both are counted and fewer peers hold the data than were counted. |
| `Quorum.FanOut.Work` | membrane/quorum.py:219-233 | One request of a worker, bytes then metadata, and exactly what its call comes to; the peer gains exactly the bytes and then the fragment that were sent, unless it had others under their keys, and never ownership; a call acknowledges only after the peer holds both; finished calls never change. |
| `Quorum.FanOut.Collect` | membrane/quorum.py:154-166 | What finished is taken off; the calls counted are exactly those collected that answered yes, each once; the turn makes progress or reaches the deadline. |
| `Quorum.FanOut.Run` | membrane/quorum.py:124-175 | Success means enough acknowledgements, each from a peer that holds both; no call is counted twice; as many peers hold both as were counted if all are different, and never more; a quorum of zero or no peers fails as timed out at once and does nothing; another timeout means the time was used up; a failure that is no timeout means everyone was heard and every yes counted; the loop terminates; every counted peer holds the very fragment and bytes sent unless it had others before, and nobody becomes primary. |
| `Repair.MissingByBucket` | membrane/replicator.py:229-290 | A bucket has nothing missing exactly when the peer's contents of it are complete. |
| `Repair.SkippedIsComplete` | membrane/replicator.py:264-272 | A bucket skipped because of its remembered digests has nothing missing. |
| `Repair.PassKeepsSoundIff` | membrane/replicator.py:253-288 | However the peer changes between its digests and its pages, the table of verified buckets stays sound exactly when every bucket recorded was complete at the digests. |
| `Repair.SkippingLosesNothing` | membrane/replicator.py:229-290 | A pass pushes exactly what paging every reached bucket would have found. |
| `Repair.NothingIsLostSilently` | membrane/replicator.py:229-290 | With a sound table, whatever is expected in a bucket the pass gets to is reported failed, or no longer local, or with the peer afterwards. |
| `Repair.ReportHasCause` | membrane/replicator.py:264-343 | A hash is reported exactly when its bucket was not skipped and its pages went unanswered, or it was missing and its push was refused or not confirmed. |
| `Repair.PeerGainsExactly` | membrane/replicator.py:314-343 | The peer keeps every version it had and gains exactly what was pushed and not refused, in the version expected. |
| `Repair.TableFollowsReport` | membrane/replicator.py:264-288 | A bucket found complete is recorded, one that was filled without a failure is forgotten, any other keeps its entry. |
| `Repair.RecordsAreComplete` | membrane/replicator.py:253-288 | If nothing arrives between the two reads, every bucket recorded was complete at the first. |
| `Repair.ArrivalBetweenReadsHidesLoss` | membrane/replicator.py:253-288 | A hash that arrives between the reads of one pass and is then lost stays missing, and no later pass pages its bucket, however many follow. |
| `Repair.CalmPassPushesMissing` | membrane/replicator.py:229-343 | Without failures a pass pushes exactly the missing hashes; what stays missing is what the peer holds in an older version. |
| `Repair.SecondPassQuietIff` | membrane/replicator.py:229-343 | The second pass pushes nothing exactly when the peer held no older version. |
| `Repair.StaleIsPushedAgain` | membrane/replicator.py:229-343 | A peer with an older version is pushed the hash again in the second pass and keeps the old version. |
| `Repair.NothingMissingVerifies` | membrane/replicator.py:229-290 | A pass that finds nothing missing verifies every bucket and leaves the peer alone. |
| `Repair.ThirdPassPagesNothing` | membrane/replicator.py:229-290 | With nothing stale and no other change the third pass pages no bucket. |
| `Repair.EveryPassIsExact` | membrane/replicator.py:229-343 | After any history of passes that recorded only complete buckets, the next pages every bucket it reaches that lacks something, and pushes exactly what is missing there if the peer does not change in between. |
| `Repair.NoArrivalsSettle` | membrane/replicator.py:229-343 | Such is every history in which no fragment reaches the peer between the two reads of a pass. |
| `Repairer.Replicator.PushAll` | membrane/replicator.py:314-343 | Pushes each hash still local and reports exactly the failures. |
| `Repairer.Replicator.PushMissingFull` | membrane/replicator.py:292-312 | The full-inventory form pushes exactly the absent hashes and records their number; without an answer it changes nothing and reports all. |
| `Repairer.Replicator.RepairBucket` | membrane/replicator.py:267-288 | One bucket is skipped, paged, pushed and recorded as prescribed. |
| `Repairer.Replicator.PushMissing` | membrane/replicator.py:229-290 | A whole pass leaves peer, failures, verified table and drift exactly as the pass on values prescribes, for any change of the peer between its two reads; the full-inventory form, a request without an answer and a missing client likewise. |
| `Repairer.FoundIsMissing` | membrane/replicator.py:267-290 | With a sound table the drift recorded by a pass counts exactly what is missing in the buckets it gets an answer about. |
| `InventoryDigest.XorWithout` | membrane/store/digest.py:51-63 | The fold of a bucket does not depend on the order of its entries. |
| `InventoryDigest.Recompute` | membrane/store/digest.py:51-63 | Recomputing the digest of some entries gives their fold. |
| `InventoryDigest.Digest.Add` | membrane/store/digest.py:81-98 | Exactly one entry changes, the digest of its bucket moves by the leaves that differ and every bucket digest stays the fold of its members; a repeated version changes nothing. |
| `InventoryDigest.Digest.Remove` | membrane/store/digest.py:100-112 | Exactly one entry leaves, its leaf leaves the digest and the digests stay folds; an absent hash changes nothing. |
| `InventoryDigest.HistoryIndependent` | membrane/store/digest.py:66-120 | Two histories of additions and removals, of any lengths and orders, that come to the same entries leave the same buckets and digests. |
| `InventoryDigest.KeptIsHeld` | membrane/store/digest.py:66-120 | After any history each bucket holds what the history comes to in it, under the digest computed from scratch. |
| `InventoryDigest.SixtyFourBitsObey` | membrane/store/digest.py:51-63 | Exclusive-or of 64-bit words obeys the laws the digest rests on. |
| `RingOrder.OrderFacts` | membrane/ring.py:150-186 | The order in which a lookup meets nodes is duplicate-free, holds exactly the nodes of the ring and starts with the owner. |
| `RingOrder.OrderIsByDistance` | membrane/ring.py:150-186 | A node that comes earlier in a lookup has a point that is met before every point of one that comes later. |
| `RingOrder.OrderWithout` | membrane/ring.py:98-113 | Taking a node's points away takes that node, and nothing else, out of every lookup order. |
| `RingOrder.AddDisturbsLeast` | membrane/ring.py:79-148 | Adding a node changes an owner only to that node and keeps everybody else's order. |
| `RingOrder.RemoveDisturbsLeast` | membrane/ring.py:98-148 | Removing a node changes only owners that were it and keeps everybody else's order. |
| `RingOrder.AddRemoveRestores` | membrane/ring.py:79-113 | A node that joins and leaves again restores the ring, and so does one that leaves and joins again. |
| `RingOrder.SameNodesSameRing` | membrane/ring.py:79-113 | After any two histories of joins and leaves that leave the same nodes the ring is the same. |
| `RingOrder.BisectLeft` | membrane/ring.py:142-148 | The position of the first point at or after a key. |
| `Ring.Ring.AddNode` | membrane/ring.py:79-96 | The ring of the enlarged node set; adding a present node changes nothing. |
| `Ring.Ring.RemoveNode` | membrane/ring.py:98-113 | The ring of the reduced node set; removing an absent node changes nothing. |
| `Ring.Ring.GetNode` | membrane/ring.py:124-148 | The owner of a key, and the empty-ring error exactly for an empty ring. |
| `Ring.Ring.GetNodes` | membrane/ring.py:150-186 | The first n of the lookup order: length min(n, nodes), duplicate-free, led by the owner, prefix-closed in n. |
| `Shard.Shard.Resolve` | membrane/shard.py:105-122 | The owner of a key, and as replicas the first `replica_count + 1` nodes of its lookup order without the owner. |
| `Shard.Shard.AssignShard` | membrane/shard.py:105-122 | A remembered primary is returned as it is; otherwise the ring's owner and replicas are resolved and remembered; an empty ring fails and changes nothing. |
| `Shard.Shard.GetReplicas` | membrane/shard.py:124-136 | The remembered replicas, none if an entry has none, or those the ring gives a key that is not remembered. |
| `Shard.TurnsRefresh` | membrane/shard.py:253-275 | In whatever order the entries are visited, the tables come out the same and the migrations are exactly the changes. |
| `Shard.Shard.Rebalance` | membrane/shard.py:253-275 | Whatever is cached, every primary becomes the ring's owner, the migrations are exactly the changed entries, these get the ring's replicas and the others keep theirs; an empty ring fails without changing the tables. |
| `Shard.Shard.AddNode` | membrane/shard.py:83-90 | All migrations go to the joining node; right replicas of an entry whose primary stays remain right exactly when the joiner is not among the first `replica_count + 1` of its new order. |
| `Shard.Shard.RemoveNode` | membrane/shard.py:92-99 | All migrations leave the leaving node; right replicas of an entry whose primary stays remain right exactly when the leaver was not among the first `replica_count + 1` of its old order; the empty ring fails after the ring has changed. |
| `Shard.ReplicasGoStale` | membrane/shard.py:253-275 | With one replica asked for and one node, a second node that joins leaves entries of the first without the replica they should have; when it leaves, they keep it. |
| `Shard.SameReplicasIff` | membrane/shard.py:253-275 | Taking a node out of a lookup order keeps the replicas exactly when it is not among the first `replica_count + 1`. |
| `Shard.Shard.MigratePrimary` | membrane/shard.py:395-400 | The new primary is recorded, and joins the replicas of the entry in place of the old one. |
| `Shard.MigrationStaysPairedIff` | membrane/shard.py:395-400 | No primary is among its own replicas afterwards exactly when the entry was there and does not move. |
| `Shard.MigratedListsItself` | membrane/shard.py:253-275 | An entry migrated to the owner on the ring lists its primary as a replica after rebalancing too. |
| `Residents.PlanIsPermutation` | membrane/node.py:707-770 | Expired first, then policy order: a plan lists every resident exactly once. |
| `Residents.PlanTakesExpiredFirst` | membrane/node.py:707-770 | In a plan nobody who has not expired comes before one who has. |
| `Residents.ExpiresAfterTtl` | membrane/store/table.py:318-344 | A resident expires once its age exceeds its time to live and not before. |
| `Residents.CutIsShortest` | membrane/node.py:604-665 | Stopping at the target takes the one shortest prefix that reaches it, or everything. |
| `Residents.CutBeyond` | membrane/node.py:707-770 | Cutting stage by stage cuts the whole plan once. |
| `Residents.EvictionSuffices` | membrane/node.py:707-770 | Eviction frees the target or empties the node. |
| `Residents.WeightedLruAscends` | membrane/store/eviction.py:48-65 | The default policy orders by weighted recency. |
| `Residents.WeightedLruOrders` | membrane/store/eviction.py:48-65 | The default policy is a policy: it only reorders its candidates. |
| `Residents.WeightedLruPrefers` | membrane/store/eviction.py:48-65 | Of two candidates the earlier was used no later if their reuse is equal, and is reused no less if they were last used at the same positive time. |
| `Residents.WeightedLruIsStable` | membrane/store/eviction.py:65 | Candidates of one score stay in the order in which they came. |
| `ResidentStates.Conserved` | membrane/store/table.py:257-291 | Residents that leave give back exactly their bytes. |
| `ResidentStates.StagesTakeEvictees` | membrane/node.py:707-770 | The first two stages in a row take exactly the shortest prefix of the plan. |
| `ResidentStates.SweepTakesAllExpired` | membrane/node.py:772-788 | A sweep asks for more than there is and so takes everything expired. |
| `ResidentStates.RoomIsEnough` | membrane/node.py:357-378 | After eviction a fragment within the budget always fits. |
| `ResidentStates.StoreEvictsShortest` | membrane/node.py:357-378 | A new key within the budget evicts nobody if it fits, and otherwise exactly the shortest prefix of the plan that frees its size, without whose last member too little would be freed. |
| `ResidentStates.StoreBooks` | membrane/node.py:345-401 | The times and the ownership a store leaves: a new key is entered now, a resident one keeps its fragment and its insertion time, either was used now and is primary if asked to or as before. |
| `ResidentStates.ReadBooks` | membrane/node.py:484-520 | A read that is served changes nothing but the access time of its key, and that only forward. |
| `ResidentStates.RunInBudget` | membrane/node.py:286-401 | Over every run of stores, evictions, sweeps, removals and reads, with any policy at each operation, the byte budget holds. |
| `ResidentStates.StepKeepsBytesIff` | membrane/node.py:357-392 | An operation keeps every resident's bytes in the content store exactly when it is harmless in a stated, checkable sense. |
| `ResidentStates.RunKeepsBytes` | membrane/node.py:522-545 | Over every run of harmless operations no resident loses its bytes. |
| `ResidentStates.BlobLeavesWithLastReferrer` | membrane/node.py:522-545 | A blob leaves exactly with its last referrer; shared and unreferenced blobs stay. |
| `ResidentStates.StoreCanLoseItsOwnBytes` | membrane/node.py:357-392 | A full node that stores a second tenant's copy loses the shared bytes. |
| `ResidentStates.AcknowledgedHasBytesIff` | membrane/transport/ops.py:608-617 | A peer that acknowledges a fragment has its metadata, and has its bytes exactly when the room made for it did not take them. |
| `ResidentStates.AcknowledgedCanLackBytes` | membrane/transport/ops.py:608-617 | A full peer that is sent a second tenant's copy acknowledges it and has lost the bytes. |
| `ResidentStates.AcknowledgedKeepsRestIff` | membrane/transport/ops.py:608-617 | A peer loses none of its residents by a push it acknowledges exactly when the fragment is resident already or fits beside the rest. |
| `Residency.CountsAreReferrers` | membrane/store/table.py:226-302 | The reference counts equal the number of residents that reference each blob, and no zero is kept. |
| `Residency.FragmentTable.Add` | membrane/store/table.py:226-242 | Appends the fragment, with memory total, insertion time and reference counts exact. |
| `Residency.FragmentTable.Touch` | membrane/store/table.py:244-255 | Records an access, and ownership when asked to. |
| `Residency.FragmentTable.Pop` | membrane/store/table.py:257-291 | Removes one resident with all its bookkeeping; totals and counts stay exact. |
| `Residency.FragmentTable.References` | membrane/store/table.py:293-302 | The number of residents that reference a blob. |
| `Residency.FragmentTable.ExpiredNow` | membrane/store/table.py:318-344 | Exactly the residents older than their time to live, in table order. |
| `Residency.Node.RemoveFragment` | membrane/node.py:522-545 | One resident leaves, and its blob exactly when no other resident references it. |
| `Residency.Node.EvictExpired` | membrane/node.py:604-632 | Stage 1 takes the shortest sufficient prefix of the expired. |
| `Residency.Node.EvictLru` | membrane/node.py:634-665 | Stage 2 takes the shortest sufficient prefix of the policy order. |
| `Residency.Node.EvictGraphNeighbors` | membrane/node.py:667-705 | Stage 3 takes only resident neighbours of seeds, stops with the first that meets the target, and leaves none if the target is missed. |
| `Residency.Node.Evict` | membrane/node.py:707-770 | The victims are exactly the shortest prefix of the plan, or everyone; stage 3 adds nobody. |
| `Residency.Node.SweepExpired` | membrane/node.py:772-788 | Exactly the expired residents leave. |
| `Residency.Node.MakeRoom` | membrane/node.py:357-378 | For a fragment that does not fit exactly the residents leave that come first in the plan, as few as free its size (`StoreEvictsShortest`); that is always enough: the insufficient-memory answer is unreachable. |
| `Residency.Node.Store` | membrane/node.py:345-401 | Succeeds exactly for fragments within the budget; the new state is determined, resident keys included; whom it evicts is said by `StoreEvictsShortest`, its bookkeeping by `StoreBooks`. |
| `Residency.Node.Replicate` | membrane/transport/ops.py:608-623 | A fragment sent by a peer is refused while its bytes are missing and stored otherwise; the new state and the answer are determined. |
| `Residency.Node.Retrieve` | membrane/node.py:484-520 | Serves exactly the unexpired resident of a key; the new state is determined: the later of the access times is kept, an expired resident is removed. |
| `PrefixCache.MatchingPrefixLen` | membrane/prefix_cache.py:309-324 | The length of the longest common prefix. |
| `PrefixCache.MoveKeepsRecency` | membrane/prefix_cache.py:263-264 | Moving a used entry to the end keeps stored order equal to order of last use. |
| `PrefixCache.MovedEntries` | membrane/prefix_cache.py:263-264 | Moving an entry to the end moves those behind it up, leaves the rest, and changes nothing of it but its last use. |
| `PrefixCache.DropFirstKeepsDropped` | membrane/prefix_cache.py:326-331 | Whatever capacity dropped was last used before everything still held. |
| `PrefixCache.Cache.constructor` | membrane/prefix_cache.py:184-197 | A new cache is valid and empty. |
| `PrefixCache.Cache.Insert` | membrane/prefix_cache.py:199-230 | Refreshes a held sequence or adds it, at the cost of the least recently used entry when full, of everything at capacity zero; a new entry is created and used now. |
| `PrefixCache.Cache.EvictIfNeeded` | membrane/prefix_cache.py:326-331 | Keeps exactly the last entries that fit the capacity. |
| `PrefixCache.Cache.Longest` | membrane/prefix_cache.py:246-259 | The scan finds a longest entry that is a non-empty prefix of the query under its model, or none. |
| `PrefixCache.Cache.Lookup` | membrane/prefix_cache.py:232-267 | Returns the longest cached non-empty prefix and misses exactly when there is none; a hit becomes the most recent entry; the counters follow. |
| `PrefixCache.Cache.Evict` | membrane/prefix_cache.py:269-279 | Removes exactly the named entry and says whether it was there. |
| `Fragmenter.IdealHashingExists` | membrane/fragmenter.py:85-101 | Collision-free token hashes exist, so what requires them is not empty. |
| `Fragmenter.CreateWindows` | membrane/fragmenter.py:160-225 | Windows start at multiples of the size, reach the end of the prompt, and carry the hash of exactly their tokens. |
| `Fragmenter.WindowsTile` | membrane/fragmenter.py:160-225 | Windows tile the prompt without gap or overlap. |
| `Fragmenter.KvFragments` | membrane/prefilling.py:118-175 | Prefilled fragments are the windows of the configured size, with only their sizes replaced by their share, at least one byte; they tile the prompt; the sizes add up to the size of the tensors, to within a byte for each fragment. |
| `Fragmenter.ShareIsProportional` | membrane/prefilling.py:118-175 | The size of a prefilled fragment is its tokens' portion of the tensors to within a byte, and at least one byte. |
| `Fragmenter.SharesAddUp` | membrane/prefilling.py:118-175 | Fragments that tile a prompt up to a position have between them the portion of the tensors up to there, to within a byte each. |
| `Reconstruction.HashTellsLength` | membrane/reconstructor.py:260-315 | With ideal hashing the hash of an honest fragment fixes the length of its span. |
| `Reconstruction.CoveredIffSpanned` | membrane/reconstructor.py:174-258 | A token is covered exactly when some fragment spans it. |
| `Reconstruction.GapsAreUnique` | membrane/reconstructor.py:374-398 | The maximal uncovered runs of a bitmap form one list. |
| `Reconstruction.GapsAreUncovered` | membrane/reconstructor.py:374-398 | The gaps hold exactly the uncovered tokens. |
| `Reconstruction.DedupHashes` | membrane/reconstructor.py:415-435 | Deduplication keeps every hash exactly once. |
| `Reconstruction.DedupKeepsFirsts` | membrane/reconstructor.py:415-435 | What is kept is exactly the first fragment of each hash. |
| `Reconstruction.DedupKeepsCoverageIff` | membrane/reconstructor.py:415-435 | Of fragments that share no token, deduplication keeps every covered token covered exactly when no two share a hash. |
| `Reconstruction.ResultCoversIff` | membrane/reconstructor.py:246-258 | The sorted and deduplicated list covers what the bitmap reports exactly when no two assembled fragments share a hash. |
| `Reconstruction.SortIsStable` | membrane/reconstructor.py:431-435 | Fragments with one start stay in the order in which they came. |
| `Reconstruction.ApartSnoc` | membrane/reconstructor.py:174-241 | A fragment taken where nothing was covered shares no token with those before it. |
| `Reconstruction.SharedHashRepeatsTokens` | membrane/reconstructor.py:415-435 | Genuine fragments with one hash stand for equal tokens of the prompt. |
| `Reconstructor.NoRepeatNoSharedHash` | membrane/reconstructor.py:415-435 | With token checking, assembled fragments of at least m tokens share no hash in a prompt in which no m tokens in a row repeat. |
| `Reconstruction.RepeatedWindowIsLost` | membrane/reconstructor.py:427-430 | Of two equal windows at different places the second is lost, and with it its tokens. |
| `Reconstructor.HonestInsert` | membrane/index.py:65-81 | Indexing an honest fragment keeps all three sub-indices honest and the positional tree in order. |
| `Reconstructor.Index.Insert` | membrane/index.py:65-81 | The exact entry is replaced, the semantic list and the positional tree grow by the fragment. |
| `Reconstructor.PrefilledAreIndexed` | membrane/reconstructor.py:236-238 | Fragments indexed one after another are appended to the ranked list, are added to the tree and nothing else is, and are found under their hashes. |
| `Reconstructor.CoveredEnd` | membrane/reconstructor.py:400-413 | The rightmost covered token, or -1. |
| `Reconstructor.CountTrueIsSize` | membrane/reconstructor.py:250-251 | The covered count is the number of covered positions. |
| `Reconstructor.FindGaps` | membrane/reconstructor.py:374-398 | Exactly the maximal uncovered runs, left to right. |
| `Reconstructor.Engine.LongestMatch` | membrane/reconstructor.py:260-315 | The fragment found is the one offered, under the first hash if there is one, and spans exactly the longest tried prefix the exact index offers; none means no tried prefix is offered. |
| `Reconstructor.StepOneTriesAll` | membrane/reconstructor.py:296-297 | With step one every prefix is tried, so the match is the longest of all. |
| `Reconstructor.StepIsQuotient` | membrane/reconstructor.py:296 | The step is one where there are more attempts than tokens or no cap, and otherwise the quotient of the two. |
| `Reconstructor.CapHoldsIff` | membrane/reconstructor.py:296-297 | The cap on attempts is kept exactly when it is no less than the length or divides it; twice the cap is never reached. |
| `Reconstructor.CapIsExceeded` | membrane/reconstructor.py:296-297 | With three tokens and a cap of two, three prefixes are tried. |
| `Reconstructor.Engine.FindNextAdjacent` | membrane/reconstructor.py:341-372 | Exactly the first fragment the tree reports that is accepted and strictly beyond the covered end; none means that no indexed fragment starting within the gap qualifies. |
| `Reconstructor.Engine.NextFollowsShape` | membrane/reconstructor.py:362-372 | Next is not nearest: of any two fragments that may extend coverage, trees with the same contents give either. |
| `Reconstructor.Engine.Extend` | membrane/reconstructor.py:188-198 | Extension terminates, with the prompt covered to its end or no indexed fragment left that may extend it; what it takes shares no token; each one taken is the next beyond what the earlier ones cover. |
| `Reconstructor.Engine.FirstInsideIsFirst` | membrane/reconstructor.py:206-212 | A gap's pick is the first candidate that fills it, and there is none exactly when no candidate does. |
| `Reconstructor.Engine.OffersAreFirstOfThree` | membrane/reconstructor.py:200-212 | Every gap gets the first of the first three ranked fragments that fills it, in the order of the gaps, or nothing. |
| `Reconstructor.Engine.FillGaps` | membrane/reconstructor.py:200-212 | For every gap exactly the first of the three nearest fragments that lies inside it and is accepted. |
| `Reconstructor.Engine.PrefillGap` | membrane/reconstructor.py:217-241 | Prefilled and rebased windows are genuine, cover exactly the gap, and keep the index honest; it is indexed exactly when asked for. |
| `Reconstructor.Engine.PrefillGaps` | membrane/reconstructor.py:214-244 | Exactly the gaps beyond the threshold are prefilled, all gaps are reported, and no two assembled fragments share a token; the index grows by exactly the prefilled fragments when asked to and not at all otherwise. |
| `Reconstructor.LeftOpen` | membrane/reconstructor.py:214-244 | What stays uncovered is exactly the reported gaps within the threshold. |
| `Reconstructor.Engine.DeduplicateAndSort` | membrane/reconstructor.py:415-435 | The first fragment of every hash, ordered by start. |
| `Reconstructor.Engine.Gather` | membrane/reconstructor.py:174-212 | The first three steps: the longest match leads and is all there is at first, extension takes the next fragment each time and goes as far as it can, and every gap gets its first fitting candidate; the caller may see all that is taken, no two fragments share a token and the bitmap is the union of the spans. |
| `Reconstructor.Engine.RebuildContext` | membrane/reconstructor.py:150-258 | The steps build on one another as documented; what comes from the index is visible to the caller; every returned fragment has the requested model and, with token checking, a hash of exactly its prompt tokens; assembled fragments share no token and coverage is their union; the returned list covers what is reported exactly when no two of them share a hash, so with token checking for every prompt without repeated windows; uncovered tokens are exactly the reported gaps within the threshold; the index stays honest; the index ends up with exactly the prefilled fragments added, in all three sub-indices, when asked to, and unchanged otherwise. |
| `Merkle.LineShowsPair` | membrane/merkle.py:22-36 | Leaf texts of hashes without a bar determine their pair. |
| `Merkle.LeafShowsLine` | membrane/merkle.py:22-36 | Leaves are equal exactly when their texts are. |
| `Merkle.BarsConfuseLeaves` | membrane/merkle.py:22-36 | With a bar in the hash two different pairs have one leaf. |
| `Merkle.RootReadsLevel` | membrane/merkle.py:84-92 | Between levels of one height, equal roots mean equal reading of the complete trees they stand for. |
| `Merkle.SmallTrees` | membrane/merkle.py:22-92 | The trees of no, one, two and three pairs, written out as digests. |
| `Merkle.EqualRootsIff` | membrane/merkle.py:67-92 | For any two non-empty inventories, repetitions and bars included, roots are equal exactly when the leaf texts read alike position by position. |
| `MerkleTrees.SortedIsUnique` | membrane/merkle.py:82-83 | A sorted inventory is determined by the pairs it holds. |
| `MerkleTrees.StringLeIff` | membrane/merkle.py:82-83 | Strings are ordered by the first character in which they differ, a beginning before what it begins. |
| `MerkleTrees.SamePairsSameRoot` | membrane/merkle.py:67-92 | The same pairs in any order give the same root. |
| `MerkleTrees.EqualRootsIffSamePairs` | membrane/merkle.py:67-92 | Inventories of distinct pairs, of any sizes, have equal roots exactly when they hold the same pairs, provided no pair of one has the leaf text of another pair of the other. |
| `MerkleTrees.EqualRootsMembers` | membrane/merkle.py:67-92 | Equal roots mean the same set of leaf texts, whatever is repeated, and the same set of pairs where texts are not ambiguous. |
| `MerkleTrees.OneLineOneRoot` | membrane/merkle.py:22-36 | Two pairs with one leaf text make inventories with one root. |
| `Merkle.BarFreeIsUnambiguous` | membrane/merkle.py:22-36 | Hashes without a bar make no text ambiguous. |
| `MerkleTrees.RepeatedLastIsInvisible` | membrane/merkle.py:87-91 | Repeating the last pair of an odd inventory does not change the root. |
| `MerkleTrees.NextLevel` | membrane/merkle.py:85-91 | The level above, an odd last node joined to itself. |
| `MerkleTrees.FromInventory` | membrane/merkle.py:67-92 | Sorted items and their root; no items and an empty list give the empty root. |
| `MerkleTrees.Diff` | membrane/merkle.py:94-132 | Nothing for equal roots, otherwise exactly the positions whose pair the other side's dictionary does not hold, ascending. |
| `MerkleTrees.DiffIsExactIff` | membrane/merkle.py:94-132 | Between different roots the report is exactly the local pairs absent from the other tree if and only if no shared pair is followed there by another owner of its hash; between equal roots it is, unless leaf texts are ambiguous. |
| `MerkleTrees.OneOwnerDiffIsExact` | membrane/merkle.py:94-132 | With one owner per hash on the other side, and leaf texts that are not ambiguous, the report is exact. |
| `MerkleTrees.TwoOwnersMislead` | membrane/merkle.py:118-127 | Two trees of which the second lists one more owner of the same hash: the report names a pair that both hold. |
| `Quantization.Int8RoundTrip` | membrane/quantization.py:331-372 | For matrices of any shape, codes fit a signed byte and decoding is within a 254th of the row's largest magnitude. |
| `Quantization.Nf4CodeIsNearest` | membrane/quantization.py:563-585 | An element decodes to a nearest table entry scaled back. |
| `Quantization.Nf4ErrorIsBounded` | membrane/quantization.py:563-585 | Every element decodes to within a fixed fraction of its row's peak. |
| `Quantization.Nf4IsExactAt` | membrane/quantization.py:563-585 | Zero and the peak of either sign decode exactly. |
| `Quantization.Nf4RoundTrip` | membrane/quantization.py:563-627 | For matrices of any width, through packing and unpacking, every element decodes to a nearest table entry scaled back by its row's peak. |
| `Quantization.BitsAreDigits` | membrane/quantization.py:584-615 | Shifts and masks of the packing are division and remainder by sixteen on bytes. |
| `Quantization.Unpack` | membrane/quantization.py:612-624 | Filling the indices in place yields the unpacked codes for even and odd widths. |
| `Quantization.UnpackedPack` | membrane/quantization.py:583-624 | Unpacking inverts packing for every row width. |
| `Quantization.PackLayout` | membrane/quantization.py:583-585 | An even position is in the upper half of its byte and an odd one in the lower, which is zero behind an odd row. |
| `Quantization.PackUnpackedIff` | membrane/quantization.py:583-624 | Packing inverts unpacking exactly when an odd row's padding is zero. |
| `Fp8.SignNegates` | membrane/quantization.py:407-421 | The sign bit negates the value of a code. |
| `Fp8.CodesGrow` | membrane/quantization.py:407-421 | Without the sign bit, larger finite codes stand for larger values, across subnormals and exponents. |
| `Fp8.PointSpacing` | membrane/quantization.py:407-421 | Neighbouring points of a format are one unit of their exponent apart, within an exponent and across its end, from zero up. |
| `Fp8.CodeSpacing` | membrane/quantization.py:407-421 | So are the values of neighbouring codes. |
| `Fp8.ValuesAreBounded` | membrane/quantization.py:514-527 | No finite e4m3 value exceeds 448 and no finite e5m2 value 57344 in magnitude. |
| `Fp8.BuildCodebook` | membrane/quantization.py:392-429 | The decode table, and every finite value once in ascending order with its least code. |
| `Fp8.BookOfFormat` | membrane/quantization.py:422-429 | The largest entry of the book is the documented maximum and the least its negative. |
| `Fp8.EncodeIndex` | membrane/quantization.py:444-449 | A nearest value, the ends for values beyond the range; of two equally near values the lower. |
| `Fp8.Encode` | membrane/quantization.py:432-449 | The code of a nearest finite point of the whole codebook; out-of-range values saturate. |
| `Fp8.NearestIsNear` | membrane/quantization.py:432-449 | A nearest finite point of a value in range is within half a unit of the mantissa of it, relative to the value or to the least normal one. |
| `Fp8.Quantize` | membrane/quantization.py:469-511 | For matrices of any shape, every row's scale maps the largest finite value to its peak and every element decodes to a nearest finite point scaled back. |
| `QuantizedFrames.ToBytes` | membrane/quantization.py:120-153 | Writes the frame with zero reserved bytes, and refuses exactly what the format cannot carry, bad scales and what is no text. |
| `QuantizedFrames.WordLayout` | membrane/quantization.py:120-153 | A word is written with its least significant byte first. |
| `QuantizedFrames.SignedLayout` | membrane/quantization.py:120-153 | The zero point is written as its two's complement. |
| `QuantizedFrames.EncodesIff` | membrane/quantization.py:120-203 | Bytes are those of a frame exactly when every field is at its offset and the trailer fits. |
| `QuantizedFrames.FromBytes` | membrane/quantization.py:156-203 | Succeeds exactly on the bytes of some frame whose dtype is text and returns that frame. |
| `QuantizedFrames.RoundTrip` | membrane/quantization.py:120-203 | Parsing undoes writing for every frame that is written. |
| `QuantizedFrames.ReserializesIff` | membrane/quantization.py:120-203 | Writing what was parsed gives back the bytes exactly when the reserved bytes are zero and the scale is one the writer takes. |
| `QuantizedFrames.Reserialize` | membrane/quantization.py:120-203 | The same of the two calls in a row. |
| `QuantizedFrames.BadScaleIsReadNotWritten` | membrane/quantization.py:132-174 | The bytes of a frame with a bad scale are read as that frame, which the writer refuses. |

## Left out

- HTTP client and server, TLS, command line, logging, metrics and tracing: plumbing around the modelled operations.
- Encryption, file and Redis stores, snapshots and persistence hooks: foreign calls and disk effects.
- Lower tiers, tenant guards, quotas, admission policies and eviction callbacks of a node: the model has one tier and lets every caller write.
- Per-thread read buffers of the fragment table: a read is merged into the access times at once.
- Embeddings and semantic similarity: the source ranks by insertion order, and so does the model.
- Locality scoring and `load_snapshot` of the shard table, and the pull and verify hooks of `migrate_primary`, which a hand-off does not pass.
- Routing heuristics, policies and cost models: single-expression scoring that would add only easy members.
- `Fragmenter.split` and `merge`, `Fragment.merge`, `hlc`, `TinyLFU` and cluster retrieval: not needed by any property here.
- In the repair model the fold of a bucket is a parameter and injective; the exclusive-or of 64-bit hashes, modelled in `InventoryDigest`, is so only up to collisions. Paging, sampling and the root of the digest are not modelled.
- The positional tree inside the index of a reconstruction is the value tree, because prefilled windows may repeat a hash; its in-place form is `IntervalTree`.
- Float rounding inside the array library: quantization is over reals, and the frame's scale stays four opaque bytes.
- Which bytes are UTF-8 text and which four bytes are a good scale: both are given tests.
- Fragmenter.CreateWindows: a window size of zero, which divides by zero, and negative sizes, which the identity constructor rejects or which give no windows, are excluded by its precondition.
- Fragmenter.KvFragments: window sizes that are not positive are excluded by its precondition, as for `CreateWindows`, which it calls.
- Replication.HandOff: does not record the new owner in the shard table after success; that call is `Shard.Shard.MigratePrimary`, on a table the peers here do not have.
- Reconstructor.Engine.RebuildContext: token checking is a configuration flag; with it off only the model of each fragment is promised.
