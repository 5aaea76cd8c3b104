# Stable k-bucket replacement policy (OpenKad)

This project models the `StableBucket` of OpenKad, a Kademlia implementation,
in Dafny. A k-bucket is a bounded list of peer records (`KadNode`). It is
ordered by how recently each peer was confirmed alive, oldest at the head and
most recent at the tail. The bucket is *stable*: when it is full, a record is
only replaced when it was never heard from directly, or when a liveness probe
(a ping) to it fails.

The model has four modules:

- `KadNodes` (`kad_node.dfy`): the peer record as a class. It has a constant
  `key` (the peer's identity, the only thing `equals` compares) and four
  mutable fields: time of last contact, a never-contacted flag, a probe lock
  and a dead flag. Its methods are the setters the bucket calls.
  `KadNode.java` is not part of this model. The record is modelled from how
  `StableBucket.java` uses it.
- `BucketLists` (`bucket_lists.dfy`): the list operations the bucket performs,
  as functions on `seq<KadNode>`. These are `indexOf`, `remove(int)`,
  `remove(Object)`, the move to the tail, the ping-answered and ping-failed
  rearrangements, and the reordering done by `markDead`. It also holds the
  lemmas about them: lengths, key sets, permutation and key uniqueness. Keys
  are constant, so none of these functions reads the heap.
- `StableBuckets` (`stable_bucket.dfy`): the bucket as a class. The list is a
  `seq<KadNode>` field. The methods `Insert`, `PingCompleted`, `PingFailed`
  and `MarkDead` update it in place, and each is specified against the
  functions of `BucketLists`. `SendPing` touches only the probed record's
  lock, and `AddNodesTo` only reads the list. Every method also states what
  happens to the records it touches and which records it leaves alone.
- `Scenarios` (`scenarios.dfy`): concrete runs of the class, each ending in
  assertions:
  - a never-contacted candidate is dropped;
  - an indirectly known head is evicted without a probe;
  - a second candidate finds the head's probe lock taken;
  - the three-peer fill, probe and failure sequence;
  - two failed probes on behalf of the same candidate, where the second one
    puts the probed record back at the head rather than hold the candidate
    twice.

Two inputs are parameters instead of hidden state:
- The clock is the `now` argument of `Insert` and `PingCompleted`.
- Whether the ping executor refuses a probe is the `rejected` argument of
  `Insert` and `SendPing`.

The probe's two callbacks are the methods `PingCompleted` and `PingFailed`,
which a caller invokes when the probe resolves.

## Model

| member | source | states |
|---|---|---|
| StableBuckets.StableBucket.Insert | src/il/technion/ewolf/kbr/openkad/bucket/StableBucket.java:52-96 | Which of the branches is taken, as a function of the pre-state: found (refresh only on a strictly newer contact), room left, or full (candidate never contacted, no head, head never contacted, head still valid, head already locked, executor refusal, probe issued). What each branch does: a refreshed record moves to the tail with its contact time updated; a new record is appended; an unheard head is replaced by the candidate at the tail; a probe locks the head and changes nothing else; every other outcome changes neither the list nor any record. The bucket never shrinks, never exceeds `maxSize`, and keeps keys unique. |
| StableBuckets.StableBucket.InsertIntoFull | src/il/technion/ewolf/kbr/openkad/bucket/StableBucket.java:68-95 | The full-bucket branch of insert for an absent candidate: its outcome, and for each outcome the new list and records. The length is unchanged and uniqueness of keys is kept. |
| StableBuckets.StableBucket.FullOutcome | src/il/technion/ewolf/kbr/openkad/bucket/StableBucket.java:74-95 | The full-bucket decision: every outcome either changes nothing, evicts the head or issues a probe. A directly contacted candidate evicts the head exactly when the head was never contacted. A probe of the head on behalf of the candidate is issued exactly when the candidate was contacted directly, the head was contacted but is no longer valid at `now` and is not locked, and the executor accepts the send. |
| StableBuckets.StableBucket.SendPing | src/il/technion/ewolf/kbr/openkad/bucket/StableBucket.java:147-157 | A probe is issued exactly when the executor accepts it; on refusal the probe lock is released at once. No other field of the record changes. |
| StableBuckets.StableBucket.PingCompleted | src/il/technion/ewolf/kbr/openkad/bucket/StableBucket.java:111-119 | The answered record is marked contacted at `now` and unlocked. The list becomes the ping-answered move of the old list: the first record of the probed peer leaves, the others keep their order and the answered record is appended; same length, uniqueness kept. When the record itself is held and the old list's keys are unique, this is exactly the move of it to the tail. |
| StableBuckets.StableBucket.PingFailed | src/il/technion/ewolf/kbr/openkad/bucket/StableBucket.java:123-144 | The lock is released, and the record's other fields are kept. The list becomes the intended ping-failed step: the first record of the probed peer leaves, and the candidate is appended unless its peer is already held, in which case the probed record goes back to the head. The length never changes and keys stay unique. |
| StableBuckets.StableBucket.MarkDead | src/il/technion/ewolf/kbr/openkad/bucket/StableBucket.java:161-171 | The list becomes `DeadFirst` of the old list, and every record of the peer is flagged dead while every other record keeps its flag. The frame lets no other field change. |
| StableBuckets.StableBucket.ScanAt | src/il/technion/ewolf/kbr/openkad/bucket/StableBucket.java:163-169 | One iteration of markDead's loop: the record at the current position is flagged and moved to the head when it matches, and the scan state advances by one. |
| StableBuckets.StableBucket.AddNodesTo | src/il/technion/ewolf/kbr/openkad/bucket/StableBucket.java:174-178 | The result is the caller's collection followed by the keys held, oldest first. |
| StableBuckets.StableBucket.constructor | src/il/technion/ewolf/kbr/openkad/bucket/StableBucket.java:41-49 | A new bucket is empty, with the given capacity and timespan. |
| KadNodes.KadNode.LockForPing | src/il/technion/ewolf/kbr/openkad/bucket/StableBucket.java:93 | Compare-and-set: succeeds exactly when the lock was free, and leaves it taken. |
| KadNodes.KadNode.ReleasePingLock | src/il/technion/ewolf/kbr/openkad/bucket/StableBucket.java:143 | Frees the lock and changes nothing else. |
| KadNodes.KadNode.SetNodeWasContacted | src/il/technion/ewolf/kbr/openkad/bucket/StableBucket.java:61 | Records the contact time and clears the never-contacted flag. |
| KadNodes.KadNode.MarkDead | src/il/technion/ewolf/kbr/openkad/bucket/StableBucket.java:166 | Sets the dead flag and only that field. |
| BucketLists.IndexOf | src/il/technion/ewolf/kbr/openkad/bucket/StableBucket.java:53 | The result is -1 exactly when no record has the key. Otherwise it is the position of the first such record. |
| BucketLists.RemoveAt | src/il/technion/ewolf/kbr/openkad/bucket/StableBucket.java:59 | The record at the position leaves and the others close up in order. |
| BucketLists.RemoveAtFacts | src/il/technion/ewolf/kbr/openkad/bucket/StableBucket.java:59 | Removal loses exactly that record (multiset) and adds no key. Under unique keys it keeps them unique and leaves no record of the removed peer. |
| BucketLists.RemoveFirst | src/il/technion/ewolf/kbr/openkad/bucket/StableBucket.java:83 | Removing by `equals` leaves the list alone when the key is absent. Otherwise it drops exactly the first record with that key. |
| BucketLists.MoveToTail | src/il/technion/ewolf/kbr/openkad/bucket/StableBucket.java:59-62 | The refreshed record ends up last and the length is unchanged. |
| BucketLists.MoveToTailFacts | src/il/technion/ewolf/kbr/openkad/bucket/StableBucket.java:59-62 | The refresh move keeps the length, the records and the set of keys, and keeps keys unique. The moved record is last and the others stay in order. |
| BucketLists.AppendAbsentKeepsUnique | src/il/technion/ewolf/kbr/openkad/bucket/StableBucket.java:67 | Appending a peer that is not held keeps keys unique. |
| BucketLists.PrependAbsentKeepsUnique | src/il/technion/ewolf/kbr/openkad/bucket/StableBucket.java:139 | Putting a peer that is not held at the head keeps keys unique. |
| BucketLists.CompletedMove | src/il/technion/ewolf/kbr/openkad/bucket/StableBucket.java:115-118 | When the probed peer is held, its first record leaves, the others keep their order and the probed record itself ends up most recent; when it is not held, the list is unchanged. |
| BucketLists.CompletedMoveFacts | src/il/technion/ewolf/kbr/openkad/bucket/StableBucket.java:115-119 | The ping-answered move keeps the length and the set of keys, and keeps keys unique. When the probed record itself is held and the keys are unique, it is the move to the tail. |
| BucketLists.SameKeyMoveFacts | src/il/technion/ewolf/kbr/openkad/bucket/StableBucket.java:116-117 | Replacing a record by another record of the same peer at the tail keeps the length, the set of keys and their uniqueness. |
| BucketLists.FailedReplace | src/il/technion/ewolf/kbr/openkad/bucket/StableBucket.java:129-141 | As written: when the probed peer is held, its first record leaves, the others keep their order, and the candidate is appended whether or not its peer is already held; otherwise the list is unchanged. |
| BucketLists.FailedReplaceFacts | src/il/technion/ewolf/kbr/openkad/bucket/StableBucket.java:129-141 | The as-written ping-failed step keeps the length, and when the probed peer is held the candidate becomes the most recent record. Keys stay unique when the candidate's peer was not held or is the probed one. |
| BucketLists.FailedReplaceTwiceDuplicates | src/il/technion/ewolf/kbr/openkad/bucket/StableBucket.java:129-140 | As written: from the unique list `[c, a]`, a failed probe of `a` and then a failed probe of `c`, both for the candidate `n`, give `[c, n]` and then `[n, n]`, which holds one peer twice. |
| BucketLists.FailedReplaceIntended | src/il/technion/ewolf/kbr/openkad/bucket/StableBucket.java:133-140 | As intended: when the probed peer is held, its first record leaves; the candidate is then appended if its peer is not held, and otherwise the probed record goes back to the head. Either way the candidate's peer is held afterwards. When the probed peer is not held, the list is unchanged. |
| BucketLists.FailedReplaceIntendedKeepsUnique | src/il/technion/ewolf/kbr/openkad/bucket/StableBucket.java:133-140 | The intended step (put the probed record back at the head when the candidate is already held) keeps the length and always keeps keys unique. When the candidate is not held, it agrees with the code as written. |
| BucketLists.DeadFirst | src/il/technion/ewolf/kbr/openkad/bucket/StableBucket.java:161-171 | markDead's reordering keeps the length. |
| BucketLists.DeadFirstPermutes | src/il/technion/ewolf/kbr/openkad/bucket/StableBucket.java:161-171 | markDead only reorders: the result is a permutation of the list. |
| BucketLists.MarkDeadStep | src/il/technion/ewolf/kbr/openkad/bucket/StableBucket.java:163-168 | One loop iteration, handling position `i`, turns the state after `i` records into the state after `i + 1`. |
| BucketLists.MarkDeadDone | src/il/technion/ewolf/kbr/openkad/bucket/StableBucket.java:162 | When the loop ends, the scan state is `DeadFirst` of the whole list. |
| BucketLists.DeadFirstSplit | src/il/technion/ewolf/kbr/openkad/bucket/StableBucket.java:161-171 | markDead's result is the records of the peer in reverse order, followed by all other records in their original order. |
| BucketLists.DeadFirstAbsent | src/il/technion/ewolf/kbr/openkad/bucket/StableBucket.java:161-171 | markDead of a peer that is not held leaves the list as it was. |
| BucketLists.DeadFirstUnique | src/il/technion/ewolf/kbr/openkad/bucket/StableBucket.java:161-171 | With unique keys, markDead moves the one record of the peer to the head and keeps the others in order. |
| BucketLists.DeadFirstKeepsUnique | src/il/technion/ewolf/kbr/openkad/bucket/StableBucket.java:161-171 | markDead never makes keys collide. |

## Left out

- Thread safety. The `synchronized` methods and blocks are not modelled: every method runs atomically on the object. Concurrent interleavings appear only as sequences of calls, as in `Scenarios`.
- The ping itself. The `PingRequest` and `MessageDispatcher` set-up, the message filters, the executor thread and the network send are not modelled. The executor's acceptance is the `rejected` flag, and the two callbacks are the methods `PingCompleted` and `PingFailed`.
- The clock. `isPingStillValid(validTimespan)` and `setNodeWasContacted()` read the system time; here the time is the `now` argument. A record is "still valid" when `now < lastContact + validTimespan`. `KadNode.java` is not part of this model, and this reading of it is an assumption.
- KadNodes.KadNode.SetNodeWasContacted: `KadNode.java` is not part of this model, so the setter's effects are assumed. It sets the contact time, clears the never-contacted flag and leaves the probe lock and the dead flag alone. A refresh in `insert` (lines 59-62) therefore keeps a record's dead flag; if the real setter also clears `dead` on a fresh contact, that is not captured.
- `KadNode` equality. `equals` is taken to compare the node, that is the `key`. `bucket.indexOf` and `bucket.remove(Object)` are modelled by key.
- StableBuckets.StableBucket.PingFailed: the method follows the intended behaviour of lines 133-140, not the code as written. In the code, `LinkedList.add` always returns true, so the candidate is always appended, even when its peer is already held. The code as written is the function `FailedReplace`, with its properties and the duplicate it produces proved under Findings.
- StableBuckets.StableBucket.MarkDead: unlike `Insert`, `PingCompleted` and `PingFailed`, its contract does not itself say that unique keys stay unique. That follows from its ensures `bucket == DeadFirst(old(bucket), k)` and the lemma `DeadFirstKeepsUnique`; stating it in the method as well makes the proof too costly.
- Negative capacity. `maxSize` is a `nat`. When the capacity is 0, the full-bucket branch reads `bucket.get(0)` from an empty list, which throws in Java. The model returns the outcome `NoHeadError` and changes nothing.
- `addNodesTo` adds `getNode()` of each record to an arbitrary `Collection<Node>`. A `Node` carries the peer's network address as well as its key; the model appends only the keys, to a sequence, so neither the address nor set semantics of the caller's collection are modelled.
- `toString` (lines 180-183) is not modelled.
- Key width and the XOR distance do not appear in the bucket's logic. A key is an uninterpreted `seq<bv8>`, compared only for equality.

## Findings

| source | as written | input that shows it | evidently intended | confidence | as-written member | corrected member |
|---|---|---|---|---|---|---|
| src/il/technion/ewolf/kbr/openkad/bucket/StableBucket.java:129-140 | After a failed probe, the probed record is removed and the candidate appended unconditionally. `LinkedList.add` never returns false, so the "candidate was already in bucket" branch is dead. | Bucket `[a, c]`, full. A probe of `a` for candidate `n` is outstanding; `a` is refreshed (`[c, a]`) and a second probe of `c` for `n` starts. Both probes fail and the bucket is `[n, n]`. At list level: `FailedReplace(FailedReplace([c, a], a.key, n), c.key, n) == [n, n]`. | When the candidate is already held, the probed record goes back to the head instead, so the bucket neither shrinks nor holds a peer twice. | not executed | BucketLists.FailedReplaceTwiceDuplicates | BucketLists.FailedReplaceIntendedKeepsUnique |
