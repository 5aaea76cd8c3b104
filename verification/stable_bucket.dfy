/** A k-bucket with the stable replacement policy: a bounded list of peer
    records ordered by recency of confirmed contact, oldest at index 0 and
    most recent at the tail. A full bucket only gives up its oldest record
    when that record was never heard from, or when a liveness probe to it
    fails. */
module StableBuckets {
  import opened KadNodes
  import opened BucketLists

  /** Which way `insert` went. Only the probe outcome carries data: the
      record probed and the candidate that replaces it if the probe fails. */
  datatype InsertOutcome =
    | Refreshed          // present, newer contact: moved to the tail
    | StaleIgnored       // present, contact not newer: nothing changes
    | Appended           // absent and there is room: added at the tail
    | CandidateUnheard   // full, candidate never contacted: dropped
    | NoHeadError        // full with capacity 0: reading the head fails
    | HeadUnheardEvicted // full, head never contacted: head replaced by candidate
    | HeadStillValid     // full, head heard from recently: candidate dropped
    | HeadAlreadyPinged  // full, a probe to the head is outstanding: candidate dropped
    | ProbeRejected      // lock taken but the send was refused: lock released
    | ProbeIssued(inBucket: KadNode, replaceIfFailed: KadNode)
  {
    /** The outcomes in which neither the list nor any record changes. */
    predicate LeavesAllAlone()
    {
      StaleIgnored? || CandidateUnheard? || NoHeadError? || HeadStillValid? ||
      HeadAlreadyPinged? || ProbeRejected?
    }
  }

  class StableBucket {
    /** The records, oldest contact first. */
    var bucket: seq<KadNode>
    const maxSize: nat
    /** How long a confirmed contact spares the head from being probed. */
    const validTimespan: int

    ghost predicate Valid()
      reads this
    {
      |bucket| <= maxSize
    }

    constructor (maxSize: nat, validTimespan: int)
      ensures Valid()
      ensures bucket == [] && this.maxSize == maxSize && this.validTimespan == validTimespan
    {
      bucket := [];
      this.maxSize := maxSize;
      this.validTimespan := validTimespan;
    }

    /** Offers the record `n` to the bucket at time `now`. `rejected` says
        whether the probe executor refuses the send, if a probe is tried. */
    method Insert(n: KadNode, now: int, rejected: bool) returns (outcome: InsertOutcome)
      requires Valid()
      modifies this, bucket
      ensures Valid()
      ensures |bucket| >= old(|bucket|)
      ensures old(UniqueKeys(bucket)) ==> UniqueKeys(bucket)
      // which branch is taken
      ensures old(HasKey(bucket, n.key)) ==>
                outcome == if old(bucket[IndexOf(bucket, n.key)].lastContact < n.lastContact)
                           then Refreshed else StaleIgnored
      ensures !old(HasKey(bucket, n.key)) && old(|bucket|) < maxSize ==> outcome == Appended
      ensures !old(HasKey(bucket, n.key)) && old(|bucket|) >= maxSize ==>
                outcome == old(FullOutcome(bucket, n, now, rejected))
      // what each branch does
      ensures outcome.LeavesAllAlone() ==>
                bucket == old(bucket) && forall r :: r in old(bucket) ==> r.StateKept()
      ensures outcome == Refreshed ==>
                old(HasKey(bucket, n.key)) &&
                var i := old(IndexOf(bucket, n.key));
                var s := old(bucket[i]);
                bucket == MoveToTail(old(bucket), i) &&
                s.lastContact == old(n.lastContact) && !s.neverContacted &&
                s.pingLocked == old(s.pingLocked) && s.dead == old(s.dead) &&
                forall r :: r in old(bucket) && r != s ==> unchanged(r)
      ensures outcome == Appended ==>
                bucket == old(bucket) + [n] && forall r :: r in old(bucket) ==> unchanged(r)
      ensures outcome == HeadUnheardEvicted ==>
                old(|bucket|) > 0 && bucket == old(bucket[1..]) + [n] &&
                forall r :: r in old(bucket) ==> unchanged(r)
      ensures outcome.ProbeIssued? ==>
                old(|bucket|) > 0 && outcome == ProbeIssued(old(bucket[0]), n) &&
                var head := outcome.inBucket;
                bucket == old(bucket) && head.pingLocked &&
                head.lastContact == old(head.lastContact) &&
                head.neverContacted == old(head.neverContacted) && head.dead == old(head.dead) &&
                forall r :: r in old(bucket) && r != head ==> unchanged(r)
    {
      var i := IndexOf(bucket, n.key);
      if i != -1 {
        // found: refresh only on newer news, so stale reports cannot reorder
        if bucket[i].lastContact < n.lastContact {
          var s := bucket[i];
          MoveToTailFacts(bucket, i);
          bucket := RemoveAt(bucket, i);
          s.SetNodeWasContacted(n.lastContact);
          bucket := bucket + [s];
          outcome := Refreshed;
        } else {
          outcome := StaleIgnored;
        }
      } else if |bucket| < maxSize {
        if UniqueKeys(bucket) { AppendAbsentKeepsUnique(bucket, n); }
        bucket := bucket + [n];
        outcome := Appended;
      } else {
        outcome := InsertIntoFull(n, now, rejected);
      }
    }

    /** Which way `insert` goes for a candidate `n` that is absent from the
        full list `s`, judged on the records' state before the call. */
    function FullOutcome(s: seq<KadNode>, n: KadNode, now: int, rejected: bool): (r: InsertOutcome)
      reads n, s
      ensures r.LeavesAllAlone() || r == HeadUnheardEvicted || r.ProbeIssued?
      // only a directly contacted candidate ever displaces the head
      ensures r == HeadUnheardEvicted ==> !n.neverContacted && |s| > 0 && s[0].neverContacted
      // a probe goes out only to a stale, unlocked head, and only when the executor accepts it
      ensures r.ProbeIssued? ==>
                !n.neverContacted && |s| > 0 && r == ProbeIssued(s[0], n) && !s[0].neverContacted &&
                !s[0].PingStillValid(validTimespan, now) && !s[0].pingLocked && !rejected
      // and conversely: a heard candidate evicts an unheard head ...
      ensures !n.neverContacted && |s| > 0 && s[0].neverContacted ==> r == HeadUnheardEvicted
      // ... and a stale, unlocked head is probed when the executor accepts
      ensures !n.neverContacted && |s| > 0 && !s[0].neverContacted &&
              !s[0].PingStillValid(validTimespan, now) && !s[0].pingLocked && !rejected ==>
                r == ProbeIssued(s[0], n)
    {
      if n.neverContacted then CandidateUnheard
      else if |s| == 0 then NoHeadError
      else if s[0].neverContacted then HeadUnheardEvicted
      else if s[0].PingStillValid(validTimespan, now) then HeadStillValid
      else if s[0].pingLocked then HeadAlreadyPinged
      else if rejected then ProbeRejected
      else ProbeIssued(s[0], n)
    }

    /** The branch of `insert` for a candidate absent from a full bucket: it
        is dropped, or it evicts a never-contacted head, or it waits on a
        liveness probe of the head. */
    method InsertIntoFull(n: KadNode, now: int, rejected: bool) returns (outcome: InsertOutcome)
      requires Valid() && !HasKey(bucket, n.key) && |bucket| >= maxSize
      modifies bucket
      modifies this`bucket
      ensures Valid()
      ensures |bucket| == old(|bucket|)
      ensures old(UniqueKeys(bucket)) ==> UniqueKeys(bucket)
      ensures outcome == old(FullOutcome(bucket, n, now, rejected))
      ensures outcome.LeavesAllAlone() ==>
                bucket == old(bucket) && forall r :: r in old(bucket) ==> r.StateKept()
      ensures outcome == HeadUnheardEvicted ==>
                old(|bucket|) > 0 && bucket == old(bucket[1..]) + [n] &&
                forall r :: r in old(bucket) ==> unchanged(r)
      ensures outcome.ProbeIssued? ==>
                old(|bucket|) > 0 && outcome == ProbeIssued(old(bucket[0]), n) &&
                var head := outcome.inBucket;
                bucket == old(bucket) && head.pingLocked &&
                head.lastContact == old(head.lastContact) &&
                head.neverContacted == old(head.neverContacted) && head.dead == old(head.dead) &&
                forall r :: r in old(bucket) && r != head ==> unchanged(r)
    {
      if n.neverContacted {
        // never evict anything for a peer we have only heard about
        outcome := CandidateUnheard;
      } else if |bucket| == 0 {
        outcome := NoHeadError;
      } else {
        var head := bucket[0];
        if head.neverContacted {
          ghost var tail := bucket[1..];
          assert UniqueKeys(bucket) ==> UniqueKeys(tail) && !HasKey(tail, n.key) by {
            RemoveAtFacts(bucket, 0);
            assert RemoveAt(bucket, 0) == tail;
          }
          if UniqueKeys(bucket) { AppendAbsentKeepsUnique(tail, n); }
          bucket := RemoveFirst(bucket, head.key);
          bucket := bucket + [n];
          outcome := HeadUnheardEvicted;
        } else if head.PingStillValid(validTimespan, now) {
          outcome := HeadStillValid;
        } else {
          var acquired := head.LockForPing();
          if acquired {
            var issued := SendPing(head, n, rejected);
            outcome := if issued then ProbeIssued(head, n) else ProbeRejected;
          } else {
            outcome := HeadAlreadyPinged;
          }
        }
      }
    }

    /** Hands the probe of `inBucket` to the ping executor. If the executor
        refuses it, the lock taken for the probe is released at once and no
        probe is outstanding. `replaceIfFailed` is kept only so the signature
        matches OpenKad's `sendPing`, where the failure callback captures it;
        that callback is the separate method `PingFailed`, so it goes unused. */
    method SendPing(inBucket: KadNode, replaceIfFailed: KadNode, rejected: bool) returns (issued: bool)
      requires inBucket.pingLocked
      modifies inBucket
      ensures issued == !rejected
      ensures inBucket.pingLocked == issued
      ensures inBucket.lastContact == old(inBucket.lastContact)
      ensures inBucket.neverContacted == old(inBucket.neverContacted)
      ensures inBucket.dead == old(inBucket.dead)
    {
      if rejected {
        inBucket.ReleasePingLock();
        issued := false;
      } else {
        issued := true;
      }
    }

    /** The probe of `inBucket` was answered at time `now`: the record is
        confirmed, its lock released, and if its peer is still held, the
        record becomes the most recent one. The candidate is forgotten. */
    method PingCompleted(inBucket: KadNode, now: int)
      requires Valid()
      modifies this, inBucket
      ensures Valid()
      ensures inBucket.lastContact == now && !inBucket.neverContacted
      ensures !inBucket.pingLocked && inBucket.dead == old(inBucket.dead)
      ensures bucket == CompletedMove(old(bucket), inBucket)
      ensures |bucket| == old(|bucket|)
      ensures old(UniqueKeys(bucket)) ==> UniqueKeys(bucket)
      ensures forall j :: 0 <= j < old(|bucket|) && old(bucket[j]) == inBucket && old(UniqueKeys(bucket)) ==>
                bucket == MoveToTail(old(bucket), j)
    {
      CompletedMoveFacts(bucket, inBucket);
      inBucket.SetNodeWasContacted(now);
      inBucket.ReleasePingLock();
      var removed := HasKey(bucket, inBucket.key);
      bucket := RemoveFirst(bucket, inBucket.key);
      if removed {
        bucket := bucket + [inBucket];
      }
    }

    /** The probe of `inBucket` failed: if its peer is still held, the first
        record of that peer leaves and `replaceIfFailed` becomes the most
        recent record, unless its peer is held already, in which case
        `inBucket` goes back to the head; the lock is released either way. */
    method PingFailed(inBucket: KadNode, replaceIfFailed: KadNode)
      requires Valid()
      modifies this, inBucket
      ensures Valid()
      ensures !inBucket.pingLocked
      ensures inBucket.lastContact == old(inBucket.lastContact)
      ensures inBucket.neverContacted == old(inBucket.neverContacted)
      ensures inBucket.dead == old(inBucket.dead)
      ensures bucket == FailedReplaceIntended(old(bucket), inBucket, replaceIfFailed)
      ensures |bucket| == old(|bucket|)
      ensures old(UniqueKeys(bucket)) ==> UniqueKeys(bucket)
    {
      FailedReplaceIntendedKeepsUnique(bucket, inBucket, replaceIfFailed);
      var removed := HasKey(bucket, inBucket.key);
      bucket := RemoveFirst(bucket, inBucket.key);
      if removed {
        // the candidate goes in only if its peer is not held already
        if !HasKey(bucket, replaceIfFailed.key) {
          bucket := bucket + [replaceIfFailed];
        } else {
          // keep the bucket from shrinking: the probed record is the oldest again
          bucket := [inBucket] + bucket;
        }
      }
      inBucket.ReleasePingLock();
    }

    /** Every record of the peer `k` is flagged dead and moved to the head,
        first in line to be replaced. Unlike the other operations, this one
        leaves uniqueness of keys to the lemma `DeadFirstKeepsUnique` about
        its specification `DeadFirst`, which a caller applies to
        `old(bucket)`. */
    method MarkDead(k: Key)
      requires Valid()
      modifies this`bucket, bucket`dead
      ensures Valid()
      ensures bucket == DeadFirst(old(bucket), k)
      ensures var s := old(bucket);
              forall j :: 0 <= j < |s| ==> s[j].dead == (old(s[j].dead) || s[j].key == k)
    {
      ghost var s := bucket;
      var i := 0;
      while i < |bucket|
        invariant ScannedTo(bucket, s, i, k)
        invariant forall j :: 0 <= j < i && s[j].key == k ==> s[j].dead
        invariant forall j :: 0 <= j < |s| && s[j].key != k ==> s[j].dead == old(s[j].dead)
      {
        ScanAt(s, i, k);
        i := i + 1;
      }
      MarkDeadDone(s, k, bucket);
    }

    /** One step of markDead's scan over the original records `s`: the record
        at position `i` is flagged dead and moved to the head when it is the
        peer `k`, and is left where it is otherwise. */
    method ScanAt(ghost s: seq<KadNode>, i: nat, k: Key)
      requires i < |bucket| == |s|
      requires ScannedTo(bucket, s, i, k)
      modifies this`bucket, {s[i]}`dead
      ensures ScannedTo(bucket, s, i + 1, k)
      ensures s[i].dead == (old(s[i].dead) || s[i].key == k)
    {
      var kadNode := bucket[i];
      assert kadNode == s[i] by { MarkDeadStep(s, i, k, bucket); }
      if kadNode.key == k {
        kadNode.MarkDead();
        ghost var b := bucket;
        bucket := [kadNode] + RemoveAt(bucket, i);
        assert bucket == DeadFirst(s[..i + 1], k) + s[i + 1..] by { MarkDeadStep(s, i, k, b); }
      } else {
        assert bucket == DeadFirst(s[..i + 1], k) + s[i + 1..] by { MarkDeadStep(s, i, k, bucket); }
      }
    }

    /** The peers held, oldest first, appended to the caller's list `c`. */
    method AddNodesTo(c: seq<Key>) returns (r: seq<Key>)
      ensures r == c + Keys(bucket)
    {
      r := c;
      var i := 0;
      while i < |bucket|
        invariant 0 <= i <= |bucket|
        invariant r == c + Keys(bucket[..i])
      {
        r := r + [bucket[i].key];
        i := i + 1;
      }
      assert bucket[..|bucket|] == bucket;
    }
  }
}
