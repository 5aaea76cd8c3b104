/** Concrete runs of the bucket: each method builds a bucket, drives it
    through a sequence of calls and asserts what the contracts say the
    state must then be. */
module Scenarios {
  import opened KadNodes
  import opened BucketLists
  import opened StableBuckets

  /** A full bucket of one directly contacted peer does not give way to a
      peer that was only heard about. */
  method NeverContactedDeference()
  {
    var b := new StableBucket(1, 10);
    var a := new KadNode([1], 5, false);
    var o := b.Insert(a, 5, false);
    assert o == Appended && b.bucket == [a];
    var c := new KadNode([2], 6, true);
    assert !HasKey(b.bucket, c.key);
    o := b.Insert(c, 6, false);
    assert o == CandidateUnheard;
    assert b.bucket == [a];
  }

  /** A head that was only heard about is replaced by a directly contacted
      candidate at once, without a probe. */
  method DirectOverIndirect()
  {
    var b := new StableBucket(1, 10);
    var head := new KadNode([1], 0, true);
    var o := b.Insert(head, 0, false);
    assert o == Appended && b.bucket == [head];
    var cand := new KadNode([2], 3, false);
    assert !HasKey(b.bucket, cand.key);
    o := b.Insert(cand, 3, false);
    assert o == HeadUnheardEvicted;
    assert b.bucket == [cand];
  }

  /** Two candidates against the same stale head: only the first one gets a
      probe, the second finds the head's lock taken. */
  method ProbeLockExclusion()
  {
    var b := new StableBucket(1, 10);
    var head := new KadNode([1], 0, false);
    var o := b.Insert(head, 0, false);
    assert b.bucket == [head];
    var n1 := new KadNode([2], 50, false);
    var n2 := new KadNode([3], 51, false);
    assert !HasKey(b.bucket, n1.key);
    o := b.Insert(n1, 50, false);
    assert o == ProbeIssued(head, n1);
    assert head.pingLocked && b.bucket == [head];
    assert !HasKey(b.bucket, n2.key);
    o := b.Insert(n2, 51, false);
    assert o == HeadAlreadyPinged;
    assert b.bucket == [head];
  }

  /** Inserts two directly contacted peers, in order, into a new bucket of
      capacity 3. */
  method FilledWithTwo() returns (b: StableBucket, p1: KadNode, p2: KadNode)
    ensures fresh(b) && fresh(p1) && fresh(p2)
    ensures b.maxSize == 3 && b.validTimespan == 10 && b.bucket == [p1, p2]
    ensures p1.key == [1] && p2.key == [2]
    ensures !p1.pingLocked && !p1.neverContacted && p1.lastContact == 1
  {
    b := new StableBucket(3, 10);
    p1 := new KadNode([1], 1, false);
    p2 := new KadNode([2], 2, false);
    var o := b.Insert(p1, 1, false);
    assert b.bucket == [p1];
    assert !HasKey(b.bucket, p2.key);
    o := b.Insert(p2, 2, false);
    // trigger: lets the `r in old(bucket)` frame clauses of `Insert` reach this record
    assert p1 in [p1];
  }

  /** A third directly contacted peer fills the bucket. */
  method FilledWithThree() returns (b: StableBucket, p1: KadNode, p2: KadNode, p3: KadNode)
    ensures fresh(b) && fresh(p1) && fresh(p2) && fresh(p3)
    ensures b.maxSize == 3 && b.validTimespan == 10 && b.bucket == [p1, p2, p3]
    ensures p1.key == [1] && p2.key == [2] && p3.key == [3]
    ensures !p1.pingLocked && !p1.neverContacted && p1.lastContact == 1
  {
    b, p1, p2 := FilledWithTwo();
    p3 := new KadNode([3], 3, false);
    assert !HasKey(b.bucket, p3.key);
    var o := b.Insert(p3, 3, false);
    // trigger: lets the `r in old(bucket)` frame clauses of `Insert` reach this record
    assert p1 in [p1, p2];
  }

  /** Three peers fill the bucket, a fourth triggers a probe of the oldest,
      the probe fails and the fourth takes the tail. */
  method EndToEnd()
  {
    var b, p1, p2, p3 := FilledWithThree();
    var p4 := new KadNode([4], 40, false);
    assert !HasKey(b.bucket, p4.key);
    var o := b.Insert(p4, 40, false);
    assert o == ProbeIssued(p1, p4);
    assert b.bucket == [p1, p2, p3];
    assert RemoveFirst(b.bucket, p1.key) == [p2, p3];
    b.PingFailed(p1, p4);
    assert b.bucket == [p2, p3, p4];
  }

  /** A bucket of capacity 2 holding the peers `a` then `c`, with a probe of
      `a` outstanding on behalf of the candidate `n`. */
  method TwoHeldFirstProbed() returns (b: StableBucket, a: KadNode, c: KadNode, n: KadNode)
    ensures fresh(b) && fresh(a) && fresh(c) && fresh(n)
    ensures b.maxSize == 2 && b.validTimespan == 10 && b.bucket == [a, c]
    ensures a.key == [1] && c.key == [2] && n.key == [3]
    ensures a.lastContact == 0 && !c.pingLocked && !c.neverContacted && c.lastContact == 0
    ensures !n.neverContacted
  {
    b := new StableBucket(2, 10);
    a := new KadNode([1], 0, false);
    c := new KadNode([2], 0, false);
    n := new KadNode([3], 50, false);
    var o := b.Insert(a, 0, false);
    assert b.bucket == [a];
    assert !HasKey(b.bucket, c.key);
    o := b.Insert(c, 0, false);
    assert b.bucket == [a, c];
    // trigger: lets the `r in old(bucket)` frame clauses of `Insert` reach this record
    assert a in [a];
    assert !a.pingLocked && !a.neverContacted && a.lastContact == 0;
    assert !HasKey(b.bucket, n.key);
    o := b.Insert(n, 50, false);
    assert o == ProbeIssued(a, n);
    // trigger: lets the `r in old(bucket)` frame clauses of `Insert` reach this record
    assert c in [a, c] && c != a;
  }

  /** From `TwoHeldFirstProbed`: a newer report about `a`'s peer moves it to
      the tail, so `c` becomes the head and is probed for the same candidate. */
  method BothProbed() returns (b: StableBucket, a: KadNode, c: KadNode, n: KadNode)
    ensures fresh(b) && fresh(a) && fresh(c)
    ensures b.maxSize == 2 && b.bucket == [c, a]
    ensures a.key == [1] && c.key == [2] && n.key == [3]
  {
    b, a, c, n := TwoHeldFirstProbed();
    var a2 := new KadNode([1], 60, false);
    assert IndexOf(b.bucket, a2.key) == 0;
    var o := b.Insert(a2, 60, false);
    assert o == Refreshed;
    assert b.bucket == [c, a];
    // trigger: lets the `r in old(bucket)` frame clauses of `Insert` reach this record
    assert c in [a, c] && c != a;
    assert !HasKey(b.bucket, n.key);
    o := b.Insert(n, 70, false);
    assert o == ProbeIssued(c, n);
  }

  /** Two probes outstanding for the same candidate, and both fail. The
      first failure lets the candidate in; at the second, the candidate is
      already held, so the probed record goes back to the head and the
      bucket keeps its size without holding any peer twice. */
  method TwoFailedProbes()
  {
    var b, a, c, n := BothProbed();
    assert RemoveFirst(b.bucket, a.key) == [c];
    b.PingFailed(a, n);
    assert b.bucket == [c, n];
    assert RemoveFirst(b.bucket, c.key) == [n];
    b.PingFailed(c, n);
    assert b.bucket == [c, n];
    assert UniqueKeys(b.bucket);
  }
}
