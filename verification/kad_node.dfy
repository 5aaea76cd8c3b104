/** A peer record: the identity of a remote node together with the liveness
    state the routing table keeps about it. Two records with the same key are
    the same peer, whatever their liveness state says. */
module KadNodes {

  /** A node identifier: fixed-width bytes, compared only for equality here. */
  type Key = seq<bv8>

  class KadNode {
    /** The node's identity; `equals` on records compares this and nothing else. */
    const key: Key
    /** Time of the last confirmed contact from this node. */
    var lastContact: int
    /** True while the node is known only indirectly (never sent us anything itself). */
    var neverContacted: bool
    /** The probe lock: at most one liveness probe may be outstanding per record. */
    var pingLocked: bool
    /** Sticky marker set when the node is known to be unreachable. */
    var dead: bool

    constructor (key: Key, lastContact: int, neverContacted: bool)
      ensures this.key == key && this.lastContact == lastContact
      ensures this.neverContacted == neverContacted
      ensures !pingLocked && !dead
    {
      this.key := key;
      this.lastContact := lastContact;
      this.neverContacted := neverContacted;
      pingLocked := false;
      dead := false;
    }

    /** None of the liveness fields differs from its value in the earlier state. */
    twostate predicate StateKept()
      reads this
    {
      lastContact == old(lastContact) && neverContacted == old(neverContacted) &&
      pingLocked == old(pingLocked) && dead == old(dead)
    }

    /** The last confirmed contact is recent enough, at time `now`, that no probe is needed. */
    predicate PingStillValid(validTimespan: int, now: int)
      reads this
    {
      now < lastContact + validTimespan
    }

    /** Records a confirmed contact at time `when`. */
    method SetNodeWasContacted(when: int)
      modifies this
      ensures lastContact == when && !neverContacted
      ensures pingLocked == old(pingLocked) && dead == old(dead)
    {
      lastContact := when;
      neverContacted := false;
    }

    /** Compare-and-set on the probe lock: succeeds only when the lock was free. */
    method LockForPing() returns (acquired: bool)
      modifies this
      ensures acquired == !old(pingLocked)
      ensures pingLocked
      ensures lastContact == old(lastContact) && neverContacted == old(neverContacted)
      ensures dead == old(dead)
    {
      acquired := !pingLocked;
      pingLocked := true;
    }

    method ReleasePingLock()
      modifies this
      ensures !pingLocked
      ensures lastContact == old(lastContact) && neverContacted == old(neverContacted)
      ensures dead == old(dead)
    {
      pingLocked := false;
    }

    method MarkDead()
      modifies this`dead
      ensures dead
      ensures lastContact == old(lastContact) && neverContacted == old(neverContacted)
      ensures pingLocked == old(pingLocked)
    {
      dead := true;
    }
  }
}
