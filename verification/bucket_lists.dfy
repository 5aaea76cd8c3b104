/** The list operations the bucket performs on its sequence of peer records,
    stated on values: lookups and removals by key (a record's `equals`), the
    moves that the insertion policy, the probe callbacks and markDead make, and
    what each of them keeps. Only keys are inspected, and a key never changes,
    so nothing here reads the heap. */
module BucketLists {
  import opened KadNodes

  /** The keys of the records, in bucket order. */
  function Keys(s: seq<KadNode>): seq<Key>
  {
    seq(|s|, i requires 0 <= i < |s| => s[i].key)
  }

  /** Some record in `s` is the peer with key `k`. */
  predicate HasKey(s: seq<KadNode>, k: Key)
  {
    exists i :: 0 <= i < |s| && s[i].key == k
  }

  /** No two records in `s` are the same peer. */
  predicate UniqueKeys(s: seq<KadNode>)
  {
    forall i, j :: 0 <= i < j < |s| ==> s[i].key != s[j].key
  }

  /** List.indexOf: the position of the first record with key `k`, or -1. */
  function IndexOf(s: seq<KadNode>, k: Key): (i: int)
    ensures -1 <= i < |s|
    ensures i == -1 <==> !HasKey(s, k)
    ensures 0 <= i ==> s[i].key == k && forall j :: 0 <= j < i ==> s[j].key != k
  {
    if s == [] then -1
    else if s[0].key == k then 0
    else
      var r := IndexOf(s[1..], k);
      assert HasKey(s, k) ==> HasKey(s[1..], k) by {
        if HasKey(s, k) {
          var w :| 0 <= w < |s| && s[w].key == k;
          assert s[1..][w - 1].key == k;
        }
      }
      if r == -1 then -1 else r + 1
  }

  /** List.remove(int): the record at position `i` leaves, the others close up. */
  function RemoveAt(s: seq<KadNode>, i: int): (r: seq<KadNode>)
    requires 0 <= i < |s|
    ensures |r| == |s| - 1
    ensures forall a :: 0 <= a < i ==> r[a] == s[a]
    ensures forall a :: i <= a < |r| ==> r[a] == s[a + 1]
  {
    s[..i] + s[i + 1..]
  }

  /** Removing a record holds no key that was not there, keeps keys unique
      and, when they were unique, leaves no record of the removed peer. */
  lemma RemoveAtFacts(s: seq<KadNode>, i: int)
    requires 0 <= i < |s|
    ensures multiset(RemoveAt(s, i)) + multiset{s[i]} == multiset(s)
    ensures forall k :: HasKey(RemoveAt(s, i), k) ==> HasKey(s, k)
    ensures UniqueKeys(s) ==> UniqueKeys(RemoveAt(s, i)) && !HasKey(RemoveAt(s, i), s[i].key)
  {
    var r := RemoveAt(s, i);
    assert s == s[..i] + [s[i]] + s[i + 1..];
    forall k | HasKey(r, k) ensures HasKey(s, k) {
      var a :| 0 <= a < |r| && r[a].key == k;
      if a < i { assert s[a].key == k; } else { assert s[a + 1].key == k; }
    }
    if UniqueKeys(s) {
      forall a, b | 0 <= a < b < |r| ensures r[a].key != r[b].key {
        var a' := if a < i then a else a + 1;
        var b' := if b < i then b else b + 1;
        assert r[a] == s[a'] && r[b] == s[b'];
      }
      forall a | 0 <= a < |r| ensures r[a].key != s[i].key {
        if a < i { assert r[a] == s[a]; } else { assert r[a] == s[a + 1]; }
      }
    }
  }

  /** List.remove(Object): drops the first record with key `k`, if there is one. */
  function RemoveFirst(s: seq<KadNode>, k: Key): (r: seq<KadNode>)
    ensures IndexOf(s, k) == -1 ==> r == s
    ensures 0 <= IndexOf(s, k) ==> r == s[..IndexOf(s, k)] + s[IndexOf(s, k) + 1..]
  {
    if s == [] then []
    else if s[0].key == k then s[1..]
    else
      var rest := RemoveFirst(s[1..], k);
      var i := IndexOf(s[1..], k);
      assert 0 <= i ==> [s[0]] + (s[1..][..i] + s[1..][i + 1..]) == s[..i + 1] + s[i + 2..];
      [s[0]] + rest
  }

  /** The record at position `i` becomes the most recent one. */
  function MoveToTail(s: seq<KadNode>, i: int): (r: seq<KadNode>)
    requires 0 <= i < |s|
    ensures |r| == |s| && r[|r| - 1] == s[i]
  {
    RemoveAt(s, i) + [s[i]]
  }

  /** Moving a record to the tail keeps the length, the records and their
      uniqueness, puts that record last and keeps the others in order. */
  lemma MoveToTailFacts(s: seq<KadNode>, i: int)
    requires 0 <= i < |s|
    ensures |MoveToTail(s, i)| == |s|
    ensures MoveToTail(s, i)[|s| - 1] == s[i]
    ensures MoveToTail(s, i)[..|s| - 1] == RemoveAt(s, i)
    ensures multiset(MoveToTail(s, i)) == multiset(s)
    ensures forall k :: HasKey(MoveToTail(s, i), k) <==> HasKey(s, k)
    ensures UniqueKeys(s) ==> UniqueKeys(MoveToTail(s, i))
  {
    var r := MoveToTail(s, i);
    RemoveAtFacts(s, i);
    assert r[..|s| - 1] == RemoveAt(s, i);
    forall k ensures HasKey(r, k) <==> HasKey(s, k) {
      if HasKey(s, k) {
        var a :| 0 <= a < |s| && s[a].key == k;
        if a < i { assert r[a] == s[a]; }
        else if a == i { assert r[|s| - 1] == s[i]; }
        else { assert r[a - 1] == s[a]; }
      }
      if HasKey(r, k) {
        var a :| 0 <= a < |r| && r[a].key == k;
        if a < |s| - 1 { assert HasKey(RemoveAt(s, i), k); } else { assert s[i].key == k; }
      }
    }
    if UniqueKeys(s) {
      AppendAbsentKeepsUnique(RemoveAt(s, i), s[i]);
    }
  }

  /** Appending a peer whose key is absent keeps the keys unique. */
  lemma AppendAbsentKeepsUnique(s: seq<KadNode>, n: KadNode)
    requires UniqueKeys(s) && !HasKey(s, n.key)
    ensures UniqueKeys(s + [n])
  {
    var r := s + [n];
    forall a, b | 0 <= a < b < |r| ensures r[a].key != r[b].key {
      if b == |s| {
        assert r[a] == s[a];
      } else {
        assert r[a] == s[a] && r[b] == s[b];
      }
    }
  }

  /** Putting a peer whose key is absent at the head keeps the keys unique. */
  lemma PrependAbsentKeepsUnique(n: KadNode, s: seq<KadNode>)
    requires UniqueKeys(s) && !HasKey(s, n.key)
    ensures UniqueKeys([n] + s)
  {
    var r := [n] + s;
    forall a, b | 0 <= a < b < |r| ensures r[a].key != r[b].key {
      if a == 0 {
        assert r[b] == s[b - 1];
      } else {
        assert r[a] == s[a - 1] && r[b] == s[b - 1];
      }
    }
  }

  /** The ping-answered move: the first record with the probed peer's key
      leaves and the probed record is appended; absent, nothing changes. */
  function CompletedMove(s: seq<KadNode>, probed: KadNode): (r: seq<KadNode>)
    ensures HasKey(s, probed.key) ==> |r| > 0 && r[|r| - 1] == probed
    ensures HasKey(s, probed.key) ==> r[..|r| - 1] == RemoveFirst(s, probed.key)
    ensures !HasKey(s, probed.key) ==> r == s
  {
    if HasKey(s, probed.key) then RemoveFirst(s, probed.key) + [probed] else s
  }

  /** A ping answered never changes the length nor the set of keys held, and
      keeps them unique; when the probed record itself is the one present,
      the move is exactly "to the tail". */
  lemma CompletedMoveFacts(s: seq<KadNode>, probed: KadNode)
    ensures |CompletedMove(s, probed)| == |s|
    ensures forall k :: HasKey(CompletedMove(s, probed), k) <==> HasKey(s, k)
    ensures UniqueKeys(s) ==> UniqueKeys(CompletedMove(s, probed))
    ensures forall j :: 0 <= j < |s| && s[j] == probed && UniqueKeys(s) ==>
              CompletedMove(s, probed) == MoveToTail(s, j)
  {
    if HasKey(s, probed.key) {
      var i := IndexOf(s, probed.key);
      assert CompletedMove(s, probed) == RemoveAt(s, i) + [probed];
      SameKeyMoveFacts(s, i, probed);
      forall j | 0 <= j < |s| && s[j] == probed && UniqueKeys(s)
        ensures CompletedMove(s, probed) == MoveToTail(s, j)
      {
        assert j == i;
      }
    }
  }

  /** Taking out the record at `i` and appending a record of the same peer
      keeps the length, the set of keys and their uniqueness. */
  lemma SameKeyMoveFacts(s: seq<KadNode>, i: int, x: KadNode)
    requires 0 <= i < |s| && x.key == s[i].key
    ensures |RemoveAt(s, i) + [x]| == |s|
    ensures forall k :: HasKey(RemoveAt(s, i) + [x], k) <==> HasKey(s, k)
    ensures UniqueKeys(s) ==> UniqueKeys(RemoveAt(s, i) + [x])
  {
    var r := RemoveAt(s, i) + [x];
    MoveToTailFacts(s, i);
    forall k ensures HasKey(r, k) <==> HasKey(s, k) {
      var m := MoveToTail(s, i);
      assert forall a :: 0 <= a < |r| ==> r[a].key == m[a].key;
      if HasKey(m, k) {
        var a :| 0 <= a < |m| && m[a].key == k;
        assert r[a].key == k;
      }
      if HasKey(r, k) {
        var a :| 0 <= a < |r| && r[a].key == k;
        assert m[a].key == k;
      }
    }
    if UniqueKeys(s) {
      RemoveAtFacts(s, i);
      AppendAbsentKeepsUnique(RemoveAt(s, i), x);
    }
  }

  /** The ping-failed step as the code has it: when the probed peer is present,
      its first record leaves and the candidate is appended unconditionally. */
  function FailedReplace(s: seq<KadNode>, probedKey: Key, candidate: KadNode): (r: seq<KadNode>)
    ensures HasKey(s, probedKey) ==> |r| > 0 && r[|r| - 1] == candidate
    ensures HasKey(s, probedKey) ==> r[..|r| - 1] == RemoveFirst(s, probedKey)
    ensures !HasKey(s, probedKey) ==> r == s
  {
    if HasKey(s, probedKey) then RemoveFirst(s, probedKey) + [candidate] else s
  }

  /** A failed ping never changes the length, and the candidate ends up most
      recent; keys stay unique when the candidate's peer was not held already
      (or is the probed peer itself). */
  lemma FailedReplaceFacts(s: seq<KadNode>, probedKey: Key, candidate: KadNode)
    ensures |FailedReplace(s, probedKey, candidate)| == |s|
    ensures HasKey(s, probedKey) ==> FailedReplace(s, probedKey, candidate)[|s| - 1] == candidate
    ensures UniqueKeys(s) && (candidate.key == probedKey || !HasKey(s, candidate.key)) ==>
              UniqueKeys(FailedReplace(s, probedKey, candidate))
  {
    if HasKey(s, probedKey) {
      var i := IndexOf(s, probedKey);
      assert FailedReplace(s, probedKey, candidate) == RemoveAt(s, i) + [candidate];
      if UniqueKeys(s) && (candidate.key == probedKey || !HasKey(s, candidate.key)) {
        RemoveAtFacts(s, i);
        AppendAbsentKeepsUnique(RemoveAt(s, i), candidate);
      }
    }
  }

  /** As written, two failed pings for the same candidate leave two records
      of one peer: the bucket `[c, a]` after failed probes of `a` and then `c`,
      both on behalf of `n`, holds `n` twice. */
  lemma FailedReplaceTwiceDuplicates(a: KadNode, c: KadNode, n: KadNode)
    requires a.key != c.key && a.key != n.key && c.key != n.key
    ensures UniqueKeys([c, a])
    ensures FailedReplace([c, a], a.key, n) == [c, n]
    ensures FailedReplace([c, n], c.key, n) == [n, n]
    ensures !UniqueKeys(FailedReplace(FailedReplace([c, a], a.key, n), c.key, n))
  {
    assert [c, a][1].key == a.key;
    assert [c, a][1..] == [a];
    assert [c, n][0].key == c.key;
    assert [c, n][1..] == [n];
    var r := FailedReplace([c, n], c.key, n);
    assert r[0].key == r[1].key;
  }

  /** The ping-failed step as its comments intend: when the candidate is
      already held, the probed record goes back to the head instead, so the
      bucket neither shrinks nor holds a peer twice. */
  function FailedReplaceIntended(s: seq<KadNode>, probed: KadNode, candidate: KadNode): (r: seq<KadNode>)
    ensures HasKey(s, probed.key) ==> HasKey(r, candidate.key)
    // the probed peer's first record leaves; the candidate is appended when
    // its peer is not held, and otherwise the probed record is the head again
    ensures HasKey(s, probed.key) && !HasKey(RemoveFirst(s, probed.key), candidate.key) ==>
              r == RemoveFirst(s, probed.key) + [candidate]
    ensures HasKey(s, probed.key) && HasKey(RemoveFirst(s, probed.key), candidate.key) ==>
              r == [probed] + RemoveFirst(s, probed.key)
    ensures !HasKey(s, probed.key) ==> r == s
  {
    if !HasKey(s, probed.key) then s
    else
      var rest := RemoveFirst(s, probed.key);
      if HasKey(rest, candidate.key) then
        var j := IndexOf(rest, candidate.key);
        assert ([probed] + rest)[j + 1] == rest[j];
        [probed] + rest
      else
        assert (rest + [candidate])[|rest|] == candidate;
        rest + [candidate]
  }

  /** The intended ping-failed step keeps the length and always keeps keys
      unique; when the candidate's peer is not held it is the step as
      written. */
  lemma FailedReplaceIntendedKeepsUnique(s: seq<KadNode>, probed: KadNode, candidate: KadNode)
    ensures |FailedReplaceIntended(s, probed, candidate)| == |s|
    ensures UniqueKeys(s) ==> UniqueKeys(FailedReplaceIntended(s, probed, candidate))
    ensures HasKey(s, probed.key) && !HasKey(RemoveFirst(s, probed.key), candidate.key) ==>
              FailedReplaceIntended(s, probed, candidate) == FailedReplace(s, probed.key, candidate)
  {
    if HasKey(s, probed.key) {
      var i := IndexOf(s, probed.key);
      var rest := RemoveAt(s, i);
      assert RemoveFirst(s, probed.key) == rest;
      if UniqueKeys(s) {
        RemoveAtFacts(s, i);
        if HasKey(rest, candidate.key) {
          PrependAbsentKeepsUnique(probed, rest);
        } else {
          AppendAbsentKeepsUnique(rest, candidate);
        }
      }
    }
  }

  /** markDead's reordering: scanning front to back, every record with key `k`
      is taken out and put at the head, so the last one found ends up first. */
  function DeadFirst(s: seq<KadNode>, k: Key): (r: seq<KadNode>)
    ensures |r| == |s|
  {
    if s == [] then []
    else
      var last := s[|s| - 1];
      var front := DeadFirst(s[..|s| - 1], k);
      assert s == s[..|s| - 1] + [last];
      if last.key == k then [last] + front else front + [last]
  }

  /** markDead only reorders: no record is lost or duplicated. */
  lemma {:induction false} DeadFirstPermutes(s: seq<KadNode>, k: Key)
    ensures multiset(DeadFirst(s, k)) == multiset(s)
  {
    if s != [] {
      var p := s[..|s| - 1];
      DeadFirstPermutes(p, k);
      assert s == p + [s[|s| - 1]];
    }
  }

  /** markDead's scan has handled the first `i` of the records `s`, and the
      list now reads `b`. */
  predicate ScannedTo(b: seq<KadNode>, s: seq<KadNode>, i: int, k: Key)
  {
    0 <= i <= |s| && b == DeadFirst(s[..i], k) + s[i..]
  }

  /** One step of markDead's scan: with the first `i` records already
      handled, handling record `i` (moving it to the head when it matches)
      gives the state with `i + 1` records handled. */
  lemma MarkDeadStep(s: seq<KadNode>, i: int, k: Key, b: seq<KadNode>)
    requires 0 <= i < |s|
    requires b == DeadFirst(s[..i], k) + s[i..]
    ensures |b| == |s| && b[i] == s[i]
    ensures s[i].key == k ==> [s[i]] + RemoveAt(b, i) == DeadFirst(s[..i + 1], k) + s[i + 1..]
    ensures s[i].key != k ==> b == DeadFirst(s[..i + 1], k) + s[i + 1..]
  {
    var d := DeadFirst(s[..i], k);
    assert s[..i + 1][..i] == s[..i];
    assert s[..i + 1][i] == s[i];
    assert s[i..] == [s[i]] + s[i + 1..];
    if s[i].key == k {
      assert RemoveAt(b, i) == d + s[i + 1..];
    }
  }

  /** The scan is over once every record has been handled. */
  lemma MarkDeadDone(s: seq<KadNode>, k: Key, b: seq<KadNode>)
    requires ScannedTo(b, s, |s|, k)
    ensures b == DeadFirst(s, k)
  {
    assert s[..|s|] == s;
  }

  /** The records with key `k`, in bucket order. */
  function Matching(s: seq<KadNode>, k: Key): seq<KadNode>
  {
    if s == [] then []
    else if s[|s| - 1].key == k then Matching(s[..|s| - 1], k) + [s[|s| - 1]]
    else Matching(s[..|s| - 1], k)
  }

  /** The records whose key is not `k`, in bucket order. */
  function Others(s: seq<KadNode>, k: Key): seq<KadNode>
  {
    if s == [] then []
    else if s[|s| - 1].key == k then Others(s[..|s| - 1], k)
    else Others(s[..|s| - 1], k) + [s[|s| - 1]]
  }

  function Reversed(s: seq<KadNode>): seq<KadNode>
  {
    if s == [] then [] else [s[|s| - 1]] + Reversed(s[..|s| - 1])
  }

  /** markDead's result is the matching records in reverse order followed by
      all other records in their original order. */
  lemma {:induction false} DeadFirstSplit(s: seq<KadNode>, k: Key)
    ensures DeadFirst(s, k) == Reversed(Matching(s, k)) + Others(s, k)
  {
    if s != [] {
      var p := s[..|s| - 1];
      var x := s[|s| - 1];
      DeadFirstSplit(p, k);
      if x.key == k {
        DeadFirstSplitMatch(s, k);
      } else {
        DeadFirstSplitOther(s, k);
      }
    }
  }

  lemma DeadFirstSplitMatch(s: seq<KadNode>, k: Key)
    requires s != [] && s[|s| - 1].key == k
    requires DeadFirst(s[..|s| - 1], k) == Reversed(Matching(s[..|s| - 1], k)) + Others(s[..|s| - 1], k)
    ensures DeadFirst(s, k) == Reversed(Matching(s, k)) + Others(s, k)
  {
    var p := s[..|s| - 1];
    var x := s[|s| - 1];
    var mp, op := Matching(p, k), Others(p, k);
    assert Matching(s, k) == mp + [x];
    assert Others(s, k) == op;
    ReversedSnoc(mp, x);
    assert DeadFirst(s, k) == [x] + (Reversed(mp) + op);
  }

  lemma DeadFirstSplitOther(s: seq<KadNode>, k: Key)
    requires s != [] && s[|s| - 1].key != k
    requires DeadFirst(s[..|s| - 1], k) == Reversed(Matching(s[..|s| - 1], k)) + Others(s[..|s| - 1], k)
    ensures DeadFirst(s, k) == Reversed(Matching(s, k)) + Others(s, k)
  {
  }

  lemma ReversedSnoc(m: seq<KadNode>, x: KadNode)
    ensures Reversed(m + [x]) == [x] + Reversed(m)
  {
    assert (m + [x])[..|m|] == m;
  }

  /** markDead leaves a bucket that does not hold the peer exactly as it was. */
  lemma {:induction false} DeadFirstAbsent(s: seq<KadNode>, k: Key)
    requires !HasKey(s, k)
    ensures DeadFirst(s, k) == s
  {
    if s != [] {
      var p := s[..|s| - 1];
      assert !HasKey(p, k) by {
        forall a | 0 <= a < |p| ensures p[a].key != k {
          assert p[a] == s[a];
        }
      }
      DeadFirstAbsent(p, k);
      assert s == p + [s[|s| - 1]];
    }
  }

  /** When keys are unique, markDead moves the one matching record to the
      head and leaves every other record in its order. */
  lemma {:induction false} DeadFirstUnique(s: seq<KadNode>, k: Key, j: int)
    requires UniqueKeys(s)
    requires 0 <= j < |s| && s[j].key == k
    ensures DeadFirst(s, k) == [s[j]] + RemoveAt(s, j)
  {
    var p := s[..|s| - 1];
    var x := s[|s| - 1];
    assert s == p + [x];
    if j == |s| - 1 {
      assert !HasKey(p, k) by {
        forall a | 0 <= a < |p| ensures p[a].key != k {
          assert p[a] == s[a];
        }
      }
      DeadFirstAbsent(p, k);
      assert RemoveAt(s, j) == p;
    } else {
      assert x.key != k;
      forall a, b | 0 <= a < b < |p| ensures p[a].key != p[b].key {
        assert p[a] == s[a] && p[b] == s[b];
      }
      DeadFirstUnique(p, k, j);
      assert p[j] == s[j];
      assert RemoveAt(s, j) == RemoveAt(p, j) + [x];
    }
  }

  /** Corollary: markDead never makes keys collide. */
  lemma DeadFirstKeepsUnique(s: seq<KadNode>, k: Key)
    requires UniqueKeys(s)
    ensures UniqueKeys(DeadFirst(s, k))
  {
    if HasKey(s, k) {
      var j := IndexOf(s, k);
      DeadFirstUnique(s, k, j);
      var r := [s[j]] + RemoveAt(s, j);
      forall a, b | 0 <= a < b < |r| ensures r[a].key != r[b].key {
        var a' := if a == 0 then j else if a - 1 < j then a - 1 else a;
        var b' := if b - 1 < j then b - 1 else b;
        assert r[a] == s[a'] && r[b] == s[b'] && a' != b';
      }
    } else {
      DeadFirstAbsent(s, k);
    }
  }
}
