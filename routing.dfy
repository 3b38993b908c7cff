/** Ownership of keys and the walk of `store_val` on an ordered ring: ids
    ascending in right-order from the single `first` node at the minimum.
    On such a ring the ownership test holds at exactly one member for every
    key except the `first` node's own id, which no member owns, and the
    walk reaches the owner within one step fewer than the ring has members;
    for the `first` node's id it never stops. */
module Routing {
  import opened DhtNode
  import opened Ring

  /** The position that should own `key`, read off the ids alone: the
      `first` node (position 0) for a key outside the range of ids, and
      otherwise the first member whose id is at least the key. */
  function OwnerPos(ns: seq<Node>, c: seq<nat>, key: int): nat
    requires |c| >= 1 && forall k | 0 <= k < |c| :: c[k] < |ns|
  {
    if key < ns[c[0]].id || key > ns[c[|c| - 1]].id then 0 else FirstAtLeast(ns, c, key, 0)
  }

  /** On an ordered ring, every key other than the `first` node's id is
      owned by exactly one member: the one at `OwnerPos`. */
  lemma OwnershipPartition(ns: seq<Node>, c: seq<nat>, key: int)
    requires Ordered(ns, c) && key != ns[c[0]].id
    ensures OwnerPos(ns, c, key) < |c|
    ensures forall j | 0 <= j < |c| :: Owns(ns, c[j], key) <==> j == OwnerPos(ns, c, key)
  {
    var t := OwnerPos(ns, c, key);
    var last := |c| - 1;
    assert ns[c[0]].id <= ns[c[last]].id;
    forall j | 0 <= j < |c| ensures Owns(ns, c[j], key) <==> j == t {
      assert LinkAt(ns, c, j);
      if j == 0 {
        assert ns[c[0]].left == c[last];
      } else {
        assert ns[c[j]].left == c[j - 1] && !ns[c[j]].first;
        assert ns[c[0]].id <= ns[c[j - 1]].id <= ns[c[j]].id <= ns[c[last]].id;
        if t != 0 && j > t {
          assert ns[c[t]].id <= ns[c[j - 1]].id;
        }
      }
    }
  }

  /** On an ordered ring, no member owns the `first` node's own id: the
      ownership test leaves a gap there. */
  lemma FirstIdUnowned(ns: seq<Node>, c: seq<nat>)
    requires Ordered(ns, c)
    ensures forall j | 0 <= j < |c| :: !Owns(ns, c[j], ns[c[0]].id)
  {
    var last := |c| - 1;
    forall j | 0 <= j < |c| ensures !Owns(ns, c[j], ns[c[0]].id) {
      assert LinkAt(ns, c, j);
      if j == 0 {
        assert ns[c[0]].left == c[last];
        assert ns[c[0]].id <= ns[c[last]].id;
      } else {
        assert ns[c[j]].left == c[j - 1] && !ns[c[j]].first;
        assert ns[c[0]].id <= ns[c[j - 1]].id;
      }
    }
  }

  /** The store walk going right from position `k` through non-owners whose
      ids are below the key reaches the owner at position `t` (`|c|` meaning
      `c[0]`). */
  lemma {:induction false} StoreRunRight(ns: seq<Node>, c: seq<nat>, key: int, k: nat, t: nat, fuel: nat)
    requires IsRing(ns, c) && k < |c| && k <= t <= |c| && fuel >= t - k
    requires forall m | k <= m < t :: !Owns(ns, c[m], key) && key > ns[c[m]].id
    requires Owns(ns, At(c, t), key)
    ensures StoreWalk(ns, c[k], key, fuel) == Some(At(c, t))
    decreases t - k
  {
    if k < t {
      assert LinkAt(ns, c, k);
      if k + 1 < |c| {
        StoreRunRight(ns, c, key, k + 1, t, fuel - 1);
      } else {
        assert StoreWalk(ns, c[0], key, fuel - 1) == Some(c[0]);
      }
    }
  }

  /** The store walk going left from position `k` through non-owners whose
      ids are at least the key reaches the owner at position `t`. */
  lemma {:induction false} StoreRunLeft(ns: seq<Node>, c: seq<nat>, key: int, k: nat, t: nat, fuel: nat)
    requires IsRing(ns, c) && t <= k < |c| && fuel >= k - t
    requires forall m | t < m <= k :: !Owns(ns, c[m], key) && key <= ns[c[m]].id
    requires Owns(ns, c[t], key)
    ensures StoreWalk(ns, c[k], key, fuel) == Some(c[t])
    decreases k - t
  {
    if t < k {
      assert LinkAt(ns, c, k);
      StoreRunLeft(ns, c, key, k - 1, t, fuel - 1);
    }
  }

  /** On an ordered ring, `store_val` started at any member with a key other
      than the `first` node's id stops at the owner within `|c| - 1`
      forwardings. */
  lemma StoreReachesOwner(ns: seq<Node>, c: seq<nat>, key: int, k: nat, fuel: nat)
    requires Ordered(ns, c) && key != ns[c[0]].id && k < |c| && fuel >= |c| - 1
    ensures OwnerPos(ns, c, key) < |c|
    ensures StoreWalk(ns, c[k], key, fuel) == Some(c[OwnerPos(ns, c, key)])
  {
    OwnershipPartition(ns, c, key);
    var t := OwnerPos(ns, c, key);
    var last := |c| - 1;
    var min, max := ns[c[0]].id, ns[c[last]].id;
    assert forall m | 0 <= m < |c| :: min <= ns[c[m]].id <= max;
    if key > max {
      if k > 0 {
        StoreRunRight(ns, c, key, k, |c|, fuel);
      }
    } else if key < min {
      StoreRunLeft(ns, c, key, k, 0, fuel);
    } else if k <= t {
      StoreRunRight(ns, c, key, k, t, fuel);
    } else {
      forall m | t < m <= k ensures key <= ns[c[m]].id {
        assert ns[c[t]].id <= ns[c[m]].id;
      }
      StoreRunLeft(ns, c, key, k, t, fuel);
    }
  }

  /** On an ordered ring, `store_val` for the `first` node's own id never
      stops, however many forwardings it is allowed. */
  lemma StoreNeverEndsAtFirstId(ns: seq<Node>, c: seq<nat>, x: nat, fuel: nat)
    requires Ordered(ns, c) && x in c
    ensures StoreWalk(ns, x, ns[c[0]].id, fuel) == None
  {
    var key := ns[c[0]].id;
    StoreWalkInRing(ns, c, x, key, fuel);
    FirstIdUnowned(ns, c);
    forall v | v in c ensures !Owns(ns, v, key) {
      var j := IndexOf(c, v);
    }
  }
}
