/** What `join_network` and `leave_network` do to a ring as a whole: the
    members it has afterwards and where its single `first` node is. */
module Membership {
  import opened DhtNode
  import opened Ring

  /** Joining two lone nodes that both carry `first` (as freshly created
      nodes do) makes a two-node ring with exactly one `first` node: the
      one with the smaller id, or the joining node `s` on equal ids. Listed
      from that node, the ring is ordered. */
  lemma PairMakesOrderedRing(ns: seq<Node>, s: nat, n: nat)
    requires Linked(ns) && s < |ns| && n < |ns| && s != n
    requires Lone(ns, s) && Lone(ns, n) && ns[s].first && ns[n].first
    ensures var r := Pair(ns, s, n);
      var c := if ns[s].id > ns[n].id then [n, s] else [s, n];
      Ordered(r, c) && r[s].first == (ns[s].id <= ns[n].id) && r[n].first == (ns[s].id > ns[n].id)
  {
    PairEffect(ns, s, n);
    var r := Pair(ns, s, n);
    var c := if ns[s].id > ns[n].id then [n, s] else [s, n];
    assert LinkAt(r, c, 0) && LinkAt(r, c, 1);
  }

  /** The position in the ring after a splice at position `k` at which the
      old anchor (position `a`) is found. */
  function Shifted(a: nat, k: nat): nat
  {
    if a < k then a else a + 1
  }

  /** A join into a ring of two or more with exactly one `first` node, by a
      lone node that carries `first`, either splices the newcomer in left of
      the member where the walk stopped, giving a ring with exactly one
      `first` node again, or changes nothing. When the walk stops at the
      anchor with a smaller id, the newcomer takes the flag over; in every
      other splice the newcomer's flag is cleared and the old anchor keeps
      its flag. */
  lemma JoinKeepsOneAnchor(ns: seq<Node>, c: seq<nat>, a: nat, s: nat, via: nat, fuel: nat)
    requires IsRing(ns, c) && |c| >= 2 && AnchorAt(ns, c, a)
    requires s < |ns| && Lone(ns, s) && ns[s].first && via in c
    ensures var r := JoinWalk(ns, s, via, fuel);
      var ns' := JoinNetwork(ns, s, via, fuel);
      (r.SplicedBefore? ==>
         r.at in c &&
         var k := IndexOf(c, r.at);
         var c' := InsertAt(c, k, s);
         IsRing(ns', c') &&
         (r.takeOver ==> k == a && AnchorAt(ns', c', k)) &&
         (!r.takeOver ==> AnchorAt(ns', c', Shifted(a, k)))) &&
      (!r.SplicedBefore? ==> ns' == ns)
  {
    var r := JoinWalk(ns, s, via, fuel);
    JoinWalkInRing(ns, c, s, via, fuel);
    LoneNotMember(ns, c, s);
    match r
    case Paired(n) =>
      MembersJoined(ns, c, IndexOf(c, n));
    case SplicedBefore(n, takeOver) =>
      var k := IndexOf(c, n);
      SpliceExtendsRing(ns, c, k, s);
      var sp := Splice(ns, s, n);
      if takeOver {
        assert ns[n].first;
      }
      SplicedAnchor(ns, sp, c, a, s, k, takeOver);
    case _ =>
  }

  /** The flag part of a splice at position `k`: clearing the old anchor's
      flag when `takeOver` (then the splice is at the anchor), otherwise the
      newcomer's. */
  lemma SplicedAnchor(ns: seq<Node>, sp: seq<Node>, c: seq<nat>, a: nat, s: nat, k: nat, takeOver: bool)
    requires IsRing(ns, c) && AnchorAt(ns, c, a) && k <= |c| && s < |ns| && s !in c && ns[s].first
    requires IsRing(sp, InsertAt(c, k, s)) && SameFlags(ns, sp)
    requires takeOver ==> k == a
    ensures var c' := InsertAt(c, k, s);
      var ns' := ClearFirst(sp, if takeOver then c[a] else s);
      IsRing(ns', c') &&
      (takeOver ==> AnchorAt(ns', c', k)) &&
      (!takeOver ==> AnchorAt(ns', c', Shifted(a, k)))
  {
    var c' := InsertAt(c, k, s);
    var ns' := ClearFirst(sp, if takeOver then c[a] else s);
    RingSameLinks(sp, ns', c');
    if takeOver {
      forall j | 0 <= j < |c'| && j != k ensures !ns'[c'[j]].first {
        if j < k { assert c'[j] == c[j]; } else { assert c'[j] == c[j - 1]; }
      }
    } else {
      var a' := Shifted(a, k);
      assert c'[a'] == c[a];
      forall j | 0 <= j < |c'| && j != a' ensures !ns'[c'[j]].first {
        if j < k { assert c'[j] == c[j]; }
        else if j > k { assert c'[j] == c[j - 1]; }
      }
    }
  }

  /** Leaving keeps the departing node's `first` flag where it was: when
      the single `first` node of a ring leaves, the remaining ring has no
      `first` node at all; when another member leaves, the anchor stays the
      only `first` node. */
  lemma LeaveAndAnchor(ns: seq<Node>, c: seq<nat>, a: nat, k: nat)
    requires IsRing(ns, c) && |c| >= 2 && AnchorAt(ns, c, a) && k < |c|
    ensures var r := Leave(ns, c[k]); var c' := RemoveAt(c, k);
      IsRing(r, c') &&
      (k == a ==> forall j | 0 <= j < |c'| :: !r[c'[j]].first) &&
      (k != a ==> AnchorAt(r, c', if a < k then a else a - 1))
  {
    LeaveShrinksRing(ns, c, k);
    var r := Leave(ns, c[k]);
    var c' := RemoveAt(c, k);
    forall j | 0 <= j < |c'| ensures r[c'[j]].first == ns[c[if j < k then j else j + 1]].first {
    }
  }

  // ---------------------------------------------------------------------
  // The join walk stops on an ordered ring

  /** The walk reached a decision that is carried out: a splice, or the
      no-op at a `first` node with the same id. */
  predicate Halts(r: JoinOutcome)
  {
    r.SplicedBefore? || r.SameIdAsFirst?
  }

  /** Forwarding right from position `k` over non-`first` members with ids
      below `s`'s leads to position `t` (`|c|` meaning `c[0]`). */
  lemma {:induction false} JoinRunRight(ns: seq<Node>, c: seq<nat>, s: nat, k: nat, t: nat, fuel: nat)
    requires IsRing(ns, c) && |c| >= 2 && s < |ns| && Lone(ns, s)
    requires k < |c| && k <= t <= |c| && fuel >= t - k
    requires forall m | k <= m < t :: !ns[c[m]].first && ns[s].id > ns[c[m]].id
    ensures JoinWalk(ns, s, c[k], fuel) == JoinWalk(ns, s, At(c, t), fuel - (t - k))
    decreases t - k
  {
    if k < t {
      assert LinkAt(ns, c, k);
      MembersJoined(ns, c, k);
      if k + 1 < |c| {
        JoinRunRight(ns, c, s, k + 1, t, fuel - 1);
      }
    }
  }

  /** Forwarding left from position `k` over non-`first` members whose left
      neighbour's id is above `s`'s leads to position `t`. */
  lemma {:induction false} JoinRunLeft(ns: seq<Node>, c: seq<nat>, s: nat, k: nat, t: nat, fuel: nat)
    requires IsRing(ns, c) && |c| >= 2 && s < |ns| && Lone(ns, s)
    requires t <= k < |c| && fuel >= k - t
    requires forall m | t < m <= k :: !ns[c[m]].first && ns[s].id <= ns[c[m]].id
    requires forall m | t <= m < k :: ns[s].id < ns[c[m]].id
    ensures JoinWalk(ns, s, c[k], fuel) == JoinWalk(ns, s, c[t], fuel - (k - t))
    decreases k - t
  {
    if t < k {
      assert LinkAt(ns, c, k);
      MembersJoined(ns, c, k);
      JoinRunLeft(ns, c, s, k - 1, t, fuel - 1);
    }
  }

  /** Position `pos` is where `s` belongs in the sorted listing `c`: after
      every smaller-or-equal id before it and before every larger-or-equal
      id after it, and strictly below the minimum when it is position 0. */
  ghost predicate FitsAt(ns: seq<Node>, c: seq<nat>, pos: nat, s: nat)
    requires (forall k | 0 <= k < |c| :: c[k] < |ns|) && s < |ns|
  {
    pos <= |c| &&
    (pos > 0 ==> ns[c[pos - 1]].id <= ns[s].id) &&
    (pos < |c| ==> ns[s].id <= ns[c[pos]].id) &&
    (pos == 0 ==> 0 < |c| && ns[s].id < ns[c[0]].id)
  }

  /** The position of the new member in the ring listed from the `first`
      node after a splice left of `r.at`: the end of the listing when the
      splice is left of the `first` node and the newcomer does not take the
      flag over, the position of `r.at` otherwise. */
  ghost function SplicePos(c: seq<nat>, r: JoinOutcome): nat
    requires r.SplicedBefore? && r.at in c
  {
    var m := IndexOf(c, r.at);
    if m == 0 && !r.takeOver then |c| else m
  }

  /** On an ordered ring, the join walk of a lone node started at a member
      other than the `first` node splices within `|c| - 1` forwardings, at
      the place the node's id belongs, taking the `first` flag over exactly
      when its id is below every member's. */
  lemma JoinStopsInPlace(ns: seq<Node>, c: seq<nat>, s: nat, k: nat, fuel: nat)
    requires Ordered(ns, c) && |c| >= 2 && s < |ns| && Lone(ns, s)
    requires 1 <= k < |c| && fuel >= |c| - 1
    ensures var r := JoinWalk(ns, s, c[k], fuel);
      r.SplicedBefore? && r.at in c &&
      FitsAt(ns, c, SplicePos(c, r), s) && (r.takeOver <==> SplicePos(c, r) == 0)
  {
    if ns[s].id > ns[c[k]].id {
      JoinStopsRight(ns, c, s, k, fuel);
    } else {
      JoinStopsLeft(ns, c, s, k, fuel);
    }
  }

  /** `JoinStopsInPlace` when the walk starts by forwarding right. */
  lemma JoinStopsRight(ns: seq<Node>, c: seq<nat>, s: nat, k: nat, fuel: nat)
    requires Ordered(ns, c) && |c| >= 2 && s < |ns| && Lone(ns, s)
    requires 1 <= k < |c| && fuel >= |c| - 1 && ns[s].id > ns[c[k]].id
    ensures var r := JoinWalk(ns, s, c[k], fuel);
      r.SplicedBefore? && r.at in c &&
      FitsAt(ns, c, SplicePos(c, r), s) && (r.takeOver <==> SplicePos(c, r) == 0)
  {
    var id := ns[s].id;
    var last := |c| - 1;
    var t := FirstAtLeast(ns, c, id, k);
    JoinRunRight(ns, c, s, k, t, fuel);
    var f := fuel - (t - k);
    if t < |c| {
      assert LinkAt(ns, c, t) && ns[c[t]].left == c[t - 1];
      MembersJoined(ns, c, t);
      assert ns[c[t - 1]].id < id <= ns[c[t]].id && !ns[c[t]].first;
      assert JoinWalk(ns, s, c[t], f) == SplicedBefore(c[t], false);
      IndexOfUnique(ns, c, t);
    } else {
      assert ns[c[last]].id < id && ns[c[0]].id <= ns[c[last]].id;
      MembersJoined(ns, c, 0);
      assert JoinWalk(ns, s, c[0], f) == SplicedBefore(c[0], false);
      IndexOfUnique(ns, c, 0);
    }
  }

  /** `JoinStopsInPlace` when the walk starts by forwarding left or stops at
      once. */
  lemma JoinStopsLeft(ns: seq<Node>, c: seq<nat>, s: nat, k: nat, fuel: nat)
    requires Ordered(ns, c) && |c| >= 2 && s < |ns| && Lone(ns, s)
    requires 1 <= k < |c| && fuel >= |c| - 1 && ns[s].id <= ns[c[k]].id
    ensures var r := JoinWalk(ns, s, c[k], fuel);
      r.SplicedBefore? && r.at in c &&
      FitsAt(ns, c, SplicePos(c, r), s) && (r.takeOver <==> SplicePos(c, r) == 0)
  {
    var id := ns[s].id;
    var t := LastNotAbove(ns, c, id, k);
    forall m | t < m <= k ensures !ns[c[m]].first && id <= ns[c[m]].id {
      assert ns[c[k - 1]].id <= ns[c[m]].id || ns[c[t]].id <= ns[c[m]].id;
    }
    JoinRunLeft(ns, c, s, k, t, fuel);
    var f := fuel - (k - t);
    assert id <= ns[c[t]].id;
    MembersJoined(ns, c, t);
    if t > 0 {
      assert LinkAt(ns, c, t) && ns[c[t]].left == c[t - 1];
      assert ns[c[t - 1]].id <= id && !ns[c[t]].first;
      assert JoinWalk(ns, s, c[t], f) == SplicedBefore(c[t], false);
    } else {
      assert id < ns[c[0]].id && ns[c[0]].first;
      assert JoinWalk(ns, s, c[0], f) == SplicedBefore(c[0], true);
    }
    IndexOfUnique(ns, c, t);
  }

  /** On an ordered ring, the join walk of any lone node stops within
      `|c| - 1` forwardings wherever it starts. */
  lemma JoinWalkHalts(ns: seq<Node>, c: seq<nat>, s: nat, k: nat, fuel: nat)
    requires Ordered(ns, c) && |c| >= 2 && s < |ns| && Lone(ns, s)
    requires k < |c| && fuel >= |c| - 1
    ensures Halts(JoinWalk(ns, s, c[k], fuel))
  {
    if k == 0 {
      MembersJoined(ns, c, 0);
    } else {
      JoinStopsInPlace(ns, c, s, k, fuel);
    }
  }

  /** Carrying out a splice at the place the newcomer's id belongs, with
      the flag handled as the walk decided, keeps the ring ordered. */
  lemma JoinInPlaceKeepsOrder(ns: seq<Node>, c: seq<nat>, s: nat, r: JoinOutcome)
    requires Ordered(ns, c) && |c| >= 2 && s < |ns| && Lone(ns, s) && ns[s].first
    requires r.SplicedBefore? && r.at in c
    requires FitsAt(ns, c, SplicePos(c, r), s) && (r.takeOver <==> SplicePos(c, r) == 0)
    ensures Fits(ns, r) && Ordered(Joined(ns, s, r), InsertAt(c, SplicePos(c, r), s))
  {
    var pos := SplicePos(c, r);
    assert At(c, pos) == r.at;
    SpliceExtendsRing(ns, c, pos, s);
    LoneNotMember(ns, c, s);
    var sp := Splice(ns, s, r.at);
    if r.takeOver {
      assert c[0] == r.at;
    }
    SplicedAnchor(ns, sp, c, 0, s, pos, r.takeOver);
    InsertKeepsSorted(ns, Joined(ns, s, r), c, pos, s);
  }

  /** The join of a lone node carrying `first` into an ordered ring, via any
      member other than the `first` node and with at least `|c| - 1`
      forwardings, splices it in at the place its id belongs and keeps the
      ring ordered. */
  lemma JoinViaMemberKeepsOrder(ns: seq<Node>, c: seq<nat>, s: nat, k: nat, fuel: nat)
    requires Ordered(ns, c) && |c| >= 2 && s < |ns| && Lone(ns, s) && ns[s].first
    requires 1 <= k < |c| && fuel >= |c| - 1
    ensures var r := JoinWalk(ns, s, c[k], fuel);
      r.SplicedBefore? && r.at in c &&
      Ordered(JoinNetwork(ns, s, c[k], fuel), InsertAt(c, SplicePos(c, r), s))
  {
    JoinStopsInPlace(ns, c, s, k, fuel);
    JoinInPlaceKeepsOrder(ns, c, s, JoinWalk(ns, s, c[k], fuel));
  }
}
