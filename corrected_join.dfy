/** The join walk's branch at the `first` node, as written and as evidently
    intended.

    As written, a newcomer that reaches the `first` node with a larger id is
    spliced in left of it, that is after the member with the largest id,
    whatever its id is. On an ordered ring this is right only when the
    newcomer's id is at least the maximum; a join that enters the ring at
    the `first` node with an id strictly between the minimum and the maximum
    leaves the ring out of order, after which the ownership test no longer
    partitions the keys. The corrected walk splices there only when the
    newcomer's id is also above the id of the `first` node's left neighbour
    (the maximum) and forwards right otherwise; with it every join of a
    fresh node keeps the ring ordered, wherever it enters. */
module CorrectedJoin {
  import opened DhtNode
  import opened Ring
  import opened Membership

  // ---------------------------------------------------------------------
  // As written

  /** On an ordered ring, a join entering at the `first` node with an id
      strictly between the minimum and the maximum appends the newcomer
      after the maximum: the result is a ring with one `first` node that is
      not sorted. */
  lemma JoinViaFirstMisplaces(ns: seq<Node>, c: seq<nat>, s: nat, fuel: nat)
    requires Ordered(ns, c) && |c| >= 2 && s < |ns| && Lone(ns, s) && ns[s].first
    requires ns[c[0]].id < ns[s].id < ns[c[|c| - 1]].id
    ensures JoinWalk(ns, s, c[0], fuel) == SplicedBefore(c[0], false)
    ensures var ns' := JoinNetwork(ns, s, c[0], fuel);
      var c' := InsertAt(c, |c|, s);
      IsRing(ns', c') && AnchorAt(ns', c', 0) && !Sorted(ns', c')
  {
    MembersJoined(ns, c, 0);
    SpliceExtendsRing(ns, c, |c|, s);
    LoneNotMember(ns, c, s);
    var sp := Splice(ns, s, c[0]);
    SplicedAnchor(ns, sp, c, 0, s, |c|, false);
    var ns' := JoinNetwork(ns, s, c[0], fuel);
    var c' := InsertAt(c, |c|, s);
    assert ns'[c'[|c| - 1]].id > ns'[c'[|c|]].id;
  }

  /** Three nodes with ids 10, 30 and 20: a ring of the first two, and a
      fresh third node. */
  function Example(): seq<Node>
  {
    [Node("a", 10, 1, 1, true, []), Node("b", 30, 0, 0, false, []), Node("c", 20, 2, 2, true, [])]
  }

  /** Node 2 (id 20) joining via the `first` node 0 (id 10) of the ordered
      ring 0, 1 (ids 10, 30) ends up between 30 and 10: no listing of the
      resulting state is ordered, and key 25 passes the ownership test at
      two nodes. */
  lemma JoinViaFirstCounterexample(fuel: nat)
    ensures Ordered(Example(), [0, 1])
    ensures JoinWalk(Example(), 2, 0, fuel) == SplicedBefore(0, false)
    ensures var ns' := JoinNetwork(Example(), 2, 0, fuel);
      IsRing(ns', [0, 1, 2]) && (forall c :: !Ordered(ns', c)) &&
      Owns(ns', 0, 25) && Owns(ns', 1, 25)
  {
    var ns := Example();
    assert LinkAt(ns, [0, 1], 0) && LinkAt(ns, [0, 1], 1);
    JoinViaFirstMisplaces(ns, [0, 1], 2, fuel);
    assert InsertAt([0, 1], 2, 2) == [0, 1, 2];
    var ns' := JoinNetwork(ns, 2, 0, fuel);
    assert SameData(ns, ns');
    forall c | IsRing(ns', c) && AnchorAt(ns', c, 0) ensures !Sorted(ns', c) {
      OnlyListing(ns', c);
    }
    DoubleOwner(ns');
  }

  /** In a state with the ring 0, 1, 2 anchored at 0 and ids 10, 30 and 20,
      both node 0 (by the wrap-around clause) and node 1 own key 25. */
  lemma DoubleOwner(ns': seq<Node>)
    requires |ns'| == 3 && IsRing(ns', [0, 1, 2]) && AnchorAt(ns', [0, 1, 2], 0)
    requires ns'[0].id == 10 && ns'[1].id == 30 && ns'[2].id == 20
    ensures Owns(ns', 0, 25) && Owns(ns', 1, 25)
  {
    assert LinkAt(ns', [0, 1, 2], 0) && LinkAt(ns', [0, 1, 2], 1);
  }

  /** In a state with the ring 0, 1, 2 anchored at 0, the only listing of a
      ring that starts at a `first` node is 0, 1, 2. */
  lemma OnlyListing(ns': seq<Node>, c: seq<nat>)
    requires |ns'| == 3 && IsRing(ns', [0, 1, 2]) && AnchorAt(ns', [0, 1, 2], 0)
    requires IsRing(ns', c) && AnchorAt(ns', c, 0)
    ensures c == [0, 1, 2]
  {
    var d := [0, 1, 2];
    assert LinkAt(ns', d, 0) && LinkAt(ns', d, 1) && LinkAt(ns', d, 2);
    assert !ns'[d[1]].first && !ns'[d[2]].first;
    assert c[0] == 0;
    assert LinkAt(ns', c, 0);
    assert c[Succ(c, 0)] == 1;
    assert |c| >= 2 && c[1] == 1;
    assert LinkAt(ns', c, 1);
    assert c[Succ(c, 1)] == 2;
    assert |c| >= 3 && c[2] == 2;
    assert LinkAt(ns', c, 2);
    assert c[Succ(c, 2)] == 0 == c[0];
    assert |c| == 3;
  }

  // ---------------------------------------------------------------------
  // Corrected

  /** The join walk with the `first` node's branch corrected: a newcomer
      with a larger id is spliced in left of the `first` node only when its
      id is also above that node's left neighbour's, and is forwarded right
      otherwise. Every other branch is the source's. */
  function JoinWalkFixed(ns: seq<Node>, s: nat, n: nat, fuel: nat): (r: JoinOutcome)
    requires Closed(ns) && s < |ns| && n < |ns|
    ensures Fits(ns, r)
    ensures r.AlreadyJoined? <==> !Lone(ns, s)
    ensures r.Paired? ==> Lone(ns, s) && Lone(ns, r.with)
    ensures r.SplicedBefore? ==>
      Lone(ns, s) && !Lone(ns, r.at) &&
      if ns[r.at].first then
        (r.takeOver && ns[s].id < ns[r.at].id) ||
        (!r.takeOver && ns[s].id > ns[r.at].id && ns[s].id > ns[ns[r.at].left].id)
      else
        !r.takeOver && ns[ns[r.at].left].id <= ns[s].id <= ns[r.at].id
    ensures r.SameIdAsFirst? ==>
      Lone(ns, s) && !Lone(ns, r.at) && ns[r.at].first && ns[s].id == ns[r.at].id
    decreases fuel
  {
    if ns[s].left != s || ns[s].right != s then AlreadyJoined
    else if ns[n].left == n && ns[n].right == n then Paired(n)
    else if !ns[n].first then
      if ns[s].id > ns[n].id then
        if fuel == 0 then OutOfSteps else JoinWalkFixed(ns, s, ns[n].right, fuel - 1)
      else if ns[s].id < ns[ns[n].left].id then
        if fuel == 0 then OutOfSteps else JoinWalkFixed(ns, s, ns[n].left, fuel - 1)
      else SplicedBefore(n, false)
    else if ns[s].id > ns[n].id then
      if ns[s].id > ns[ns[n].left].id then SplicedBefore(n, false)
      else if fuel == 0 then OutOfSteps else JoinWalkFixed(ns, s, ns[n].right, fuel - 1)
    else if ns[s].id < ns[n].id then SplicedBefore(n, true)
    else SameIdAsFirst(n)
  }

  /** The corrected join with at most `fuel` forwardings. */
  function JoinNetworkFixed(ns: seq<Node>, s: nat, via: nat, fuel: nat): seq<Node>
    requires Closed(ns) && s < |ns| && via < |ns|
  {
    Joined(ns, s, JoinWalkFixed(ns, s, via, fuel))
  }

  /** On an ordered ring, started at a member other than the `first` node,
      the corrected walk takes the same decision as the source's: it reaches
      the `first` node only from its right neighbour with an id below the
      minimum or from its left neighbour with an id above the maximum, where
      the two branches agree. */
  lemma {:induction false} FixedAgrees(ns: seq<Node>, c: seq<nat>, s: nat, k: nat, fuel: nat)
    requires Ordered(ns, c) && |c| >= 2 && s < |ns| && Lone(ns, s) && 1 <= k < |c|
    ensures JoinWalkFixed(ns, s, c[k], fuel) == JoinWalk(ns, s, c[k], fuel)
    decreases fuel
  {
    var last := |c| - 1;
    assert LinkAt(ns, c, k);
    MembersJoined(ns, c, k);
    if fuel > 0 {
      if ns[s].id > ns[c[k]].id {
        if k < last {
          FixedAgrees(ns, c, s, k + 1, fuel - 1);
        } else {
          assert LinkAt(ns, c, 0) && ns[c[0]].left == c[last];
          assert ns[c[0]].id <= ns[c[last]].id;
          MembersJoined(ns, c, 0);
        }
      } else if ns[s].id < ns[c[k - 1]].id {
        if k > 1 {
          FixedAgrees(ns, c, s, k - 1, fuel - 1);
        } else {
          MembersJoined(ns, c, 0);
        }
      }
    }
  }

  /** With the corrected walk, the join of a fresh node into an ordered ring
      via any member, with at least `|c|` forwardings, either splices it in
      at the place its id belongs, keeping the ring ordered, or (its id
      equals the `first` node's) changes nothing. */
  lemma FixedJoinKeepsOrder(ns: seq<Node>, c: seq<nat>, s: nat, k: nat, fuel: nat)
    requires Ordered(ns, c) && |c| >= 2 && s < |ns| && Lone(ns, s) && ns[s].first
    requires k < |c| && fuel >= |c|
    ensures var r := JoinWalkFixed(ns, s, c[k], fuel);
      var ns' := JoinNetworkFixed(ns, s, c[k], fuel);
      (r.SplicedBefore? && r.at in c && Ordered(ns', InsertAt(c, SplicePos(c, r), s))) ||
      (r.SameIdAsFirst? && ns[s].id == ns[c[0]].id && ns' == ns)
  {
    if k >= 1 {
      FixedAgrees(ns, c, s, k, fuel);
      JoinViaMemberKeepsOrder(ns, c, s, k, fuel);
    } else {
      FixedJoinViaFirst(ns, c, s, fuel);
    }
  }

  /** `FixedJoinKeepsOrder` for a join entering at the `first` node. */
  lemma FixedJoinViaFirst(ns: seq<Node>, c: seq<nat>, s: nat, fuel: nat)
    requires Ordered(ns, c) && |c| >= 2 && s < |ns| && Lone(ns, s) && ns[s].first
    requires fuel >= |c|
    ensures var r := JoinWalkFixed(ns, s, c[0], fuel);
      var ns' := JoinNetworkFixed(ns, s, c[0], fuel);
      (r.SplicedBefore? && r.at in c && Ordered(ns', InsertAt(c, SplicePos(c, r), s))) ||
      (r.SameIdAsFirst? && ns[s].id == ns[c[0]].id && ns' == ns)
  {
    var last := |c| - 1;
    var id := ns[s].id;
    assert LinkAt(ns, c, 0) && ns[c[0]].left == c[last] && ns[c[0]].right == c[1];
    assert ns[c[0]].id <= ns[c[last]].id;
    MembersJoined(ns, c, 0);
    if id < ns[c[0]].id || id > ns[c[last]].id {
      FixedSplicesAtFirst(ns, c, s, fuel);
    } else if id > ns[c[0]].id {
      FixedForwardsFromFirst(ns, c, s, fuel);
    } else {
      assert JoinWalkFixed(ns, s, c[0], fuel) == SameIdAsFirst(c[0]);
    }
  }

  /** The corrected walk at the `first` node of an ordered ring, for an id
      above the minimum and not above the maximum, forwards right and then
      splices in place. */
  lemma FixedForwardsFromFirst(ns: seq<Node>, c: seq<nat>, s: nat, fuel: nat)
    requires Ordered(ns, c) && |c| >= 2 && s < |ns| && Lone(ns, s) && ns[s].first
    requires ns[c[0]].id < ns[s].id <= ns[c[|c| - 1]].id && fuel >= |c|
    ensures var r := JoinWalkFixed(ns, s, c[0], fuel);
      r.SplicedBefore? && r.at in c && Ordered(JoinNetworkFixed(ns, s, c[0], fuel), InsertAt(c, SplicePos(c, r), s))
  {
    var last := |c| - 1;
    assert LinkAt(ns, c, 0) && ns[c[0]].left == c[last] && ns[c[0]].right == c[1];
    MembersJoined(ns, c, 0);
    assert JoinWalkFixed(ns, s, c[0], fuel) == JoinWalkFixed(ns, s, c[1], fuel - 1);
    FixedAgrees(ns, c, s, 1, fuel - 1);
    var r := JoinWalk(ns, s, c[1], fuel - 1);
    assert JoinWalkFixed(ns, s, c[0], fuel) == r;
    assert JoinNetworkFixed(ns, s, c[0], fuel) == Joined(ns, s, r);
    JoinViaMemberKeepsOrder(ns, c, s, 1, fuel - 1);
  }

  /** The corrected walk at the `first` node of an ordered ring, for an id
      outside the range of ids, splices there at once, in place. */
  lemma FixedSplicesAtFirst(ns: seq<Node>, c: seq<nat>, s: nat, fuel: nat)
    requires Ordered(ns, c) && |c| >= 2 && s < |ns| && Lone(ns, s) && ns[s].first
    requires ns[s].id < ns[c[0]].id || ns[s].id > ns[c[|c| - 1]].id
    ensures var r := JoinWalkFixed(ns, s, c[0], fuel);
      r.SplicedBefore? && r.at in c && Ordered(JoinNetworkFixed(ns, s, c[0], fuel), InsertAt(c, SplicePos(c, r), s))
  {
    var last := |c| - 1;
    assert LinkAt(ns, c, 0) && ns[c[0]].left == c[last];
    assert ns[c[0]].id <= ns[c[last]].id;
    MembersJoined(ns, c, 0);
    var r := JoinWalkFixed(ns, s, c[0], fuel);
    assert r == SplicedBefore(c[0], ns[s].id < ns[c[0]].id);
    IndexOfUnique(ns, c, 0);
    JoinInPlaceKeepsOrder(ns, c, s, r);
  }

  /** The corrected join puts node 2 of `Example` between ids 10 and 30. */
  lemma FixedJoinOnExample()
    ensures Ordered(JoinNetworkFixed(Example(), 2, 0, 2), [0, 2, 1])
  {
    var ns := Example();
    assert LinkAt(ns, [0, 1], 0) && LinkAt(ns, [0, 1], 1);
    FixedJoinKeepsOrder(ns, [0, 1], 2, 0, 2);
    var r := JoinWalkFixed(ns, 2, 0, 2);
    assert r == SplicedBefore(1, false);
    IndexOfUnique(ns, [0, 1], 1);
    assert InsertAt([0, 1], 1, 2) == [0, 2, 1];
  }
}
