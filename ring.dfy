/** Rings of nodes. A ring is named by a ghost sequence `c` of arena
    indices listing its members in right-order: the right neighbour of
    `c[k]` is `c[k + 1]`, wrapping round from the last member to `c[0]`.
    The lemmas here show what joining, leaving and storing do to a ring:
    which members it has afterwards, where the single `first` node is, and,
    for a ring sorted by id with `first` at its minimum, which node owns a
    key and how far the walks go. */
module Ring {
  import opened DhtNode

  /** Ring position after `k`, wrapping round. */
  function Succ(c: seq<nat>, k: nat): nat
    requires k < |c|
  {
    if k + 1 < |c| then k + 1 else 0
  }

  /** Ring position before `k`, wrapping round. */
  function Pred(c: seq<nat>, k: nat): nat
    requires k < |c|
  {
    if k == 0 then |c| - 1 else k - 1
  }

  /** The member at position `k` of `c`, where position `|c|` is `c[0]`
      again. */
  function At(c: seq<nat>, k: nat): nat
    requires 0 < |c| && k <= |c|
  {
    if k < |c| then c[k] else c[0]
  }

  /** `c` with `s` inserted at position `k`. */
  function InsertAt(c: seq<nat>, k: nat, s: nat): (c': seq<nat>)
    requires k <= |c|
    ensures |c'| == |c| + 1 && c'[k] == s
    ensures forall j | 0 <= j < k :: c'[j] == c[j]
    ensures forall j | k < j < |c'| :: c'[j] == c[j - 1]
  {
    c[..k] + [s] + c[k..]
  }

  /** `c` without the member at position `k`. */
  function RemoveAt(c: seq<nat>, k: nat): (c': seq<nat>)
    requires k < |c|
    ensures |c'| == |c| - 1
    ensures forall j | 0 <= j < k :: c'[j] == c[j]
    ensures forall j | k <= j < |c'| :: c'[j] == c[j + 1]
  {
    c[..k] + c[k + 1..]
  }

  /** The smallest position from `j` on whose id is at least `id`, or `|c|`
      when there is none. */
  function FirstAtLeast(ns: seq<Node>, c: seq<nat>, id: int, j: nat): (t: nat)
    requires (forall k | 0 <= k < |c| :: c[k] < |ns|) && j <= |c|
    ensures j <= t <= |c|
    ensures forall i | j <= i < t :: ns[c[i]].id < id
    ensures t < |c| ==> id <= ns[c[t]].id
    decreases |c| - j
  {
    if j == |c| then |c|
    else if id <= ns[c[j]].id then j
    else FirstAtLeast(ns, c, id, j + 1)
  }

  /** The largest position `t <= k` with `t == 0` or the id before `t` at
      most `id`. */
  function LastNotAbove(ns: seq<Node>, c: seq<nat>, id: int, k: nat): (t: nat)
    requires (forall j | 0 <= j < |c| :: c[j] < |ns|) && k < |c|
    ensures t <= k && (t > 0 ==> ns[c[t - 1]].id <= id)
    ensures forall m | t <= m < k :: id < ns[c[m]].id
  {
    if k == 0 then 0
    else if ns[c[k - 1]].id <= id then k
    else LastNotAbove(ns, c, id, k - 1)
  }

  /** `c` lists, without repetition, the members of one ring of a linked
      arena in right-order. */
  ghost predicate IsRing(ns: seq<Node>, c: seq<nat>)
  {
    Linked(ns) && |c| >= 1 &&
    (forall k | 0 <= k < |c| :: c[k] < |ns|) &&
    (forall j, k | 0 <= j < k < |c| :: c[j] != c[k]) &&
    (forall k | 0 <= k < |c| :: LinkAt(ns, c, k))
  }

  /** The neighbours of the member at position `k` are the members before
      and after it. */
  ghost predicate LinkAt(ns: seq<Node>, c: seq<nat>, k: nat)
    requires Closed(ns) && k < |c| && c[k] < |ns|
  {
    ns[c[k]].right == c[Succ(c, k)] && ns[c[k]].left == c[Pred(c, k)]
  }

  /** Position `a` of `c` holds the only `first` node of the ring. */
  ghost predicate AnchorAt(ns: seq<Node>, c: seq<nat>, a: nat)
    requires forall k | 0 <= k < |c| :: c[k] < |ns|
  {
    a < |c| && ns[c[a]].first && forall k | 0 <= k < |c| && k != a :: !ns[c[k]].first
  }

  /** Ids ascend along `c`. */
  ghost predicate Sorted(ns: seq<Node>, c: seq<nat>)
    requires forall k | 0 <= k < |c| :: c[k] < |ns|
  {
    forall j, k | 0 <= j <= k < |c| :: ns[c[j]].id <= ns[c[k]].id
  }

  /** The shape the ring is meant to have: ids ascend in right-order from
      the single `first` node, which has the minimum id. */
  ghost predicate Ordered(ns: seq<Node>, c: seq<nat>)
  {
    IsRing(ns, c) && AnchorAt(ns, c, 0) && Sorted(ns, c)
  }

  /** Inserting a member at a position where its id fits keeps a listing
      sorted, in any state with the same ids. */
  lemma InsertKeepsSorted(ns: seq<Node>, ns': seq<Node>, c: seq<nat>, k: nat, s: nat)
    requires (forall j | 0 <= j < |c| :: c[j] < |ns|) && s < |ns| && k <= |c|
    requires Sorted(ns, c) && SameData(ns, ns')
    requires k > 0 ==> ns[c[k - 1]].id <= ns[s].id
    requires k < |c| ==> ns[s].id <= ns[c[k]].id
    ensures Sorted(ns', InsertAt(c, k, s))
  {
    var c' := InsertAt(c, k, s);
    forall x, y | 0 <= x <= y < |c'| ensures ns'[c'[x]].id <= ns'[c'[y]].id {
      if x < k && y > k {
        assert ns[c[x]].id <= ns[c[k - 1]].id;
      } else if x < k && y == k {
        assert ns[c[x]].id <= ns[c[k - 1]].id;
      } else if x == k && y > k {
        assert ns[c[k]].id <= ns[c[y - 1]].id;
      }
    }
  }

  /** In a ring of two or more, no member is lone, and a lone node is not a
      member. */
  lemma MembersJoined(ns: seq<Node>, c: seq<nat>, k: nat)
    requires IsRing(ns, c) && |c| >= 2 && k < |c|
    ensures !Lone(ns, c[k])
  {
    assert LinkAt(ns, c, k) && c[Succ(c, k)] != c[k];
  }

  lemma LoneNotMember(ns: seq<Node>, c: seq<nat>, s: nat)
    requires IsRing(ns, c) && |c| >= 2 && s < |ns| && Lone(ns, s)
    ensures s !in c
  {
    forall k | 0 <= k < |c| ensures c[k] != s {
      MembersJoined(ns, c, k);
    }
  }

  /** Both neighbours of a member are members. */
  lemma NeighboursInRing(ns: seq<Node>, c: seq<nat>, x: nat)
    requires IsRing(ns, c) && x in c
    ensures ns[x].left in c && ns[x].right in c
  {
    var k :| 0 <= k < |c| && c[k] == x;
    assert LinkAt(ns, c, k);
  }

  /** The position of a member. */
  ghost function IndexOf(c: seq<nat>, x: nat): (k: nat)
    requires x in c
    ensures k < |c| && c[k] == x
  {
    var k :| 0 <= k < |c| && c[k] == x; k
  }

  lemma IndexOfUnique(ns: seq<Node>, c: seq<nat>, k: nat)
    requires IsRing(ns, c) && k < |c|
    ensures IndexOf(c, c[k]) == k
  {
  }

  /** Two rings over arenas with the same links list the same members. */
  lemma RingSameLinks(a: seq<Node>, b: seq<Node>, c: seq<nat>)
    requires IsRing(a, c) && SameLinks(a, b)
    ensures IsRing(b, c)
  {
    SameLinksKeepLinked(a, b);
    forall k | 0 <= k < |c| ensures LinkAt(b, c, k) {
      assert LinkAt(a, c, k);
    }
  }

  // ---------------------------------------------------------------------
  // The join walk stays in the ring

  /** Wherever the join walk stops, started at a member, it stops at a
      member. */
  lemma {:induction false} JoinWalkInRing(ns: seq<Node>, c: seq<nat>, s: nat, n: nat, fuel: nat)
    requires IsRing(ns, c) && s < |ns| && n in c
    ensures var r := JoinWalk(ns, s, n, fuel);
      (r.Paired? ==> r.with in c) &&
      (r.SplicedBefore? ==> r.at in c) &&
      (r.SameIdAsFirst? ==> r.at in c)
    decreases fuel
  {
    NeighboursInRing(ns, c, n);
    if fuel > 0 {
      JoinWalkInRing(ns, c, s, ns[n].right, fuel - 1);
      JoinWalkInRing(ns, c, s, ns[n].left, fuel - 1);
    }
  }

  /** Wherever the store walk stops, started at a member, it stops at a
      member. */
  lemma {:induction false} StoreWalkInRing(ns: seq<Node>, c: seq<nat>, i: nat, key: int, fuel: nat)
    requires IsRing(ns, c) && i in c
    ensures var r := StoreWalk(ns, i, key, fuel); r.Some? ==> r.value in c
    decreases fuel
  {
    NeighboursInRing(ns, c, i);
    if fuel > 0 {
      StoreWalkInRing(ns, c, ns[i].right, key, fuel - 1);
      StoreWalkInRing(ns, c, ns[i].left, key, fuel - 1);
    }
  }

  // ---------------------------------------------------------------------
  // Splicing and leaving change the ring's members

  /** Splicing a lone `s` in left of the member at position `k` (position
      `|c|` meaning `c[0]` again) gives the ring with `s` inserted at
      position `k`. */
  lemma SpliceExtendsRing(ns: seq<Node>, c: seq<nat>, k: nat, s: nat)
    requires IsRing(ns, c) && |c| >= 2 && k <= |c| && s < |ns| && Lone(ns, s)
    ensures IsRing(Splice(ns, s, At(c, k)), InsertAt(c, k, s))
  {
    var m := if k < |c| then k else 0;
    var n := c[m];
    MembersJoined(ns, c, m);
    LoneNotMember(ns, c, s);
    SpliceEffect(ns, s, n);
    SpliceKeepsLinked(ns, s, n);
    InsertedRing(ns, Splice(ns, s, n), c, k, s);
  }

  lemma InsertedRing(ns: seq<Node>, r: seq<Node>, c: seq<nat>, k: nat, s: nat)
    requires IsRing(ns, c) && |c| >= 2 && k <= |c| && s < |ns| && s !in c
    requires Linked(r) && |r| == |ns|
    requires var n := At(c, k); var p := ns[n].left;
      r[s] == ns[s].(left := p, right := n) &&
      r[p] == ns[p].(right := s) &&
      r[n] == ns[n].(left := s) &&
      (forall i | 0 <= i < |ns| && i != s && i != p && i != n :: r[i] == ns[i])
    ensures IsRing(r, InsertAt(c, k, s))
  {
    var c' := InsertAt(c, k, s);
    forall j | 0 <= j < |c'| ensures c'[j] < |r| {
    }
    forall i, j | 0 <= i < j < |c'| ensures c'[i] != c'[j] {
    }
    forall j | 0 <= j < |c'| ensures LinkAt(r, c', j) {
      InsertedLink(ns, r, c, k, s, j);
    }
  }

  lemma InsertedLink(ns: seq<Node>, r: seq<Node>, c: seq<nat>, k: nat, s: nat, j: nat)
    requires IsRing(ns, c) && |c| >= 2 && k <= |c| && s < |ns| && s !in c
    requires Linked(r) && |r| == |ns|
    requires var n := At(c, k); var p := ns[n].left;
      r[s] == ns[s].(left := p, right := n) &&
      r[p] == ns[p].(right := s) &&
      r[n] == ns[n].(left := s) &&
      (forall i | 0 <= i < |ns| && i != s && i != p && i != n :: r[i] == ns[i])
    requires j <= |c|
    ensures var c' := InsertAt(c, k, s); c'[j] < |r| && LinkAt(r, c', j)
  {
    var c' := InsertAt(c, k, s);
    var m := if k < |c| then k else 0;
    var n := c[m];
    var pm := Pred(c, m);
    var p := c[pm];
    assert LinkAt(ns, c, m) && ns[n].left == p;
    assert pm == if k == 0 then |c| - 1 else k - 1;
    if j == k {
      assert c'[Succ(c', j)] == n;
      assert c'[Pred(c', j)] == p;
    } else {
      var i := if j < k then j else j - 1;
      assert c'[j] == c[i] && LinkAt(ns, c, i);
      if i == m {
        assert r[c[i]] == ns[n].(left := s);
        assert c'[Pred(c', j)] == s;
        assert c'[Succ(c', j)] == c[Succ(c, i)];
      } else if i == pm {
        assert r[c[i]] == ns[p].(right := s);
        assert c'[Succ(c', j)] == s;
        assert c'[Pred(c', j)] == c[Pred(c, i)];
      } else {
        assert r[c[i]] == ns[c[i]];
        assert c'[Succ(c', j)] == c[Succ(c, i)];
        assert c'[Pred(c', j)] == c[Pred(c, i)];
      }
    }
  }

  /** A member of a ring of two or more leaving gives the ring without it,
      and the member is lone afterwards; a two-node ring leaves a lone
      survivor. */
  lemma LeaveShrinksRing(ns: seq<Node>, c: seq<nat>, k: nat)
    requires IsRing(ns, c) && |c| >= 2 && k < |c|
    ensures var r := Leave(ns, c[k]);
      IsRing(r, RemoveAt(c, k)) && Lone(r, c[k])
  {
    MembersJoined(ns, c, k);
    LeaveEffect(ns, c[k]);
    LeaveKeepsLinked(ns, c[k]);
    RemovedRing(ns, Leave(ns, c[k]), c, k);
  }

  lemma RemovedRing(ns: seq<Node>, r: seq<Node>, c: seq<nat>, k: nat)
    requires IsRing(ns, c) && |c| >= 2 && k < |c|
    requires Linked(r) && |r| == |ns|
    requires var s := c[k]; var p := ns[s].left; var q := ns[s].right;
      r[s] == ns[s].(left := s, right := s) &&
      (p == q ==> r[p] == ns[p].(left := p, right := p)) &&
      (p != q ==> r[p] == ns[p].(right := q) && r[q] == ns[q].(left := p)) &&
      (forall i | 0 <= i < |ns| && i != s && i != p && i != q :: r[i] == ns[i])
    ensures IsRing(r, RemoveAt(c, k)) && Lone(r, c[k])
  {
    var s := c[k];
    var pk, qk := Pred(c, k), Succ(c, k);
    assert LinkAt(ns, c, k);
    var p, q := c[pk], c[qk];
    var c' := RemoveAt(c, k);
    forall j | 0 <= j < |c'| ensures c'[j] < |r| {
    }
    forall i, j | 0 <= i < j < |c'| ensures c'[i] != c'[j] {
    }
    forall j | 0 <= j < |c'|
      ensures LinkAt(r, c', j)
    {
      var i := if j < k then j else j + 1;
      assert c'[j] == c[i] && LinkAt(ns, c, i);
      if i == pk && i == qk {
        assert r[c[i]] == ns[p].(left := p, right := p);
      } else if i == pk {
        assert r[c[i]] == ns[p].(right := q);
      } else if i == qk {
        assert r[c[i]] == ns[q].(left := p);
      } else {
        assert r[c[i]] == ns[c[i]];
      }
    }
  }
}
