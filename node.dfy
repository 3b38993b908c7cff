/** The state of the ring's nodes and a pure specification of each step that
    the node class of `DHT_sim.py` takes on that state: creating a node,
    joining two lone nodes, splicing a node into a ring, walking the ring to
    the place a newcomer belongs, leaving, testing ownership of a key and
    walking to the owner.

    The nodes live in an arena: a sequence indexed by `nat`. A node's
    neighbours list `[left, right]` becomes two arena indices, so the cyclic
    doubly-linked structure needs no cyclic references. Each step function
    below performs the assignments of the source in the source's order, so
    that it means the same thing as the source even where two of the nodes
    involved are the same node; the lemmas then give each step's effect in
    plain terms for arenas whose links are consistent. */
module DhtNode {

  datatype Option<T> = None | Some(value: T)

  /** One `(key, name)` pair of a node's memory. */
  datatype Entry = Entry(key: int, name: string)

  /** One node: `left` and `right` are the arena indices held in its
      neighbours list, `first` marks the node that owns the wrap-around
      segment of the identifier space. */
  datatype Node = Node(name: string, id: nat, left: nat, right: nat, first: bool, memory: seq<Entry>)

  /** Every neighbour index points into the arena. */
  predicate Closed(ns: seq<Node>)
  {
    forall i | 0 <= i < |ns| :: ns[i].left < |ns| && ns[i].right < |ns|
  }

  /** Left and right are mutual inverses at every node of the arena:
      `right(left(x)) == x` and `left(right(x)) == x`. */
  predicate Linked(ns: seq<Node>)
  {
    Closed(ns) && forall i | 0 <= i < |ns| :: InverseAt(ns, i)
  }

  /** Node `i`'s left neighbour has `i` as its right neighbour, and the
      other way round. */
  predicate InverseAt(ns: seq<Node>, i: nat)
    requires Closed(ns) && i < |ns|
  {
    ns[ns[i].left].right == i && ns[ns[i].right].left == i
  }

  /** The node's neighbours are `[self, self]`: it is in no ring. */
  predicate Lone(ns: seq<Node>, i: nat)
    requires i < |ns|
  {
    ns[i].left == i && ns[i].right == i
  }

  /** Two arenas whose nodes have the same names, ids and memories. */
  predicate SameData(a: seq<Node>, b: seq<Node>)
  {
    |a| == |b| &&
    forall i | 0 <= i < |a| :: a[i].name == b[i].name && a[i].id == b[i].id && a[i].memory == b[i].memory
  }

  /** Two arenas whose nodes have the same `first` flags. */
  predicate SameFlags(a: seq<Node>, b: seq<Node>)
  {
    |a| == |b| && forall i | 0 <= i < |a| :: a[i].first == b[i].first
  }

  /** Two arenas whose nodes have the same neighbours. */
  predicate SameLinks(a: seq<Node>, b: seq<Node>)
  {
    |a| == |b| && forall i | 0 <= i < |a| :: a[i].left == b[i].left && a[i].right == b[i].right
  }

  lemma SameLinksKeepLinked(a: seq<Node>, b: seq<Node>)
    requires SameLinks(a, b) && Linked(a)
    ensures Linked(b)
  {
    forall i | 0 <= i < |b| ensures InverseAt(b, i) {
      assert InverseAt(a, i);
    }
  }

  /** The node `__init__` builds at arena index `i`: neighbours `[self, self]`,
      `first` set, memory empty. */
  function NewNode(name: string, id: nat, i: nat): Node
  {
    Node(name, id, i, i, true, [])
  }

  lemma NewNodeKeepsLinked(ns: seq<Node>, name: string, id: nat)
    requires Linked(ns)
    ensures Linked(ns + [NewNode(name, id, |ns|)])
    ensures Lone(ns + [NewNode(name, id, |ns|)], |ns|)
  {
    var r := ns + [NewNode(name, id, |ns|)];
    forall i | 0 <= i < |r|
      ensures r[i].left < |r| && r[i].right < |r|
      ensures InverseAt(r, i)
    {
      if i < |ns| {
        assert r[i] == ns[i] && InverseAt(ns, i);
        assert r[ns[i].left] == ns[ns[i].left] && r[ns[i].right] == ns[ns[i].right];
      }
    }
  }

  /** Clears the `first` flag of node `i`. */
  function ClearFirst(ns: seq<Node>, i: nat): (r: seq<Node>)
    requires i < |ns|
    ensures SameLinks(ns, r) && SameData(ns, r)
    ensures !r[i].first && forall j | 0 <= j < |ns| && j != i :: r[j].first == ns[j].first
  {
    ns[i := ns[i].(first := false)]
  }

  // ---------------------------------------------------------------------
  // Joining

  /** Joining two lone nodes (the branch where `node.neighbours ==
      [node, node]`): each becomes both neighbours of the other, and the
      joining node `s` gives up `first` when its id is larger, otherwise `n`
      does. */
  function Pair(ns: seq<Node>, s: nat, n: nat): (r: seq<Node>)
    requires s < |ns| && n < |ns|
    ensures SameData(ns, r)
  {
    var ns1 := ns[s := ns[s].(left := n, right := n)];
    var ns2 := ns1[n := ns1[n].(left := s, right := s)];
    if ns2[s].id > ns2[n].id then ns2[s := ns2[s].(first := false)]
    else ns2[n := ns2[n].(first := false)]
  }

  /** Two distinct lone nodes become a two-node ring; exactly one of them
      keeps `first` when both had it: the one with the smaller id, and the
      joining node `s` on equal ids. Nothing else changes. */
  lemma PairEffect(ns: seq<Node>, s: nat, n: nat)
    requires Linked(ns) && s < |ns| && n < |ns| && s != n
    requires Lone(ns, s) && Lone(ns, n)
    ensures var r := Pair(ns, s, n);
      |r| == |ns| && Linked(r) &&
      r[s] == ns[s].(left := n, right := n, first := ns[s].first && ns[s].id <= ns[n].id) &&
      r[n] == ns[n].(left := s, right := s, first := ns[n].first && ns[s].id > ns[n].id) &&
      (forall i | 0 <= i < |ns| && i != s && i != n :: r[i] == ns[i])
  {
    var r := Pair(ns, s, n);
    forall i | 0 <= i < |r|
      ensures r[i].left < |r| && r[i].right < |r|
      ensures InverseAt(r, i)
    {
      if i != s && i != n {
        assert r[i] == ns[i] && InverseAt(ns, i);
        assert ns[i].left != s && ns[i].left != n;
        assert ns[i].right != s && ns[i].right != n;
      }
    }
  }

  /** Joining a lone node to itself passes both tests of the pairing branch
      and only clears the node's `first` flag. */
  lemma PairWithItself(ns: seq<Node>, s: nat)
    requires s < |ns| && Lone(ns, s)
    ensures Pair(ns, s, s) == ClearFirst(ns, s)
  {
  }

  /** Splicing `s` in to the left of `n` (the four assignments shared by all
      three splicing branches of `join_network`), in the source's order; the
      third assignment reads `n`'s left neighbour again. */
  function Splice(ns: seq<Node>, s: nat, n: nat): (r: seq<Node>)
    requires Closed(ns) && s < |ns| && n < |ns|
    ensures |r| == |ns| && Closed(r)
    ensures SameData(ns, r) && SameFlags(ns, r)
  {
    var ns1 := ns[s := ns[s].(left := ns[n].left)];
    var ns2 := ns1[s := ns1[s].(right := n)];
    var p := ns2[n].left;
    var ns3 := ns2[p := ns2[p].(right := s)];
    ns3[n := ns3[n].(left := s)]
  }

  /** On a linked arena, splicing lone `s` in left of a joined node `n` with
      old left neighbour `p` sets `s`'s links to `[p, n]`, `p.right` to `s`
      and `n.left` to `s`, and changes nothing else; `s`, `p` and `n` are
      three distinct nodes. */
  lemma SpliceEffect(ns: seq<Node>, s: nat, n: nat)
    requires Linked(ns) && s < |ns| && n < |ns|
    requires Lone(ns, s) && !Lone(ns, n)
    ensures var p := ns[n].left; var r := Splice(ns, s, n);
      |r| == |ns| && s != n && s != p && p != n &&
      r[s] == ns[s].(left := p, right := n) &&
      r[p] == ns[p].(right := s) &&
      r[n] == ns[n].(left := s) &&
      (forall i | 0 <= i < |ns| && i != s && i != p && i != n :: r[i] == ns[i])
  {
    assert InverseAt(ns, n) && InverseAt(ns, s);
  }

  /** Splicing keeps left and right mutual inverses everywhere. */
  lemma SpliceKeepsLinked(ns: seq<Node>, s: nat, n: nat)
    requires Linked(ns) && s < |ns| && n < |ns|
    requires Lone(ns, s) && !Lone(ns, n)
    ensures Linked(Splice(ns, s, n))
  {
    SpliceEffect(ns, s, n);
    InsertedLinked(ns, Splice(ns, s, n), s, ns[n].left, n);
  }

  /** Any arena that differs from a linked one only by `s` placed between
      `p` and its right neighbour `n` is linked. */
  lemma InsertedLinked(ns: seq<Node>, r: seq<Node>, s: nat, p: nat, n: nat)
    requires Linked(ns) && s < |ns| && n < |ns| && Lone(ns, s)
    requires p == ns[n].left && s != n && s != p && p != n
    requires |r| == |ns|
    requires r[s] == ns[s].(left := p, right := n)
    requires r[p] == ns[p].(right := s)
    requires r[n] == ns[n].(left := s)
    requires forall i | 0 <= i < |ns| && i != s && i != p && i != n :: r[i] == ns[i]
    ensures Linked(r)
  {
    forall i | 0 <= i < |r|
      ensures r[i].left < |r| && r[i].right < |r|
      ensures InverseAt(r, i)
    {
      assert InverseAt(ns, p) && InverseAt(ns, n) && InverseAt(ns, s);
      if i != s && i != p && i != n {
        var l, o := ns[i].left, ns[i].right;
        assert InverseAt(ns, i);
        assert ns[l].right == i && ns[o].left == i;
        assert l != s && l != p;
        assert o != s && o != n;
      }
    }
  }

  /** What one call of `join_network` decided, after any forwarding. */
  datatype JoinOutcome =
    | AlreadyJoined                         // the joining node is not lone
    | Paired(with: nat)                     // both nodes lone: a two-node ring
    | SplicedBefore(at: nat, takeOver: bool) // spliced left of `at`; `takeOver`: `at` gives up `first`
    | SameIdAsFirst(at: nat)                // reached a `first` node with the same id: nothing happens
    | OutOfSteps                            // the forwarding did not stop within the step bound

  /** The node indices an outcome names lie in the arena. */
  predicate Fits(ns: seq<Node>, r: JoinOutcome)
  {
    match r
    case Paired(n) => n < |ns|
    case SplicedBefore(n, _) => n < |ns|
    case SameIdAsFirst(n) => n < |ns|
    case _ => true
  }

  /** The walk of `join_network` for joining node `s`, currently at `n`,
      forwarding at most `fuel` more times. The walk reads the arena and
      changes nothing; all changes happen where it stops. Every recursive
      call of the source tests all branches again, and so does this
      function. */
  function JoinWalk(ns: seq<Node>, s: nat, n: nat, fuel: nat): (r: JoinOutcome)
    requires Closed(ns) && s < |ns| && n < |ns|
    ensures Fits(ns, r)
    ensures r.AlreadyJoined? <==> !Lone(ns, s)
    ensures r.Paired? ==> Lone(ns, s) && Lone(ns, r.with)
    ensures r.SplicedBefore? ==>
      Lone(ns, s) && !Lone(ns, r.at) &&
      if ns[r.at].first then
        ns[s].id != ns[r.at].id && (r.takeOver <==> ns[s].id < ns[r.at].id)
      else
        !r.takeOver && ns[ns[r.at].left].id <= ns[s].id <= ns[r.at].id
    ensures r.SameIdAsFirst? ==>
      Lone(ns, s) && !Lone(ns, r.at) && ns[r.at].first && ns[s].id == ns[r.at].id
    decreases fuel
  {
    if ns[s].left != s || ns[s].right != s then AlreadyJoined
    else if ns[n].left == n && ns[n].right == n then Paired(n)
    else if !ns[n].first then
      if ns[s].id > ns[n].id then
        if fuel == 0 then OutOfSteps else JoinWalk(ns, s, ns[n].right, fuel - 1)
      else if ns[s].id < ns[ns[n].left].id then
        if fuel == 0 then OutOfSteps else JoinWalk(ns, s, ns[n].left, fuel - 1)
      else SplicedBefore(n, false)
    else if ns[s].id > ns[n].id then SplicedBefore(n, false)
    else if ns[s].id < ns[n].id then SplicedBefore(n, true)
    else SameIdAsFirst(n)
  }

  /** The state after the walk's decision `r` has been carried out. */
  function Joined(ns: seq<Node>, s: nat, r: JoinOutcome): seq<Node>
    requires Closed(ns) && s < |ns| && Fits(ns, r)
  {
    match r
    case Paired(n) => Pair(ns, s, n)
    case SplicedBefore(n, takeOver) =>
      if takeOver then ClearFirst(Splice(ns, s, n), n) else ClearFirst(Splice(ns, s, n), s)
    case _ => ns
  }

  /** The whole of `join_network(s, via)` with at most `fuel` forwardings. */
  function JoinNetwork(ns: seq<Node>, s: nat, via: nat, fuel: nat): seq<Node>
    requires Closed(ns) && s < |ns| && via < |ns|
  {
    Joined(ns, s, JoinWalk(ns, s, via, fuel))
  }

  /** A join on a node that is already in a ring changes no node. */
  lemma JoinGuard(ns: seq<Node>, s: nat, via: nat, fuel: nat)
    requires Closed(ns) && s < |ns| && via < |ns| && !Lone(ns, s)
    ensures JoinWalk(ns, s, via, fuel) == AlreadyJoined
    ensures JoinNetwork(ns, s, via, fuel) == ns
  {
  }

  /** Every join keeps left and right mutual inverses everywhere. */
  lemma JoinKeepsLinked(ns: seq<Node>, s: nat, via: nat, fuel: nat)
    requires Linked(ns) && s < |ns| && via < |ns|
    ensures Linked(JoinNetwork(ns, s, via, fuel))
  {
    var r := JoinWalk(ns, s, via, fuel);
    match r
    case Paired(n) =>
      if n == s { PairWithItself(ns, s); SameLinksKeepLinked(ns, ClearFirst(ns, s)); }
      else { PairEffect(ns, s, n); }
    case SplicedBefore(n, takeOver) =>
      SpliceKeepsLinked(ns, s, n);
      var sp := Splice(ns, s, n);
      SameLinksKeepLinked(sp, ClearFirst(sp, if takeOver then n else s));
    case _ =>
  }

  // ---------------------------------------------------------------------
  // Leaving

  /** `leave_network`: a lone node changes nothing; otherwise the left
      neighbour's right link skips `s`, then the right neighbour's left link
      does, then `s` is reset to `[self, self]`. */
  function Leave(ns: seq<Node>, s: nat): (r: seq<Node>)
    requires Closed(ns) && s < |ns|
    ensures |r| == |ns| && Closed(r)
    ensures SameData(ns, r) && SameFlags(ns, r)
  {
    if Lone(ns, s) then ns
    else
      var ns1 := ns[ns[s].left := ns[ns[s].left].(right := ns[s].right)];
      var ns2 := ns1[ns1[s].right := ns1[ns1[s].right].(left := ns1[s].left)];
      ns2[s := ns2[s].(left := s, right := s)]
  }

  /** On a linked arena, a joined node `s` with neighbours `p` and `q`
      leaves: `p.right` becomes `q`, `q.left` becomes `p` (in a two-node ring
      `p == q` and the survivor is lone), `s` becomes lone, and nothing else
      changes; in particular no `first` flag and no memory. A lone node
      leaves everything unchanged. */
  lemma LeaveEffect(ns: seq<Node>, s: nat)
    requires Linked(ns) && s < |ns|
    ensures Lone(ns, s) ==> Leave(ns, s) == ns
    ensures !Lone(ns, s) ==>
      var p := ns[s].left; var q := ns[s].right; var r := Leave(ns, s);
      |r| == |ns| && p != s && q != s &&
      r[s] == ns[s].(left := s, right := s) &&
      (p == q ==> r[p] == ns[p].(left := p, right := p)) &&
      (p != q ==> r[p] == ns[p].(right := q) && r[q] == ns[q].(left := p)) &&
      (forall i | 0 <= i < |ns| && i != s && i != p && i != q :: r[i] == ns[i])
  {
    if !Lone(ns, s) {
      var p, q := ns[s].left, ns[s].right;
      assert InverseAt(ns, s) && ns[p].right == s && ns[q].left == s;
      LeaveLocal(ns, s);
    }
  }

  /** The effect of leaving, for a node neither of whose neighbours is
      itself. */
  lemma LeaveLocal(ns: seq<Node>, s: nat)
    requires Closed(ns) && s < |ns| && ns[s].left != s && ns[s].right != s
    ensures var p := ns[s].left; var q := ns[s].right; var r := Leave(ns, s);
      |r| == |ns| &&
      r[s] == ns[s].(left := s, right := s) &&
      (p == q ==> r[p] == ns[p].(left := p, right := p)) &&
      (p != q ==> r[p] == ns[p].(right := q) && r[q] == ns[q].(left := p)) &&
      (forall i | 0 <= i < |ns| && i != s && i != p && i != q :: r[i] == ns[i])
  {
    var p, q := ns[s].left, ns[s].right;
    var ns1 := ns[p := ns[p].(right := q)];
    assert ns1[s] == ns[s];
    var ns2 := ns1[q := ns1[q].(left := p)];
    assert ns2[s] == ns[s];
    assert Leave(ns, s) == ns2[s := ns2[s].(left := s, right := s)];
  }

  lemma LeaveKeepsLinked(ns: seq<Node>, s: nat)
    requires Linked(ns) && s < |ns|
    ensures Linked(Leave(ns, s))
  {
    LeaveEffect(ns, s);
    if !Lone(ns, s) {
      RemovedLinked(ns, Leave(ns, s), s, ns[s].left, ns[s].right);
    }
  }

  /** Any arena that differs from a linked one only by a node `s` between
      `p` and `q` being cut out and made lone is linked. */
  lemma RemovedLinked(ns: seq<Node>, r: seq<Node>, s: nat, p: nat, q: nat)
    requires Linked(ns) && s < |ns|
    requires p == ns[s].left && q == ns[s].right && p != s && q != s
    requires |r| == |ns|
    requires r[s] == ns[s].(left := s, right := s)
    requires p == q ==> r[p] == ns[p].(left := p, right := p)
    requires p != q ==> r[p] == ns[p].(right := q) && r[q] == ns[q].(left := p)
    requires forall i | 0 <= i < |ns| && i != s && i != p && i != q :: r[i] == ns[i]
    ensures Linked(r)
  {
    forall i | 0 <= i < |r|
      ensures r[i].left < |r| && r[i].right < |r|
      ensures InverseAt(r, i)
    {
      assert InverseAt(ns, p) && InverseAt(ns, q) && InverseAt(ns, s);
      if i != s && i != p && i != q {
        var l, o := ns[i].left, ns[i].right;
        assert InverseAt(ns, i);
        assert ns[l].right == i && ns[o].left == i;
        assert l != s && l != p;
        assert o != s && o != q;
      }
    }
  }

  /** Leaving undoes a splice: the arena is back to what it was. */
  lemma LeaveUndoesSplice(ns: seq<Node>, s: nat, n: nat)
    requires Linked(ns) && s < |ns| && n < |ns|
    requires Lone(ns, s) && !Lone(ns, n)
    ensures Leave(Splice(ns, s, n), s) == ns
  {
    SpliceEffect(ns, s, n);
    assert InverseAt(ns, n);
    LeaveAfterInsert(ns, Splice(ns, s, n), s, ns[n].left, n);
  }

  lemma LeaveAfterInsert(ns: seq<Node>, sp: seq<Node>, s: nat, p: nat, n: nat)
    requires Closed(sp) && s < |ns| && n < |ns| && Lone(ns, s)
    requires p < |ns| && ns[p].right == n && ns[n].left == p && s != n && s != p && p != n
    requires |sp| == |ns|
    requires sp[s] == ns[s].(left := p, right := n)
    requires sp[p] == ns[p].(right := s)
    requires sp[n] == ns[n].(left := s)
    requires forall i | 0 <= i < |ns| && i != s && i != p && i != n :: sp[i] == ns[i]
    ensures Leave(sp, s) == ns
  {
    LeaveLocal(sp, s);
    var r := Leave(sp, s);
    assert r[s] == ns[s] && r[p] == ns[p] && r[n] == ns[n];
    assert forall i | 0 <= i < |ns| :: r[i] == ns[i];
  }

  // ---------------------------------------------------------------------
  // Storing

  /** The ownership test of `store_val`: the key lies in `(left.id, id]`, or
      the node is `first` and the key is above its left neighbour's id or
      below its own. */
  predicate Owns(ns: seq<Node>, i: nat, key: int)
    requires Closed(ns) && i < |ns|
  {
    (ns[ns[i].left].id < key <= ns[i].id) ||
    (ns[i].first && (key > ns[ns[i].left].id || key < ns[i].id))
  }

  /** The walk of `store_val` from node `i`: the owner it stops at, or
      `None` when it has not stopped after `fuel` forwardings. It stops at
      `i` exactly when `i` passes the ownership test, and wherever it stops
      the ownership test holds. */
  function StoreWalk(ns: seq<Node>, i: nat, key: int, fuel: nat): (r: Option<nat>)
    requires Closed(ns) && i < |ns|
    ensures r.Some? ==> r.value < |ns| && Owns(ns, r.value, key)
    ensures Owns(ns, i, key) <==> r == Some(i)
    decreases fuel
  {
    if Owns(ns, i, key) then Some(i)
    else if fuel == 0 then None
    else if key > ns[i].id then StoreWalk(ns, ns[i].right, key, fuel - 1)
    else StoreWalk(ns, ns[i].left, key, fuel - 1)
  }

  /** The owner's memory gains `e` at its end. */
  function Stored(ns: seq<Node>, owner: nat, e: Entry): (r: seq<Node>)
    requires owner < |ns|
    ensures SameLinks(ns, r)
    ensures r[owner].memory == ns[owner].memory + [e]
    ensures forall i | 0 <= i < |ns| && i != owner :: r[i] == ns[i]
    ensures r[owner].(memory := ns[owner].memory) == ns[owner]
  {
    ns[owner := ns[owner].(memory := ns[owner].memory + [e])]
  }

  /** A whole `store_val` call from `i` appends `(key, name)` to exactly
      one memory, the owner's, when the walk stops, and to none otherwise;
      in particular node `i` gains the entry exactly when it passes the
      ownership test. No link and no flag changes. */
  lemma StoreOnlyAtOwner(ns: seq<Node>, i: nat, key: int, name: string, fuel: nat)
    requires Closed(ns) && i < |ns|
    ensures var r := StoreWalk(ns, i, key, fuel);
      var ns' := if r.Some? then Stored(ns, r.value, Entry(key, name)) else ns;
      SameLinks(ns, ns') && SameFlags(ns, ns') &&
      (ns'[i].memory == ns[i].memory + [Entry(key, name)] <==> Owns(ns, i, key)) &&
      (forall j | 0 <= j < |ns| && r != Some(j) :: ns'[j] == ns[j])
  {
    var r := StoreWalk(ns, i, key, fuel);
    if r.Some? && r.value != i {
      assert |ns[i].memory + [Entry(key, name)]| != |ns[i].memory|;
    }
  }
}
