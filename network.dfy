/** The simulation's nodes as mutable state: every node object of
    `DHT_sim.py` is an entry of the arena `nodes`, addressed by its index,
    and each method updates the arena in place, one assignment of the
    source at a time. The walks of `join_network` and `store_val`, which
    the source writes as tail calls on a neighbour, are loops here. Each
    method is proved against the specification functions of `DhtNode`, and
    every method keeps the links consistent. */
module DhtSim {
  import opened DhtNode

  class Network {
    /** The node identifier function, `hash_func` of the source. */
    const hash: string -> nat
    var nodes: seq<Node>

    /** Left and right links are mutual inverses at every node. */
    ghost predicate Valid()
      reads this
    {
      Linked(nodes)
    }

    constructor (hash: string -> nat)
      ensures Valid() && this.hash == hash && nodes == []
    {
      this.hash := hash;
      nodes := [];
    }

    /** `node(name)`: a new node with id `hash(name)`, its own neighbour on
        both sides, `first` set and an empty memory. */
    method CreateNode(name: string) returns (i: nat)
      requires Valid()
      modifies this
      ensures Valid() && i == |old(nodes)|
      ensures nodes == old(nodes) + [NewNode(name, hash(name), i)] && Lone(nodes, i)
    {
      i := |nodes|;
      NewNodeKeepsLinked(nodes, name, hash(name));
      nodes := nodes + [Node(name, hash(name), i, i, true, [])];
    }

    /** The walk of `join_network(s, via)`: the decision it reaches, found
        by following the source's recursion as a loop with at most `fuel`
        forwardings. Nothing is changed. */
    method JoinPlace(s: nat, via: nat, fuel: nat) returns (r: JoinOutcome)
      requires Valid() && s < |nodes| && via < |nodes|
      ensures r == JoinWalk(nodes, s, via, fuel)
    {
      var n: nat, f: nat := via, fuel;
      var walking := true;
      r := OutOfSteps;
      while walking
        invariant n < |nodes|
        invariant walking ==> JoinWalk(nodes, s, n, f) == JoinWalk(nodes, s, via, fuel)
        invariant !walking ==> r == JoinWalk(nodes, s, via, fuel)
        decreases walking, f
      {
        if nodes[s].left != s || nodes[s].right != s {
          r, walking := AlreadyJoined, false;
        } else if nodes[n].left == n && nodes[n].right == n {
          r, walking := Paired(n), false;
        } else if !nodes[n].first {
          if nodes[s].id > nodes[n].id {
            if f == 0 {
              r, walking := OutOfSteps, false;
            } else {
              n, f := nodes[n].right, f - 1;
            }
          } else if nodes[s].id < nodes[nodes[n].left].id {
            if f == 0 {
              r, walking := OutOfSteps, false;
            } else {
              n, f := nodes[n].left, f - 1;
            }
          } else {
            r, walking := SplicedBefore(n, false), false;
          }
        } else if nodes[s].id > nodes[n].id {
          r, walking := SplicedBefore(n, false), false;
        } else if nodes[s].id < nodes[n].id {
          r, walking := SplicedBefore(n, true), false;
        } else {
          r, walking := SameIdAsFirst(n), false;
        }
      }
    }

    /** `join_network(s, via)`: walks to the decision, then carries it out
        with the source's assignments. */
    method JoinNetwork(s: nat, via: nat, fuel: nat) returns (r: JoinOutcome)
      requires Valid() && s < |nodes| && via < |nodes|
      modifies this
      ensures Valid()
      ensures r == JoinWalk(old(nodes), s, via, fuel)
      ensures nodes == Joined(old(nodes), s, r)
    {
      r := JoinPlace(s, via, fuel);
      JoinKeepsLinked(nodes, s, via, fuel);
      match r {
        case Paired(n) =>
          nodes := nodes[s := nodes[s].(left := n, right := n)];
          nodes := nodes[n := nodes[n].(left := s, right := s)];
          if nodes[s].id > nodes[n].id {
            nodes := nodes[s := nodes[s].(first := false)];
          } else {
            nodes := nodes[n := nodes[n].(first := false)];
          }
        case SplicedBefore(n, takeOver) =>
          nodes := nodes[s := nodes[s].(left := nodes[n].left)];
          nodes := nodes[s := nodes[s].(right := n)];
          var p := nodes[n].left;
          nodes := nodes[p := nodes[p].(right := s)];
          nodes := nodes[n := nodes[n].(left := s)];
          if takeOver {
            nodes := nodes[n := nodes[n].(first := false)];
          } else {
            nodes := nodes[s := nodes[s].(first := false)];
          }
        case _ =>
      }
    }

    /** `leave_network()` of node `s`: reports whether `s` was in a ring
        and, if it was, cuts it out of it. */
    method LeaveNetwork(s: nat) returns (wasJoined: bool)
      requires Valid() && s < |nodes|
      modifies this
      ensures Valid()
      ensures wasJoined == !Lone(old(nodes), s)
      ensures nodes == Leave(old(nodes), s)
    {
      LeaveKeepsLinked(nodes, s);
      if nodes[s].left == s && nodes[s].right == s {
        return false;
      }
      var p := nodes[s].left;
      nodes := nodes[p := nodes[p].(right := nodes[s].right)];
      var q := nodes[s].right;
      nodes := nodes[q := nodes[q].(left := nodes[s].left)];
      nodes := nodes[s := nodes[s].(left := s, right := s)];
      wasJoined := true;
    }

    /** The walk of `store_val(key, …)` from node `start`: the node that
        passes the ownership test, found within `fuel` forwardings, or
        `None`. Nothing is changed. */
    method StoreOwner(start: nat, key: int, fuel: nat) returns (owner: Option<nat>)
      requires Valid() && start < |nodes|
      ensures owner == StoreWalk(nodes, start, key, fuel)
    {
      var i: nat, f: nat := start, fuel;
      while !Owns(nodes, i, key) && f > 0
        invariant i < |nodes|
        invariant StoreWalk(nodes, i, key, f) == StoreWalk(nodes, start, key, fuel)
        decreases f
      {
        if key > nodes[i].id {
          i := nodes[i].right;
        } else {
          i := nodes[i].left;
        }
        f := f - 1;
      }
      owner := if Owns(nodes, i, key) then Some(i) else None;
    }

    /** `store_val(key, value, name)` from node `start`: the owner found by
        the walk appends `(key, name)` to its memory; no link and no flag
        changes. */
    method StoreVal(start: nat, key: int, name: string, fuel: nat) returns (owner: Option<nat>)
      requires Valid() && start < |nodes|
      modifies this
      ensures Valid()
      ensures owner == StoreWalk(old(nodes), start, key, fuel)
      ensures owner.Some? ==> nodes == Stored(old(nodes), owner.value, Entry(key, name))
      ensures owner.None? ==> nodes == old(nodes)
    {
      owner := StoreOwner(start, key, fuel);
      if owner.Some? {
        var i := owner.value;
        SameLinksKeepLinked(nodes, Stored(nodes, i, Entry(key, name)));
        nodes := nodes[i := nodes[i].(memory := nodes[i].memory + [Entry(key, name)])];
      }
    }
  }
}
