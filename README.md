# DHT simulation ring: a verified model

This project models the ring of the `node` class in `DHT_sim.py`, a simulation
of a Chord-like distributed hash table. The model covers four things:

- How a node is created.
- How `join_network` walks the ring and splices a lone node in.
- How `leave_network` cuts a node out.
- How `store_val` tests ownership of a key and forwards the request until an
  owner appends `(key, name)` to its memory.

Each node has these parts:

- a name and an id;
- a neighbours list `[left, right]`;
- a `first` flag, which marks the node that owns the wrap-around segment of
  the identifier space;
- a memory of `(key, name)` entries.

## Layout

- `node.dfy` (module `DhtNode`) is the state and a pure specification of each
  step.
  - The nodes live in an arena (`seq<Node>`), and the neighbours are arena
    indices.
  - Each step function makes the source's assignments in the source's order,
    so it means the same as the source even when two of the nodes involved
    coincide.
  - Lemmas give each step's effect in plain terms on a *linked* arena, one
    where left and right are mutual inverses.
- `ring.dfy` (module `Ring`) describes a ring by listing its members in
  right-order.
  - `Ordered(ns, c)` means three things: `c` lists one ring, its only
    `first` node is `c[0]`, and ids ascend along `c`. This is the shape the
    simulation is meant to keep.
  - The module also shows what splicing and leaving do to the members of a
    ring.
- `membership.dfy` (module `Membership`) covers the single `first` node
  across joins and leaves.
  - It proves that the join walk ends on an ordered ring.
  - It proves that a splice puts the newcomer where its id belongs.
- `routing.dfy` (module `Routing`) covers ownership and the `store_val` walk
  on an ordered ring, including the gap at the `first` node's own id.
- `corrected_join.dfy` (module `CorrectedJoin`) holds the join at the `first`
  node twice: as written, and as evidently intended. See Findings.
- `network.dfy` (module `DhtSim`) holds the class `Network`. It keeps the
  arena as mutable state.
  - Its methods update the arena in place with the source's assignments.
  - The two recursive walks become loops.
  - Each method is proved against the functions of `DhtNode`.

Where the code and the intended design of the system disagree, the model
follows the code:

- The memory is one flat list of `(key, name)` pairs, not buckets indexed by
  `id mod 256`.
- Ownership is not a partition. A key equal to the `first` node's id passes
  the ownership test at no node, so `store_val` forwards it until the
  interpreter's recursion limit raises `RecursionError`
  (`Routing.FirstIdUnowned`, `Routing.StoreNeverEndsAtFirstId`). The
  intended design has ownership ranges with no gaps and a store walk that
  always ends at an owner.
- A newcomer takes over the `first` flag when it reaches the `first` node
  with a smaller id. It does not need to be smaller than any other bound.

## Model

| member | source | states |
|---|---|---|
| DhtNode.NewNodeKeepsLinked | DHT_sim.py:18-38 | The node built by `__init__` is lone: it is its own left and right neighbour. Adding it to a linked arena keeps the arena linked. |
| DhtNode.PairEffect | DHT_sim.py:59-66 | Two distinct lone nodes become both neighbours of each other. `s` keeps `first` only if its id is at most `n`'s, and `n` keeps it only if `s`'s id is larger. Nothing else changes, and the arena stays linked. |
| DhtNode.PairWithItself | DHT_sim.py:59-66 | Joining a lone node via itself leaves its links as they are and clears its `first` flag. |
| DhtNode.Splice | DHT_sim.py:74-77 | A splice changes no name, id, memory or flag, and every link stays inside the arena. |
| DhtNode.SpliceEffect | DHT_sim.py:74-77 | Lone `s` goes in just left of joined `n`, whose old left neighbour is `p`. `s` gets links `[p, n]`, `p.right` becomes `s` and `n.left` becomes `s`. The three nodes are distinct, and no other node changes. |
| DhtNode.SpliceKeepsLinked | DHT_sim.py:74-77 | After a splice, left and right are still mutual inverses at every node. |
| DhtNode.JoinWalk | DHT_sim.py:55-92 | The walk's decision. It reports "already joined" exactly when `s` is not lone. At a non-`first` node it splices only when `left.id <= s.id <= n.id`. At a `first` node it splices only on unequal ids, and takes over the flag exactly when `s.id < n.id`. Equal ids at a `first` node mean no change. |
| DhtNode.JoinGuard | DHT_sim.py:55-57 | A join by a node that is not lone changes no node. |
| DhtNode.JoinKeepsLinked | DHT_sim.py:55-92 | Every join keeps the arena linked. |
| DhtNode.Leave | DHT_sim.py:100-106 | A leave changes no name, id, memory or `first` flag, and every link stays inside the arena. |
| DhtNode.LeaveEffect | DHT_sim.py:100-106 | A lone node changes nothing. Otherwise `p.right` becomes `q`, `q.left` becomes `p` and the leaving node becomes lone, where `p` and `q` are its neighbours. In a two-node ring the survivor is left self-looped. No other node changes. |
| DhtNode.LeaveKeepsLinked | DHT_sim.py:104-106 | After a leave, left and right are still mutual inverses at every node. |
| DhtNode.LeaveUndoesSplice | DHT_sim.py:104-106 | A leave straight after a splice (lines 74-77) restores the arena exactly. |
| DhtNode.StoreWalk | DHT_sim.py:113-125 | The store walk stops at the start node exactly when that node passes the ownership test, and wherever it stops the test holds. |
| DhtNode.Stored | DHT_sim.py:118 | The owner's memory gets `(key, name)` appended at its end. Nothing else changes in the owner, and no other node changes. |
| DhtNode.StoreOnlyAtOwner | DHT_sim.py:113-118 | One `store_val` call appends the entry to the owner's memory only. The start node gains it exactly when it passes the ownership test. No link or flag changes, and every other node is unchanged. |
| Ring.JoinWalkInRing | DHT_sim.py:68-72 | A join walk started at a ring member stops at a ring member. |
| Ring.StoreWalkInRing | DHT_sim.py:121-125 | A store walk started at a ring member stops at a ring member. |
| Ring.SpliceExtendsRing | DHT_sim.py:74-77 | Splicing a lone node left of the member at position `k` gives the ring with that node inserted at position `k`. |
| Ring.LeaveShrinksRing | DHT_sim.py:104-106 | When a member of a ring of two or more leaves, the result is the ring without it, and the member is lone afterwards. |
| Membership.PairMakesOrderedRing | DHT_sim.py:59-66 | Two fresh lone nodes form an ordered two-node ring. The single `first` node is the one with the smaller id, or the joining node on equal ids. |
| Membership.JoinKeepsOneAnchor | DHT_sim.py:74-92 | Take a ring with exactly one `first` node. After a join by a fresh node there is again exactly one `first` node. If the walk took over at the anchor, the newcomer has the flag. In every other splice the old anchor keeps it. A join that does not splice changes nothing. |
| Membership.LeaveAndAnchor | DHT_sim.py:104-106 | When another member leaves, the anchor stays the only `first` node. When the anchor itself leaves, the rest of the ring has no `first` node. |
| Membership.JoinRunRight | DHT_sim.py:69-70 | The join walk steps right over non-`first` members whose ids are below the newcomer's. |
| Membership.JoinRunLeft | DHT_sim.py:71-72 | The join walk steps left while the left neighbour's id is above the newcomer's. |
| Membership.JoinStopsInPlace | DHT_sim.py:68-92 | On an ordered ring, a walk started at a member other than the `first` node splices within `\|c\|-1` steps. It splices in the place the newcomer's id belongs, and takes over the flag exactly when that place is the start of the listing. |
| Membership.JoinWalkHalts | DHT_sim.py:68-92 | On an ordered ring, the join walk ends within `\|c\|-1` steps from any member. |
| Membership.JoinInPlaceKeepsOrder | DHT_sim.py:74-92 | Splicing a newcomer that carries `first` (a fresh node) in the place its id belongs keeps the ring ordered. |
| Membership.JoinViaMemberKeepsOrder | DHT_sim.py:68-92 | A join by a node carrying `first` (a fresh node), via any member other than the `first` node, keeps an ordered ring ordered. |
| Routing.OwnershipPartition | DHT_sim.py:113 | On an ordered ring, every key except the `first` node's id passes the ownership test at exactly one member: the one `OwnerPos` names. |
| Routing.FirstIdUnowned | DHT_sim.py:113 | On an ordered ring, no member passes the ownership test for the `first` node's own id. |
| Routing.StoreRunRight | DHT_sim.py:121-122 | The store walk goes right over non-owners whose ids are below the key. |
| Routing.StoreRunLeft | DHT_sim.py:124-125 | The store walk goes left over non-owners whose ids are at least the key. |
| Routing.StoreReachesOwner | DHT_sim.py:113-125 | On an ordered ring, `store_val` from any member reaches the unique owner within `\|c\|-1` steps, for every key except the `first` node's id. |
| Routing.StoreNeverEndsAtFirstId | DHT_sim.py:113-125 | On an ordered ring, `store_val` for the `first` node's id never stops, whatever the step bound. |
| CorrectedJoin.JoinViaFirstMisplaces | DHT_sim.py:80-86 | On an ordered ring, a join at the `first` node with an id strictly between the minimum and the maximum appends the newcomer after the maximum. The result is a ring with one `first` node that is not sorted. |
| CorrectedJoin.JoinViaFirstCounterexample | DHT_sim.py:80-86 | Concrete case: ids 10 (`first`) and 30, then 20 joins via 10. The result has no ordered listing, and key 25 passes the ownership test at two nodes. |
| CorrectedJoin.JoinWalkFixed | DHT_sim.py:55-92 | The corrected walk. At a `first` node it splices without takeover only when the newcomer's id is above both that node's id and its left neighbour's id. Every other branch is the source's. |
| CorrectedJoin.FixedAgrees | DHT_sim.py:68-72 | On an ordered ring, from any member other than the `first` node, the corrected walk decides exactly as the source's walk. |
| CorrectedJoin.FixedJoinKeepsOrder | DHT_sim.py:80-92 | With the corrected walk, a join by a node carrying `first` (a fresh node) via any member keeps an ordered ring ordered, except that an id equal to the `first` node's changes nothing. |
| CorrectedJoin.FixedJoinOnExample | DHT_sim.py:80-86 | With the corrected walk, the counterexample gives the ordered ring 10, 20, 30. |
| DhtSim.Network.CreateNode | DHT_sim.py:18-38 | Appends a lone node with id `hash(name)`, `first` set and an empty memory. The arena stays linked. |
| DhtSim.Network.JoinPlace | DHT_sim.py:55-92 | The walk written as a loop returns the same decision as `JoinWalk`. |
| DhtSim.Network.JoinNetwork | DHT_sim.py:45-93 | Updates in place and leaves the state `Joined(old, s, JoinWalk(old, …))`. The arena stays linked. |
| DhtSim.Network.LeaveNetwork | DHT_sim.py:95-106 | Returns whether the node was joined, and leaves the state `Leave(old, s)`. The arena stays linked. |
| DhtSim.Network.StoreOwner | DHT_sim.py:113-125 | The store walk written as a loop returns the same owner as `StoreWalk`. |
| DhtSim.Network.StoreVal | DHT_sim.py:108-125 | Appends the entry at the owner the walk finds, or changes nothing when the walk does not stop. The arena stays linked. |

## Left out

- `hash_func` (SHA-256) becomes the `hash` parameter of `Network`'s constructor. Ids are unbounded naturals. The 256-bit width does not matter, because ids are only compared.
- The directory made in `__init__` and the file that `store_val` writes are left out. So is the `value` argument, which only travels into that file. Storing is modelled as the memory append alone.
- The `print` diagnostics appear only as results: `JoinOutcome.AlreadyJoined`, and `LeaveNetwork` returning `false`. `StoreVal` also returns the owner it found (`owner`), where the source's `store_val` returns `None`.
- `fetch_val` is left out. It contains no behaviour: it never reads memory and returns nothing.
- `seed` (file reading, base64, line wrapping, rounding), the demo script at module level and the unused `numpy` import are left out.
- Node objects become arena entries, and object identity becomes the arena index. The arena itself has no counterpart in the source.
- The recursion in `join_network` and `store_val` (one interpreter frame per forwarding) is bounded by a step count (`fuel`). The source instead raises `RecursionError` once the interpreter's recursion limit (1000 frames by default) is reached; `OutOfSteps` and `None` stand for that exception. Neither walk changes anything before it stops, so the unchanged state that `Network.JoinNetwork` and `Network.StoreVal` leave when the bound runs out matches the source's state after the exception. On ordered rings `|c| - 1` steps are enough (`Membership.JoinWalkHalts`, `Routing.StoreReachesOwner`), but on rings of about a thousand members or more the source raises the exception before that. For the `first` node's id the walk never stops (`Routing.StoreNeverEndsAtFirstId`), so the source always ends in that exception.
- Membership.JoinInPlaceKeepsOrder, Membership.JoinViaMemberKeepsOrder, CorrectedJoin.FixedJoinKeepsOrder: require that the joining node carries `first`, for the reason given for `Membership.JoinKeepsOneAnchor` below: a flagless node that takes over at the anchor leaves the ring with no `first` node.
- Membership.JoinKeepsOneAnchor: requires that the joining node carries `first`, as a fresh node does. A node keeps its flag when it leaves, so a re-joining node without the flag that takes over at the anchor leaves the ring with no `first` node. The source never sets `first` back to true.
- Membership.JoinStopsInPlace: covers walks that start at a member other than the `first` node. At the `first` node the source's walk misplaces some ids (see Findings).
- CorrectedJoin.FixedJoinKeepsOrder: needs at least `|c|` steps, one more than the source's walk, for the extra step right from the `first` node.
- `DhtSim.Network` runs the source's walk. The corrected walk is available separately as `CorrectedJoin.JoinNetworkFixed`.

## Findings

| source | as written | input that shows it | evidently intended | confidence | as-written member | corrected member |
|---|---|---|---|---|---|---|
| DHT_sim.py:80-86 | At the `first` node, every newcomer with a larger id is spliced in left of it, that is after the largest id. Ordering holds only if the newcomer's id is at least the maximum. | Ring of ids 10 (`first`) and 30. A fresh node with id 20 joins via the node with id 10. The result is the ring 10, 30, 20, which has no ordered listing, and key 25 is owned by two nodes. | Splice left of the `first` node only when the id is also above its left neighbour's (the maximum). Otherwise forward right. | not executed | CorrectedJoin.JoinViaFirstCounterexample | CorrectedJoin.FixedJoinKeepsOrder |
