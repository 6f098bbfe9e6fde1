/**
 The invariant of Dijkstra's loop with a heap whose outdated entries are skipped when popped
 (crates/secureops-graph/src/lib.rs, `dijkstra`), and why each step of the loop keeps it.
 */
module Search {
  import opened Walks

  datatype HeapState = HeapState(cost: Cost, node: NodeId)

  /** The distance known so far, infinite for a node not reached. */
  function DistanceOf(dist: map<NodeId, Cost>, node: NodeId): Cost {
    if node in dist then dist[node] else INFINITY
  }

  predicate IsTop(heap: multiset<HeapState>, top: HeapState) {
    top in heap && forall h | h in heap :: top.cost <= h.cost
  }

  /** Every nonempty heap has a cheapest entry. */
  lemma {:induction false} TopExists(heap: multiset<HeapState>)
    requires heap != multiset{}
    ensures exists top :: IsTop(heap, top)
    decreases |heap|
  {
    var h :| h in heap;
    var rest := heap - multiset{h};
    if rest == multiset{} {
      assert forall k | k in heap :: k == h || k in rest;
      assert IsTop(heap, h);
    } else {
      TopExists(rest);
      var t :| IsTop(rest, t);
      assert forall k | k in heap :: k == h || k in rest;
      assert IsTop(heap, if h.cost <= t.cost then h else t);
    }
  }

  /**
   Expanded nodes are final: everything still queued is at least as far away, and what is queued
   for an expanded node is outdated. Every node that still awaits expansion is queued at its
   current distance.
   */
  ghost predicate Queued(dist: map<NodeId, Cost>, heap: multiset<HeapState>, expanded: set<NodeId>) {
    && (forall h | h in heap :: heap[h] == 1 && h.node in dist && dist[h.node] <= h.cost)
    && (forall h | h in heap && h.node in expanded :: dist[h.node] < h.cost)
    && (forall v | v in dist && v !in expanded :: HeapState(dist[v], v) in heap)
    && (forall u, h | u in expanded && u in dist && h in heap :: dist[u] <= h.cost)
  }

  ghost predicate Invariant(adj: Adjacency, add: Adder, src: NodeId, dist: map<NodeId, Cost>,
                            prev: map<NodeId, NodeId>, heap: multiset<HeapState>, rank: map<NodeId, nat>, clock: nat)
  {
    && TreeOf(adj, add, src, dist, prev, rank.Keys)
    && Queued(dist, heap, rank.Keys)
    && Ordered(src, prev, rank)
    && (forall v | v in rank :: rank[v] < clock)
  }

  /** The invariant between two pops: expanded nodes have been relaxed completely. */
  ghost predicate Searching(adj: Adjacency, add: Adder, src: NodeId, dist: map<NodeId, Cost>,
                            prev: map<NodeId, NodeId>, heap: multiset<HeapState>, rank: map<NodeId, nat>, clock: nat)
  {
    && Invariant(adj, add, src, dist, prev, heap, rank, clock)
    && (forall u | u in rank :: Relaxed(add, dist, dist[u], Out(adj, u)))
  }

  /** The invariant between two edges of `node`, the node being expanded: `es` are relaxed so far. */
  ghost predicate Expanding(adj: Adjacency, add: Adder, src: NodeId, dist: map<NodeId, Cost>,
                            prev: map<NodeId, NodeId>, heap: multiset<HeapState>, rank: map<NodeId, nat>, clock: nat,
                            node: NodeId, es: seq<EdgeRef>)
  {
    && Invariant(adj, add, src, dist, prev, heap, rank, clock)
    && node in rank
    && (forall u | u in rank :: dist[u] <= dist[node])
    && (forall h | h in heap :: dist[node] <= h.cost)
    && (forall u | u in rank && u != node :: Relaxed(add, dist, dist[u], Out(adj, u)))
    && Relaxed(add, dist, dist[node], es)
  }

  lemma Domains(adj: Adjacency, add: Adder, src: NodeId, dist: map<NodeId, Cost>, prev: map<NodeId, NodeId>,
                heap: multiset<HeapState>, rank: map<NodeId, nat>, clock: nat)
    requires Invariant(adj, add, src, dist, prev, heap, rank, clock)
    ensures rank.Keys <= dist.Keys
  {
  }

  lemma TopIsReached(dist: map<NodeId, Cost>, heap: multiset<HeapState>, expanded: set<NodeId>, top: HeapState)
    requires Queued(dist, heap, expanded) && IsTop(heap, top)
    ensures top.node in dist
  {
  }

  lemma SearchStarts(adj: Adjacency, add: Adder, src: NodeId)
    ensures Searching(adj, add, src, map[src := 0], map[], multiset{HeapState(0, src)}, map[], 0)
  {
  }

  /** Once nothing is queued, the search has built a tree of shortest walks. */
  lemma SearchEnds(adj: Adjacency, add: Adder, src: NodeId, dist: map<NodeId, Cost>, prev: map<NodeId, NodeId>,
                   rank: map<NodeId, nat>, clock: nat)
    requires Searching(adj, add, src, dist, prev, multiset{}, rank, clock)
    ensures ShortestTree(adj, add, src, dist, prev, rank)
  {
  }

  /** Popping an entry above its node's distance changes nothing: it was outdated. */
  lemma SkipKeeps(adj: Adjacency, add: Adder, src: NodeId, dist: map<NodeId, Cost>, prev: map<NodeId, NodeId>,
                  heap: multiset<HeapState>, rank: map<NodeId, nat>, clock: nat, top: HeapState)
    requires Searching(adj, add, src, dist, prev, heap, rank, clock) && IsTop(heap, top)
    requires DistanceOf(dist, top.node) < top.cost
    ensures Searching(adj, add, src, dist, prev, heap - multiset{top}, rank, clock)
  {
  }

  /** Popping an entry at its node's distance happens to a node never expanded before. */
  lemma ExpandKeeps(adj: Adjacency, add: Adder, src: NodeId, dist: map<NodeId, Cost>, prev: map<NodeId, NodeId>,
                    heap: multiset<HeapState>, rank: map<NodeId, nat>, clock: nat, top: HeapState)
    requires Searching(adj, add, src, dist, prev, heap, rank, clock) && IsTop(heap, top)
    requires top.cost <= DistanceOf(dist, top.node)
    ensures top.node !in rank && top.node in dist && top.cost == dist[top.node]
    ensures Expanding(adj, add, src, dist, prev, heap - multiset{top}, rank[top.node := clock], clock + 1, top.node, [])
  {
    hide TreeOf, Queued, Ordered, IsTop, Relaxed;
    Domains(adj, add, src, dist, prev, heap, rank, clock);
    TopIsReached(dist, heap, rank.Keys, top);
    NothingRelaxed(add, dist, dist[top.node]);
    ExpandKeepsQueue(dist, heap, rank.Keys, top);
    assert rank[top.node := clock].Keys == rank.Keys + {top.node};
    ExpandKeepsTree(adj, add, src, dist, prev, rank.Keys, top.node);
    ExpandKeepsOrder(src, prev, rank, clock, top.node);
  }

  /** Once all edges of the node are relaxed, the next entry can be popped. */
  lemma ExpandEnds(adj: Adjacency, add: Adder, src: NodeId, dist: map<NodeId, Cost>, prev: map<NodeId, NodeId>,
                   heap: multiset<HeapState>, rank: map<NodeId, nat>, clock: nat, node: NodeId)
    requires Expanding(adj, add, src, dist, prev, heap, rank, clock, node, Out(adj, node))
    ensures Searching(adj, add, src, dist, prev, heap, rank, clock)
  {
  }

  /** An edge that offers nothing shorter changes nothing. */
  lemma PassKeeps(adj: Adjacency, add: Adder, src: NodeId, dist: map<NodeId, Cost>, prev: map<NodeId, NodeId>,
                  heap: multiset<HeapState>, rank: map<NodeId, nat>, clock: nat,
                  node: NodeId, es: seq<EdgeRef>, e: EdgeRef)
    requires Expanding(adj, add, src, dist, prev, heap, rank, clock, node, es)
    requires node in dist && DistanceOf(dist, e.to) <= add(dist[node], e.difficulty)
    ensures Expanding(adj, add, src, dist, prev, heap, rank, clock, node, es + [e])
  {
  }

  lemma NothingRelaxed(add: Adder, dist: map<NodeId, Cost>, cost: Cost)
    ensures Relaxed(add, dist, cost, [])
  {
  }

  lemma ExpandKeepsTree(adj: Adjacency, add: Adder, src: NodeId, dist: map<NodeId, Cost>, prev: map<NodeId, NodeId>,
                        expanded: set<NodeId>, node: NodeId)
    requires TreeOf(adj, add, src, dist, prev, expanded) && node in dist
    ensures TreeOf(adj, add, src, dist, prev, expanded + {node})
    ensures node == src || (node in prev && prev[node] in expanded)
  {
  }

  lemma ExpandKeepsOrder(src: NodeId, prev: map<NodeId, NodeId>, rank: map<NodeId, nat>, clock: nat, node: NodeId)
    requires Ordered(src, prev, rank) && node !in rank
    requires forall v | v in rank :: rank[v] < clock
    requires node == src || (node in prev && prev[node] in rank)
    ensures Ordered(src, prev, rank[node := clock])
  {
  }

  lemma ExpandKeepsQueue(dist: map<NodeId, Cost>, heap: multiset<HeapState>, expanded: set<NodeId>, top: HeapState)
    requires Queued(dist, heap, expanded) && expanded <= dist.Keys && IsTop(heap, top)
    requires top.cost <= dist[top.node]
    ensures top.node !in expanded && top.cost == dist[top.node]
    ensures Queued(dist, heap - multiset{top}, expanded + {top.node})
    ensures forall u | u in expanded :: dist[u] <= dist[top.node]
    ensures forall h | h in heap - multiset{top} :: dist[top.node] <= h.cost
  {
  }

  /** Relaxing one more edge of the node being expanded. */
  lemma RelaxKeeps(adj: Adjacency, add: Adder, src: NodeId, dist: map<NodeId, Cost>, prev: map<NodeId, NodeId>,
                   heap: multiset<HeapState>, rank: map<NodeId, nat>, clock: nat,
                   node: NodeId, es: seq<EdgeRef>, e: EdgeRef, next: Cost)
    requires Lawful(add) && Expanding(adj, add, src, dist, prev, heap, rank, clock, node, es)
    requires e in Out(adj, node) && node in dist
    requires next == add(dist[node], e.difficulty) < DistanceOf(dist, e.to)
    ensures e.to !in rank && e.to != node
    ensures Expanding(adj, add, src, dist[e.to := next], prev[e.to := node],
                      heap + multiset{HeapState(next, e.to)}, rank, clock, node, es + [e])
  {
    hide TreeOf, Queued, Ordered, Relaxed;
    Domains(adj, add, src, dist, prev, heap, rank, clock);
    OnlyFarNodesImprove(adj, add, src, dist, prev, rank, node, e.to, next);
    RelaxKeepsTree(adj, add, src, dist, prev, rank.Keys, node, e);
    RelaxKeepsQueue(dist, heap, rank.Keys, e.to, next);
    RelaxKeepsOrder(src, prev, rank, e.to, node);
    RelaxKeepsRelaxed(adj, add, dist, rank.Keys, node, es, e);
    assert forall h :: h in heap + multiset{HeapState(next, e.to)} <==> h in heap || h == HeapState(next, e.to);
  }

  /** A node that was expanded can not be improved upon, and neither can the source. */
  lemma OnlyFarNodesImprove(adj: Adjacency, add: Adder, src: NodeId, dist: map<NodeId, Cost>,
                            prev: map<NodeId, NodeId>, rank: map<NodeId, nat>, node: NodeId, to: NodeId, next: Cost)
    requires TreeOf(adj, add, src, dist, prev, rank.Keys) && node in rank
    requires forall u | u in rank :: dist[u] <= dist[node]
    requires dist[node] <= next && (to in dist ==> next < dist[to])
    ensures to !in rank && to != src
  {
  }

  lemma RelaxKeepsOrder(src: NodeId, prev: map<NodeId, NodeId>, rank: map<NodeId, nat>, to: NodeId, node: NodeId)
    requires Ordered(src, prev, rank) && to !in rank
    ensures Ordered(src, prev[to := node], rank)
  {
  }

  lemma RelaxKeepsRelaxed(adj: Adjacency, add: Adder, dist: map<NodeId, Cost>, expanded: set<NodeId>,
                          node: NodeId, es: seq<EdgeRef>, e: EdgeRef)
    requires expanded <= dist.Keys && node in expanded && e.to !in expanded
    requires forall u | u in expanded && u != node :: Relaxed(add, dist, dist[u], Out(adj, u))
    requires Relaxed(add, dist, dist[node], es)
    requires e.to in dist ==> add(dist[node], e.difficulty) < dist[e.to]
    ensures var dist' := dist[e.to := add(dist[node], e.difficulty)];
            && (forall u | u in expanded && u != node :: Relaxed(add, dist', dist'[u], Out(adj, u)))
            && Relaxed(add, dist', dist'[node], es + [e])
  {
  }

  lemma RelaxKeepsTree(adj: Adjacency, add: Adder, src: NodeId, dist: map<NodeId, Cost>, prev: map<NodeId, NodeId>,
                       expanded: set<NodeId>, node: NodeId, e: EdgeRef)
    requires TreeOf(adj, add, src, dist, prev, expanded)
    requires node in expanded && e in Out(adj, node) && e.to !in expanded && e.to != src
    requires add(dist[node], e.difficulty) < INFINITY
    ensures TreeOf(adj, add, src, dist[e.to := add(dist[node], e.difficulty)], prev[e.to := node], expanded)
  {
  }

  lemma RelaxKeepsQueue(dist: map<NodeId, Cost>, heap: multiset<HeapState>, expanded: set<NodeId>,
                        to: NodeId, next: Cost)
    requires Queued(dist, heap, expanded) && expanded <= dist.Keys && to !in expanded
    requires to in dist ==> next < dist[to]
    requires forall u | u in expanded :: dist[u] <= next
    ensures Queued(dist[to := next], heap + multiset{HeapState(next, to)}, expanded)
  {
  }
}
