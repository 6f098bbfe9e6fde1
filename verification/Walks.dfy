/**
 Exploit difficulties, walks over an adjacency map, and what it means for a tree of
 predecessors to describe shortest walks (crates/secureops-graph/src/lib.rs).
 */
module Walks {

  /** The name of a node. Names are only ever compared for equality. */
  type NodeId(==, !new)

  /** The rank of +infinity among the non-negative `f32` values. */
  const INFINITY: nat := 0x7F80_0000

  /**
   A non-negative `f32`, given by its place in the order of the non-negative floats.
   Comparing costs is comparing ranks; adding them is left to an `Adder`.
   */
  type Cost = c: nat | c <= INFINITY

  /** Addition of two costs, with whatever rounding and overflow the machine has. */
  type Adder = (Cost, Cost) -> Cost

  /**
   What round-to-nearest addition of non-negative floats guarantees: adding never makes a
   cost smaller, and it keeps the order of its first operand. It need not be associative.
   */
  ghost predicate Lawful(add: Adder) {
    && (forall a: Cost, c: Cost :: a <= add(a, c))
    && (forall a: Cost, b: Cost, c: Cost :: a <= b ==> add(a, c) <= add(b, c))
  }

  datatype EdgeKind = CanAssume | HasPermission | ConnectsTo | Exposes | HasVuln | Violates | Owns

  datatype EdgeRef = EdgeRef(to: NodeId, kind: EdgeKind, difficulty: Cost)

  type Adjacency = map<NodeId, seq<EdgeRef>>

  function Out(adj: Adjacency, node: NodeId): seq<EdgeRef> {
    if node in adj then adj[node] else []
  }

  ghost function EndOf(src: NodeId, walk: seq<EdgeRef>): NodeId {
    if walk == [] then src else walk[|walk| - 1].to
  }

  /** `walk` is a chain of real edges starting at `src`. */
  ghost predicate IsWalk(adj: Adjacency, src: NodeId, walk: seq<EdgeRef>) {
    walk == [] ||
    (var init := walk[..|walk| - 1];
     IsWalk(adj, src, init) && walk[|walk| - 1] in Out(adj, EndOf(src, init)))
  }

  /** The difficulty of a walk, summed edge by edge from its start. */
  ghost function WalkCost(add: Adder, walk: seq<EdgeRef>): Cost {
    if walk == [] then 0 else add(WalkCost(add, walk[..|walk| - 1]), walk[|walk| - 1].difficulty)
  }

  ghost function NodesOf(src: NodeId, walk: seq<EdgeRef>): seq<NodeId> {
    if walk == [] then [src] else NodesOf(src, walk[..|walk| - 1]) + [walk[|walk| - 1].to]
  }

  ghost predicate WalkTo(adj: Adjacency, src: NodeId, walk: seq<EdgeRef>, target: NodeId) {
    IsWalk(adj, src, walk) && EndOf(src, walk) == target
  }

  ghost predicate Reaches(adj: Adjacency, src: NodeId, target: NodeId) {
    exists walk :: WalkTo(adj, src, walk, target)
  }

  /** Some walk from `src` to `target` has a sum that does not overflow to infinity. */
  ghost predicate ReachesFinitely(adj: Adjacency, add: Adder, src: NodeId, target: NodeId) {
    exists walk :: WalkTo(adj, src, walk, target) && WalkCost(add, walk) < INFINITY
  }

  /** `cost` is attained by some walk to `target`, and no walk to `target` is cheaper. */
  ghost predicate IsLeastCost(adj: Adjacency, add: Adder, src: NodeId, target: NodeId, cost: Cost) {
    && (exists walk :: WalkTo(adj, src, walk, target) && WalkCost(add, walk) == cost)
    && (forall walk :: WalkTo(adj, src, walk, target) ==> cost <= WalkCost(add, walk))
  }

  /** `nodes` are the nodes along a walk to `target` whose summed difficulty is `cost`. */
  ghost predicate IsRoute(adj: Adjacency, add: Adder, src: NodeId, target: NodeId, nodes: seq<NodeId>, cost: Cost) {
    exists walk :: WalkTo(adj, src, walk, target) && NodesOf(src, walk) == nodes && WalkCost(add, walk) == cost
  }

  lemma {:induction false} RouteEnds(src: NodeId, walk: seq<EdgeRef>)
    ensures NodesOf(src, walk) != []
    ensures NodesOf(src, walk)[0] == src
    ensures NodesOf(src, walk)[|NodesOf(src, walk)| - 1] == EndOf(src, walk)
  {
    if walk == [] {
    } else {
      RouteEnds(src, walk[..|walk| - 1]);
    }
  }

  lemma Extend(adj: Adjacency, src: NodeId, walk: seq<EdgeRef>, e: EdgeRef)
    requires IsWalk(adj, src, walk) && e in Out(adj, EndOf(src, walk))
    ensures IsWalk(adj, src, walk + [e]) && EndOf(src, walk + [e]) == e.to
    ensures forall add: Adder :: WalkCost(add, walk + [e]) == add(WalkCost(add, walk), e.difficulty)
    ensures NodesOf(src, walk + [e]) == NodesOf(src, walk) + [e.to]
  {
  }

  /** A set of nodes holding `src` and closed under edges holds everything reachable. */
  lemma {:induction false} ClosedHoldsWalks(adj: Adjacency, src: NodeId, nodes: set<NodeId>, walk: seq<EdgeRef>)
    requires src in nodes && IsWalk(adj, src, walk)
    requires forall u, e | u in nodes && e in Out(adj, u) :: e.to in nodes
    ensures EndOf(src, walk) in nodes
  {
    if walk == [] {
    } else {
      ClosedHoldsWalks(adj, src, nodes, walk[..|walk| - 1]);
    }
  }

  /** The distance of `v` is its parent's distance plus an edge from the parent to `v`. */
  ghost predicate HangsFrom(adj: Adjacency, add: Adder, dist: map<NodeId, Cost>, u: NodeId, v: NodeId)
    requires u in dist && v in dist
  {
    exists e :: e in Out(adj, u) && e.to == v && add(dist[u], e.difficulty) == dist[v]
  }

  /** Every reached node other than `src` hangs from a parent that was expanded. */
  ghost predicate TreeOf(adj: Adjacency, add: Adder, src: NodeId, dist: map<NodeId, Cost>, prev: map<NodeId, NodeId>,
                         expanded: set<NodeId>)
  {
    && src in dist && dist[src] == 0
    && (forall v | v in dist :: dist[v] < INFINITY)
    && expanded <= dist.Keys
    && prev.Keys == dist.Keys - {src}
    && forall v {:trigger prev[v]} | v in prev ::
         prev[v] in expanded && HangsFrom(adj, add, dist, prev[v], v)
  }

  /** No edge of `es`, leaving a node of distance `cost`, offers a shorter way anywhere. */
  ghost predicate Relaxed(add: Adder, dist: map<NodeId, Cost>, cost: Cost, es: seq<EdgeRef>) {
    forall e | e in es && add(cost, e.difficulty) < INFINITY ::
      e.to in dist && dist[e.to] <= add(cost, e.difficulty)
  }

  /** Parents come strictly before their children, even along edges of difficulty zero. */
  ghost predicate Ordered(src: NodeId, prev: map<NodeId, NodeId>, rank: map<NodeId, nat>) {
    && rank.Keys <= prev.Keys + {src}
    && forall v {:trigger prev[v]} | v in rank && v != src && v in prev :: prev[v] in rank && rank[prev[v]] < rank[v]
  }

  /** What a finished search returns: `rank` is the order in which nodes were expanded. */
  ghost predicate ShortestTree(adj: Adjacency, add: Adder, src: NodeId, dist: map<NodeId, Cost>,
                               prev: map<NodeId, NodeId>, rank: map<NodeId, nat>)
  {
    && rank.Keys == dist.Keys
    && TreeOf(adj, add, src, dist, prev, rank.Keys)
    && Ordered(src, prev, rank)
    && forall u | u in dist :: Relaxed(add, dist, dist[u], Out(adj, u))
  }

  /** The nodes from `src` down the tree to `v`, or as far up as predecessors are known. */
  ghost function TreePath(src: NodeId, prev: map<NodeId, NodeId>, rank: map<NodeId, nat>, v: NodeId): seq<NodeId>
    requires Ordered(src, prev, rank) && prev.Keys <= rank.Keys
    decreases if v in rank then rank[v] else 0
  {
    if v == src || v !in prev then [v] else TreePath(src, prev, rank, prev[v]) + [v]
  }

  lemma {:induction false} TreePathIsRoute(adj: Adjacency, add: Adder, src: NodeId, dist: map<NodeId, Cost>,
                                           prev: map<NodeId, NodeId>, rank: map<NodeId, nat>, v: NodeId)
    returns (walk: seq<EdgeRef>)
    requires ShortestTree(adj, add, src, dist, prev, rank) && v in dist
    ensures WalkTo(adj, src, walk, v) && WalkCost(add, walk) == dist[v]
    ensures NodesOf(src, walk) == TreePath(src, prev, rank, v)
    decreases rank[v]
  {
    if v == src {
      walk := [];
    } else {
      var up := TreePathIsRoute(adj, add, src, dist, prev, rank, prev[v]);
      var e :| e in Out(adj, prev[v]) && e.to == v && add(dist[prev[v]], e.difficulty) == dist[v];
      Extend(adj, src, up, e);
      walk := up + [e];
    }
  }

  /** Ranks rise along a tree path, so no node is visited twice. */
  lemma {:induction false} TreePathRises(src: NodeId, prev: map<NodeId, NodeId>, rank: map<NodeId, nat>, v: NodeId)
    requires Ordered(src, prev, rank) && prev.Keys <= rank.Keys && v in rank
    ensures var p := TreePath(src, prev, rank, v);
            && p != [] && p[|p| - 1] == v
            && (forall u | u in p :: u in rank)
            && (forall i, j | 0 <= i < j < |p| :: rank[p[i]] < rank[p[j]])
    decreases rank[v]
  {
    if v != src {
      TreePathRises(src, prev, rank, prev[v]);
    }
  }

  /** No walk is cheaper than the distance of its end: relaxation bounds every walk from below. */
  lemma {:induction false} TreeBoundsWalks(adj: Adjacency, add: Adder, src: NodeId, dist: map<NodeId, Cost>,
                                           prev: map<NodeId, NodeId>, rank: map<NodeId, nat>, walk: seq<EdgeRef>)
    requires Lawful(add) && ShortestTree(adj, add, src, dist, prev, rank)
    requires IsWalk(adj, src, walk) && WalkCost(add, walk) < INFINITY
    ensures EndOf(src, walk) in dist && dist[EndOf(src, walk)] <= WalkCost(add, walk)
  {
    if walk == [] {
    } else {
      var init, last := walk[..|walk| - 1], walk[|walk| - 1];
      var u := EndOf(src, init);
      assert WalkCost(add, init) <= add(WalkCost(add, init), last.difficulty);
      TreeBoundsWalks(adj, add, src, dist, prev, rank, init);
      assert add(dist[u], last.difficulty) <= add(WalkCost(add, init), last.difficulty);
    }
  }

  /** A shortest-walk tree reaches exactly the finitely reachable nodes, each at its least cost. */
  lemma TreeIsShortest(adj: Adjacency, add: Adder, src: NodeId, dist: map<NodeId, Cost>, prev: map<NodeId, NodeId>,
                       rank: map<NodeId, nat>)
    requires Lawful(add) && ShortestTree(adj, add, src, dist, prev, rank)
    ensures forall v :: v in dist <==> ReachesFinitely(adj, add, src, v)
    ensures forall v | v in dist :: IsLeastCost(adj, add, src, v, dist[v])
  {
    forall v | v in dist ensures ReachesFinitely(adj, add, src, v) && IsLeastCost(adj, add, src, v, dist[v]) {
      var route := TreePathIsRoute(adj, add, src, dist, prev, rank, v);
      forall walk | WalkTo(adj, src, walk, v) ensures dist[v] <= WalkCost(add, walk) {
        if WalkCost(add, walk) < INFINITY {
          TreeBoundsWalks(adj, add, src, dist, prev, rank, walk);
        }
      }
    }
    forall v | ReachesFinitely(adj, add, src, v) ensures v in dist {
      var walk :| WalkTo(adj, src, walk, v) && WalkCost(add, walk) < INFINITY;
      TreeBoundsWalks(adj, add, src, dist, prev, rank, walk);
    }
  }
}
