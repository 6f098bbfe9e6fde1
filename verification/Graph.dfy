/**
 The security knowledge graph: building it, blast radius, shortest attack routes and the ranked
 list of attack paths (crates/secureops-graph/src/lib.rs).
 */
module Graph {
  import opened Walks
  import opened Search

  datatype NodeData = NodeData(id: NodeId, kind: string, exposed: bool, sensitive: bool)

  /** An arbitrary `f32`, as far as clamping it at zero can tell one from another. */
  datatype Float32 = NaN | Negative | NonNegative(cost: Cost)

  /** `f32::max` with zero: a NaN operand loses against a number. */
  function ClampToCost(difficulty: Float32): Cost {
    match difficulty
    case NaN => 0
    case Negative => 0
    case NonNegative(cost) => cost
  }

  function UnknownNode(id: NodeId): NodeData {
    NodeData(id, "unknown", false, false)
  }

  function WithNode(nodes: map<NodeId, NodeData>, id: NodeId): map<NodeId, NodeData> {
    if id in nodes then nodes else nodes[id := UnknownNode(id)]
  }

  function WithList(adj: Adjacency, id: NodeId): Adjacency {
    if id in adj then adj else adj[id := []]
  }

  /**
   The edge is the last one of its source, no less difficult than asked for and never below zero;
   missing ends are unknown, neither exposed nor sensitive, and known nodes are as they were.
   */
  ghost predicate IsAdded(before: map<NodeId, NodeData>, nodes: map<NodeId, NodeData>, adj: Adjacency,
                          from: NodeId, to: NodeId, kind: EdgeKind, difficulty: Float32)
  {
    && from in adj && adj[from] != []
    && (var last := adj[from][|adj[from]| - 1];
        && last.to == to && last.kind == kind
        && last.difficulty == (if difficulty.NonNegative? then difficulty.cost else 0))
    && from in nodes && to in nodes
    && (from !in before ==> nodes[from] == NodeData(from, "unknown", false, false))
    && (to !in before ==> nodes[to] == NodeData(to, "unknown", false, false))
    && (forall id | id in before :: id in nodes && nodes[id] == before[id])
  }

  lemma EdgeIsAdded(nodes: map<NodeId, NodeData>, adj: Adjacency, from: NodeId, to: NodeId, kind: EdgeKind,
                    difficulty: Float32)
    ensures var both := WithList(WithList(adj, from), to);
            IsAdded(nodes, WithNode(WithNode(nodes, from), to),
                    both[from := both[from] + [EdgeRef(to, kind, ClampToCost(difficulty))]], from, to, kind, difficulty)
  {
  }

  datatype AttackPath = AttackPath(nodes: seq<NodeId>, totalDifficulty: Cost, blastRadius: nat)

  ghost function Impact(nodes: map<NodeId, NodeData>, start: NodeId, seen: set<NodeId>): set<NodeId> {
    set v | v in seen && v in nodes && v != start && nodes[v].sensitive
  }

  /** The sensitive nodes, other than `start`, that a breach of `start` leads to. */
  ghost function SensitiveReach(nodes: map<NodeId, NodeData>, adj: Adjacency, start: NodeId): set<NodeId> {
    set v | v in nodes && v != start && nodes[v].sensitive && Reaches(adj, start, v)
  }

  /**
   Everything seen is reachable; everything seen that is neither queued nor in `open` has had all
   its edges followed, and the edges `es` have been followed as well.
   */
  ghost predicate Exploring(adj: Adjacency, start: NodeId, seen: set<NodeId>, queue: seq<NodeId>,
                            open: seq<NodeId>, es: seq<EdgeRef>)
  {
    && start in seen
    && (forall v | v in seen :: Reaches(adj, start, v))
    && (forall v | v in queue + open :: v in seen)
    && (forall u, e | u in seen && u !in queue + open && e in Out(adj, u) :: e.to in seen)
    && (forall e | e in es :: e.to in seen)
  }

  lemma ExploreStarts(nodes: map<NodeId, NodeData>, adj: Adjacency, start: NodeId)
    ensures Exploring(adj, start, {start}, [start], [], [])
    ensures Impact(nodes, start, {start}) == {}
  {
    assert WalkTo(adj, start, [], start);
  }

  lemma ExplorePops(adj: Adjacency, start: NodeId, seen: set<NodeId>, queue: seq<NodeId>)
    requires queue != [] && Exploring(adj, start, seen, queue, [], [])
    ensures Exploring(adj, start, seen, queue[1..], [queue[0]], [])
  {
  }

  lemma ExploreEdge(adj: Adjacency, start: NodeId, seen: set<NodeId>, queue: seq<NodeId>, n: NodeId,
                    es: seq<EdgeRef>, e: EdgeRef)
    requires Exploring(adj, start, seen, queue, [n], es) && e in Out(adj, n)
    ensures e.to in seen ==> Exploring(adj, start, seen, queue, [n], es + [e])
    ensures Exploring(adj, start, seen + {e.to}, queue + [e.to], [n], es + [e])
  {
    assert n in queue + [n];
    var walk :| WalkTo(adj, start, walk, n);
    Extend(adj, start, walk, e);
    assert WalkTo(adj, start, walk + [e], e.to);
  }

  lemma ExploreDone(adj: Adjacency, start: NodeId, seen: set<NodeId>, queue: seq<NodeId>, n: NodeId)
    requires Exploring(adj, start, seen, queue, [n], Out(adj, n))
    ensures Exploring(adj, start, seen, queue, [], [])
  {
  }

  /** Once the queue is empty, what was seen is exactly what is reachable. */
  lemma ExploreEnds(nodes: map<NodeId, NodeData>, adj: Adjacency, start: NodeId, seen: set<NodeId>)
    requires Exploring(adj, start, seen, [], [], [])
    ensures Impact(nodes, start, seen) == SensitiveReach(nodes, adj, start)
  {
    forall v | Reaches(adj, start, v) ensures v in seen {
      var walk :| WalkTo(adj, start, walk, v);
      ClosedHoldsWalks(adj, start, seen, walk);
    }
  }

  lemma ImpactGrows(nodes: map<NodeId, NodeData>, start: NodeId, seen: set<NodeId>, v: NodeId)
    requires v !in seen && start in seen
    ensures |Impact(nodes, start, seen + {v})| ==
            |Impact(nodes, start, seen)| + if v in nodes && nodes[v].sensitive then 1 else 0
  {
    var before, after := Impact(nodes, start, seen), Impact(nodes, start, seen + {v});
    if v in nodes && nodes[v].sensitive {
      assert after == before + {v};
    } else {
      assert after == before;
    }
  }

  /** Impact first, then ease of exploitation. */
  predicate RanksBefore(p: AttackPath, q: AttackPath) {
    p.blastRadius > q.blastRadius || (p.blastRadius == q.blastRadius && p.totalDifficulty <= q.totalDifficulty)
  }

  ghost predicate IsRanked(paths: seq<AttackPath>) {
    forall i, j | 0 <= i < j < |paths| :: RanksBefore(paths[i], paths[j])
  }

  ghost function Entry(p: AttackPath): NodeId
    requires p.nodes != []
  {
    p.nodes[0]
  }

  ghost function Target(p: AttackPath): NodeId
    requires p.nodes != []
  {
    p.nodes[|p.nodes| - 1]
  }

  ghost predicate NoRepeats<T(!new)>(s: seq<T>) {
    forall i, j | 0 <= i < j < |s| :: s[i] != s[j]
  }

  /** `path` is a cheapest route, without detours, from an exposed entry to a sensitive target. */
  ghost predicate IsAttack(nodes: map<NodeId, NodeData>, adj: Adjacency, add: Adder, path: AttackPath) {
    && path.nodes != []
    && Entry(path) in nodes && nodes[Entry(path)].exposed
    && Target(path) in nodes && nodes[Target(path)].sensitive && Target(path) != Entry(path)
    && IsRoute(adj, add, Entry(path), Target(path), path.nodes, path.totalDifficulty)
    && IsLeastCost(adj, add, Entry(path), Target(path), path.totalDifficulty)
    && path.totalDifficulty < INFINITY && NoRepeats(path.nodes)
    && path.blastRadius == |SensitiveReach(nodes, adj, Entry(path))|
  }

  /** There is something to list for this pair. */
  ghost predicate IsThreat(nodes: map<NodeId, NodeData>, adj: Adjacency, add: Adder, pair: (NodeId, NodeId)) {
    && pair.0 in nodes && nodes[pair.0].exposed
    && pair.1 in nodes && nodes[pair.1].sensitive && pair.1 != pair.0
    && ReachesFinitely(adj, add, pair.0, pair.1)
  }

  ghost predicate HasEnds(path: AttackPath, pair: (NodeId, NodeId)) {
    path.nodes != [] && Entry(path) == pair.0 && Target(path) == pair.1
  }

  ghost predicate DistinctEnds(out: seq<AttackPath>) {
    forall i, j | 0 <= i < j < |out| :: out[i].nodes != [] && out[j].nodes != [] ==>
      Entry(out[i]) != Entry(out[j]) || Target(out[i]) != Target(out[j])
  }

  /** `out` holds one attack for each threat among `pairs`, and nothing else. */
  ghost predicate Lists(nodes: map<NodeId, NodeData>, adj: Adjacency, add: Adder, out: seq<AttackPath>,
                        pairs: set<(NodeId, NodeId)>)
  {
    && (forall p | p in out :: IsAttack(nodes, adj, add, p) && (Entry(p), Target(p)) in pairs)
    && DistinctEnds(out)
    && (forall pair | pair in pairs && IsThreat(nodes, adj, add, pair) :: exists p :: p in out && HasEnds(p, pair))
  }

  function ExposedNodes(nodes: map<NodeId, NodeData>): set<NodeId> {
    set id | id in nodes && nodes[id].exposed
  }

  ghost function AllPairs(nodes: map<NodeId, NodeData>): set<(NodeId, NodeId)> {
    set entry, target | entry in ExposedNodes(nodes) && target in nodes :: (entry, target)
  }

  /** All pairs of exposed nodes other than `entries` have been considered, and no others. */
  ghost predicate PairsFrom(nodes: map<NodeId, NodeData>, entries: set<NodeId>, pairs: set<(NodeId, NodeId)>) {
    && entries <= ExposedNodes(nodes)
    && (forall pair | pair in pairs :: pair in AllPairs(nodes) && pair.0 !in entries)
    && (forall e, t | e in ExposedNodes(nodes) && e !in entries && t in nodes :: (e, t) in pairs)
  }

  /** As `PairsFrom`, while `entry` still has the targets `targets` ahead of it. */
  ghost predicate PairsWithin(nodes: map<NodeId, NodeData>, entries: set<NodeId>, pairs: set<(NodeId, NodeId)>,
                              entry: NodeId, targets: set<NodeId>)
  {
    && entries <= ExposedNodes(nodes) && entry in entries
    && (forall pair | pair in pairs ::
          pair in AllPairs(nodes) && (pair.0 !in entries || (pair.0 == entry && pair.1 !in targets)))
    && (forall e, t | e in ExposedNodes(nodes) && e !in entries && t in nodes :: (e, t) in pairs)
    && (forall t | t in nodes && t !in targets :: (entry, t) in pairs)
  }

  lemma NoPairsYet(nodes: map<NodeId, NodeData>)
    ensures PairsFrom(nodes, ExposedNodes(nodes), {})
  {
  }

  lemma EntryIsExposed(nodes: map<NodeId, NodeData>, entries: set<NodeId>, pairs: set<(NodeId, NodeId)>, entry: NodeId)
    requires PairsFrom(nodes, entries, pairs) && entry in entries
    ensures entry in nodes && nodes[entry].exposed
    ensures PairsWithin(nodes, entries, pairs, entry, nodes.Keys)
  {
  }

  lemma PairIsNew(nodes: map<NodeId, NodeData>, entries: set<NodeId>, pairs: set<(NodeId, NodeId)>, entry: NodeId,
                  targets: set<NodeId>, target: NodeId)
    requires target in nodes && target in targets
    requires PairsWithin(nodes, entries, pairs, entry, targets)
    ensures (entry, target) !in pairs
    ensures PairsWithin(nodes, entries, pairs + {(entry, target)}, entry, targets - {target})
  {
  }

  lemma EntryIsDone(nodes: map<NodeId, NodeData>, entries: set<NodeId>, pairs: set<(NodeId, NodeId)>, entry: NodeId)
    requires PairsWithin(nodes, entries, pairs, entry, {})
    ensures PairsFrom(nodes, entries - {entry}, pairs)
  {
  }

  lemma AllPairsDone(nodes: map<NodeId, NodeData>, pairs: set<(NodeId, NodeId)>)
    requires PairsFrom(nodes, {}, pairs)
    ensures pairs == AllPairs(nodes)
  {
  }

  lemma ListsNothing(nodes: map<NodeId, NodeData>, adj: Adjacency, add: Adder)
    ensures Lists(nodes, adj, add, [], {})
  {
  }

  lemma NoThreat(nodes: map<NodeId, NodeData>, adj: Adjacency, add: Adder, entry: NodeId, target: NodeId,
                 dist: map<NodeId, Cost>)
    requires target in nodes && forall v :: v in dist <==> ReachesFinitely(adj, add, entry, v)
    requires !nodes[target].sensitive || target == entry || target !in dist
    ensures !IsThreat(nodes, adj, add, (entry, target))
  {
  }

  lemma ListsAsBefore(nodes: map<NodeId, NodeData>, adj: Adjacency, add: Adder, out: seq<AttackPath>,
                      pairs: set<(NodeId, NodeId)>, pair: (NodeId, NodeId))
    requires Lists(nodes, adj, add, out, pairs) && !IsThreat(nodes, adj, add, pair)
    ensures Lists(nodes, adj, add, out, pairs + {pair})
  {
  }

  lemma ListsOneMore(nodes: map<NodeId, NodeData>, adj: Adjacency, add: Adder, out: seq<AttackPath>,
                     pairs: set<(NodeId, NodeId)>, pair: (NodeId, NodeId), path: AttackPath)
    requires Lists(nodes, adj, add, out, pairs) && pair !in pairs
    requires IsAttack(nodes, adj, add, path) && HasEnds(path, pair)
    ensures Lists(nodes, adj, add, out + [path], pairs + {pair})
  {
    hide IsThreat, IsRoute, IsLeastCost, NoRepeats;
    var out' := out + [path];
    forall q | q in pairs + {pair} && IsThreat(nodes, adj, add, q) ensures exists p :: p in out' && HasEnds(p, q) {
      if q == pair {
        assert path in out';
      } else {
        var p :| p in out && HasEnds(p, q);
        assert p in out';
      }
    }
  }

  lemma ListsAnyOrder(nodes: map<NodeId, NodeData>, adj: Adjacency, add: Adder, out: seq<AttackPath>,
                      sorted: seq<AttackPath>, pairs: set<(NodeId, NodeId)>)
    requires Lists(nodes, adj, add, out, pairs)
    requires multiset(sorted) == multiset(out) && (DistinctEnds(out) ==> DistinctEnds(sorted))
    ensures Lists(nodes, adj, add, sorted, pairs)
  {
    hide IsAttack, IsThreat, DistinctEnds;
    assert forall p :: p in sorted <==> p in multiset(sorted);
    assert forall p :: p in out <==> p in multiset(out);
  }

  lemma TreeOrders(adj: Adjacency, add: Adder, src: NodeId, dist: map<NodeId, Cost>, prev: map<NodeId, NodeId>,
                   rank: map<NodeId, nat>)
    requires ShortestTree(adj, add, src, dist, prev, rank)
    ensures Ordered(src, prev, rank) && prev.Keys <= rank.Keys
  {
  }

  /** A path read off the tree of shortest walks is an attack. */
  lemma RouteIsAttack(nodes: map<NodeId, NodeData>, adj: Adjacency, add: Adder, entry: NodeId, target: NodeId,
                      dist: map<NodeId, Cost>, prev: map<NodeId, NodeId>, rank: map<NodeId, nat>, path: AttackPath)
    requires Lawful(add) && ShortestTree(adj, add, entry, dist, prev, rank)
    requires Ordered(entry, prev, rank) && prev.Keys <= rank.Keys
    requires entry in nodes && nodes[entry].exposed
    requires target in nodes && nodes[target].sensitive && target != entry && target in dist
    requires path.nodes == TreePath(entry, prev, rank, target) && path.totalDifficulty == dist[target]
    requires path.blastRadius == |SensitiveReach(nodes, adj, entry)|
    ensures IsAttack(nodes, adj, add, path) && HasEnds(path, (entry, target))
  {
    TreeIsShortest(adj, add, entry, dist, prev, rank);
    var walk := TreePathIsRoute(adj, add, entry, dist, prev, rank, target);
    RouteEnds(entry, walk);
    TreePathRises(entry, prev, rank, target);
    assert IsRoute(adj, add, entry, target, path.nodes, path.totalDifficulty);
  }

  /** A stand-in for the library's sort: insertion, one path at a time. */
  method SortPaths(paths: seq<AttackPath>) returns (sorted: seq<AttackPath>)
    ensures forall i, j | 0 <= i < j < |sorted| :: sorted[i].blastRadius >= sorted[j].blastRadius
    ensures forall i, j | 0 <= i < j < |sorted| && sorted[i].blastRadius == sorted[j].blastRadius ::
              sorted[i].totalDifficulty <= sorted[j].totalDifficulty
    ensures multiset(sorted) == multiset(paths)
    ensures DistinctEnds(paths) ==> DistinctEnds(sorted)
  {
    hide *;
    SortStarts();
    sorted := [];
    for i := 0 to |paths|
      invariant IsRanked(sorted)
      invariant multiset(sorted) == multiset(paths[..i])
      invariant DistinctEnds(paths) ==> DistinctEnds(sorted)
    {
      var at := |sorted|;
      while at > 0 && !RanksBefore(sorted[at - 1], paths[i])
        invariant 0 <= at <= |sorted|
        invariant forall k | at <= k < |sorted| :: !RanksBefore(sorted[k], paths[i])
      {
        at := at - 1;
      }
      TakeOneMore(paths, i);
      InsertKeepsRank(sorted, at, paths[i]);
      InsertKeepsElements(sorted, at, paths[i]);
      if DistinctEnds(paths) {
        InsertKeepsDistinct(paths, i, sorted, at);
      }
      sorted := sorted[..at] + [paths[i]] + sorted[at..];
    }
    TakeAll(paths);
    RankedMeans(sorted);
  }

  /** The largest impact first, and among equals the easiest. */
  lemma RankedMeans(paths: seq<AttackPath>)
    requires IsRanked(paths)
    ensures forall i, j | 0 <= i < j < |paths| :: paths[i].blastRadius >= paths[j].blastRadius
    ensures forall i, j | 0 <= i < j < |paths| && paths[i].blastRadius == paths[j].blastRadius ::
              paths[i].totalDifficulty <= paths[j].totalDifficulty
  {
    forall i, j | 0 <= i < j < |paths| ensures RanksBefore(paths[i], paths[j]) {
    }
  }

  lemma SortStarts()
    ensures IsRanked([]) && DistinctEnds([])
  {
  }

  lemma InsertKeepsRank(sorted: seq<AttackPath>, at: nat, p: AttackPath)
    requires at <= |sorted| && IsRanked(sorted)
    requires at > 0 ==> RanksBefore(sorted[at - 1], p)
    requires forall k | at <= k < |sorted| :: !RanksBefore(sorted[k], p)
    ensures IsRanked(sorted[..at] + [p] + sorted[at..])
  {
  }

  lemma InsertKeepsElements(sorted: seq<AttackPath>, at: nat, p: AttackPath)
    requires at <= |sorted|
    ensures multiset(sorted[..at] + [p] + sorted[at..]) == multiset(sorted) + multiset{p}
  {
    assert sorted == sorted[..at] + sorted[at..];
  }

  lemma InsertKeepsDistinct(paths: seq<AttackPath>, i: nat, sorted: seq<AttackPath>, at: nat)
    requires i < |paths| && at <= |sorted| && DistinctEnds(paths) && DistinctEnds(sorted)
    requires multiset(sorted) == multiset(paths[..i])
    ensures DistinctEnds(sorted[..at] + [paths[i]] + sorted[at..])
  {
    var r, p := sorted[..at] + [paths[i]] + sorted[at..], paths[i];
    forall k | 0 <= k < |sorted| && p.nodes != [] && sorted[k].nodes != []
      ensures Entry(sorted[k]) != Entry(p) || Target(sorted[k]) != Target(p)
    {
      assert sorted[k] in multiset(paths[..i]);
      var m :| 0 <= m < i && paths[m] == sorted[k];
    }
    forall k, m | 0 <= k < m < |r| && r[k].nodes != [] && r[m].nodes != []
      ensures Entry(r[k]) != Entry(r[m]) || Target(r[k]) != Target(r[m])
    {
      assert k != at ==> r[k] == sorted[if k < at then k else k - 1];
      assert m != at ==> r[m] == sorted[if m < at then m else m - 1];
    }
  }

  /** The positions of the paths that start at `entry`. */
  ghost function PathsFrom(out: seq<AttackPath>, entry: NodeId): set<nat> {
    set i: nat | i < |out| && out[i].nodes != [] && Entry(out[i]) == entry
  }

  ghost function FiniteReach(nodes: map<NodeId, NodeData>, adj: Adjacency, add: Adder, start: NodeId): set<NodeId> {
    set v | v in SensitiveReach(nodes, adj, start) && ReachesFinitely(adj, add, start, v)
  }

  ghost function TargetsAt(out: seq<AttackPath>, at: set<nat>): set<NodeId>
    requires forall i | i in at :: i < |out| && out[i].nodes != []
  {
    set i | i in at :: Target(out[i])
  }

  lemma {:induction false} TargetsDiffer(out: seq<AttackPath>, entry: NodeId, at: set<nat>)
    requires at <= PathsFrom(out, entry) && DistinctEnds(out)
    ensures |TargetsAt(out, at)| == |at|
  {
    if at == {} {
      assert TargetsAt(out, at) == {};
    } else {
      var i :| i in at;
      var rest := at - {i};
      TargetsDiffer(out, entry, rest);
      assert Target(out[i]) !in TargetsAt(out, rest) by {
        forall j | j in rest ensures Target(out[j]) != Target(out[i]) {
          assert Entry(out[i]) == Entry(out[j]);
          assert i < j || j < i;
        }
      }
      assert TargetsAt(out, at) == TargetsAt(out, rest) + {Target(out[i])};
    }
  }

  lemma SubsetSize<T>(part: set<T>, whole: set<T>)
    requires part <= whole
    ensures |part| <= |whole|
    ensures |part| == |whole| <==> part == whole
  {
    var missing := whole - part;
    assert whole == part + missing;
  }

  /**
   An entry contributes one path per sensitive node it reaches at finite difficulty. That is its
   blast radius if and only if no sensitive node it reaches has only overflowing walks to it.
   */
  lemma PathsPerEntry(nodes: map<NodeId, NodeData>, adj: Adjacency, add: Adder, out: seq<AttackPath>, entry: NodeId)
    requires Lists(nodes, adj, add, out, AllPairs(nodes))
    requires entry in nodes && nodes[entry].exposed
    ensures |PathsFrom(out, entry)| == |FiniteReach(nodes, adj, add, entry)|
    ensures |PathsFrom(out, entry)| == |SensitiveReach(nodes, adj, entry)| <==>
            forall v | v in SensitiveReach(nodes, adj, entry) :: ReachesFinitely(adj, add, entry, v)
  {
    var at, finite := PathsFrom(out, entry), FiniteReach(nodes, adj, add, entry);
    TargetsDiffer(out, entry, at);
    assert TargetsAt(out, at) == finite by {
      TargetsAreFinite(nodes, adj, add, out, entry);
      FiniteAreTargets(nodes, adj, add, out, entry);
    }
    SubsetSize(finite, SensitiveReach(nodes, adj, entry));
  }

  lemma TargetsAreFinite(nodes: map<NodeId, NodeData>, adj: Adjacency, add: Adder, out: seq<AttackPath>, entry: NodeId)
    requires Lists(nodes, adj, add, out, AllPairs(nodes))
    ensures TargetsAt(out, PathsFrom(out, entry)) <= FiniteReach(nodes, adj, add, entry)
  {
  }

  lemma FiniteIsThreat(nodes: map<NodeId, NodeData>, adj: Adjacency, add: Adder, entry: NodeId, v: NodeId)
    requires entry in nodes && nodes[entry].exposed && v in FiniteReach(nodes, adj, add, entry)
    ensures (entry, v) in AllPairs(nodes) && IsThreat(nodes, adj, add, (entry, v))
  {
  }

  lemma FiniteAreTargets(nodes: map<NodeId, NodeData>, adj: Adjacency, add: Adder, out: seq<AttackPath>, entry: NodeId)
    requires Lists(nodes, adj, add, out, AllPairs(nodes))
    requires entry in nodes && nodes[entry].exposed
    ensures FiniteReach(nodes, adj, add, entry) <= TargetsAt(out, PathsFrom(out, entry))
  {
    hide IsAttack, IsThreat, DistinctEnds, AllPairs, FiniteReach;
    forall v | v in FiniteReach(nodes, adj, add, entry) ensures v in TargetsAt(out, PathsFrom(out, entry)) {
      FiniteIsThreat(nodes, adj, add, entry, v);
      var p :| p in out && HasEnds(p, (entry, v));
      var i :| 0 <= i < |out| && out[i] == p;
      assert i in PathsFrom(out, entry);
    }
  }

  /** A single edge of infinite difficulty: its target counts as impact, yet no path leads there. */
  lemma OverflowHidesAttack(a: NodeId, b: NodeId, add: Adder)
    requires a != b && Lawful(add) && forall c: Cost, d: Cost :: d <= add(c, d)
    ensures var nodes := map[a := NodeData(a, "ec2", true, false), b := NodeData(b, "rds", false, true)];
            var adj := map[a := [EdgeRef(b, Exposes, INFINITY)], b := []];
            && b in SensitiveReach(nodes, adj, a)
            && !IsThreat(nodes, adj, add, (a, b))
  {
    var e := EdgeRef(b, Exposes, INFINITY);
    var adj: Adjacency := map[a := [e], b := []];
    assert IsWalk(adj, a, []);
    Extend(adj, a, [], e);
    assert WalkTo(adj, a, [] + [e], b);
    forall walk | WalkTo(adj, a, walk, b) ensures WalkCost(add, walk) == INFINITY {
      var last := walk[|walk| - 1];
      assert last in Out(adj, EndOf(a, walk[..|walk| - 1]));
      assert last == e;
    }
  }

  class SecurityGraph {
    var nodes: map<NodeId, NodeData>
    var adj: Adjacency

    /** Every node has an edge list, is stored under its own name, and edges lead to known nodes. */
    ghost predicate Valid()
      reads this
    {
      && nodes.Keys == adj.Keys
      && (forall id | id in nodes :: nodes[id].id == id)
      && (forall u, e | u in adj && e in adj[u] :: e.to in nodes)
    }

    constructor ()
      ensures Valid() && nodes == map[] && adj == map[]
    {
      nodes, adj := map[], map[];
    }

    method AddNode(node: NodeData)
      requires Valid()
      modifies this
      ensures Valid()
      ensures nodes == old(nodes)[node.id := node]
      ensures adj == old(WithList(adj, node.id))
    {
      if node.id !in adj {
        adj := adj[node.id := []];
      }
      nodes := nodes[node.id := node];
    }

    method AddEdge(from: NodeId, to: NodeId, kind: EdgeKind, difficulty: Float32)
      requires Valid()
      modifies this
      ensures Valid()
      ensures nodes == old(WithNode(WithNode(nodes, from), to))
      ensures adj == old(var both := WithList(WithList(adj, from), to);
                         both[from := both[from] + [EdgeRef(to, kind, ClampToCost(difficulty))]])
      ensures IsAdded(old(nodes), nodes, adj, from, to, kind, difficulty)
    {
      hide IsAdded;
      if from !in nodes {
        AddNode(UnknownNode(from));
      }
      if to !in nodes {
        AddNode(UnknownNode(to));
      }
      adj := adj[from := Out(adj, from) + [EdgeRef(to, kind, ClampToCost(difficulty))]];
      EdgeIsAdded(old(nodes), old(adj), from, to, kind, difficulty);
    }

    /**
     Dijkstra's search. Any cheapest entry may be popped, whatever ties there are. Each node that
     is reached at a finite cost is expanded exactly once.
     */
    method Dijkstra(add: Adder, src: NodeId)
      returns (dist: map<NodeId, Cost>, prev: map<NodeId, NodeId>, ghost rank: map<NodeId, nat>, ghost expansions: nat)
      requires Valid() && Lawful(add)
      ensures ShortestTree(adj, add, src, dist, prev, rank)
      ensures forall v :: v in dist <==> ReachesFinitely(adj, add, src, v)
      ensures forall v | v in dist :: IsLeastCost(adj, add, src, v, dist[v])
      ensures expansions == |dist|
    {
      hide *;
      dist, prev := map[src := 0], map[];
      var heap := multiset{HeapState(0, src)};
      rank, expansions := map[], 0;
      ghost var universe := nodes.Keys + {src};
      SearchStarts(adj, add, src);
      while heap != multiset{}
        invariant Searching(adj, add, src, dist, prev, heap, rank, expansions)
        invariant rank.Keys <= dist.Keys <= universe
        invariant expansions == |rank|
        decreases universe - rank.Keys, |heap|
      {
        TopExists(heap);
        var top :| IsTop(heap, top);
        TopIsQueued(heap, top);
        ghost var before := heap;
        heap := heap - multiset{top};
        if top.cost > DistanceOf(dist, top.node) {
          SkipKeeps(adj, add, src, dist, prev, before, rank, expansions, top);
        } else {
          ExpandKeeps(adj, add, src, dist, prev, before, rank, expansions, top);
          CountOneMore(rank, top.node, expansions);
          rank, expansions := rank[top.node := expansions], expansions + 1;
          var es := Out(adj, top.node);
          for k := 0 to |es|
            invariant Expanding(adj, add, src, dist, prev, heap, rank, expansions, top.node, es[..k])
            invariant top.node in dist && dist[top.node] == top.cost
            invariant rank.Keys <= dist.Keys <= universe
          {
            var e := es[k];
            var next := add(top.cost, e.difficulty);
            TakeOneMore(es, k);
            if next < DistanceOf(dist, e.to) {
              RelaxKeeps(adj, add, src, dist, prev, heap, rank, expansions, top.node, es[..k], e, next);
              KnownTarget(top.node, e);
              dist, prev := dist[e.to := next], prev[e.to := top.node];
              heap := heap + multiset{HeapState(next, e.to)};
            } else {
              PassKeeps(adj, add, src, dist, prev, heap, rank, expansions, top.node, es[..k], e);
            }
          }
          TakeAll(es);
          ExpandEnds(adj, add, src, dist, prev, heap, rank, expansions, top.node);
        }
      }
      SearchEnds(adj, add, src, dist, prev, rank, expansions);
      TreeIsShortest(adj, add, src, dist, prev, rank);
      SameKeys(adj, add, src, dist, prev, rank);
    }

    /** Breadth-first search, counting each sensitive node the first time it is seen. */
    method BlastRadius(start: NodeId) returns (count: nat)
      requires Valid()
      ensures count == |SensitiveReach(nodes, adj, start)|
    {
      hide *;
      var seen, queue := {start}, [start];
      count := 0;
      ghost var universe := nodes.Keys + {start};
      ExploreStarts(nodes, adj, start);
      while queue != []
        invariant Exploring(adj, start, seen, queue, [], [])
        invariant count == |Impact(nodes, start, seen)|
        invariant seen <= universe
        decreases universe - seen, |queue|
      {
        var n := queue[0];
        var es := Out(adj, n);
        ExplorePops(adj, start, seen, queue);
        queue := queue[1..];
        ghost var seenBefore, queueBefore := seen, queue;
        for k := 0 to |es|
          invariant Exploring(adj, start, seen, queue, [n], es[..k])
          invariant count == |Impact(nodes, start, seen)|
          invariant seenBefore <= seen <= universe
          invariant seen == seenBefore ==> queue == queueBefore
        {
          var e := es[k];
          TakeOneMore(es, k);
          KnownTarget(n, e);
          ExploreEdge(adj, start, seen, queue, n, es[..k], e);
          if e.to !in seen {
            ImpactGrows(nodes, start, seen, e.to);
            seen := seen + {e.to};
            if e.to in nodes && nodes[e.to].sensitive {
              count := count + 1;
            }
            queue := queue + [e.to];
          }
        }
        TakeAll(es);
        ExploreDone(adj, start, seen, queue, n);
      }
      ExploreEnds(nodes, adj, start, seen);
    }

    /**
     All attack paths. Entries and targets are taken in any order; the list is sorted at the end.
     */
    method AttackPaths(add: Adder) returns (out: seq<AttackPath>)
      requires Valid() && Lawful(add)
      ensures Lists(nodes, adj, add, out, AllPairs(nodes))
      ensures forall i, j | 0 <= i < j < |out| :: out[i].blastRadius >= out[j].blastRadius
      ensures forall i, j | 0 <= i < j < |out| && out[i].blastRadius == out[j].blastRadius ::
                out[i].totalDifficulty <= out[j].totalDifficulty
    {
      hide *;
      out := [];
      var entries := ExposedNodes(nodes);
      ghost var pairs: set<(NodeId, NodeId)> := {};
      ListsNothing(nodes, adj, add);
      NoPairsYet(nodes);
      while entries != {}
        invariant Lists(nodes, adj, add, out, pairs)
        invariant PairsFrom(nodes, entries, pairs)
        decreases entries
      {
        var entry :| entry in entries;
        var dist, prev, rank, _ := Dijkstra(add, entry);
        var blast := BlastRadius(entry);
        EntryIsExposed(nodes, entries, pairs, entry);
        var targets := nodes.Keys;
        while targets != {}
          invariant Lists(nodes, adj, add, out, pairs)
          invariant targets <= nodes.Keys
          invariant PairsWithin(nodes, entries, pairs, entry, targets)
          decreases targets
        {
          var target :| target in targets;
          PairIsNew(nodes, entries, pairs, entry, targets, target);
          targets := targets - {target};
          if nodes[target].sensitive && target != entry && target in dist {
            TreeOrders(adj, add, entry, dist, prev, rank);
            var route := Reconstruct(prev, entry, target, rank);
            var path := AttackPath(route, dist[target], blast);
            RouteIsAttack(nodes, adj, add, entry, target, dist, prev, rank, path);
            ListsOneMore(nodes, adj, add, out, pairs, (entry, target), path);
            out := out + [path];
          } else {
            NoThreat(nodes, adj, add, entry, target, dist);
            ListsAsBefore(nodes, adj, add, out, pairs, (entry, target));
          }
          pairs := pairs + {(entry, target)};
        }
        EntryIsDone(nodes, entries, pairs, entry);
        entries := entries - {entry};
      }
      AllPairsDone(nodes, pairs);
      ghost var unsorted := out;
      out := SortPaths(out);
      ListsAnyOrder(nodes, adj, add, unsorted, out, pairs);
    }

    lemma KnownTarget(u: NodeId, e: EdgeRef)
      requires Valid() && e in Out(adj, u)
      ensures e.to in nodes
    {
    }
  }

  lemma TakeOneMore<T>(s: seq<T>, k: nat)
    requires k < |s|
    ensures s[..k + 1] == s[..k] + [s[k]]
  {
  }

  lemma TakeAll<T>(s: seq<T>)
    ensures s[..|s|] == s
  {
  }

  lemma TopIsQueued(heap: multiset<HeapState>, top: HeapState)
    requires IsTop(heap, top)
    ensures top in heap
  {
  }

  lemma SameKeys(adj: Adjacency, add: Adder, src: NodeId, dist: map<NodeId, Cost>, prev: map<NodeId, NodeId>,
                 rank: map<NodeId, nat>)
    requires ShortestTree(adj, add, src, dist, prev, rank)
    ensures |rank| == |dist|
  {
  }

  function Reverse<T>(s: seq<T>): seq<T> {
    if s == [] then [] else Reverse(s[1..]) + [s[0]]
  }

  lemma {:induction false} ReverseAppend<T>(s: seq<T>, x: T)
    ensures Reverse(s + [x]) == [x] + Reverse(s)
  {
    if s == [] {
    } else {
      ReverseAppend(s[1..], x);
      assert (s + [x])[1..] == s[1..] + [x];
    }
  }

  /**
   Follow predecessors from `target` until `src`, or until one is missing, and turn the result
   around. Predecessors that come earlier in the order of expansion make this end.
   */
  method Reconstruct(prev: map<NodeId, NodeId>, src: NodeId, target: NodeId, ghost rank: map<NodeId, nat>)
    returns (path: seq<NodeId>)
    requires Ordered(src, prev, rank) && prev.Keys <= rank.Keys
    ensures path == TreePath(src, prev, rank, target)
  {
    path := [target];
    var cur := target;
    assert Reverse(path) == [target];
    while cur != src
      invariant path != [] && path[|path| - 1] == cur
      invariant UpTo(src, prev, rank, cur) + Reverse(path) == TreePath(src, prev, rank, target)
      decreases if cur in rank then rank[cur] else 0
    {
      if cur in prev {
        ClimbOne(src, prev, rank, cur, path);
        path := path + [prev[cur]];
        cur := prev[cur];
      } else {
        break;
      }
    }
    path := Reverse(path);
  }

  /** The tree path to `v` without `v`. */
  ghost function UpTo(src: NodeId, prev: map<NodeId, NodeId>, rank: map<NodeId, nat>, v: NodeId): seq<NodeId>
    requires Ordered(src, prev, rank) && prev.Keys <= rank.Keys
  {
    if v == src || v !in prev then [] else TreePath(src, prev, rank, prev[v])
  }

  lemma ClimbOne(src: NodeId, prev: map<NodeId, NodeId>, rank: map<NodeId, nat>, v: NodeId, path: seq<NodeId>)
    requires Ordered(src, prev, rank) && prev.Keys <= rank.Keys && v in prev && v != src
    ensures UpTo(src, prev, rank, prev[v]) + Reverse(path + [prev[v]]) == UpTo(src, prev, rank, v) + Reverse(path)
  {
    ReverseAppend(path, prev[v]);
    assert TreePath(src, prev, rank, prev[v]) == UpTo(src, prev, rank, prev[v]) + [prev[v]];
  }

  lemma CountOneMore(rank: map<NodeId, nat>, node: NodeId, clock: nat)
    requires node !in rank
    ensures rank[node := clock].Keys == rank.Keys + {node}
    ensures |rank[node := clock]| == |rank| + 1
  {
  }
}
