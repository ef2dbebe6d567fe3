// The residual graph of the min-cost matcher: its encoding of the residual network, the
// construction edge by edge, and the effect of one unit of flow.
module ResidualGraph {
  import opened Matchings
  import opened ShortestPaths
  import opened ResidualNetwork

  // ---------------------------------------------------------------------------
  // The residual graph as adjacency rows
  // ---------------------------------------------------------------------------

  ghost function AllArcs(net: Net): set<(nat, nat)> {
    set u: nat, v: nat | u < net.Size() && v < net.Size() && net.Arc(u, v) :: (u, v)
  }

  /** Edge `i` of row `u` is the arc to its end with the cost and capacity the flow leaves,
      and its reverse edge points back at it. */
  ghost predicate EdgeFits(net: Net, f: Flow, arcs: set<(nat, nat)>, graph: Graph, u: nat, i: nat)
    requires u < |graph| && i < |graph[u]|
  {
    var e := graph[u][i];
    && e.end < |graph| && (u, e.end) in arcs && net.Arc(u, e.end)
    && e.cost == net.Cost(u, e.end) && e.cap == net.Capacity(f, u, e.end)
    && e.rev < |graph[e.end]| && graph[e.end][e.rev].end == u && graph[e.end][e.rev].rev == i
  }

  ghost predicate HasEdge(graph: Graph, u: nat, v: nat) {
    u < |graph| && exists i :: 0 <= i < |graph[u]| && graph[u][i].end == v
  }

  /** The rows hold exactly one edge for each arc in `arcs`. */
  ghost predicate Encodes(net: Net, f: Flow, arcs: set<(nat, nat)>, graph: Graph) {
    && |graph| == net.Size()
    && (forall u: nat, i: nat {:trigger EdgeFits(net, f, arcs, graph, u, i)} ::
          u < |graph| && i < |graph[u]| ==> EdgeFits(net, f, arcs, graph, u, i))
    && (forall u, i, j | 0 <= u < |graph| && 0 <= i < |graph[u]| && 0 <= j < |graph[u]| ::
          graph[u][i].end == graph[u][j].end ==> i == j)
    && (forall a :: a in arcs ==> HasEdge(graph, a.0, a.1))
  }

  /** Moving one unit along the arc (u, v) turns `f` into `f'`. */
  ghost predicate Pushes(net: Net, f: Flow, f': Flow, u: nat, v: nat) {
    forall a: nat, b: nat {:trigger net.Capacity(f', a, b)} :: net.Arc(a, b) ==>
      net.Capacity(f', a, b) ==
        net.Capacity(f, a, b) + (if (a, b) == (u, v) then -1 else if (a, b) == (v, u) then 1 else 0)
  }

  ghost function Pushed(graph: Graph, u: nat, i: nat): Graph
    requires u < |graph| && i < |graph[u]| && graph[u][i].end < |graph|
    requires graph[u][i].end != u && graph[u][i].rev < |graph[graph[u][i].end]|
  {
    var e := graph[u][i];
    var g := graph[u := graph[u][i := e.(cap := e.cap - 1)]];
    var back := g[e.end][e.rev];
    g[e.end := g[e.end][e.rev := back.(cap := back.cap + 1)]]
  }

  /** Only the two capacities change. */
  lemma PushedAt(graph: Graph, u: nat, i: nat, a: nat, k: nat)
    requires u < |graph| && i < |graph[u]| && graph[u][i].end < |graph|
    requires graph[u][i].end != u && graph[u][i].rev < |graph[graph[u][i].end]|
    requires a < |graph| && k < |graph[a]|
    ensures |Pushed(graph, u, i)| == |graph| && |Pushed(graph, u, i)[a]| == |graph[a]|
    ensures Pushed(graph, u, i)[a][k] ==
            graph[a][k].(cap := graph[a][k].cap - (if a == u && k == i then 1 else 0)
                                + (if a == graph[u][i].end && k == graph[u][i].rev then 1 else 0))
  {
  }

  lemma PushKeepsEdge(net: Net, f: Flow, f': Flow, graph: Graph, u: nat, i: nat, a: nat, k: nat)
    requires Encodes(net, f, AllArcs(net), graph)
    requires u < |graph| && i < |graph[u]|
    requires Pushes(net, f, f', u, graph[u][i].end)
    requires EdgeFits(net, f, AllArcs(net), graph, u, i) && graph[u][i].end != u
    requires a < |graph| && k < |graph[a]|
    ensures |Pushed(graph, u, i)| == |graph| && |Pushed(graph, u, i)[a]| == |graph[a]|
    ensures EdgeFits(net, f', AllArcs(net), Pushed(graph, u, i), a, k)
  {
    var g := Pushed(graph, u, i);
    var e := graph[a][k];
    assert EdgeFits(net, f, AllArcs(net), graph, a, k);
    PushedAt(graph, u, i, a, k);
    PushedAt(graph, u, i, e.end, e.rev);
    var v, r := graph[u][i].end, graph[u][i].rev;
    assert net.Capacity(f', a, e.end) == net.Capacity(f, a, e.end)
             + (if (a, e.end) == (u, v) then -1 else if (a, e.end) == (v, u) then 1 else 0);
    assert a == u && e.end == v <==> a == u && k == i;
    assert a == v && e.end == u <==> a == v && k == r;
  }

  lemma PushKeepsEncoding(net: Net, f: Flow, f': Flow, graph: Graph, u: nat, i: nat)
    requires Encodes(net, f, AllArcs(net), graph)
    requires u < |graph| && i < |graph[u]|
    requires Pushes(net, f, f', u, graph[u][i].end)
    ensures EdgeFits(net, f, AllArcs(net), graph, u, i) && graph[u][i].end != u
    ensures Encodes(net, f', AllArcs(net), Pushed(graph, u, i))
  {
    assert EdgeFits(net, f, AllArcs(net), graph, u, i);
    var g := Pushed(graph, u, i);
    forall a: nat, k: nat | a < |g| && k < |g[a]|
      ensures EdgeFits(net, f', AllArcs(net), g, a, k)
    {
      PushedLength(graph, u, i, a);
      PushKeepsEdge(net, f, f', graph, u, i, a, k);
    }
    forall a, j, k | 0 <= a < |g| && 0 <= j < |g[a]| && 0 <= k < |g[a]| && g[a][j].end == g[a][k].end
      ensures j == k
    {
      PushedLength(graph, u, i, a);
      PushedAt(graph, u, i, a, j);
      PushedAt(graph, u, i, a, k);
    }
    forall a | a in AllArcs(net) ensures HasEdge(g, a.0, a.1) {
      assert HasEdge(graph, a.0, a.1);
      var k :| 0 <= k < |graph[a.0]| && graph[a.0][k].end == a.1;
      PushedAt(graph, u, i, a.0, k);
      assert g[a.0][k].end == a.1;
    }
  }

  lemma PushedLength(graph: Graph, u: nat, i: nat, a: nat)
    requires u < |graph| && i < |graph[u]| && graph[u][i].end < |graph|
    requires graph[u][i].end != u && graph[u][i].rev < |graph[graph[u][i].end]|
    requires a < |graph|
    ensures |Pushed(graph, u, i)| == |graph| && |Pushed(graph, u, i)[a]| == |graph[a]|
    ensures a != u && a != graph[u][i].end ==> Pushed(graph, u, i)[a] == graph[a]
  {
  }

  // ---------------------------------------------------------------------------
  // Weighted adjacency
  // ---------------------------------------------------------------------------

  /** For every left vertex the admissible right vertices with their primary costs. */
  type Weighted = seq<seq<(nat, int)>>

  ghost predicate ValidWeighted(adjacency: Weighted, rightCount: nat) {
    && (forall l, j | 0 <= l < |adjacency| && 0 <= j < |adjacency[l]| ::
          adjacency[l][j].0 < rightCount && adjacency[l][j].1 >= 0)
    && (forall l, j, k | 0 <= l < |adjacency| && 0 <= j < |adjacency[l]| && 0 <= k < |adjacency[l]| ::
          adjacency[l][j].0 == adjacency[l][k].0 ==> j == k)
  }

  /** Edges in the rows before `l`. */
  function RowStart(adjacency: Weighted, l: nat): nat
    requires l <= |adjacency|
  {
    if l == 0 then 0 else RowStart(adjacency, l - 1) + |adjacency[l - 1]|
  }

  function EdgeCount(adjacency: Weighted): nat { RowStart(adjacency, |adjacency|) }

  /** The factor that puts any primary difference above every sum of `target` ranks. */
  function Scale(adjacency: Weighted, target: nat): nat {
    target * (if EdgeCount(adjacency) >= 1 then EdgeCount(adjacency) else 1) + 1
  }

  ghost function WeightedPairs(adjacency: Weighted): set<Pair> {
    set l: nat, j: nat | l < |adjacency| && j < |adjacency[l]| :: (l, adjacency[l][j].0)
  }

  ghost function Column(adjacency: Weighted, p: Pair): (j: nat)
    requires p in WeightedPairs(adjacency)
    ensures p.0 < |adjacency| && j < |adjacency[p.0]| && adjacency[p.0][j].0 == p.1
  {
    var j: nat :| j < |adjacency[p.0]| && adjacency[p.0][j].0 == p.1; j
  }

  ghost function Primary(adjacency: Weighted, p: Pair): int
    requires p in WeightedPairs(adjacency)
  {
    adjacency[p.0][Column(adjacency, p)].1
  }

  /** The position of the pair when the rows are read in order. */
  ghost function RankOf(adjacency: Weighted, p: Pair): nat
    requires p in WeightedPairs(adjacency)
  {
    RowStart(adjacency, p.0) + Column(adjacency, p)
  }

  ghost function NetOf(adjacency: Weighted, rightCount: nat, target: nat): Net {
    Net(|adjacency|, rightCount,
        map p | p in WeightedPairs(adjacency) ::
          Primary(adjacency, p) * Scale(adjacency, target) + RankOf(adjacency, p))
  }

  lemma EntryIsPair(adjacency: Weighted, rightCount: nat, target: nat, l: nat, j: nat)
    requires ValidWeighted(adjacency, rightCount) && l < |adjacency| && j < |adjacency[l]|
    ensures (l, adjacency[l][j].0) in WeightedPairs(adjacency)
    ensures Column(adjacency, (l, adjacency[l][j].0)) == j
    ensures NetOf(adjacency, rightCount, target).cost[(l, adjacency[l][j].0)] ==
            adjacency[l][j].1 * Scale(adjacency, target) + RowStart(adjacency, l) + j
  {
  }

  // ---------------------------------------------------------------------------
  // Construction
  // ---------------------------------------------------------------------------

  const EMPTY: Flow := Flow({}, {}, {})

  ghost predicate Built(net: Net, arcs: set<(nat, nat)>, graph: Graph) { Encodes(net, EMPTY, arcs, graph) }

  method AddEdge(graph0: Graph, start: nat, end: nat, capacity: int, cost: int) returns (graph: Graph)
    requires start < |graph0| && end < |graph0| && start != end
    ensures graph == WithEdge(graph0, start, end, capacity, cost)
  {
    var forward := Edge(end, |graph0[end]|, capacity, cost);
    var reverse := Edge(start, |graph0[start]|, 0, -cost);
    graph := graph0[start := graph0[start] + [forward]];
    graph := graph[end := graph[end] + [reverse]];
  }

  ghost function WithEdge(graph: Graph, start: nat, end: nat, capacity: int, cost: int): Graph
    requires start < |graph| && end < |graph| && start != end
  {
    graph[start := graph[start] + [Edge(end, |graph[end]|, capacity, cost)]]
         [end := graph[end] + [Edge(start, |graph[start]|, 0, -cost)]]
  }

  lemma AddEdgeBuilt(net: Net, arcs: set<(nat, nat)>, graph: Graph, start: nat, end: nat, cost: int)
    requires net.Valid() && Built(net, arcs, graph)
    requires start < |graph| && end < |graph| && start != end
    requires (start, end) !in arcs && (end, start) !in arcs
    requires net.Arc(start, end) && net.Arc(end, start)
    requires net.Cost(start, end) == cost && net.Cost(end, start) == -cost
    requires net.Capacity(EMPTY, start, end) == 1 && net.Capacity(EMPTY, end, start) == 0
    ensures Built(net, arcs + {(start, end), (end, start)}, WithEdge(graph, start, end, 1, cost))
    ensures forall u, i :: 0 <= u < |graph| && 0 <= i < |graph[u]| ==>
              i < |WithEdge(graph, start, end, 1, cost)[u]| && WithEdge(graph, start, end, 1, cost)[u][i] == graph[u][i]
  {
    var g := WithEdge(graph, start, end, 1, cost);
    var arcs' := arcs + {(start, end), (end, start)};
    forall u: nat, i: nat | u < |g| && i < |g[u]| ensures EdgeFits(net, EMPTY, arcs', g, u, i) {
      if i < |graph[u]| {
        assert EdgeFits(net, EMPTY, arcs, graph, u, i);
      }
    }
    forall u, i, j | 0 <= u < |g| && 0 <= i < |g[u]| && 0 <= j < |g[u]| && g[u][i].end == g[u][j].end ensures i == j {
      if i < |graph[u]| {
        assert EdgeFits(net, EMPTY, arcs, graph, u, i);
      }
      if j < |graph[u]| {
        assert EdgeFits(net, EMPTY, arcs, graph, u, j);
      }
    }
    forall a | a in arcs' ensures HasEdge(g, a.0, a.1) {
      if a in arcs {
        assert HasEdge(graph, a.0, a.1);
        var i :| 0 <= i < |graph[a.0]| && graph[a.0][i].end == a.1;
        assert g[a.0][i].end == a.1;
      } else {
        assert g[a.0][|graph[a.0]|].end == a.1;
      }
    }
  }

  /** The arcs present after `k` source edges, the pairs in `done` and `m` sink edges. */
  ghost predicate InStage(net: Net, k: nat, done: set<Pair>, m: nat, u: nat, v: nat) {
    && net.Arc(u, v)
    && if u == 0 then v <= k else if v == 0 then u <= k
       else if u == net.Sink() then v < net.Right(m) else if v == net.Sink() then u < net.Right(m)
       else net.PairOf(u, v) in done
  }

  ghost function Stage(net: Net, k: nat, done: set<Pair>, m: nat): set<(nat, nat)> {
    set a | a in AllArcs(net) && InStage(net, k, done, m, a.0, a.1)
  }

  /** The dictionary of pair edges points at the forward edge of every pair. */
  ghost predicate Located(net: Net, graph: Graph, pairEdges: map<Pair, (nat, nat)>) {
    forall p :: p in pairEdges ==>
      && p.0 < net.lefts
      && pairEdges[p].0 == net.Left(p.0) < |graph|
      && pairEdges[p].1 < |graph[pairEdges[p].0]|
      && graph[pairEdges[p].0][pairEdges[p].1].end == net.Right(p.1)
  }

  lemma SourceStep(net: Net, graph: Graph, l: nat)
    requires net.Valid() && l < net.lefts && Built(net, Stage(net, l, {}, 0), graph)
    ensures Built(net, Stage(net, l + 1, {}, 0), WithEdge(graph, 0, net.Left(l), 1, 0))
  {
    AddEdgeBuilt(net, Stage(net, l, {}, 0), graph, 0, net.Left(l), 0);
    assert Stage(net, l + 1, {}, 0) == Stage(net, l, {}, 0) + {(0, net.Left(l)), (net.Left(l), 0)};
  }

  lemma SinkStep(net: Net, graph: Graph, pairEdges: map<Pair, (nat, nat)>, r: nat)
    requires net.Valid() && r < net.rights && Built(net, Stage(net, net.lefts, net.cost.Keys, r), graph)
    requires Located(net, graph, pairEdges)
    ensures Built(net, Stage(net, net.lefts, net.cost.Keys, r + 1), WithEdge(graph, net.Right(r), net.Sink(), 1, 0))
    ensures Located(net, WithEdge(graph, net.Right(r), net.Sink(), 1, 0), pairEdges)
  {
    var arcs := Stage(net, net.lefts, net.cost.Keys, r);
    AddEdgeBuilt(net, arcs, graph, net.Right(r), net.Sink(), 0);
    assert Stage(net, net.lefts, net.cost.Keys, r + 1) ==
             arcs + {(net.Right(r), net.Sink()), (net.Sink(), net.Right(r))};
  }

  method AddSourceEdges(ghost net: Net, leftCount: nat, size: nat) returns (graph: Graph)
    requires net.Valid() && leftCount == net.lefts && size == net.Size()
    ensures Built(net, Stage(net, net.lefts, {}, 0), graph)
  {
    graph := seq(size, _ => []);
    assert Stage(net, 0, {}, 0) == {};
    for left := 0 to leftCount
      invariant Built(net, Stage(net, left, {}, 0), graph)
    {
      SourceStep(net, graph, left);
      graph := AddEdge(graph, 0, 1 + left, 1, 0);
    }
  }

  method AddSinkEdges(ghost net: Net, rightCount: nat, firstRight: nat, graph0: Graph,
                      ghost pairEdges: map<Pair, (nat, nat)>)
    returns (graph: Graph)
    requires net.Valid() && rightCount == net.rights && firstRight == net.Right(0)
    requires Built(net, Stage(net, net.lefts, net.cost.Keys, 0), graph0) && Located(net, graph0, pairEdges)
    ensures Built(net, AllArcs(net), graph) && Located(net, graph, pairEdges)
  {
    graph := graph0;
    for right := 0 to rightCount
      invariant Built(net, Stage(net, net.lefts, net.cost.Keys, right), graph) && Located(net, graph, pairEdges)
    {
      SinkStep(net, graph, pairEdges, right);
      graph := AddEdge(graph, firstRight + right, firstRight + rightCount, 1, 0);
    }
    LastStage(net);
  }

  lemma LastStage(net: Net)
    requires net.Valid()
    ensures Stage(net, net.lefts, net.cost.Keys, net.rights) == AllArcs(net)
  {
  }

  /** The pairs of the rows before `l` and of the first `j` entries of row `l`. */
  ghost function PairsBefore(adjacency: Weighted, l: nat, j: nat): set<Pair> {
    set p | p in WeightedPairs(adjacency) && (p.0 < l || (p.0 == l && Column(adjacency, p) < j))
  }

  lemma PairStage(net: Net, done: set<Pair>, p: Pair)
    requires net.Valid() && p in net.cost
    ensures Stage(net, net.lefts, done + {p}, 0) ==
            Stage(net, net.lefts, done, 0) + {(net.Left(p.0), net.Right(p.1)), (net.Right(p.1), net.Left(p.0))}
    ensures p !in done ==> (net.Left(p.0), net.Right(p.1)) !in Stage(net, net.lefts, done, 0)
    ensures p !in done ==> (net.Right(p.1), net.Left(p.0)) !in Stage(net, net.lefts, done, 0)
  {
    var u, v := net.Left(p.0), net.Right(p.1);
    assert net.PairOf(u, v) == p && net.PairOf(v, u) == p;
    forall a | a in Stage(net, net.lefts, done + {p}, 0)
      ensures a in Stage(net, net.lefts, done, 0) + {(u, v), (v, u)}
    {
    }
  }

  ghost predicate Placed(net: Net, done: set<Pair>, graph: Graph, pairEdges: map<Pair, (nat, nat)>) {
    && Built(net, Stage(net, net.lefts, done, 0), graph)
    && Located(net, graph, pairEdges) && pairEdges.Keys == done
  }

  lemma PairStep(net: Net, done: set<Pair>, graph: Graph, pairEdges: map<Pair, (nat, nat)>, p: Pair,
                 start: nat, end: nat, cost: int)
    requires net.Valid() && p in net.cost && p !in done && Placed(net, done, graph, pairEdges)
    requires start == net.Left(p.0) && end == net.Right(p.1) && cost == net.cost[p]
    ensures Placed(net, done + {p}, WithEdge(graph, start, end, 1, cost), pairEdges[p := (start, |graph[start]|)])
  {
    PairStage(net, done, p);
    assert net.PairOf(start, end) == p && net.PairOf(end, start) == p;
    assert net.Arc(start, end) && net.Arc(end, start);
    AddEdgeBuilt(net, Stage(net, net.lefts, done, 0), graph, start, end, cost);
    LocatedGrows(net, graph, pairEdges, WithEdge(graph, start, end, 1, cost), p, |graph[start]|);
  }

  lemma LocatedGrows(net: Net, graph: Graph, pairEdges: map<Pair, (nat, nat)>, g: Graph, p: Pair, i: nat)
    requires Located(net, graph, pairEdges) && |g| == |graph|
    requires forall u, k :: 0 <= u < |graph| && 0 <= k < |graph[u]| ==> k < |g[u]| && g[u][k] == graph[u][k]
    requires p.0 < net.lefts && net.Left(p.0) < |g| && i < |g[net.Left(p.0)]|
    requires g[net.Left(p.0)][i].end == net.Right(p.1)
    ensures Located(net, g, pairEdges[p := (net.Left(p.0), i)])
  {
  }

  lemma PairsBeforeStep(adjacency: Weighted, rightCount: nat, l: nat, j: nat)
    requires ValidWeighted(adjacency, rightCount) && l < |adjacency| && j < |adjacency[l]|
    ensures var p: Pair := (l, adjacency[l][j].0);
            p !in PairsBefore(adjacency, l, j) && PairsBefore(adjacency, l, j + 1) == PairsBefore(adjacency, l, j) + {p}
  {
  }

  lemma PairsBeforeRow(adjacency: Weighted, rightCount: nat, l: nat)
    requires ValidWeighted(adjacency, rightCount) && l < |adjacency|
    ensures PairsBefore(adjacency, l, |adjacency[l]|) == PairsBefore(adjacency, l + 1, 0)
  {
  }

  method AddPairEdges(ghost net: Net, adjacency: Weighted, ghost rightCount: nat, target: nat, graph0: Graph)
    returns (graph: Graph, pairEdges: map<Pair, (nat, nat)>)
    requires ValidWeighted(adjacency, rightCount)
    requires net == NetOf(adjacency, rightCount, target) && net.Valid()
    requires Placed(net, {}, graph0, map[])
    ensures Placed(net, net.cost.Keys, graph, pairEdges)
  {
    graph, pairEdges := graph0, map[];
    ghost var done: set<Pair> := {};
    var scale := Scale(adjacency, target);
    var rank := 0;
    NoPairsBefore(adjacency);
    for left := 0 to |adjacency|
      invariant done == PairsBefore(adjacency, left, 0) && rank == RowStart(adjacency, left)
      invariant Placed(net, done, graph, pairEdges)
    {
      graph, pairEdges := AddRowEdges(net, adjacency, rightCount, target, left, scale, rank, graph, pairEdges);
      PairsBeforeRow(adjacency, rightCount, left);
      done := PairsBefore(adjacency, left, |adjacency[left]|);
      rank := rank + |adjacency[left]|;
    }
    AllPairsBefore(adjacency, rightCount, target);
  }

  lemma NoPairsBefore(adjacency: Weighted)
    ensures PairsBefore(adjacency, 0, 0) == {}
  {
  }

  lemma AllPairsBefore(adjacency: Weighted, rightCount: nat, target: nat)
    ensures PairsBefore(adjacency, |adjacency|, 0) == NetOf(adjacency, rightCount, target).cost.Keys
  {
  }

  method AddRowEdges(ghost net: Net, adjacency: Weighted, ghost rightCount: nat, ghost target: nat, left: nat,
                     scale: nat, rank0: nat, graph0: Graph, pairEdges0: map<Pair, (nat, nat)>)
    returns (graph: Graph, pairEdges: map<Pair, (nat, nat)>)
    requires ValidWeighted(adjacency, rightCount) && left < |adjacency|
    requires net == NetOf(adjacency, rightCount, target) && net.Valid()
    requires scale == Scale(adjacency, target) && rank0 == RowStart(adjacency, left)
    requires Placed(net, PairsBefore(adjacency, left, 0), graph0, pairEdges0)
    ensures Placed(net, PairsBefore(adjacency, left, |adjacency[left]|), graph, pairEdges)
  {
    graph, pairEdges := graph0, pairEdges0;
    ghost var done := PairsBefore(adjacency, left, 0);
    var rank := rank0;
    for j := 0 to |adjacency[left]|
      invariant done == PairsBefore(adjacency, left, j) && rank == rank0 + j
      invariant Placed(net, done, graph, pairEdges)
    {
      var pair := (left, adjacency[left][j].0);
      var cost := adjacency[left][j].1 * scale + rank;
      RowEntry(adjacency, rightCount, target, left, j, pair, cost);
      var start, end: nat := 1 + left, 1 + |adjacency| + pair.1;
      PairStep(net, done, graph, pairEdges, pair, start, end, cost);
      var position := |graph[start]|;
      graph := AddEdge(graph, start, end, 1, cost);
      pairEdges := pairEdges[pair := (start, position)];
      done := done + {pair};
      rank := rank + 1;
    }
  }

  lemma RowEntry(adjacency: Weighted, rightCount: nat, target: nat, l: nat, j: nat, p: Pair, cost: int)
    requires ValidWeighted(adjacency, rightCount) && l < |adjacency| && j < |adjacency[l]|
    requires p == (l, adjacency[l][j].0)
    requires cost == adjacency[l][j].1 * Scale(adjacency, target) + (RowStart(adjacency, l) + j)
    ensures p in NetOf(adjacency, rightCount, target).cost && NetOf(adjacency, rightCount, target).cost[p] == cost
    ensures p !in PairsBefore(adjacency, l, j) && PairsBefore(adjacency, l, j + 1) == PairsBefore(adjacency, l, j) + {p}
  {
    EntryIsPair(adjacency, rightCount, target, l, j);
    PairsBeforeStep(adjacency, rightCount, l, j);
  }
}
