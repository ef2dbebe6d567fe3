// The successive-shortest-path matcher that picks the cheapest set of exactly `target` pairs.
module MinCostPairs {
  import opened FiniteSums
  import opened Wrappers
  import opened Matchings
  import opened ShortestPaths
  import opened ResidualNetwork
  import opened ResidualGraph

  // ---------------------------------------------------------------------------
  // What holds between two augmentations, and along one
  // ---------------------------------------------------------------------------

  /** The rows encode the flow; `pi` is a feasible potential that agrees with the maintained
      one on the nodes that can still be reached. */
  ghost predicate Consistent(net: Net, f: Flow, graph: Graph, potential: seq<int>, pi: seq<int>, live: set<nat>) {
    && net.Valid() && Encodes(net, f, AllArcs(net), graph)
    && Feasible(net, f, pi) && Closed(net, f, live)
    && |potential| == net.Size() && potential[0] == 0
    && forall v :: v in live ==> 0 <= potential[v] == pi[v]
  }

  /** The flow while the predecessor edges are followed back from the sink: the unit that
      already arrived leaves `node` one unit short. */
  ghost predicate OnPath(net: Net, f: Flow, node: nat, hole: nat) {
    if node == 0 || node == net.Sink() then Conserved(net, f)
    else if net.IsRight(node) then
      var r := node - 1 - net.lefts;
      && IsMatching(net.cost.Keys, f.pairs) && f.lefts == Lefts(f.pairs)
      && r !in Rights(f.pairs) && f.rights == Rights(f.pairs) + {r}
    else
      var e := (node - 1, hole);
      var m := f.pairs - {e};
      && net.IsLeft(node) && e in f.pairs && e in net.cost
      && IsMatching(net.cost.Keys, m) && f.lefts == Lefts(m)
      && hole !in Rights(m) && f.rights == Rights(m) + {hole}
  }

  /** Pairs counted as if the unit had arrived. */
  ghost function PairsAt(net: Net, f: Flow, node: nat): nat {
    |f.pairs| + if net.IsRight(node) || node == net.Sink() then 1 else 0
  }

  ghost function NextFlow(net: Net, f: Flow, u: nat, v: nat): Flow
    requires net.Arc(u, v)
  {
    if v == net.Sink() then f.(rights := f.rights + {if net.IsRight(u) then u - 1 - net.lefts else 0})
    else if u == 0 then f.(lefts := f.lefts + {if net.IsLeft(v) then v - 1 else 0})
    else if net.IsLeft(u) && net.IsRight(v) then f.(pairs := f.pairs + {net.PairOf(u, v)})
    else if net.IsRight(u) && net.IsLeft(v) then f.(pairs := f.pairs - {net.PairOf(u, v)})
    else f
  }

  /** The arcs an augmenting path uses: the source is not re-entered and the sink not left. */
  ghost predicate PathArc(net: Net, u: nat, v: nat) {
    net.Arc(u, v) && v != 0 && u != net.Sink()
  }

  lemma NextPushes(net: Net, f: Flow, u: nat, v: nat)
    requires net.Valid() && PathArc(net, u, v) && net.Capacity(f, u, v) > 0
    ensures Pushes(net, f, NextFlow(net, f, u, v), u, v)
  {
  }

  lemma NextOnPath(net: Net, f: Flow, u: nat, v: nat, hole: nat)
    requires net.Valid() && PathArc(net, u, v) && net.Capacity(f, u, v) > 0
    requires OnPath(net, f, v, hole)
    requires net.IsLeft(v) ==> u != net.Right(hole)
    ensures OnPath(net, NextFlow(net, f, u, v), u, if net.IsRight(v) then v - 1 - net.lefts else 0)
    ensures PairsAt(net, NextFlow(net, f, u, v), u) == PairsAt(net, f, v)
  {
    if net.IsLeft(v) {
      if u == 0 {
        CloseHole(net, f, v, hole);
      } else {
        MoveHole(net, f, u, v, hole);
      }
    } else if net.IsRight(v) {
      var e := net.PairOf(u, v);
      assert NextFlow(net, f, u, v).pairs - {e} == f.pairs;
    }
  }

  /** The path arrives at the source: the extra pair at `v` becomes an ordinary one. */
  lemma CloseHole(net: Net, f: Flow, v: nat, hole: nat)
    requires net.Valid() && PathArc(net, 0, v) && net.Capacity(f, 0, v) > 0 && OnPath(net, f, v, hole)
    ensures Conserved(net, NextFlow(net, f, 0, v))
  {
    var e := (v - 1, hole);
    var m := f.pairs - {e};
    WithPair(net.cost.Keys, m, e);
    assert f.pairs == m + {e};
  }

  /** The pair of `v` that was there before gives way to the new one. */
  lemma MoveHole(net: Net, f: Flow, u: nat, v: nat, hole: nat)
    requires net.Valid() && net.Arc(u, v) && net.IsRight(u) && net.IsLeft(v) && net.Capacity(f, u, v) > 0
    requires OnPath(net, f, v, hole) && u != net.Right(hole)
    ensures OnPath(net, NextFlow(net, f, u, v), u, 0)
    ensures |NextFlow(net, f, u, v).pairs| + 1 == |f.pairs|
  {
    var e, d := (v - 1, hole), net.PairOf(u, v);
    var m := f.pairs - {e};
    assert d in m && d.0 == v - 1;
    WithoutPair(net.cost.Keys, m, d);
    WithPair(net.cost.Keys, m - {d}, e);
    assert f.pairs - {d} == (m - {d}) + {e};
  }

  lemma PushConsistent(net: Net, f: Flow, f': Flow, graph: Graph, u: nat, i: nat,
                       potential: seq<int>, pi: seq<int>, live: set<nat>)
    requires Consistent(net, f, graph, potential, pi, live)
    requires u < |graph| && i < |graph[u]| && graph[u][i].cap > 0
    requires Pushes(net, f, f', u, graph[u][i].end)
    requires u in live && graph[u][i].end in live
    requires graph[u][i].cost + pi[u] - pi[graph[u][i].end] == 0
    ensures EdgeFits(net, f, AllArcs(net), graph, u, i) && graph[u][i].end != u
    ensures Consistent(net, f', Pushed(graph, u, i), potential, pi, live)
  {
    PushKeepsEncoding(net, f, f', graph, u, i);
    var v := graph[u][i].end;
    forall a: nat, b: nat | net.Arc(a, b) && net.Capacity(f', a, b) > 0
      ensures net.Cost(a, b) + pi[a] - pi[b] >= 0
      ensures a in live ==> b in live
    {
      if (a, b) == (v, u) {
        assert net.Cost(v, u) == -net.Cost(u, v);
      } else {
        assert net.Capacity(f, a, b) > 0;
      }
    }
  }

  // ---------------------------------------------------------------------------
  // From one shortest-path tree to the next potential
  // ---------------------------------------------------------------------------

  /** The nodes 1..n. */
  ghost function FirstNodes(n: nat): (nodes: set<nat>)
    ensures forall u :: u in nodes <==> 1 <= u <= n
    ensures |nodes| == n
  {
    if n == 0 then {} else FirstNodes(n - 1) + {n}
  }

  ghost function LeftNodes(net: Net): set<nat> { FirstNodes(net.lefts) }

  ghost function SearchBounds(net: Net, live: set<nat>, limit: nat): Bounds { Bounds(live, LeftNodes(net), limit) }

  ghost predicate Affordable(net: Net, limit: nat) {
    && limit * net.lefts < INFINITY
    && forall p :: p in net.cost ==> 0 <= net.cost[p] <= limit
  }

  lemma CanSearch(net: Net, f: Flow, graph: Graph, potential: seq<int>, pi: seq<int>, live: set<nat>, limit: nat)
    requires Consistent(net, f, graph, potential, pi, live) && Affordable(net, limit)
    ensures Searchable(Problem(graph, potential, 0), SearchBounds(net, live, limit))
  {
    var p := Problem(graph, potential, 0);
    forall u, i | 0 <= u < |graph| && 0 <= i < |graph[u]| ensures graph[u][i].end < |graph| {
      assert EdgeFits(net, f, AllArcs(net), graph, u, i);
    }
    forall u: nat, i: nat | u in live && p.Residual(u, i)
      ensures graph[u][i].end in live && p.Reduced(u, i) >= 0
      ensures graph[u][i].cost <= if u in LeftNodes(net) then limit else 0
    {
      assert EdgeFits(net, f, AllArcs(net), graph, u, i);
      assert net.Arc(u, graph[u][i].end);
    }
  }

  ghost function ReachedNodes(distance: seq<int>): set<nat> {
    set v: nat | v < |distance| && distance[v] != INFINITY
  }

  /** Reached nodes move by their distance; the others are lifted out of the way. */
  ghost function Lifted(pi: seq<int>, distance: seq<int>, lift: int): seq<int>
    requires |pi| == |distance|
  {
    seq(|pi|, v requires 0 <= v < |pi| => pi[v] + if distance[v] != INFINITY then distance[v] else lift)
  }

  ghost function Advanced(potential: seq<int>, distance: seq<int>): seq<int>
    requires |potential| == |distance|
  {
    Lifted(potential, distance, 0)
  }

  lemma AdvanceFeasible(net: Net, f: Flow, graph: Graph, potential: seq<int>, pi: seq<int>, live: set<nat>, limit: nat,
                        distance: seq<int>, previous: seq<Option<(nat, nat)>>, rank: seq<nat>, u: nat, v: nat)
    requires Consistent(net, f, graph, potential, pi, live)
    requires ShortestPathTree(Problem(graph, potential, 0), SearchBounds(net, live, limit), distance, previous, rank)
    requires net.Arc(u, v) && net.Capacity(f, u, v) > 0
    ensures |pi| == |distance| == net.Size()
    ensures u in ReachedNodes(distance) ==> v in ReachedNodes(distance)
    ensures var pi' := Lifted(pi, distance, limit * |LeftNodes(net)|);
            net.Cost(u, v) + pi'[u] - pi'[v] >= 0
  {
    assert (u, v) in AllArcs(net) && HasEdge(graph, u, v);
    var i :| 0 <= i < |graph[u]| && graph[u][i].end == v;
    assert EdgeFits(net, f, AllArcs(net), graph, u, i);
    assert Problem(graph, potential, 0).Residual(u, i);
    assert net.Cost(u, v) + pi[u] - pi[v] >= 0;
  }

  lemma Advance(net: Net, f: Flow, graph: Graph, potential: seq<int>, pi: seq<int>, live: set<nat>, limit: nat,
                distance: seq<int>, previous: seq<Option<(nat, nat)>>, rank: seq<nat>)
    requires Consistent(net, f, graph, potential, pi, live)
    requires ShortestPathTree(Problem(graph, potential, 0), SearchBounds(net, live, limit), distance, previous, rank)
    ensures |pi| == |distance| == |potential|
    ensures ReachedNodes(distance) <= live
    ensures Consistent(net, f, graph, Advanced(potential, distance),
                       Lifted(pi, distance, limit * |LeftNodes(net)|), ReachedNodes(distance))
  {
    forall u: nat, v: nat | net.Arc(u, v) && net.Capacity(f, u, v) > 0
      ensures u in ReachedNodes(distance) ==> v in ReachedNodes(distance)
      ensures var pi' := Lifted(pi, distance, limit * |LeftNodes(net)|);
              net.Cost(u, v) + pi'[u] - pi'[v] >= 0
    {
      AdvanceFeasible(net, f, graph, potential, pi, live, limit, distance, previous, rank, u, v);
    }
  }

  // ---------------------------------------------------------------------------
  // Augmenting along the predecessor edges
  // ---------------------------------------------------------------------------

  /** Rows of nodes settled before `node` are as the search saw them. */
  ghost predicate Untouched(before: Graph, graph: Graph, rank: seq<nat>, node: nat)
    requires |before| == |graph| == |rank| && node < |rank|
  {
    forall w :: 0 <= w < |graph| && rank[w] < rank[node] ==> graph[w] == before[w]
  }

  /** One shortest-path tree, with the potentials it leads to. */
  datatype Search = Search(net: Net, graph0: Graph, potential0: seq<int>, bounds: Bounds, distance: seq<int>,
                           previous: seq<Option<(nat, nat)>>, rank: seq<nat>, pi: seq<int>)
  {
    ghost predicate Valid() {
      && net.Valid() && |potential0| == net.Size()
      && ShortestPathTree(Problem(graph0, potential0, 0), bounds, distance, previous, rank)
      && |graph0| == net.Size()
    }

    ghost function Live(): set<nat> { ReachedNodes(distance) }

    ghost function Potential(): seq<int>
      requires |potential0| == |distance|
    {
      Advanced(potential0, distance)
    }
  }

  /** The flow is one unit short at the node, and counts as many pairs as it did at the sink. */
  ghost predicate FlowAt(w: Search, units: nat, f: Flow, node: nat, hole: nat) {
    OnPath(w.net, f, node, hole) && PairsAt(w.net, f, node) == units
  }

  /** The edge lists still encode the flow, and the potentials still fit it. */
  ghost predicate EncodedAt(w: Search, f: Flow, graph: Graph)
    requires w.Valid()
  {
    |graph| == w.net.Size() && Consistent(w.net, f, graph, w.Potential(), w.pi, w.Live())
  }

  /** The node comes before all nodes whose rows have changed. */
  ghost predicate RankedAt(w: Search, graph: Graph, node: nat, hole: nat)
    requires w.Valid() && |graph| == w.net.Size()
  {
    && node in w.Live() && Untouched(w.graph0, graph, w.rank, node)
    && (node != w.net.Sink() ==> w.rank[node] < w.rank[w.net.Sink()])
    && (w.net.IsLeft(node) ==> w.net.Right(hole) < w.net.Size() && w.rank[node] < w.rank[w.net.Right(hole)])
  }

  /** The state while the predecessors are followed back: `node` is still to be entered. */
  ghost predicate Walking(w: Search, units: nat, f: Flow, graph: Graph, node: nat, hole: nat)
    requires w.Valid()
  {
    FlowAt(w, units, f, node, hole) && EncodedAt(w, f, graph) && RankedAt(w, graph, node, hole)
  }

  /** The edge by which a node was entered still leads to it. */
  ghost predicate Leads(w: Search, graph: Graph, start: nat, index: nat, node: nat)
    requires w.Valid()
  {
    && node < |w.rank| && start < |graph| && index < |graph[start]| && graph[start][index].end == node != start
    && w.net.Arc(start, node) && node < |graph| && graph[start][index].rev < |graph[node]|
    && start < |w.rank| && w.rank[start] < w.rank[node]
  }

  /** One unit can be pushed over the edge, which is tight and has residual capacity. */
  ghost predicate Pushable(w: Search, f: Flow, graph: Graph, start: nat, index: nat, node: nat)
    requires w.Valid() && Leads(w, graph, start, index, node)
  {
    && start in w.Live() && node in w.Live() && graph[start][index].cap > 0 && |w.pi| > start && |w.pi| > node
    && graph[start][index].cost + w.pi[start] - w.pi[node] == 0
    && PathArc(w.net, start, node) && w.net.Capacity(f, start, node) > 0
  }

  lemma WalkEdge(w: Search, units: nat, f: Flow, graph: Graph, node: nat, hole: nat) returns (start: nat, index: nat)
    requires w.Valid() && Walking(w, units, f, graph, node, hole) && node != 0
    ensures w.previous[node].Some? && w.previous[node].value == (start, index)
    ensures Leads(w, graph, start, index, node) && Pushable(w, f, graph, start, index, node)
  {
    assert Entered(Problem(w.graph0, w.potential0, 0), w.distance, w.previous, w.rank, node);
    start, index := w.previous[node].value.0, w.previous[node].value.1;
    assert graph[start] == w.graph0[start];
    assert EdgeFits(w.net, f, AllArcs(w.net), graph, start, index);
  }

  lemma NextConsistent(net: Net, f: Flow, graph: Graph, u: nat, i: nat, potential: seq<int>, pi: seq<int>,
                       live: set<nat>)
    requires Consistent(net, f, graph, potential, pi, live)
    requires u < |graph| && i < |graph[u]| && graph[u][i].cap > 0 && u in live && graph[u][i].end in live
    requires PathArc(net, u, graph[u][i].end) && net.Capacity(f, u, graph[u][i].end) > 0
    requires graph[u][i].cost + pi[u] - pi[graph[u][i].end] == 0
    requires u != graph[u][i].end < |graph| && graph[u][i].rev < |graph[graph[u][i].end]|
    ensures Consistent(net, NextFlow(net, f, u, graph[u][i].end), Pushed(graph, u, i), potential, pi, live)
  {
    NextPushes(net, f, u, graph[u][i].end);
    PushConsistent(net, f, NextFlow(net, f, u, graph[u][i].end), graph, u, i, potential, pi, live);
  }

  /** The node the unit is missing from once the pair edge into a right node has been pushed. */
  ghost function NextHole(net: Net, node: nat): nat { if net.IsRight(node) then node - 1 - net.lefts else 0 }

  lemma FlowStep(w: Search, units: nat, f: Flow, graph: Graph, node: nat, hole: nat, start: nat, index: nat)
    requires w.Valid() && FlowAt(w, units, f, node, hole)
    requires w.net.IsLeft(node) ==> start != w.net.Right(hole)
    requires Leads(w, graph, start, index, node) && Pushable(w, f, graph, start, index, node)
    ensures FlowAt(w, units, NextFlow(w.net, f, start, node), start, NextHole(w.net, node))
  {
    NextOnPath(w.net, f, start, node, hole);
  }

  lemma EncodedStep(w: Search, f: Flow, graph: Graph, node: nat, start: nat, index: nat)
    requires w.Valid() && EncodedAt(w, f, graph)
    requires Leads(w, graph, start, index, node) && Pushable(w, f, graph, start, index, node)
    ensures EncodedAt(w, NextFlow(w.net, f, start, node), Pushed(graph, start, index))
  {
    NextConsistent(w.net, f, graph, start, index, w.Potential(), w.pi, w.Live());
  }

  lemma RankedStep(w: Search, f: Flow, graph: Graph, node: nat, hole: nat, start: nat, index: nat)
    requires w.Valid() && |graph| == w.net.Size() && RankedAt(w, graph, node, hole)
    requires Leads(w, graph, start, index, node) && Pushable(w, f, graph, start, index, node)
    ensures |Pushed(graph, start, index)| == w.net.Size()
    ensures RankedAt(w, Pushed(graph, start, index), start, NextHole(w.net, node))
  {
    PushedUntouched(w.graph0, graph, start, index, w.rank, node);
  }

  lemma WalkStep(w: Search, units: nat, f: Flow, graph: Graph, node: nat, hole: nat, start: nat, index: nat)
    requires w.Valid() && Walking(w, units, f, graph, node, hole)
    requires Leads(w, graph, start, index, node) && Pushable(w, f, graph, start, index, node)
    ensures Walking(w, units, NextFlow(w.net, f, start, node), Pushed(graph, start, index), start,
                    NextHole(w.net, node))
  {
    FlowStep(w, units, f, graph, node, hole, start, index);
    EncodedStep(w, f, graph, node, start, index);
    RankedStep(w, f, graph, node, hole, start, index);
  }

  lemma Walk(w: Search, units: nat, f: Flow, graph: Graph, node: nat, hole: nat)
    requires w.Valid() && Walking(w, units, f, graph, node, hole) && node != 0
    ensures w.previous[node].Some?
    ensures var (start, index) := w.previous[node].value;
            && Leads(w, graph, start, index, node)
            && Walking(w, units, NextFlow(w.net, f, start, node), Pushed(graph, start, index), start,
                       NextHole(w.net, node))
  {
    var start, index := WalkEdge(w, units, f, graph, node, hole);
    WalkStep(w, units, f, graph, node, hole, start, index);
  }

  /** Takes one unit of capacity from the edge and gives it to its reverse. */
  method PushUnit(graph0: Graph, start: nat, index: nat) returns (graph: Graph)
    requires start < |graph0| && index < |graph0[start]| && graph0[start][index].end < |graph0|
    requires graph0[start][index].end != start
    requires graph0[start][index].rev < |graph0[graph0[start][index].end]|
    ensures graph == Pushed(graph0, start, index)
  {
    var edge := graph0[start][index];
    graph := graph0[start := graph0[start][index := edge.(cap := edge.cap - 1)]];
    var back := graph[edge.end][edge.rev];
    graph := graph[edge.end := graph[edge.end][edge.rev := back.(cap := back.cap + 1)]];
  }

  /** Sends one unit from the source to the sink along tight edges. */
  method Augment(ghost w: Search, sink: nat, previous: seq<Option<(nat, nat)>>, graph0: Graph, ghost f0: Flow,
                 ghost pairEdges: map<Pair, (nat, nat)>)
    returns (ok: bool, graph: Graph, ghost f: Flow)
    requires w.Valid() && previous == w.previous && graph0 == w.graph0 && sink == w.net.Sink()
    requires Consistent(w.net, f0, graph0, w.Potential(), w.pi, w.Live()) && Conserved(w.net, f0)
    requires sink in w.Live() && Located(w.net, graph0, pairEdges)
    ensures ok && Located(w.net, graph, pairEdges)
    ensures Consistent(w.net, f, graph, w.Potential(), w.pi, w.Live()) && Conserved(w.net, f)
    ensures |f.pairs| == |f0.pairs| + 1
  {
    graph, f := graph0, f0;
    var node: nat := sink;
    ghost var hole: nat := 0;
    while node != 0
      invariant Walking(w, |f0.pairs| + 1, f, graph, node, hole)
      invariant Located(w.net, graph, pairEdges)
      decreases w.rank[node]
    {
      Walk(w, |f0.pairs| + 1, f, graph, node, hole);
      var predecessor := previous[node];
      if predecessor.None? {
        return false, graph, f;
      }
      var (start, index) := predecessor.value;
      f := NextFlow(w.net, f, start, node);
      hole := NextHole(w.net, node);
      PushedLocated(w.net, graph, start, index, pairEdges);
      graph := PushUnit(graph, start, index);
      node := start;
    }
    ok := true;
  }

  lemma PushedUntouched(before: Graph, graph: Graph, u: nat, i: nat, rank: seq<nat>, node: nat)
    requires |before| == |graph| == |rank| && node < |rank|
    requires Untouched(before, graph, rank, node)
    requires u < |graph| && i < |graph[u]| && graph[u][i].end == node != u
    requires graph[u][i].rev < |graph[node]|
    requires rank[u] < rank[node]
    ensures |Pushed(graph, u, i)| == |graph|
    ensures Untouched(before, Pushed(graph, u, i), rank, u)
  {
  }

  lemma PushedLocated(net: Net, graph: Graph, u: nat, i: nat, pairEdges: map<Pair, (nat, nat)>)
    requires u < |graph| && i < |graph[u]| && graph[u][i].end < |graph|
    requires graph[u][i].end != u && graph[u][i].rev < |graph[graph[u][i].end]|
    requires Located(net, graph, pairEdges)
    ensures Located(net, Pushed(graph, u, i), pairEdges)
  {
    forall p | p in pairEdges
      ensures && pairEdges[p].0 < |Pushed(graph, u, i)| && pairEdges[p].1 < |Pushed(graph, u, i)[pairEdges[p].0]|
              && Pushed(graph, u, i)[pairEdges[p].0][pairEdges[p].1].end == net.Right(p.1)
    {
      PushedAt(graph, u, i, pairEdges[p].0, pairEdges[p].1);
    }
  }

  // ---------------------------------------------------------------------------
  // What the scaled costs mean
  // ---------------------------------------------------------------------------

  ghost function PrimaryOf(adjacency: Weighted): Pair -> int {
    (p: Pair) => if p in WeightedPairs(adjacency) then Primary(adjacency, p) else 0
  }

  ghost function OrderOf(adjacency: Weighted): Pair -> int {
    (p: Pair) => if p in WeightedPairs(adjacency) then RankOf(adjacency, p) else 0
  }

  /** `m` is cheaper than `other`, or as cheap and no later in reading order. */
  ghost predicate NoWorse(adjacency: Weighted, m: set<Pair>, other: set<Pair>) {
    || Sum(m, PrimaryOf(adjacency)) < Sum(other, PrimaryOf(adjacency))
    || (Sum(m, PrimaryOf(adjacency)) == Sum(other, PrimaryOf(adjacency))
        && Sum(m, OrderOf(adjacency)) <= Sum(other, OrderOf(adjacency)))
  }

  lemma RowStartMonotone(adjacency: Weighted, l: nat, m: nat)
    requires l <= m <= |adjacency|
    ensures RowStart(adjacency, l) <= RowStart(adjacency, m)
    decreases m
  {
    if l < m {
      RowStartMonotone(adjacency, l, m - 1);
    }
  }

  lemma RankBelow(adjacency: Weighted, p: Pair)
    requires p in WeightedPairs(adjacency)
    ensures 0 <= RankOf(adjacency, p) < EdgeCount(adjacency)
  {
    RowStartMonotone(adjacency, p.0 + 1, |adjacency|);
  }

  /** The total cost has the primary cost as its high part and the ranks as its low part. */
  lemma CostDigits(adjacency: Weighted, rightCount: nat, target: nat, m: set<Pair>)
    requires IsMatching(WeightedPairs(adjacency), m) && |m| == target
    ensures TotalCost(NetOf(adjacency, rightCount, target), m) ==
            Scale(adjacency, target) * Sum(m, PrimaryOf(adjacency)) + Sum(m, OrderOf(adjacency))
    ensures 0 <= Sum(m, OrderOf(adjacency)) < Scale(adjacency, target)
  {
    var net := NetOf(adjacency, rightCount, target);
    CombinedSum(m, PairCost(net), Scale(adjacency, target), PrimaryOf(adjacency), OrderOf(adjacency)) by {
      forall p | p in m
        ensures PairCost(net)(p) == Scale(adjacency, target) * PrimaryOf(adjacency)(p) + OrderOf(adjacency)(p)
      {
        PairDigits(adjacency, rightCount, target, p);
      }
    }
    OrderBelowScale(adjacency, target, m);
  }

  lemma PairDigits(adjacency: Weighted, rightCount: nat, target: nat, p: Pair)
    requires p in WeightedPairs(adjacency)
    ensures PairCost(NetOf(adjacency, rightCount, target))(p) ==
            Scale(adjacency, target) * PrimaryOf(adjacency)(p) + OrderOf(adjacency)(p)
  {
    var net := NetOf(adjacency, rightCount, target);
    assert net.cost[p] == Primary(adjacency, p) * Scale(adjacency, target) + RankOf(adjacency, p);
  }

  lemma OrderBelowScale(adjacency: Weighted, target: nat, m: set<Pair>)
    requires m <= WeightedPairs(adjacency) && |m| == target
    ensures 0 <= Sum(m, OrderOf(adjacency)) < Scale(adjacency, target)
  {
    forall p | p in m ensures 0 <= OrderOf(adjacency)(p) <= EdgeCount(adjacency) {
      RankBelow(adjacency, p);
    }
    var total := Sum(m, OrderOf(adjacency));
    SumBounds(m, OrderOf(adjacency), 0, EdgeCount(adjacency));
    BelowScale(adjacency, target, EdgeCount(adjacency), total);
  }

  lemma BelowScale(adjacency: Weighted, target: nat, edges: nat, total: int)
    requires edges == EdgeCount(adjacency) && 0 * target <= total <= edges * target
    ensures 0 <= total < Scale(adjacency, target)
  {
    var width: nat := if edges >= 1 then edges else 1;
    Wider(edges, width, target);
    assert Scale(adjacency, target) == target * width + 1;
  }

  lemma Wider(a: nat, b: nat, k: nat)
    requires a <= b
    ensures a * k <= k * b
  {
  }

  lemma {:induction false} CombinedSum<T(!new)>(s: set<T>, h: T -> int, c: int, f: T -> int, g: T -> int)
    requires forall x :: x in s ==> h(x) == c * f(x) + g(x)
    ensures Sum(s, h) == c * Sum(s, f) + Sum(s, g)
    decreases s
  {
    if s != {} {
      var x :| x in s;
      SumRemove(s, f, x);
      SumRemove(s, g, x);
      SumRemove(s, h, x);
      CombinedSum(s - {x}, h, c, f, g);
      Spread(c, f(x), Sum(s - {x}, f));
    }
  }

  lemma Spread(c: int, x: int, y: int)
    ensures c * (x + y) == c * x + c * y
  {
  }

  lemma HighDigitDecides(scale: nat, p: int, r: int, p': int, r': int)
    requires 0 <= r < scale && 0 <= r' < scale
    requires scale * p + r <= scale * p' + r'
    ensures p < p' || (p == p' && r <= r')
  {
    if p' < p {
      ScaleStep(scale, p', p);
    }
  }

  lemma ScaleStep(scale: nat, x: int, y: int)
    requires x < y
    ensures scale * x + scale <= scale * y
  {
    var d := y - x;
    Spread(scale, x, d);
    Monotone(scale, 1, d);
    assert x + d == y;
  }

  lemma CheapestIsLexicographic(adjacency: Weighted, rightCount: nat, target: nat, m: set<Pair>, other: set<Pair>)
    requires IsMatching(WeightedPairs(adjacency), m) && |m| == target
    requires IsMatching(WeightedPairs(adjacency), other) && |other| == target
    requires TotalCost(NetOf(adjacency, rightCount, target), m) <=
               TotalCost(NetOf(adjacency, rightCount, target), other)
    ensures NoWorse(adjacency, m, other)
  {
    CostDigits(adjacency, rightCount, target, m);
    CostDigits(adjacency, rightCount, target, other);
    HighDigitDecides(Scale(adjacency, target), Sum(m, PrimaryOf(adjacency)), Sum(m, OrderOf(adjacency)),
                     Sum(other, PrimaryOf(adjacency)), Sum(other, OrderOf(adjacency)));
  }

  // ---------------------------------------------------------------------------
  // The matcher
  // ---------------------------------------------------------------------------

  /** `Selected` lists the pairs in order; the other two are the errors the loop can raise. */
  datatype Outcome = Selected(pairs: seq<Pair>) | Infeasible | Incomplete

  ghost function AsSet(pairs: seq<Pair>): set<Pair> { set p | p in pairs }

  predicate Before(p: Pair, q: Pair) { p.0 < q.0 || (p.0 == q.0 && p.1 < q.1) }

  ghost predicate Ascending(pairs: seq<Pair>) {
    forall i, j | 0 <= i < j < |pairs| :: Before(pairs[i], pairs[j])
  }

  /** Even `n` edges of the greatest cost stay below the marker of unreached nodes. */
  ghost predicate BelowMarker(limit: nat, n: nat) { limit * n < INFINITY }

  /** No path can cost as much as the value that marks unreached nodes. */
  ghost predicate BelowInfinity(adjacency: Weighted, target: nat, limit: nat) {
    && BelowMarker(limit, |adjacency|)
    && forall l, j | 0 <= l < |adjacency| && 0 <= j < |adjacency[l]| ::
         adjacency[l][j].1 * Scale(adjacency, target) + EdgeCount(adjacency) <= limit
  }

  /** Selected pairs are listed by left and then by right vertex. */
  lemma AscendingMeans(pairs: seq<Pair>, i: nat, j: nat)
    requires Ascending(pairs) && i < j < |pairs|
    ensures pairs[i].0 < pairs[j].0 || (pairs[i].0 == pairs[j].0 && pairs[i].1 < pairs[j].1)
  {
    assert Before(pairs[i], pairs[j]);
  }

  ghost predicate IsFirst(s: set<Pair>, p: Pair) { p in s && forall q :: q in s ==> q == p || Before(p, q) }

  lemma {:induction false} FirstExists(s: set<Pair>) returns (first: Pair)
    requires s != {}
    ensures IsFirst(s, first)
    decreases s
  {
    first :| first in s;
    if s != {first} {
      var y := FirstExists(s - {first});
      assert forall q :: q in s ==> q == first || q in s - {first};
      first := if Before(first, y) then first else y;
    }
  }

  /** The pairs taken so far come before the rest. */
  ghost predicate Sorting(s: set<Pair>, pairs: seq<Pair>, rest: set<Pair>) {
    && Ascending(pairs) && AsSet(pairs) + rest == s && AsSet(pairs) !! rest && |pairs| + |rest| == |s|
    && forall p, q :: p in pairs && q in rest ==> Before(p, q)
  }

  lemma SortNext(s: set<Pair>, pairs: seq<Pair>, rest: set<Pair>, p: Pair)
    requires Sorting(s, pairs, rest) && IsFirst(rest, p)
    ensures Sorting(s, pairs + [p], rest - {p})
  {
    assert AsSet(pairs + [p]) == AsSet(pairs) + {p};
    assert forall x :: x in pairs + [p] <==> x in pairs || x == p;
  }

  method SortedPairs(s: set<Pair>) returns (pairs: seq<Pair>)
    ensures Ascending(pairs) && AsSet(pairs) == s && |pairs| == |s|
  {
    pairs := [];
    var rest := s;
    while rest != {}
      invariant Sorting(s, pairs, rest)
      decreases rest
    {
      ghost var first := FirstExists(rest);
      var p :| p in rest && forall q :: q in rest ==> q == p || Before(p, q);
      SortNext(s, pairs, rest, p);
      pairs := pairs + [p];
      rest := rest - {p};
    }
  }

  /** Everything that holds between two augmentations. */
  ghost predicate Ready(net: Net, f: Flow, graph: Graph, potential: seq<int>, pi: seq<int>, live: set<nat>,
                        pairEdges: map<Pair, (nat, nat)>) {
    && Consistent(net, f, graph, potential, pi, live) && Conserved(net, f)
    && Located(net, graph, pairEdges) && pairEdges.Keys == net.cost.Keys
  }

  ghost function AllNodes(net: Net): set<nat> { FirstNodes(net.Sink()) + {0} }

  lemma ReadyAtStart(net: Net, graph: Graph, pairEdges: map<Pair, (nat, nat)>, limit: nat)
    requires net.Valid() && Affordable(net, limit) && Built(net, AllArcs(net), graph)
    requires Located(net, graph, pairEdges) && pairEdges.Keys == net.cost.Keys
    ensures Ready(net, EMPTY, graph, seq(net.Size(), _ => 0), seq(net.Size(), _ => 0), AllNodes(net), pairEdges)
  {
  }

  lemma NetIsAffordable(adjacency: Weighted, rightCount: nat, target: nat, limit: nat)
    requires ValidWeighted(adjacency, rightCount) && BelowInfinity(adjacency, target, limit)
    ensures NetOf(adjacency, rightCount, target).Valid() && Affordable(NetOf(adjacency, rightCount, target), limit)
  {
    var net := NetOf(adjacency, rightCount, target);
    forall p | p in net.cost ensures 0 <= net.cost[p] <= limit && p.0 < net.lefts && p.1 < net.rights {
      RankBelow(adjacency, p);
      NonNegativeProduct(Primary(adjacency, p), Scale(adjacency, target));
    }
  }

  lemma NonNegativeProduct(x: int, y: nat)
    requires x >= 0
    ensures x * y >= 0
  {
  }

  /** The whole graph before the first augmentation. */
  method BuildGraph(ghost net: Net, adjacency: Weighted, rightCount: nat, target: nat)
    returns (graph: Graph, pairEdges: map<Pair, (nat, nat)>)
    requires ValidWeighted(adjacency, rightCount)
    requires net == NetOf(adjacency, rightCount, target) && net.Valid()
    ensures Built(net, AllArcs(net), graph)
    ensures Located(net, graph, pairEdges) && pairEdges.Keys == net.cost.Keys
  {
    graph := AddSourceEdges(net, |adjacency|, |adjacency| + rightCount + 2);
    graph, pairEdges := AddPairEdges(net, adjacency, rightCount, target, graph);
    graph := AddSinkEdges(net, rightCount, 1 + |adjacency|, graph, pairEdges);
  }

  /** Adds the distances of the reached nodes to their potentials. */
  method UpdatePotential(potential0: seq<int>, distance: seq<int>) returns (potential: seq<int>)
    requires |potential0| == |distance|
    ensures potential == Advanced(potential0, distance)
  {
    potential := potential0;
    for node := 0 to |distance|
      invariant |potential| == |distance|
      invariant forall v :: 0 <= v < node ==> potential[v] == Advanced(potential0, distance)[v]
      invariant forall v :: node <= v < |distance| ==> potential[v] == potential0[v]
    {
      if distance[node] != INFINITY {
        potential := potential[node := potential[node] + distance[node]];
      }
    }
  }

  /** One round: a shortest path, the new potential, and one unit along the path.  The sink is
      out of reach only when the matching is maximum. */
  method Round(ghost net: Net, sink: nat, ghost f0: Flow, graph0: Graph, potential0: seq<int>, ghost pi0: seq<int>,
               ghost live0: set<nat>, ghost pairEdges: map<Pair, (nat, nat)>, ghost limit: nat)
    returns (error: Option<Outcome>, graph: Graph, potential: seq<int>, ghost f: Flow, ghost pi: seq<int>,
             ghost live: set<nat>)
    requires Ready(net, f0, graph0, potential0, pi0, live0, pairEdges) && Affordable(net, limit) && sink == net.Sink()
    ensures error.Some? ==> error.value == Infeasible && Maximum(net.cost.Keys, f0.pairs)
    ensures error.None? ==> Ready(net, f, graph, potential, pi, live, pairEdges) && |f.pairs| == |f0.pairs| + 1
  {
    graph, potential, f, pi, live := graph0, potential0, f0, pi0, live0;
    CanSearch(net, f0, graph0, potential0, pi0, live0, limit);
    var distance, previous, rank := ShortestPathsFrom(Problem(graph0, potential0, 0), SearchBounds(net, live0, limit));
    Advance(net, f0, graph0, potential0, pi0, live0, limit, distance, previous, rank);
    live := ReachedNodes(distance);
    if distance[sink] == INFINITY {
      CutIsMaximum(net, f0, live);
      error := Some(Infeasible);
      return;
    }
    potential := UpdatePotential(potential0, distance);
    pi := Lifted(pi0, distance, limit * |LeftNodes(net)|);
    ghost var w := Search(net, graph0, potential0, SearchBounds(net, live0, limit), distance, previous, rank, pi);
    var ok;
    ok, graph, f := Augment(w, sink, previous, graph0, f0, pairEdges);
    error := if ok then None else Some(Incomplete);
  }

  /** The pairs whose edge carries a unit. */
  lemma SaturatedPairs(net: Net, f: Flow, graph: Graph, pairEdges: map<Pair, (nat, nat)>)
    requires net.Valid() && Encodes(net, f, AllArcs(net), graph) && f.pairs <= net.cost.Keys
    requires Located(net, graph, pairEdges) && pairEdges.Keys == net.cost.Keys
    ensures f.pairs == set p | p in pairEdges && graph[pairEdges[p].0][pairEdges[p].1].cap == 0
  {
    forall p | p in pairEdges ensures graph[pairEdges[p].0][pairEdges[p].1].cap == 0 <==> p in f.pairs {
      SaturatedPair(net, f, graph, p, pairEdges[p].1);
    }
  }

  lemma SaturatedPair(net: Net, f: Flow, graph: Graph, p: Pair, i: nat)
    requires net.Valid() && Encodes(net, f, AllArcs(net), graph) && p in net.cost
    requires net.Left(p.0) < |graph| && i < |graph[net.Left(p.0)]|
    requires graph[net.Left(p.0)][i].end == net.Right(p.1)
    ensures graph[net.Left(p.0)][i].cap == 0 <==> p in f.pairs
  {
    assert EdgeFits(net, f, AllArcs(net), graph, net.Left(p.0), i);
    assert net.PairOf(net.Left(p.0), net.Right(p.1)) == p;
  }

  method CollectPairs(ghost net: Net, ghost f: Flow, graph: Graph, pairEdges: map<Pair, (nat, nat)>)
    returns (pairs: seq<Pair>)
    requires net.Valid() && Encodes(net, f, AllArcs(net), graph) && f.pairs <= net.cost.Keys
    requires Located(net, graph, pairEdges) && pairEdges.Keys == net.cost.Keys
    ensures Ascending(pairs) && AsSet(pairs) == f.pairs && |pairs| == |f.pairs|
  {
    SaturatedPairs(net, f, graph, pairEdges);
    pairs := SortedPairs(set p | p in pairEdges && graph[pairEdges[p].0][pairEdges[p].1].cap == 0);
  }

  /** The result is a matching of exactly `target` pairs that no other one beats, and the
      only possible failure is that no such matching exists. */
  ghost predicate Answers(adjacency: Weighted, target: nat, outcome: Outcome) {
    match outcome
    case Selected(pairs) =>
      && Ascending(pairs) && |pairs| == target == |AsSet(pairs)|
      && IsMatching(WeightedPairs(adjacency), AsSet(pairs))
      && forall other :: IsMatching(WeightedPairs(adjacency), other) && |other| == target ==>
           NoWorse(adjacency, AsSet(pairs), other)
    case Infeasible =>
      forall m :: IsMatching(WeightedPairs(adjacency), m) ==> |m| < target
    case Incomplete => false
  }

  lemma FlowAnswers(adjacency: Weighted, rightCount: nat, target: nat, f: Flow, pi: seq<int>, pairs: seq<Pair>)
    requires ValidWeighted(adjacency, rightCount)
    requires var net := NetOf(adjacency, rightCount, target); net.Valid() && Conserved(net, f) && Feasible(net, f, pi)
    requires Ascending(pairs) && AsSet(pairs) == f.pairs && |pairs| == |f.pairs| == target
    ensures Answers(adjacency, target, Selected(pairs))
  {
    var net := NetOf(adjacency, rightCount, target);
    forall other | IsMatching(WeightedPairs(adjacency), other) && |other| == target
      ensures NoWorse(adjacency, AsSet(pairs), other)
    {
      FeasibleIsOptimal(net, f, pi, other);
      CheapestIsLexicographic(adjacency, rightCount, target, f.pairs, other);
    }
  }

  method MinimumCostPairs(adjacency: Weighted, rightCount: nat, target: nat, ghost limit: nat)
    returns (outcome: Outcome)
    requires ValidWeighted(adjacency, rightCount) && BelowInfinity(adjacency, target, limit)
    ensures Answers(adjacency, target, outcome)
  {
    if target == 0 {
      NothingSelected(adjacency);
      return Selected([]);
    }
    ghost var net := NetOf(adjacency, rightCount, target);
    NetIsAffordable(adjacency, rightCount, target, limit);
    var graph, pairEdges := BuildGraph(net, adjacency, rightCount, target);
    var error;
    ghost var f, pi;
    error, graph, f, pi := SendUnits(net, |adjacency| + rightCount + 1, target, graph, pairEdges, limit);
    if error.Some? {
      return error.value;
    }
    var pairs := CollectPairs(net, f, graph, pairEdges);
    FlowAnswers(adjacency, rightCount, target, f, pi, pairs);
    outcome := Selected(pairs);
  }

  /** Augments until `target` units flow. */
  method SendUnits(ghost net: Net, sink: nat, target: nat, graph0: Graph, ghost pairEdges: map<Pair, (nat, nat)>,
                   ghost limit: nat)
    returns (error: Option<Outcome>, graph: Graph, ghost f: Flow, ghost pi: seq<int>)
    requires net.Valid() && Affordable(net, limit) && sink == net.Sink()
    requires Built(net, AllArcs(net), graph0) && Located(net, graph0, pairEdges) && pairEdges.Keys == net.cost.Keys
    ensures error.Some? ==> error.value == Infeasible && forall m :: IsMatching(net.cost.Keys, m) ==> |m| < target
    ensures error.None? ==> Conserved(net, f) && Feasible(net, f, pi) && |f.pairs| == target
    ensures error.None? ==> Encodes(net, f, AllArcs(net), graph) && Located(net, graph, pairEdges)
  {
    graph, error := graph0, None;
    var potential := seq(sink + 1, _ => 0);
    ghost var live := AllNodes(net);
    f, pi := EMPTY, potential;
    ReadyAtStart(net, graph, pairEdges, limit);
    var flow := 0;
    while flow < target
      invariant Ready(net, f, graph, potential, pi, live, pairEdges)
      invariant flow == |f.pairs| <= target
    {
      error, graph, potential, f, pi, live := Round(net, sink, f, graph, potential, pi, live, pairEdges, limit);
      if error.Some? {
        return;
      }
      flow := flow + 1;
    }
    error := None;
  }

  lemma NothingSelected(adjacency: Weighted)
    ensures Answers(adjacency, 0, Selected([]))
  {
    forall other | IsMatching(WeightedPairs(adjacency), other) && |other| == 0 ensures other == {} {
    }
  }
}
