// The shortest-path phase of the min-cost flow: Dijkstra's search over reduced costs
// with a heap that keeps outdated entries.
module ShortestPaths {
  import opened FiniteSums
  import opened Wrappers

  /** A residual edge; `rev` is the position of its reverse edge in the row of `end`. */
  datatype Edge = Edge(end: nat, rev: nat, cap: int, cost: int)

  type Graph = seq<seq<Edge>>

  /** The distance of a node that was not reached: 1 << 120. */
  const INFINITY: int := 0x1_000000_000000_000000_000000_000000

  /** What one search reads. */
  datatype Problem = Problem(graph: Graph, potential: seq<int>, source: nat)
  {
    predicate Residual(u: nat, i: nat) {
      u < |graph| && i < |graph[u]| && graph[u][i].cap > 0
    }

    function Reduced(u: nat, i: nat): int
      requires u < |graph| == |potential| && i < |graph[u]| && graph[u][i].end < |graph|
    {
      graph[u][i].cost + potential[u] - potential[graph[u][i].end]
    }

    ghost predicate Shaped() {
      && source < |graph| == |potential|
      && forall u, i :: 0 <= u < |graph| && 0 <= i < |graph[u]| ==> graph[u][i].end < |graph|
    }
  }

  /** What bounds one search: the nodes it may enter, those whose outgoing edges may cost
      something, and the most such an edge may cost. */
  datatype Bounds = Bounds(live: set<nat>, heavy: set<nat>, limit: nat)

  ghost predicate Searchable(p: Problem, b: Bounds) {
    && p.Shaped()
    && p.source in b.live && p.potential[p.source] == 0
    && (forall v :: v in b.live ==> v < |p.graph| && p.potential[v] >= 0)
    && (forall u: nat, i: nat :: u in b.live && p.Residual(u, i) ==>
          && p.graph[u][i].end in b.live
          && p.Reduced(u, i) >= 0
          && p.graph[u][i].cost <= if u in b.heavy then b.limit else 0)
    && b.limit * |b.heavy| < INFINITY
  }

  // ---------------------------------------------------------------------------
  // The result
  // ---------------------------------------------------------------------------

  /** Edge `i` of `u` leads to `v` and is tight: it realises the distance of `v`. */
  ghost predicate Tight(p: Problem, distance: seq<int>, u: nat, i: nat, v: nat)
    requires p.Shaped() && |distance| == |p.graph|
  {
    && p.Residual(u, i) && p.graph[u][i].end == v
    && distance[u] != INFINITY && distance[v] == distance[u] + p.Reduced(u, i)
  }

  /** The predecessor edge of `v` is tight and comes from a node settled before `v`. */
  ghost predicate Entered(p: Problem, distance: seq<int>, previous: seq<Option<(nat, nat)>>, rank: seq<nat>, v: nat)
    requires p.Shaped() && |distance| == |previous| == |rank| == |p.graph| && v < |p.graph|
  {
    && previous[v].Some?
    && Tight(p, distance, previous[v].value.0, previous[v].value.1, v)
    && rank[previous[v].value.0] < rank[v]
  }

  /** Distances that no residual edge improves, with a tree of tight edges from the source. */
  ghost predicate ShortestPathTree(p: Problem, b: Bounds, distance: seq<int>, previous: seq<Option<(nat, nat)>>,
                                   rank: seq<nat>) {
    && p.Shaped() && |distance| == |previous| == |rank| == |p.graph|
    && distance[p.source] == 0
    && (forall v :: 0 <= v < |distance| && distance[v] != INFINITY ==>
          v in b.live && 0 <= distance[v] < INFINITY && distance[v] + p.potential[v] <= b.limit * |b.heavy|)
    && (forall u: nat, i: nat :: p.Residual(u, i) && distance[u] != INFINITY ==>
          distance[p.graph[u][i].end] != INFINITY && distance[p.graph[u][i].end] <= distance[u] + p.Reduced(u, i))
    && (forall v :: 0 <= v < |distance| && v != p.source && distance[v] != INFINITY ==>
          Entered(p, distance, previous, rank, v))
  }

  // ---------------------------------------------------------------------------
  // The search
  // ---------------------------------------------------------------------------

  /** The variables of the search. */
  datatype State = State(distance: seq<int>, previous: seq<Option<(nat, nat)>>, queue: set<(int, nat)>)

  /** Edges 0..j of `u` do not improve any distance. */
  ghost predicate Relaxed(p: Problem, s: State, u: nat, j: nat)
    requires p.Shaped() && |s.distance| == |p.graph| && u < |p.graph| && j <= |p.graph[u]|
  {
    forall i: nat :: i < j && p.Residual(u, i) ==>
      s.distance[p.graph[u][i].end] != INFINITY && s.distance[p.graph[u][i].end] <= s.distance[u] + p.Reduced(u, i)
  }

  ghost predicate Sized(p: Problem, s: State, rank: seq<nat>) {
    p.Shaped() && |s.distance| == |s.previous| == |rank| == |p.graph|
  }

  ghost predicate Ranges(p: Problem, b: Bounds, s: State, settled: set<nat>, rank: seq<nat>)
    requires Sized(p, s, rank)
  {
    && s.distance[p.source] == 0
    && settled <= b.live && (forall v :: v in settled ==> v < |p.graph|)
    && (forall v :: 0 <= v < |s.distance| && s.distance[v] != INFINITY ==>
          v in b.live && 0 <= s.distance[v] < INFINITY
          && s.distance[v] + p.potential[v] <= b.limit * |settled * b.heavy|)
    && (forall v :: v in settled ==> s.distance[v] != INFINITY && rank[v] < |settled|)
    && (forall v :: 0 <= v < |rank| && v !in settled ==> rank[v] == |rank|)
  }

  ghost predicate Queued(p: Problem, s: State, settled: set<nat>)
    requires p.Shaped() && |s.distance| == |p.graph|
  {
    && (forall q :: q in s.queue ==> q.1 < |p.graph| && s.distance[q.1] != INFINITY && s.distance[q.1] <= q.0)
    && (forall q :: q in s.queue && q.1 in settled && q.1 < |p.graph| ==> s.distance[q.1] < q.0)
    && (forall v :: 0 <= v < |p.graph| && s.distance[v] != INFINITY && v !in settled ==> (s.distance[v], v) in s.queue)
    && (forall v, q :: v in settled && v < |p.graph| && q in s.queue ==> s.distance[v] <= q.0)
  }

  ghost predicate Tree(p: Problem, s: State, settled: set<nat>, rank: seq<nat>)
    requires Sized(p, s, rank)
  {
    forall v :: 0 <= v < |p.graph| && v != p.source && s.distance[v] != INFINITY ==>
      Entered(p, s.distance, s.previous, rank, v) && s.previous[v].value.0 in settled
  }

  ghost predicate Searching(p: Problem, b: Bounds, s: State, settled: set<nat>, rank: seq<nat>) {
    && Sized(p, s, rank) && Ranges(p, b, s, settled, rank) && Queued(p, s, settled) && Tree(p, s, settled, rank)
  }

  /** Between two settlements every settled node is fully relaxed. */
  ghost predicate Idle(p: Problem, b: Bounds, s: State, settled: set<nat>, rank: seq<nat>) {
    && Searching(p, b, s, settled, rank)
    && OthersRelaxed(p, s, settled)
  }

  ghost predicate OthersRelaxed(p: Problem, s: State, nodes: set<nat>)
    requires p.Shaped() && |s.distance| == |p.graph|
  {
    forall v :: v in nodes ==> v < |p.graph| && Relaxed(p, s, v, |p.graph[v]|)
  }

  /** While `node` is expanded, its first `j` edges are relaxed and it is the farthest settled node. */
  ghost predicate Busy(p: Problem, b: Bounds, s: State, settled: set<nat>, rank: seq<nat>, node: nat, j: nat) {
    && Searching(p, b, s, settled, rank)
    && node in settled && node < |p.graph| && j <= |p.graph[node]| && Relaxed(p, s, node, j)
    && (forall v :: v in settled ==> v < |p.graph| && s.distance[v] <= s.distance[node])
    && OthersRelaxed(p, s, settled - {node})
    && s.distance[node] + p.potential[node] <= b.limit * |(settled - {node}) * b.heavy|
  }

  // ---------------------------------------------------------------------------
  // Settling the nearest queued node
  // ---------------------------------------------------------------------------

  ghost function Popped(s: State, q: (int, nat)): State { s.(queue := s.queue - {q}) }

  /** `node` has the least entry of the queue, and the entry is up to date. */
  ghost predicate Nearest(p: Problem, s: State, node: nat) {
    && node < |p.graph| == |s.distance| && (s.distance[node], node) in s.queue
    && forall q :: q in s.queue ==> s.distance[node] <= q.0
  }

  lemma SettleFresh(p: Problem, b: Bounds, s: State, settled: set<nat>, rank: seq<nat>, node: nat)
    requires Searching(p, b, s, settled, rank) && Nearest(p, s, node)
    ensures node !in settled && |settled| < |rank| && |settled + {node}| == |settled| + 1
  {
    BelowCard(settled + {node}, |rank|);
  }

  lemma HeavyGrows(b: Bounds, settled: set<nat>, node: nat)
    requires node !in settled
    ensures b.limit * |settled * b.heavy| <= b.limit * |(settled + {node}) * b.heavy|
    ensures node in b.heavy ==> b.limit * |settled * b.heavy| + b.limit == b.limit * |(settled + {node}) * b.heavy|
    ensures b.limit * |settled * b.heavy| <= b.limit * |b.heavy|
  {
    var old', new' := settled * b.heavy, (settled + {node}) * b.heavy;
    if node in b.heavy {
      assert new' == old' + {node};
      Distribute(b.limit, |old'|);
    } else {
      assert new' == old';
    }
    assert b.heavy == old' + (b.heavy - old');
    Monotone(b.limit, |old'|, |b.heavy|);
  }

  lemma Monotone(c: nat, x: nat, y: nat)
    requires x <= y
    ensures c * x <= c * y
  {
  }

  lemma SettleRanges(p: Problem, b: Bounds, s: State, settled: set<nat>, rank: seq<nat>, node: nat)
    requires Searching(p, b, s, settled, rank) && Nearest(p, s, node)
    ensures |settled| < |rank|
    ensures Sized(p, s, rank[node := |settled|])
    ensures Ranges(p, b, s, settled + {node}, rank[node := |settled|])
  {
    SettleFresh(p, b, s, settled, rank, node);
    HeavyGrows(b, settled, node);
  }

  lemma SettleTree(p: Problem, b: Bounds, s: State, settled: set<nat>, rank: seq<nat>, node: nat)
    requires Searching(p, b, s, settled, rank) && Nearest(p, s, node)
    ensures |settled| < |rank|
    ensures Sized(p, s, rank[node := |settled|])
    ensures Tree(p, s, settled + {node}, rank[node := |settled|])
  {
    SettleFresh(p, b, s, settled, rank, node);
    forall v | 0 <= v < |p.graph| && v != p.source && s.distance[v] != INFINITY
      ensures Entered(p, s.distance, s.previous, rank[node := |settled|], v) && s.previous[v].value.0 in settled
    {
      assert Entered(p, s.distance, s.previous, rank, v);
    }
  }

  lemma SettleQueued(p: Problem, b: Bounds, s: State, settled: set<nat>, rank: seq<nat>, node: nat)
    requires Searching(p, b, s, settled, rank) && Nearest(p, s, node)
    ensures Queued(p, Popped(s, (s.distance[node], node)), settled + {node})
    ensures forall v :: v in settled ==> s.distance[v] <= s.distance[node]
  {
  }

  lemma SettleSearching(p: Problem, b: Bounds, s: State, settled: set<nat>, rank: seq<nat>, node: nat)
    requires Searching(p, b, s, settled, rank) && Nearest(p, s, node)
    ensures |settled| < |rank|
    ensures Searching(p, b, Popped(s, (s.distance[node], node)), settled + {node}, rank[node := |settled|])
  {
    SettleRanges(p, b, s, settled, rank, node);
    SettleQueued(p, b, s, settled, rank, node);
    SettleTree(p, b, s, settled, rank, node);
    var s' := Popped(s, (s.distance[node], node));
    assert Ranges(p, b, s', settled + {node}, rank[node := |settled|]);
    assert Tree(p, s', settled + {node}, rank[node := |settled|]);
  }

  lemma Settle(p: Problem, b: Bounds, s: State, settled: set<nat>, rank: seq<nat>, node: nat)
    requires Idle(p, b, s, settled, rank) && Nearest(p, s, node)
    ensures node !in settled && |settled| < |rank|
    ensures Busy(p, b, Popped(s, (s.distance[node], node)), settled + {node}, rank[node := |settled|], node, 0)
  {
    SettleFresh(p, b, s, settled, rank, node);
    SettleSearching(p, b, s, settled, rank, node);
    SettleQueued(p, b, s, settled, rank, node);
    var s' := Popped(s, (s.distance[node], node));
    assert settled + {node} - {node} == settled;
    assert OthersRelaxed(p, s', settled) by {
      SameDistances(p, s, s', settled);
    }
  }

  lemma SameDistances(p: Problem, s: State, s': State, nodes: set<nat>)
    requires p.Shaped() && |s.distance| == |p.graph| && s'.distance == s.distance
    requires OthersRelaxed(p, s, nodes)
    ensures OthersRelaxed(p, s', nodes)
  {
    forall v | v in nodes ensures v < |p.graph| && Relaxed(p, s', v, |p.graph[v]|) {
      assert Relaxed(p, s, v, |p.graph[v]|);
    }
  }

  /** An entry that is out of date can be dropped. */
  lemma Stale(p: Problem, b: Bounds, s: State, settled: set<nat>, rank: seq<nat>, q: (int, nat))
    requires Idle(p, b, s, settled, rank)
    requires q in s.queue && q.1 < |s.distance| && q.0 != s.distance[q.1]
    ensures Idle(p, b, Popped(s, q), settled, rank)
  {
    var s' := Popped(s, q);
    assert Tree(p, s', settled, rank);
    SameDistances(p, s, s', settled);
  }

  // ---------------------------------------------------------------------------
  // Relaxing one edge of the settled node
  // ---------------------------------------------------------------------------

  /** The distance the edge offers its end fits the bound of the search. */
  lemma CandidateFits(p: Problem, b: Bounds, s: State, settled: set<nat>, rank: seq<nat>, node: nat, j: nat)
    requires Searchable(p, b) && Busy(p, b, s, settled, rank, node, j)
    requires j < |p.graph[node]| && p.Residual(node, j)
    ensures p.Reduced(node, j) >= 0 && p.graph[node][j].end in b.live
    ensures s.distance[node] + p.Reduced(node, j) + p.potential[p.graph[node][j].end] <= b.limit * |settled * b.heavy|
    ensures 0 <= s.distance[node] + p.Reduced(node, j) < INFINITY
  {
    HeavyGrows(b, settled - {node}, node);
    assert settled - {node} + {node} == settled;
    assert b.heavy == settled * b.heavy + (b.heavy - settled);
    Monotone(b.limit, |settled * b.heavy|, |b.heavy|);
  }

  lemma RelaxedGrows(p: Problem, s: State, s': State, u: nat, j: nat)
    requires p.Shaped() && |s.distance| == |s'.distance| == |p.graph| && u < |p.graph| && j <= |p.graph[u]|
    requires s'.distance[u] == s.distance[u]
    requires forall v :: 0 <= v < |p.graph| && s.distance[v] != INFINITY ==>
               s'.distance[v] != INFINITY && s'.distance[v] <= s.distance[v]
    requires Relaxed(p, s, u, j)
    ensures Relaxed(p, s', u, j)
  {
  }

  lemma RelaxedNext(p: Problem, s: State, node: nat, j: nat)
    requires p.Shaped() && |s.distance| == |p.graph| && node < |p.graph| && j < |p.graph[node]|
    requires Relaxed(p, s, node, j)
    requires p.Residual(node, j) ==>
               s.distance[p.graph[node][j].end] != INFINITY
               && s.distance[p.graph[node][j].end] <= s.distance[node] + p.Reduced(node, j)
    ensures Relaxed(p, s, node, j + 1)
  {
  }

  lemma Unimproved(p: Problem, b: Bounds, s: State, settled: set<nat>, rank: seq<nat>, node: nat, j: nat)
    requires Searchable(p, b) && Busy(p, b, s, settled, rank, node, j) && j < |p.graph[node]|
    requires p.Residual(node, j) ==> s.distance[p.graph[node][j].end] <= s.distance[node] + p.Reduced(node, j)
    ensures Busy(p, b, s, settled, rank, node, j + 1)
  {
    assert Relaxed(p, s, node, j + 1) by {
      if p.Residual(node, j) {
        CandidateFits(p, b, s, settled, rank, node, j);
      }
      RelaxedNext(p, s, node, j);
    }
  }

  /** The state after edge `j` of `node` gave its end a shorter distance. */
  ghost function Shortened(p: Problem, s: State, node: nat, j: nat): State
    requires p.Shaped() && |s.distance| == |s.previous| == |p.graph| && node < |p.graph| && j < |p.graph[node]|
  {
    var end := p.graph[node][j].end;
    var candidate := s.distance[node] + p.Reduced(node, j);
    State(s.distance[end := candidate], s.previous[end := Some((node, j))], s.queue + {(candidate, end)})
  }

  /** Edge `j` of `node` improves the distance of its end. */
  ghost predicate Improves(p: Problem, s: State, node: nat, j: nat)
    requires p.Shaped() && |s.distance| == |p.graph|
  {
    p.Residual(node, j) && s.distance[node] + p.Reduced(node, j) < s.distance[p.graph[node][j].end]
  }

  lemma ImprovedUnsettled(p: Problem, b: Bounds, s: State, settled: set<nat>, rank: seq<nat>, node: nat, j: nat)
    requires Searchable(p, b) && Busy(p, b, s, settled, rank, node, j) && Improves(p, s, node, j)
    ensures p.graph[node][j].end !in settled && p.graph[node][j].end != p.source
  {
    CandidateFits(p, b, s, settled, rank, node, j);
  }

  lemma ImprovedRanges(p: Problem, b: Bounds, s: State, settled: set<nat>, rank: seq<nat>, node: nat, j: nat)
    requires Searchable(p, b) && Busy(p, b, s, settled, rank, node, j) && Improves(p, s, node, j)
    ensures Ranges(p, b, Shortened(p, s, node, j), settled, rank)
  {
    ImprovedUnsettled(p, b, s, settled, rank, node, j);
    CandidateFits(p, b, s, settled, rank, node, j);
  }

  lemma ImprovedQueued(p: Problem, s: State, settled: set<nat>, node: nat, j: nat)
    requires p.Shaped() && |s.distance| == |s.previous| == |p.graph| && Improves(p, s, node, j)
    requires Queued(p, s, settled)
    requires p.graph[node][j].end !in settled
    requires s.distance[node] + p.Reduced(node, j) < INFINITY && p.Reduced(node, j) >= 0
    requires forall v :: v in settled ==> v < |p.graph| && s.distance[v] <= s.distance[node]
    ensures Queued(p, Shortened(p, s, node, j), settled)
  {
  }

  lemma ImprovedTree(p: Problem, s: State, settled: set<nat>, rank: seq<nat>, node: nat, j: nat)
    requires Sized(p, s, rank) && Tree(p, s, settled, rank) && Improves(p, s, node, j)
    requires node in settled && s.distance[node] != INFINITY && rank[node] < rank[p.graph[node][j].end]
    requires p.graph[node][j].end !in settled && p.graph[node][j].end != p.source
    ensures Tree(p, Shortened(p, s, node, j), settled, rank)
  {
    var s' := Shortened(p, s, node, j);
    forall v | 0 <= v < |p.graph| && v != p.source && s'.distance[v] != INFINITY
      ensures Entered(p, s'.distance, s'.previous, rank, v) && s'.previous[v].value.0 in settled
    {
      if v != p.graph[node][j].end {
        assert Entered(p, s.distance, s.previous, rank, v);
      }
    }
  }

  lemma ImprovedRelaxed(p: Problem, s: State, settled: set<nat>, node: nat, j: nat)
    requires p.Shaped() && |s.distance| == |s.previous| == |p.graph| && Improves(p, s, node, j)
    requires s.distance[node] + p.Reduced(node, j) < INFINITY && p.Reduced(node, j) >= 0
    requires p.graph[node][j].end !in settled && p.graph[node][j].end != node
    requires OthersRelaxed(p, s, settled - {node}) && Relaxed(p, s, node, j)
    ensures OthersRelaxed(p, Shortened(p, s, node, j), settled - {node})
    ensures Relaxed(p, Shortened(p, s, node, j), node, j + 1)
  {
    var s' := Shortened(p, s, node, j);
    forall v | v in settled - {node} ensures v < |p.graph| && Relaxed(p, s', v, |p.graph[v]|) {
      assert Relaxed(p, s, v, |p.graph[v]|);
      RelaxedGrows(p, s, s', v, |p.graph[v]|);
    }
    RelaxedGrows(p, s, s', node, j);
    RelaxedNext(p, s', node, j);
  }

  lemma Improved(p: Problem, b: Bounds, s: State, settled: set<nat>, rank: seq<nat>, node: nat, j: nat)
    requires Searchable(p, b) && Busy(p, b, s, settled, rank, node, j) && Improves(p, s, node, j)
    ensures Busy(p, b, Shortened(p, s, node, j), settled, rank, node, j + 1)
  {
    ImprovedUnsettled(p, b, s, settled, rank, node, j);
    CandidateFits(p, b, s, settled, rank, node, j);
    ImprovedRanges(p, b, s, settled, rank, node, j);
    ImprovedQueued(p, s, settled, node, j);
    BelowCard(settled, |rank|);
    ImprovedTree(p, s, settled, rank, node, j);
    ImprovedRelaxed(p, s, settled, node, j);
  }

  /** The state after edge `j` of `node` was examined. */
  ghost function Examined(p: Problem, s: State, node: nat, j: nat): State
    requires p.Shaped() && |s.distance| == |s.previous| == |p.graph| && node < |p.graph| && j < |p.graph[node]|
  {
    if Improves(p, s, node, j) then Shortened(p, s, node, j) else s
  }

  lemma ExaminedUpdates(p: Problem, s: State, node: nat, j: nat, edge: Edge, candidate: int)
    requires p.Shaped() && |s.distance| == |s.previous| == |p.graph| && node < |p.graph| && j < |p.graph[node]|
    requires edge == p.graph[node][j]
    requires candidate == s.distance[node] + edge.cost + p.potential[node] - p.potential[edge.end]
    ensures Examined(p, s, node, j) ==
            if edge.cap > 0 && candidate < s.distance[edge.end]
            then State(s.distance[edge.end := candidate], s.previous[edge.end := Some((node, j))],
                       s.queue + {(candidate, edge.end)})
            else s
  {
  }

  lemma Examine(p: Problem, b: Bounds, s: State, settled: set<nat>, rank: seq<nat>, node: nat, j: nat)
    requires Searchable(p, b) && Busy(p, b, s, settled, rank, node, j) && j < |p.graph[node]|
    ensures Busy(p, b, Examined(p, s, node, j), settled, rank, node, j + 1)
    ensures Examined(p, s, node, j).distance[node] == s.distance[node]
  {
    if Improves(p, s, node, j) {
      ImprovedUnsettled(p, b, s, settled, rank, node, j);
      Improved(p, b, s, settled, rank, node, j);
    } else {
      Unimproved(p, b, s, settled, rank, node, j);
    }
  }

  // ---------------------------------------------------------------------------
  // The loop
  // ---------------------------------------------------------------------------

  /** Tuples as the heap orders them. */
  predicate HeapOrder(x: (int, nat), y: (int, nat)) { x.0 < y.0 || (x.0 == y.0 && x.1 <= y.1) }

  lemma {:induction false} LeastExists(queue: set<(int, nat)>)
    requires queue != {}
    ensures exists q :: q in queue && forall r :: r in queue ==> HeapOrder(q, r)
    decreases queue
  {
    var x :| x in queue;
    if queue != {x} {
      LeastExists(queue - {x});
      var y :| y in queue - {x} && forall r :: r in queue - {x} ==> HeapOrder(y, r);
      var least := if HeapOrder(x, y) then x else y;
      assert least in queue && HeapOrder(least, x);
      forall r | r in queue ensures HeapOrder(least, r) {
        assert r == x || r in queue - {x};
      }
    } else {
      assert x in queue && forall r :: r in queue ==> HeapOrder(x, r);
    }
  }

  method ShortestPathsFrom(p: Problem, ghost b: Bounds)
    returns (distance: seq<int>, previous: seq<Option<(nat, nat)>>, ghost rank: seq<nat>)
    requires Searchable(p, b)
    ensures ShortestPathTree(p, b, distance, previous, rank)
  {
    var n := |p.graph|;
    distance := seq(n, _ => INFINITY);
    previous := seq(n, _ => None);
    rank := seq(n, _ => n);
    distance := distance[p.source := 0];
    var queue: set<(int, nat)> := {(0, p.source)};
    ghost var settled: set<nat> := {};
    while queue != {}
      invariant Idle(p, b, State(distance, previous, queue), settled, rank)
      decreases n - |settled|, |queue|
    {
      LeastExists(queue);
      var q :| q in queue && forall r :: r in queue ==> HeapOrder(q, r);
      var current, node := q.0, q.1;
      ghost var s := State(distance, previous, queue);
      queue := queue - {q};
      if current != distance[node] {
        Stale(p, b, s, settled, rank, q);
        continue;
      }
      Settle(p, b, s, settled, rank, node);
      rank := rank[node := |settled|];
      settled := settled + {node};
      distance, previous, queue := Relax(p, b, node, distance, previous, queue, settled, rank);
    }
    Finished(p, b, State(distance, previous, queue), settled, rank);
  }

  /** Offers the distance of `node` over each of its residual edges. */
  method Relax(p: Problem, ghost b: Bounds, node: nat, distance0: seq<int>, previous0: seq<Option<(nat, nat)>>,
               queue0: set<(int, nat)>, ghost settled: set<nat>, ghost rank: seq<nat>)
    returns (distance: seq<int>, previous: seq<Option<(nat, nat)>>, queue: set<(int, nat)>)
    requires Searchable(p, b) && Busy(p, b, State(distance0, previous0, queue0), settled, rank, node, 0)
    ensures Idle(p, b, State(distance, previous, queue), settled, rank)
  {
    distance, previous, queue := distance0, previous0, queue0;
    var row := p.graph[node];
    var current := distance[node];
    for j := 0 to |row|
      invariant Busy(p, b, State(distance, previous, queue), settled, rank, node, j)
      invariant distance[node] == current
    {
      var edge := row[j];
      ghost var s := State(distance, previous, queue);
      Examine(p, b, s, settled, rank, node, j);
      var candidate := current + edge.cost + p.potential[node] - p.potential[edge.end];
      ExaminedUpdates(p, s, node, j, edge, candidate);
      if edge.cap > 0 && candidate < distance[edge.end] {
        distance := distance[edge.end := candidate];
        previous := previous[edge.end := Some((node, j))];
        queue := queue + {(candidate, edge.end)};
      }
    }
  }

  lemma Finished(p: Problem, b: Bounds, s: State, settled: set<nat>, rank: seq<nat>)
    requires Searchable(p, b) && Idle(p, b, s, settled, rank) && s.queue == {}
    ensures ShortestPathTree(p, b, s.distance, s.previous, rank)
  {
    assert b.heavy == settled * b.heavy + (b.heavy - settled);
    Monotone(b.limit, |settled * b.heavy|, |b.heavy|);
    forall u: nat, i: nat | p.Residual(u, i) && s.distance[u] != INFINITY
      ensures s.distance[p.graph[u][i].end] != INFINITY
      ensures s.distance[p.graph[u][i].end] <= s.distance[u] + p.Reduced(u, i)
    {
      assert u in settled && Relaxed(p, s, u, |p.graph[u]|);
    }
  }
}
