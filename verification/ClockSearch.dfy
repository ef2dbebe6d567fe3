// The bounded reverse breadth-first search for leaf clock buffers above a clock sink, and the
// path rebuilt from the one selected.
module ClockSearch {
  import opened Sequences
  import opened Wrappers

  const MAX_LCB_SEARCH_DEPTH: nat := 16
  const INTEGER_MAX: nat := 2147483647

  datatype Status = Available | InUse | Unavailable

  /** The routing graph seen from the sinks, with the routing status and the name order of its nodes. */
  datatype Fabric = Fabric(uphill: seq<seq<nat>>, leaves: set<nat>, status: seq<Status>, names: seq<int>) {
    ghost predicate Valid() {
      && |status| == |names| == |uphill|
      && forall n, u | 0 <= n < |uphill| && u in uphill[n] :: u < |uphill|
    }

    predicate Usable(n: nat)
      requires n < |status|
    {
      status[n] != Unavailable
    }
  }

  ghost predicate Climbs(f: Fabric, above: nat, n: nat) {
    f.Valid() && n < |f.uphill| && above in f.uphill[n] && f.Usable(above)
  }

  /** A downhill path from a leaf buffer to the sink: every node before the sink can be used, and
      no node in between is a leaf buffer. */
  ghost predicate IsRoute(f: Fabric, sink: nat, path: seq<nat>) {
    && |path| >= 2 && path[|path| - 1] == sink && path[0] in f.leaves && path[0] != sink
    && (forall i | 0 <= i < |path| - 1 :: Climbs(f, path[i], path[i + 1]))
    && (forall i | 0 < i < |path| - 1 :: path[i] !in f.leaves)
  }

  function Hops(path: seq<nat>): int { |path| - 1 }

  ghost predicate RouteFrom(f: Fabric, sink: nat, leaf: nat, hops: nat) {
    exists path :: IsRoute(f, sink, path) && path[0] == leaf && Hops(path) == hops
  }

  ghost predicate NoShorterRoute(f: Fabric, sink: nat, hops: nat) {
    forall path | IsRoute(f, sink, path) :: Hops(path) >= hops
  }

  /** Exactly the leaf buffers at the least number of hops, if that is within the bound. */
  ghost predicate NearestLeaves(f: Fabric, sink: nat, candidates: map<nat, nat>) {
    forall leaf: nat, hops: nat ::
      (leaf in candidates && candidates[leaf] == hops)
      <==> (hops <= MAX_LCB_SEARCH_DEPTH && RouteFrom(f, sink, leaf, hops) && NoShorterRoute(f, sink, hops))
  }

  // ---------------------------------------------------------------------------
  // Search state
  // ---------------------------------------------------------------------------

  datatype NodeDepth = NodeDepth(node: nat, depth: nat)

  /** Only the sink and nodes that are not leaf buffers are passed through. */
  ghost predicate Inner(f: Fabric, sink: nat, n: nat) { n == sink || n !in f.leaves }

  /** Every entered node hangs one hop above another, down to the sink. */
  ghost predicate Linked(f: Fabric, sink: nat, toward: map<nat, nat>, at: map<nat, nat>) {
    && at.Keys == toward.Keys + {sink} && sink !in toward && sink < |f.uphill| && at[sink] == 0
    && forall n :: n in toward ==>
         toward[n] in at && Inner(f, sink, toward[n]) && Climbs(f, n, toward[n]) && at[n] == at[toward[n]] + 1
  }

  ghost predicate Expanded(f: Fabric, at: map<nat, nat>, n: nat, upTo: int) {
    && n in at && n < |f.uphill| && upTo <= |f.uphill[n]|
    && forall i | 0 <= i < upTo && Climbs(f, f.uphill[n][i], n) ::
         f.uphill[n][i] in at && at[f.uphill[n][i]] <= at[n] + 1
  }

  ghost predicate InQueue(queue: seq<NodeDepth>, at: map<nat, nat>, n: nat) { n in at && NodeDepth(n, at[n]) in queue }

  /** Every inner node but `except` is queued, too deep to matter, or has all nodes above it entered. */
  ghost predicate Handled(f: Fabric, sink: nat, queue: seq<NodeDepth>, at: map<nat, nat>, nearest: nat,
                          except: Option<nat>) {
    forall n | n in at && Inner(f, sink, n) && except != Some(n) ::
      InQueue(queue, at, n) || at[n] >= MAX_LCB_SEARCH_DEPTH || at[n] >= nearest
        || (n < |f.uphill| && Expanded(f, at, n, |f.uphill[n]|))
  }

  ghost predicate Visited(f: Fabric, visited: set<nat>, at: map<nat, nat>) {
    && at.Keys <= visited
    && forall n :: n in visited ==> n < |f.uphill| && (n in at || (f.Valid() && !f.Usable(n)))
  }

  /** The queue runs through one layer and then the next. */
  ghost predicate Layered(f: Fabric, sink: nat, queue: seq<NodeDepth>, at: map<nat, nat>, layer: nat) {
    && (forall q ::
        q in queue ==> q.node in at && q.depth == at[q.node] && Inner(f, sink, q.node) && layer <= q.depth <= layer + 1)
    && (forall i, j | 0 <= i < j < |queue| :: queue[i].depth <= queue[j].depth)
    && (forall n :: n in at ==> at[n] <= layer + 1)
  }

  /** The entered leaf buffers are the candidates, all of them at the nearest depth. */
  ghost predicate Ranked(f: Fabric, toward: map<nat, nat>, at: map<nat, nat>, candidates: map<nat, nat>, nearest: nat) {
    && (forall n :: n in candidates <==> n in toward && n in f.leaves)
    && (forall n :: n in candidates ==> n in at && candidates[n] == at[n] == nearest < INTEGER_MAX)
    && (nearest == INTEGER_MAX || candidates != map[])
  }

  ghost predicate Bounded(at: map<nat, nat>) { forall n :: n in at ==> at[n] <= MAX_LCB_SEARCH_DEPTH }

  // ---------------------------------------------------------------------------
  // What a finished search has found
  // ---------------------------------------------------------------------------

  /** The path that the links give from an entered node. */
  ghost function PathOf(f: Fabric, sink: nat, toward: map<nat, nat>, at: map<nat, nat>, n: nat): seq<nat>
    requires Linked(f, sink, toward, at) && n in at
    decreases at[n]
  {
    if n == sink then [n] else [n] + PathOf(f, sink, toward, at, toward[n])
  }

  /** A path ends at the sink and otherwise goes on with the next node toward it. */
  lemma PathNext(f: Fabric, sink: nat, toward: map<nat, nat>, at: map<nat, nat>, selected: nat, path: seq<nat>, n: nat)
    requires Linked(f, sink, toward, at) && selected in at && n in at
    requires path + PathOf(f, sink, toward, at, n) == PathOf(f, sink, toward, at, selected)
    ensures n == sink ==> path + [n] == PathOf(f, sink, toward, at, selected)
    ensures n != sink ==>
              && n in toward && toward[n] in at && at[toward[n]] < at[n]
              && path + [n] + PathOf(f, sink, toward, at, toward[n]) == PathOf(f, sink, toward, at, selected)
  {
    if n != sink {
      assert path + ([n] + PathOf(f, sink, toward, at, toward[n])) ==
             path + [n] + PathOf(f, sink, toward, at, toward[n]);
    }
  }

  lemma {:induction false} PathClimbs(f: Fabric, sink: nat, toward: map<nat, nat>, at: map<nat, nat>, n: nat)
    requires Linked(f, sink, toward, at) && n in at
    ensures var path := PathOf(f, sink, toward, at, n);
            && |path| == at[n] + 1 && path[0] == n && path[|path| - 1] == sink
            && (forall i | 0 <= i < |path| :: path[i] in at && at[path[i]] == at[n] - i)
            && (forall i | 0 <= i < |path| - 1 :: Climbs(f, path[i], path[i + 1]))
            && (forall i | 0 < i < |path| :: Inner(f, sink, path[i]))
    decreases at[n]
  {
    if n != sink {
      PathClimbs(f, sink, toward, at, toward[n]);
    }
  }

  /** The rebuilt path of a candidate is a route of the recorded number of hops, without repeats. */
  lemma PathIsRoute(f: Fabric, sink: nat, toward: map<nat, nat>, at: map<nat, nat>, leaf: nat)
    requires Linked(f, sink, toward, at) && leaf in toward && leaf in f.leaves
    ensures var path := PathOf(f, sink, toward, at, leaf);
            IsRoute(f, sink, path) && path[0] == leaf && Hops(path) == at[leaf] && Distinct(path)
  {
    PathClimbs(f, sink, toward, at, leaf);
    var path := PathOf(f, sink, toward, at, leaf);
    forall i | 0 < i < |path| - 1 ensures path[i] !in f.leaves {
      assert at[path[i]] > 0;
    }
  }

  ghost predicate Exhausted(f: Fabric, sink: nat, at: map<nat, nat>, nearest: nat) {
    Handled(f, sink, [], at, nearest, None)
  }

  /** Everything on a route is entered at no more than its height, up to the nearest leaf. */
  lemma {:induction false} RouteEntered(f: Fabric, sink: nat, toward: map<nat, nat>, at: map<nat, nat>, nearest: nat,
                                        path: seq<nat>, k: nat)
    requires Linked(f, sink, toward, at) && Exhausted(f, sink, at, nearest) && IsRoute(f, sink, path)
    requires k <= Hops(path) <= MAX_LCB_SEARCH_DEPTH && k <= nearest
    ensures path[Hops(path) - k] in at && at[path[Hops(path) - k]] <= k
  {
    if k > 0 {
      RouteEntered(f, sink, toward, at, nearest, path, k - 1);
      var n, above := path[Hops(path) - k + 1], path[Hops(path) - k];
      assert Climbs(f, above, n) && Inner(f, sink, n);
      assert Expanded(f, at, n, |f.uphill[n]|);
      var i :| 0 <= i < |f.uphill[n]| && f.uphill[n][i] == above;
    }
  }

  /** Without a candidate there is no route in range; otherwise none is shorter than the nearest
      leaf, and the leaf of every route of that length is a candidate. */
  lemma RouteMeetsNearest(f: Fabric, sink: nat, toward: map<nat, nat>, at: map<nat, nat>, candidates: map<nat, nat>,
                          nearest: nat, path: seq<nat>)
    requires Linked(f, sink, toward, at) && Exhausted(f, sink, at, nearest)
             && Ranked(f, toward, at, candidates, nearest)
    requires IsRoute(f, sink, path) && Hops(path) <= MAX_LCB_SEARCH_DEPTH
    ensures nearest <= Hops(path)
    ensures Hops(path) == nearest ==> path[0] in candidates
  {
    if Hops(path) <= nearest {
      RouteEntered(f, sink, toward, at, nearest, path, Hops(path));
    }
  }

  lemma SearchFindsNearest(f: Fabric, sink: nat, toward: map<nat, nat>, at: map<nat, nat>, candidates: map<nat, nat>,
                           nearest: nat)
    requires Linked(f, sink, toward, at) && Exhausted(f, sink, at, nearest)
             && Ranked(f, toward, at, candidates, nearest) && Bounded(at)
    ensures NearestLeaves(f, sink, candidates)
  {
    forall leaf: nat, hops: nat
      ensures (leaf in candidates && candidates[leaf] == hops)
              <==> (hops <= MAX_LCB_SEARCH_DEPTH && RouteFrom(f, sink, leaf, hops) && NoShorterRoute(f, sink, hops))
    {
      if leaf in candidates && candidates[leaf] == hops {
        PathIsRoute(f, sink, toward, at, leaf);
        forall path | IsRoute(f, sink, path) ensures Hops(path) >= hops {
          if Hops(path) <= MAX_LCB_SEARCH_DEPTH {
            RouteMeetsNearest(f, sink, toward, at, candidates, nearest, path);
          }
        }
      }
      if hops <= MAX_LCB_SEARCH_DEPTH && RouteFrom(f, sink, leaf, hops) && NoShorterRoute(f, sink, hops) {
        NearestIsCandidate(f, sink, toward, at, candidates, nearest, leaf, hops);
      }
    }
  }

  lemma NearestIsCandidate(f: Fabric, sink: nat, toward: map<nat, nat>, at: map<nat, nat>, candidates: map<nat, nat>,
                           nearest: nat, leaf: nat, hops: nat)
    requires Linked(f, sink, toward, at) && Exhausted(f, sink, at, nearest)
             && Ranked(f, toward, at, candidates, nearest) && Bounded(at)
    requires hops <= MAX_LCB_SEARCH_DEPTH && RouteFrom(f, sink, leaf, hops) && NoShorterRoute(f, sink, hops)
    ensures leaf in candidates && candidates[leaf] == hops
  {
    var path :| IsRoute(f, sink, path) && path[0] == leaf && Hops(path) == hops;
    RouteMeetsNearest(f, sink, toward, at, candidates, nearest, path);
    var other :| other in candidates;
    PathIsRoute(f, sink, toward, at, other);
  }

  // ---------------------------------------------------------------------------
  // The search
  // ---------------------------------------------------------------------------

  /** The state while the nodes above `n`, in layer `layer`, are entered; `i` of them are done. */
  ghost predicate Expanding(f: Fabric, sink: nat, queue: seq<NodeDepth>, visited: set<nat>, toward: map<nat, nat>,
                            at: map<nat, nat>, candidates: map<nat, nat>, nearest: nat, layer: nat, n: nat, i: int) {
    && Linked(f, sink, toward, at) && Visited(f, visited, at) && Bounded(at)
    && n in at && at[n] == layer && Inner(f, sink, n) && layer < MAX_LCB_SEARCH_DEPTH
    && Layered(f, sink, queue, at, layer) && Handled(f, sink, queue, at, nearest, Some(n)) && Expanded(f, at, n, i)
    && Ranked(f, toward, at, candidates, nearest) && (nearest == INTEGER_MAX || nearest == layer + 1)
  }

  /** A node seen before, or one that cannot be used, is passed over. */
  lemma PassOver(f: Fabric, sink: nat, queue: seq<NodeDepth>, visited: set<nat>, toward: map<nat, nat>,
                 at: map<nat, nat>, candidates: map<nat, nat>, nearest: nat, layer: nat, n: nat, i: nat)
    requires f.Valid() && Expanding(f, sink, queue, visited, toward, at, candidates, nearest, layer, n, i)
             && i < |f.uphill[n]|
    requires f.uphill[n][i] in visited || !Climbs(f, f.uphill[n][i], n)
    ensures Expanding(f, sink, queue, visited + {f.uphill[n][i]}, toward, at, candidates, nearest, layer, n, i + 1)
  {
  }

  lemma EnterLinks(f: Fabric, sink: nat, visited: set<nat>, toward: map<nat, nat>, at: map<nat, nat>, layer: nat,
                   n: nat, u: nat)
    requires Linked(f, sink, toward, at) && Visited(f, visited, at) && Bounded(at) && u !in visited && Climbs(f, u, n)
    requires n in at && at[n] == layer && Inner(f, sink, n) && layer < MAX_LCB_SEARCH_DEPTH
    ensures Linked(f, sink, toward[u := n], at[u := layer + 1]) && Visited(f, visited + {u}, at[u := layer + 1])
    ensures Bounded(at[u := layer + 1])
  {
  }

  lemma EnterHandled(f: Fabric, sink: nat, queue: seq<NodeDepth>, longer: seq<NodeDepth>, at: map<nat, nat>,
                     nearest: nat, nearer: nat, layer: nat, n: nat, u: nat)
    requires n in at && at[n] == layer && u !in at && Handled(f, sink, queue, at, nearest, Some(n)) && nearer <= nearest
             && queue <= longer
    requires Inner(f, sink, u) ==> NodeDepth(u, layer + 1) in longer || layer + 1 >= nearer
    ensures Handled(f, sink, longer, at[u := layer + 1], nearer, Some(n))
  {
    var more := at[u := layer + 1];
    forall m | m in more && Inner(f, sink, m) && m != n
      ensures InQueue(longer, more, m) || more[m] >= MAX_LCB_SEARCH_DEPTH || more[m] >= nearer
                || (m < |f.uphill| && Expanded(f, more, m, |f.uphill[m]|))
    {
      if m != u {
        assert InQueue(queue, at, m) || at[m] >= MAX_LCB_SEARCH_DEPTH || at[m] >= nearest
                 || (m < |f.uphill| && Expanded(f, at, m, |f.uphill[m]|));
        if InQueue(queue, at, m) {
          assert forall q :: q in queue ==> q in longer;
        }
      }
    }
  }

  lemma EnterLayered(f: Fabric, sink: nat, queue: seq<NodeDepth>, at: map<nat, nat>, layer: nat, n: nat, u: nat)
    requires n in at && at[n] == layer && u !in at && Layered(f, sink, queue, at, layer)
    ensures Layered(f, sink, queue, at[u := layer + 1], layer)
    ensures Inner(f, sink, u) ==> Layered(f, sink, queue + [NodeDepth(u, layer + 1)], at[u := layer + 1], layer)
  {
  }

  lemma EnterRanked(f: Fabric, toward: map<nat, nat>, at: map<nat, nat>, candidates: map<nat, nat>, more: map<nat, nat>,
                    nearest: nat, nearer: nat, layer: nat, n: nat, u: nat)
    requires n in at && at[n] == layer && u !in at && u !in toward && Ranked(f, toward, at, candidates, nearest)
    requires layer + 1 < INTEGER_MAX && (nearest == INTEGER_MAX || nearest == layer + 1)
    requires if u in f.leaves then more == Merge(candidates, u, layer + 1) && nearer == Min(nearest, layer + 1)
             else more == candidates && nearer == nearest
    ensures Ranked(f, toward[u := n], at[u := layer + 1], more, nearer) && nearer <= nearest
  {
  }

  lemma EnterExpanded(f: Fabric, at: map<nat, nat>, layer: nat, n: nat, i: nat)
    requires n in at && at[n] == layer && n < |f.uphill| && i < |f.uphill[n]| && Expanded(f, at, n, i)
             && f.uphill[n][i] !in at
    ensures Expanded(f, at[f.uphill[n][i] := layer + 1], n, i + 1)
  {
  }

  /** A node entered above `n` is a candidate if it is a leaf buffer, and queued if no leaf is as near. */
  lemma Enter(f: Fabric, sink: nat, queue: seq<NodeDepth>, longer: seq<NodeDepth>, visited: set<nat>,
              toward: map<nat, nat>, at: map<nat, nat>, candidates: map<nat, nat>, more: map<nat, nat>, nearest: nat,
              nearer: nat, layer: nat, n: nat, i: nat, u: nat)
    requires f.Valid() && Expanding(f, sink, queue, visited, toward, at, candidates, nearest, layer, n, i)
             && i < |f.uphill[n]|
    requires u == f.uphill[n][i] && u !in visited && Climbs(f, u, n)
    requires if u in f.leaves then more == Merge(candidates, u, layer + 1) && nearer == Min(nearest, layer + 1)
             else more == candidates && nearer == nearest
    requires longer == if u !in f.leaves && layer + 1 < nearest then queue + [NodeDepth(u, layer + 1)] else queue
    ensures Expanding(f, sink, longer, visited + {u}, toward[u := n], at[u := layer + 1], more, nearer, layer, n, i + 1)
  {
    EnterLinks(f, sink, visited, toward, at, layer, n, u);
    EnterLayered(f, sink, queue, at, layer, n, u);
    EnterHandled(f, sink, queue, longer, at, nearest, nearer, layer, n, u);
    EnterRanked(f, toward, at, candidates, more, nearest, nearer, layer, n, u);
    EnterExpanded(f, at, layer, n, i);
  }

  function Min(a: nat, b: nat): nat { if a < b then a else b }

  /** Records a depth for a candidate, keeping the lesser one. */
  function Merge(candidates: map<nat, nat>, n: nat, depth: nat): map<nat, nat> {
    candidates[n := if n in candidates then Min(candidates[n], depth) else depth]
  }

  lemma UphillNode(f: Fabric, n: nat, i: nat)
    requires f.Valid() && n < |f.uphill| && i < |f.uphill[n]|
    ensures f.uphill[n][i] < |f.uphill| == |f.status|
    ensures Climbs(f, f.uphill[n][i], n) <==> f.status[f.uphill[n][i]] != Unavailable
  {
    assert f.uphill[n][i] in f.uphill[n];
  }

  ghost predicate Grew(before: set<nat>, after: set<nat>) { exists n :: n in after && n !in before }

  /** Looks at the node over one wire above a node taken from the queue. */
  method Consider(f: Fabric, ghost sink: nat, current: NodeDepth, i: nat, queue: seq<NodeDepth>, visited: set<nat>,
                  toward: map<nat, nat>, ghost at: map<nat, nat>, candidates: map<nat, nat>, nearest: nat)
    returns (queue': seq<NodeDepth>, visited': set<nat>, toward': map<nat, nat>, ghost at': map<nat, nat>,
             candidates': map<nat, nat>, nearest': nat)
    requires f.Valid() && current.node < |f.uphill| && i < |f.uphill[current.node]|
    requires Expanding(f, sink, queue, visited, toward, at, candidates, nearest, current.depth, current.node, i)
    ensures Expanding(f, sink, queue', visited', toward', at', candidates',
                      nearest', current.depth, current.node, i + 1)
    ensures visited <= visited' && (queue == queue' || Grew(visited, visited'))
  {
    UphillNode(f, current.node, i);
    var u := f.uphill[current.node][i];
    queue', visited', toward', at', candidates', nearest' := queue, visited + {u}, toward, at, candidates, nearest;
    if u in visited || f.status[u] == Unavailable {
      PassOver(f, sink, queue, visited, toward, at, candidates, nearest, current.depth, current.node, i);
      return;
    }
    var depth := current.depth + 1;
    toward' := toward[u := current.node];
    at' := at[u := depth];
    if u in f.leaves {
      candidates' := Merge(candidates, u, depth);
      nearest' := Min(nearest, depth);
    } else if depth < nearest {
      queue' := queue + [NodeDepth(u, depth)];
    }
    Enter(f, sink, queue, queue', visited, toward, at, candidates, candidates',
          nearest, nearest', current.depth, current.node, i, u);
  }

  /** Enters the nodes above a node taken from the queue. */
  method Expand(f: Fabric, ghost sink: nat, current: NodeDepth, queue: seq<NodeDepth>, visited: set<nat>,
                toward: map<nat, nat>, ghost at: map<nat, nat>, candidates: map<nat, nat>, nearest: nat)
    returns (queue': seq<NodeDepth>, visited': set<nat>, toward': map<nat, nat>, ghost at': map<nat, nat>,
             candidates': map<nat, nat>, nearest': nat)
    requires f.Valid() && current.node < |f.uphill|
    requires Expanding(f, sink, queue, visited, toward, at, candidates, nearest, current.depth, current.node, 0)
    ensures Expanding(f, sink, queue', visited', toward', at', candidates', nearest',
                      current.depth, current.node, |f.uphill[current.node]|)
    ensures visited <= visited' && (queue == queue' || Grew(visited, visited'))
  {
    queue', visited', toward', at', candidates', nearest' := queue, visited, toward, at, candidates, nearest;
    for i := 0 to |f.uphill[current.node]|
      invariant Expanding(f, sink, queue', visited', toward', at',
                          candidates', nearest', current.depth, current.node, i)
      invariant visited <= visited' && (queue == queue' || Grew(visited, visited'))
    {
      queue', visited', toward', at', candidates', nearest' :=
        Consider(f, sink, current, i, queue', visited', toward', at', candidates', nearest');
    }
  }

  ghost predicate Searching(f: Fabric, sink: nat, queue: seq<NodeDepth>, visited: set<nat>, toward: map<nat, nat>,
                            at: map<nat, nat>, candidates: map<nat, nat>, nearest: nat, layer: nat) {
    && Linked(f, sink, toward, at) && Visited(f, visited, at) && Bounded(at)
    && Layered(f, sink, queue, at, layer) && Handled(f, sink, queue, at, nearest, None)
    && Ranked(f, toward, at, candidates, nearest) && (nearest == INTEGER_MAX || nearest <= layer + 1)
  }

  /** The layer of the first node in the queue. */
  lemma TakeFirst(f: Fabric, sink: nat, queue: seq<NodeDepth>, visited: set<nat>, toward: map<nat, nat>,
                  at: map<nat, nat>, candidates: map<nat, nat>, nearest: nat, layer: nat)
    requires queue != [] && Searching(f, sink, queue, visited, toward, at, candidates, nearest, layer)
    ensures var first := queue[0];
            && first.node in at && at[first.node] == first.depth && first.node < |f.uphill|
            && (if first.depth < MAX_LCB_SEARCH_DEPTH && first.depth < nearest
                then Expanding(f, sink, queue[1..], visited, toward, at,
                               candidates, nearest, first.depth, first.node, 0)
                else Searching(f, sink, queue[1..], visited, toward, at, candidates, nearest, first.depth))
  {
    var first, rest := queue[0], queue[1..];
    assert first in queue;
    assert forall q :: q in queue <==> q == first || q in rest;
    assert Layered(f, sink, rest, at, first.depth);
  }

  lemma ExpandedAll(f: Fabric, sink: nat, queue: seq<NodeDepth>, visited: set<nat>, toward: map<nat, nat>,
                    at: map<nat, nat>, candidates: map<nat, nat>, nearest: nat, layer: nat, n: nat)
    requires n < |f.uphill|
             && Expanding(f, sink, queue, visited, toward, at, candidates, nearest, layer, n, |f.uphill[n]|)
    ensures Searching(f, sink, queue, visited, toward, at, candidates, nearest, layer)
  {
  }

  /** Searches uphill from the sink, layer by layer, and stops after the first layer with leaf buffers. */
  method NearestLeafSearch(f: Fabric, sink: nat)
    returns (candidates: map<nat, nat>, toward: map<nat, nat>, ghost at: map<nat, nat>)
    requires f.Valid() && sink < |f.uphill|
    ensures NearestLeaves(f, sink, candidates)
    ensures Linked(f, sink, toward, at)
    ensures forall n :: n in candidates ==> n in toward && n in f.leaves && candidates[n] == at[n]
  {
    candidates, toward, at := map[], map[], map[sink := 0];
    var queue := [NodeDepth(sink, 0)];
    var visited := {sink};
    var nearest: nat := INTEGER_MAX;
    ghost var layer: nat := 0;
    while queue != []
      invariant Searching(f, sink, queue, visited, toward, at, candidates, nearest, layer)
      decreases |Unvisited(f, visited)|, |queue|
    {
      var current := queue[0];
      TakeFirst(f, sink, queue, visited, toward, at, candidates, nearest, layer);
      queue := queue[1..];
      layer := current.depth;
      if current.depth < MAX_LCB_SEARCH_DEPTH && current.depth < nearest {
        ghost var before := visited;
        queue, visited, toward, at, candidates, nearest :=
          Expand(f, sink, current, queue, visited, toward, at, candidates, nearest);
        ExpandedAll(f, sink, queue, visited, toward, at, candidates, nearest, layer, current.node);
        VisitedShrinks(f, before, visited, at);
      }
    }
    SearchFindsNearest(f, sink, toward, at, candidates, nearest);
  }

  lemma VisitedShrinks(f: Fabric, before: set<nat>, visited: set<nat>, at: map<nat, nat>)
    requires before <= visited && Visited(f, visited, at)
    ensures |Unvisited(f, visited)| <= |Unvisited(f, before)|
    ensures Grew(before, visited) ==> |Unvisited(f, visited)| < |Unvisited(f, before)|
  {
    SubsetSize(Unvisited(f, visited), Unvisited(f, before));
    if Grew(before, visited) {
      var n :| n in visited && n !in before;
      SubsetSize(Unvisited(f, visited), Unvisited(f, before) - {n});
    }
  }

  ghost function Unvisited(f: Fabric, visited: set<nat>): set<nat> { set n: nat | n < |f.uphill| && n !in visited }

  /** Follows the links from the selected buffer down to the sink. */
  method RebuildPath(f: Fabric, sink: nat, toward: map<nat, nat>, ghost at: map<nat, nat>, selected: nat)
    returns (path: seq<nat>)
    requires Linked(f, sink, toward, at) && selected in toward && selected in f.leaves
    ensures IsRoute(f, sink, path) && path[0] == selected && Hops(path) == at[selected] && Distinct(path)
  {
    path := [];
    var cursor: Option<nat> := Some(selected);
    while cursor.Some?
      invariant cursor.Some? ==>
                  && cursor.value in at
                  && path + PathOf(f, sink, toward, at, cursor.value) == PathOf(f, sink, toward, at, selected)
      invariant cursor.None? ==> path == PathOf(f, sink, toward, at, selected)
      decreases if cursor.Some? then at[cursor.value] + 1 else 0
    {
      PathNext(f, sink, toward, at, selected, path, cursor.value);
      path := path + [cursor.value];
      if cursor.value == sink {
        break;
      }
      cursor := if cursor.value in toward then Some(toward[cursor.value]) else None;
    }
    PathIsRoute(f, sink, toward, at, selected);
  }

  // ---------------------------------------------------------------------------
  // Ordinary candidates
  // ---------------------------------------------------------------------------

  ghost predicate TwoHop(f: Fabric, n: nat, leaf: nat) {
    leaf in f.leaves && exists first :: Climbs(f, first, n) && Climbs(f, leaf, first)
  }

  ghost predicate TwoHopLeaves(f: Fabric, n: nat, candidates: map<nat, nat>) {
    && (forall leaf :: leaf in candidates <==> TwoHop(f, n, leaf))
    && (forall leaf :: leaf in candidates ==> candidates[leaf] == 2)
  }

  /** The leaf buffers two hops above the sink's interconnect node. */
  method TwoHopSearch(f: Fabric, n: nat) returns (candidates: map<nat, nat>)
    requires f.Valid() && n < |f.uphill|
    ensures TwoHopLeaves(f, n, candidates)
  {
    candidates := map[];
    for i := 0 to |f.uphill[n]|
      invariant forall leaf :: leaf in candidates <==> TwoHopUpTo(f, n, leaf, i)
      invariant forall leaf :: leaf in candidates ==> candidates[leaf] == 2
    {
      var first := f.uphill[n][i];
      UphillNode(f, n, i);
      if f.status[first] != Unavailable {
        ghost var before := candidates;
        for j := 0 to |f.uphill[first]|
          invariant forall leaf :: leaf in candidates <==> leaf in before || LeafUpTo(f, first, leaf, j)
          invariant forall leaf :: leaf in candidates ==> candidates[leaf] == 2
        {
          var second := f.uphill[first][j];
          UphillNode(f, first, j);
          if second in f.leaves && f.status[second] != Unavailable {
            candidates := candidates[second := 2];
          }
        }
      }
    }
  }

  ghost predicate LeafUpTo(f: Fabric, first: nat, leaf: nat, upTo: int) {
    && first < |f.uphill| && leaf in f.leaves && Climbs(f, leaf, first)
    && exists j :: 0 <= j < upTo && j < |f.uphill[first]| && f.uphill[first][j] == leaf
  }

  ghost predicate TwoHopUpTo(f: Fabric, n: nat, leaf: nat, upTo: int) {
    && n < |f.uphill| && leaf in f.leaves
    && exists i :: 0 <= i < upTo && i < |f.uphill[n]| && Climbs(f, f.uphill[n][i], n) && Climbs(f, leaf, f.uphill[n][i])
  }

  // ---------------------------------------------------------------------------
  // Selecting a buffer
  // ---------------------------------------------------------------------------

  /** Buffers already used by this clock, or in use, come before others of the same depth. */
  function Preference(f: Fabric, used: set<nat>, n: nat): int
    requires n < |f.status|
  {
    if n in used || f.status[n] == InUse then 0 else 1
  }

  predicate NotAfter(f: Fabric, used: set<nat>, candidates: map<nat, nat>, a: nat, b: nat)
    requires a in candidates && b in candidates && a < |f.status| == |f.names| && b < |f.status|
  {
    || candidates[a] < candidates[b]
    || (candidates[a] == candidates[b]
        && (|| Preference(f, used, a) < Preference(f, used, b)
            || (Preference(f, used, a) == Preference(f, used, b) && f.names[a] <= f.names[b])))
  }

  ghost predicate InFabric(f: Fabric, candidates: map<nat, nat>) {
    forall n :: n in candidates ==> n < |f.status| == |f.names|
  }

  /** First in the order of depth, preference and name. */
  ghost predicate First(f: Fabric, used: set<nat>, candidates: map<nat, nat>, selected: nat) {
    InFabric(f, candidates) && selected in candidates
    && forall n :: n in candidates ==> NotAfter(f, used, candidates, selected, n)
  }

  /** The buffer is taken by this clock already, or in use. */
  ghost predicate Reused(f: Fabric, used: set<nat>, n: nat)
    requires n < |f.status|
  {
    n in used || f.status[n] == InUse
  }

  /** The selected buffer is nearest; among the nearest, a buffer that is reused is never passed over for a free one,
      and names decide between buffers of one kind. */
  lemma FirstMeans(f: Fabric, used: set<nat>, candidates: map<nat, nat>, selected: nat)
    requires InFabric(f, candidates)
    ensures First(f, used, candidates, selected) <==>
              && selected in candidates
              && forall n :: n in candidates ==>
                   || candidates[selected] < candidates[n]
                   || (candidates[selected] == candidates[n] && Reused(f, used, selected) && !Reused(f, used, n))
                   || (candidates[selected] == candidates[n] && f.names[selected] <= f.names[n]
                       && (Reused(f, used, selected) <==> Reused(f, used, n)))
  {
    if selected in candidates {
      forall n | n in candidates
        ensures NotAfter(f, used, candidates, selected, n) <==>
                  || candidates[selected] < candidates[n]
                  || (candidates[selected] == candidates[n] && Reused(f, used, selected) && !Reused(f, used, n))
                  || (candidates[selected] == candidates[n] && f.names[selected] <= f.names[n]
                      && (Reused(f, used, selected) <==> Reused(f, used, n)))
      {
      }
    }
  }

  method Select(f: Fabric, used: set<nat>, candidates: map<nat, nat>) returns (selected: nat)
    requires InFabric(f, candidates) && candidates != map[]
    ensures First(f, used, candidates, selected)
  {
    var rest := candidates.Keys;
    assert rest != {};
    selected :| selected in rest;
    rest := rest - {selected};
    while rest != {}
      invariant rest <= candidates.Keys && selected in candidates
      invariant forall n :: n in candidates && n !in rest ==> NotAfter(f, used, candidates, selected, n)
    {
      var n :| n in rest;
      if !NotAfter(f, used, candidates, selected, n) {
        selected := n;
      }
      rest := rest - {n};
    }
  }

  // ---------------------------------------------------------------------------
  // Routing the sinks of a clock
  // ---------------------------------------------------------------------------

  /** A pin of the clock net, with the interconnect node it projects to and the node it connects to. */
  datatype Pin = Pin(id: nat, output: bool, interconnect: Option<nat>, node: Option<nat>)

  ghost predicate InRange(f: Fabric, pin: Pin) {
    && (pin.interconnect.Some? ==> pin.interconnect.value < |f.uphill|)
    && (pin.node.Some? ==> pin.node.value < |f.uphill|)
  }

  ghost predicate HasTwoHop(f: Fabric, n: nat) { exists leaf :: TwoHop(f, n, leaf) }

  ghost predicate HasRoute(f: Fabric, sink: nat) {
    exists path :: IsRoute(f, sink, path) && Hops(path) <= MAX_LCB_SEARCH_DEPTH
  }

  /** The sink projects to an interconnect node, with a leaf buffer two hops above it or, failing
      that, one within the search depth above its own node. */
  ghost predicate Reachable(f: Fabric, pin: Pin) {
    pin.interconnect.Some? && (HasTwoHop(f, pin.interconnect.value) || (pin.node.Some? && HasRoute(f, pin.node.value)))
  }

  datatype SinkRoute = Ordinary(leaf: nat) | Extended(leaf: nat, path: seq<nat>)

  /** The preferred buffer two hops up if there is one, and an extended route otherwise. */
  ghost predicate RightRoute(f: Fabric, pin: Pin, used: set<nat>, route: SinkRoute) {
    if pin.interconnect.Some? && HasTwoHop(f, pin.interconnect.value)
    then route.Ordinary? && exists candidates ::
           TwoHopLeaves(f, pin.interconnect.value, candidates) && First(f, used, candidates, route.leaf)
    else pin.node.Some? && RightExtension(f, pin.node.value, used, route)
  }

  lemma NearestIsReachable(f: Fabric, sink: nat, candidates: map<nat, nat>)
    requires NearestLeaves(f, sink, candidates)
    ensures candidates != map[] <==> HasRoute(f, sink)
  {
    if candidates != map[] {
      var leaf :| leaf in candidates;
      assert RouteFrom(f, sink, leaf, candidates[leaf]);
    }
    if HasRoute(f, sink) {
      var path :| IsRoute(f, sink, path) && Hops(path) <= MAX_LCB_SEARCH_DEPTH;
      var shortest := ShortestRoute(f, sink, path);
      assert RouteFrom(f, sink, shortest[0], Hops(shortest));
      assert shortest[0] in candidates;
    }
  }

  lemma {:induction false} ShortestRoute(f: Fabric, sink: nat, path: seq<nat>) returns (shortest: seq<nat>)
    requires IsRoute(f, sink, path)
    ensures IsRoute(f, sink, shortest) && Hops(shortest) <= Hops(path) && NoShorterRoute(f, sink, Hops(shortest))
    decreases |path|
  {
    if other :| IsRoute(f, sink, other) && Hops(other) < Hops(path) {
      shortest := ShortestRoute(f, sink, other);
    } else {
      shortest := path;
    }
  }

  /** A shortest route over the preferred one of the nearest buffers. */
  ghost predicate RightExtension(f: Fabric, sink: nat, used: set<nat>, route: SinkRoute) {
    && route.Extended? && IsRoute(f, sink, route.path) && route.path[0] == route.leaf && Distinct(route.path)
    && Hops(route.path) <= MAX_LCB_SEARCH_DEPTH && NoShorterRoute(f, sink, Hops(route.path))
    && exists candidates :: NearestLeaves(f, sink, candidates) && First(f, used, candidates, route.leaf)
  }

  lemma CandidateIsShortest(f: Fabric, sink: nat, candidates: map<nat, nat>, leaf: nat)
    requires NearestLeaves(f, sink, candidates) && leaf in candidates
    ensures candidates[leaf] <= MAX_LCB_SEARCH_DEPTH && NoShorterRoute(f, sink, candidates[leaf])
  {
    assert RouteFrom(f, sink, leaf, candidates[leaf]);
  }

  method ExtendedRoute(f: Fabric, sink: nat, used: set<nat>) returns (route: Option<SinkRoute>)
    requires f.Valid() && sink < |f.uphill|
    ensures route.Some? <==> HasRoute(f, sink)
    ensures route.Some? ==> RightExtension(f, sink, used, route.value)
  {
    var candidates, toward, at := NearestLeafSearch(f, sink);
    NearestIsReachable(f, sink, candidates);
    if candidates == map[] {
      return None;
    }
    var selected := Select(f, used, candidates);
    var path := RebuildPath(f, sink, toward, at, selected);
    CandidateIsShortest(f, sink, candidates, selected);
    route := Some(Extended(selected, path));
  }

  /** Routes one sink; fails exactly if no leaf buffer can be reached. */
  method RouteSink(f: Fabric, pin: Pin, used: set<nat>) returns (route: Option<SinkRoute>)
    requires f.Valid() && InRange(f, pin)
    ensures route.Some? <==> Reachable(f, pin)
    ensures route.Some? ==> RightRoute(f, pin, used, route.value)
  {
    if pin.interconnect.None? {
      return None;
    }
    var candidates := TwoHopSearch(f, pin.interconnect.value);
    if candidates == map[] {
      if pin.node.None? {
        return None;
      }
      route := ExtendedRoute(f, pin.node.value, used);
    } else {
      TwoHopExists(f, pin.interconnect.value, candidates);
      var selected := Select(f, used, candidates);
      route := Some(Ordinary(selected));
    }
  }

  lemma TwoHopExists(f: Fabric, n: nat, candidates: map<nat, nat>)
    requires TwoHopLeaves(f, n, candidates) && candidates != map[]
    ensures HasTwoHop(f, n)
  {
    var leaf :| leaf in candidates;
    assert TwoHop(f, n, leaf);
  }

  // ---------------------------------------------------------------------------
  // Routing all sinks
  // ---------------------------------------------------------------------------

  /** The buffers taken so far. */
  ghost function Taken(choices: seq<Option<SinkRoute>>): set<nat> {
    if choices == [] then {}
    else
      var last := choices[|choices| - 1];
      Taken(choices[..|choices| - 1]) + if last.Some? then {last.value.leaf} else {}
  }

  /** The pins with an ordinary route from the buffer, in order. */
  ghost function OrdinaryPins(pins: seq<Pin>, choices: seq<Option<SinkRoute>>, leaf: nat): seq<Pin>
    requires |choices| <= |pins|
  {
    if choices == [] then []
    else
      var last := |choices| - 1;
      OrdinaryPins(pins, choices[..last], leaf) + if choices[last] == Some(Ordinary(leaf)) then [pins[last]] else []
  }

  /** Every sink has the right route, given the buffers taken before it; outputs have none. */
  ghost predicate RightChoices(f: Fabric, pins: seq<Pin>, choices: seq<Option<SinkRoute>>) {
    && |choices| <= |pins|
    && forall i | 0 <= i < |choices| ::
         if pins[i].output then choices[i] == None
         else choices[i].Some? && RightRoute(f, pins[i], Taken(choices[..i]), choices[i].value)
  }

  ghost predicate HasExtended(pins: seq<Pin>, choices: seq<Option<SinkRoute>>, pin: Pin) {
    exists i :: 0 <= i < |choices| && i < |pins| && pins[i] == pin && choices[i].Some? && choices[i].value.Extended?
  }

  ghost predicate OrdinaryAgree(mappings: map<nat, seq<Pin>>, pins: seq<Pin>, choices: seq<Option<SinkRoute>>)
    requires |choices| <= |pins|
  {
    forall leaf :: OrdinaryPins(pins, choices, leaf) == MappedTo(mappings, leaf)
  }

  function MappedTo(mappings: map<nat, seq<Pin>>, leaf: nat): seq<Pin> {
    if leaf in mappings then mappings[leaf] else []
  }

  ghost predicate ExtendedAgree(paths: map<Pin, seq<nat>>, pins: seq<Pin>, choices: seq<Option<SinkRoute>>)
    requires |choices| <= |pins|
  {
    && (forall pin :: pin in paths <==> HasExtended(pins, choices, pin))
    && forall i | 0 <= i < |choices| && choices[i].Some? && choices[i].value.Extended? ::
         pins[i] in paths && paths[pins[i]] == choices[i].value.path
  }

  lemma OrdinaryGrows(mappings: map<nat, seq<Pin>>, pins: seq<Pin>, choices: seq<Option<SinkRoute>>,
                      choice: Option<SinkRoute>)
    requires |choices| < |pins| && OrdinaryAgree(mappings, pins, choices)
    ensures (choice.Some? ==> choice.value.Extended?) ==> OrdinaryAgree(mappings, pins, choices + [choice])
    ensures choice.Some? && choice.value.Ordinary? ==>
              OrdinaryAgree(mappings[choice.value.leaf := MappedTo(mappings, choice.value.leaf) + [pins[|choices|]]],
                            pins, choices + [choice])
  {
    forall leaf
      ensures OrdinaryPins(pins, choices + [choice], leaf)
              == MappedTo(mappings, leaf) + if choice == Some(Ordinary(leaf)) then [pins[|choices|]] else []
    {
      assert (choices + [choice])[..|choices|] == choices;
      assert OrdinaryPins(pins, choices, leaf) == MappedTo(mappings, leaf);
    }
    forall leaf ensures MappedTo(mappings, leaf) + [] == MappedTo(mappings, leaf) {
    }
  }

  lemma ExtendedKept(paths: map<Pin, seq<nat>>, pins: seq<Pin>, choices: seq<Option<SinkRoute>>,
                     choice: Option<SinkRoute>)
    requires |choices| < |pins| && ExtendedAgree(paths, pins, choices)
    requires forall i | 0 <= i < |choices| :: pins[i] != pins[|choices|]
    ensures !(choice.Some? && choice.value.Extended?) ==> ExtendedAgree(paths, pins, choices + [choice])
    ensures choice.Some? && choice.value.Extended? ==>
              ExtendedAgree(paths[pins[|choices|] := choice.value.path], pins, choices + [choice])
  {
    forall p
      ensures HasExtended(pins, choices + [choice], p) <==>
                (HasExtended(pins, choices, p) || (pins[|choices|] == p && choice.Some? && choice.value.Extended?))
    {
      ExtendedGrows(pins, choices, choice, p);
    }
  }

  class ClockSinkRoutes {
    var ordinaryMappings: map<nat, seq<Pin>>
    var extendedPaths: map<Pin, seq<nat>>
    var leafTargets: set<nat>

    constructor ()
      ensures ordinaryMappings == map[] && extendedPaths == map[] && leafTargets == {}
    {
      ordinaryMappings, extendedPaths, leafTargets := map[], map[], {};
    }

    /** The tables list exactly the routes chosen. */
    ghost predicate Records(pins: seq<Pin>, choices: seq<Option<SinkRoute>>)
      reads this
    {
      |choices| <= |pins| && leafTargets == Taken(choices) && OrdinaryAgree(ordinaryMappings, pins, choices)
        && ExtendedAgree(extendedPaths, pins, choices)
    }

    method Record(pin: Pin, route: SinkRoute, ghost pins: seq<Pin>, ghost choices: seq<Option<SinkRoute>>)
      requires |choices| < |pins| && pins[|choices|] == pin && Records(pins, choices)
      requires forall i | 0 <= i < |choices| :: pins[i] != pin
      modifies this
      ensures Records(pins, choices + [Some(route)])
    {
      assert (choices + [Some(route)])[..|choices|] == choices;
      OrdinaryGrows(ordinaryMappings, pins, choices, Some(route));
      ExtendedKept(extendedPaths, pins, choices, Some(route));
      leafTargets := leafTargets + {route.leaf};
      if route.Extended? {
        extendedPaths := extendedPaths[pin := route.path];
      } else {
        ordinaryMappings := ordinaryMappings[route.leaf := MappedTo(ordinaryMappings, route.leaf) + [pin]];
      }
    }
  }

  lemma ExtendedGrows(pins: seq<Pin>, choices: seq<Option<SinkRoute>>, choice: Option<SinkRoute>, pin: Pin)
    requires |choices| < |pins|
    ensures HasExtended(pins, choices + [choice], pin)
            <==> HasExtended(pins, choices, pin) || (pins[|choices|] == pin && choice.Some? && choice.value.Extended?)
  {
    var longer := choices + [choice];
    if HasExtended(pins, choices, pin) {
      var i :| 0 <= i < |choices| && i < |pins| && pins[i] == pin && choices[i].Some? && choices[i].value.Extended?;
      assert longer[i] == choices[i];
    }
    if pins[|choices|] == pin && choice.Some? && choice.value.Extended? {
      assert longer[|choices|] == choice;
    }
  }

  lemma RecordsNothing(routes: ClockSinkRoutes, pins: seq<Pin>, choices: seq<Option<SinkRoute>>)
    requires |choices| < |pins| && routes.Records(pins, choices)
    requires forall i | 0 <= i < |choices| :: pins[i] != pins[|choices|]
    ensures routes.Records(pins, choices + [None])
  {
    assert (choices + [None])[..|choices|] == choices;
    OrdinaryGrows(routes.ordinaryMappings, pins, choices, None);
    ExtendedKept(routes.extendedPaths, pins, choices, None);
  }

  /** Routes every sink of the clock; fails exactly if one of them can reach no leaf buffer. */
  method RouteClockSinks(f: Fabric, pins: seq<Pin>)
    returns (routes: ClockSinkRoutes, ok: bool, ghost choices: seq<Option<SinkRoute>>)
    requires f.Valid() && forall i | 0 <= i < |pins| :: InRange(f, pins[i])
    requires forall i, j | 0 <= i < j < |pins| :: pins[i] != pins[j]
    ensures ok <==> forall i | 0 <= i < |pins| :: pins[i].output || Reachable(f, pins[i])
    ensures ok ==> |choices| == |pins| && RightChoices(f, pins, choices) && routes.Records(pins, choices)
  {
    routes := new ClockSinkRoutes();
    choices, ok := [], true;
    var usedLCBs: set<nat> := {};
    for i := 0 to |pins|
      invariant fresh(routes) && |choices| == i && RightChoices(f, pins, choices) && routes.Records(pins, choices)
      invariant usedLCBs == Taken(choices)
      invariant forall j | 0 <= j < i :: pins[j].output || Reachable(f, pins[j])
    {
      if pins[i].output {
        RecordsNothing(routes, pins, choices);
        choices := AddChoice(f, pins, choices, None);
        continue;
      }
      var route := RouteSink(f, pins[i], usedLCBs);
      if route.None? {
        return routes, false, choices;
      }
      routes.Record(pins[i], route.value, pins, choices);
      choices := AddChoice(f, pins, choices, route);
      usedLCBs := usedLCBs + {route.value.leaf};
    }
  }

  lemma AddChoice(f: Fabric, pins: seq<Pin>, choices: seq<Option<SinkRoute>>, choice: Option<SinkRoute>)
    returns (longer: seq<Option<SinkRoute>>)
    requires |choices| < |pins| && RightChoices(f, pins, choices)
    requires if pins[|choices|].output then choice == None
             else choice.Some? && RightRoute(f, pins[|choices|], Taken(choices), choice.value)
    ensures longer == choices + [choice] && RightChoices(f, pins, longer)
    ensures Taken(longer) == Taken(choices) + if choice.Some? then {choice.value.leaf} else {}
  {
    longer := choices + [choice];
    assert longer[..|choices|] == choices;
    forall i | 0 <= i < |choices| ensures longer[..i] == choices[..i] {
    }
  }
}
