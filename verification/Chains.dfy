// Decomposing cascade edges into maximal chains of sites.
module Chains {
  import opened Lexicographic
  import opened Sequences

  /** A cascade edge; sites stand for their names in sort order. */
  datatype Edge = Edge(source: nat, target: nat)

  datatype Failure = Branches | Merges | EdgeRepeats | ContainsCycle | OrphanOrCyclic

  datatype Result = Ok(chains: seq<seq<nat>>) | Err(failure: Failure)

  // ---------------------------------------------------------------------------
  // The edge relation
  // ---------------------------------------------------------------------------

  ghost predicate BranchFree(edges: seq<Edge>) {
    forall i, j | 0 <= i < j < |edges| :: edges[i].source != edges[j].source
  }

  ghost predicate MergeFree(edges: seq<Edge>) {
    forall i, j | 0 <= i < j < |edges| :: edges[i].target != edges[j].target
  }

  ghost predicate IsWalk(edges: seq<Edge>, walk: seq<nat>) {
    forall i | 0 <= i < |walk| - 1 :: Edge(walk[i], walk[i + 1]) in edges
  }

  ghost predicate IsCycle(edges: seq<Edge>, walk: seq<nat>) {
    |walk| >= 2 && walk[0] == walk[|walk| - 1] && IsWalk(edges, walk)
  }

  ghost predicate Acyclic(edges: seq<Edge>) { forall walk :: !IsCycle(edges, walk) }

  ghost predicate Decomposable(edges: seq<Edge>) { BranchFree(edges) && MergeFree(edges) && Acyclic(edges) }

  // ---------------------------------------------------------------------------
  // Chains
  // ---------------------------------------------------------------------------

  ghost predicate IsSource(edges: seq<Edge>, site: nat) { exists target :: Edge(site, target) in edges }

  ghost predicate IsTarget(edges: seq<Edge>, site: nat) { exists source :: Edge(source, site) in edges }

  /** A walk without repeats that cannot be prolonged at either end. */
  ghost predicate Maximal(edges: seq<Edge>, chain: seq<nat>) {
    && |chain| >= 2 && IsWalk(edges, chain) && Distinct(chain)
    && !IsTarget(edges, chain[0]) && !IsSource(edges, chain[|chain| - 1])
  }

  ghost predicate Disjoint(a: seq<nat>, b: seq<nat>) { forall site :: !(site in a && site in b) }

  /** The chain runs over the edge. */
  ghost predicate Covers(chain: seq<nat>, e: Edge) {
    exists i :: 0 <= i < |chain| - 1 && chain[i] == e.source && chain[i + 1] == e.target
  }

  /** Maximal chains in the order of their first sites, with no site in common, over all edges. */
  ghost predicate Decomposes(edges: seq<Edge>, chains: seq<seq<nat>>) {
    && (forall c | 0 <= c < |chains| :: Maximal(edges, chains[c]))
    && (forall c, d | 0 <= c < d < |chains| :: Disjoint(chains[c], chains[d]) && chains[c][0] <= chains[d][0])
    && (forall e :: e in edges ==> exists c :: 0 <= c < |chains| && Covers(chains[c], e))
  }

  /** No edge is covered twice. */
  lemma CoveredOnce(edges: seq<Edge>, chains: seq<seq<nat>>, e: Edge, c: nat, i: nat, d: nat, j: nat)
    requires Decomposes(edges, chains) && c < |chains| && d < |chains| && i < |chains[c]| - 1 && j < |chains[d]| - 1
    requires chains[c][i] == e.source == chains[d][j]
    ensures c == d && i == j
  {
    assert e.source in chains[c] && e.source in chains[d];
    assert c < d ==> Disjoint(chains[c], chains[d]);
    assert d < c ==> Disjoint(chains[d], chains[c]);
    assert Maximal(edges, chains[c]);
  }

  // ---------------------------------------------------------------------------
  // Successor map
  // ---------------------------------------------------------------------------

  ghost predicate Follows(edges: seq<Edge>, next: map<nat, nat>, targets: set<nat>) {
    && (forall site :: site in next ==> Edge(site, next[site]) in edges)
    && (forall e :: e in edges ==> e.source in next && next[e.source] == e.target && e.target in targets)
    && (forall site :: site in targets ==> IsTarget(edges, site))
    && (forall a, b :: a in next && b in next && next[a] == next[b] ==> a == b)
    && |next| == |edges|
  }

  /** Reads the edges; fails at the first branch or merge. */
  method Successors(edges: seq<Edge>) returns (next: map<nat, nat>, targets: set<nat>, failure: Result)
    ensures failure.Ok? <==> BranchFree(edges) && MergeFree(edges)
    ensures failure.Ok? ==> Follows(edges, next, targets)
    ensures failure.Err? ==>
              (failure.failure == Branches && !BranchFree(edges)) || (failure.failure == Merges && !MergeFree(edges))
  {
    next, targets := map[], {};
    for i := 0 to |edges|
      invariant Follows(edges[..i], next, targets) && BranchFree(edges[..i]) && MergeFree(edges[..i])
    {
      TakeNext(edges, i);
      var e := edges[i];
      if e.source in next {
        assert Edge(e.source, next[e.source]) in edges[..i];
        return next, targets, Err(Branches);
      }
      if e.target in targets {
        assert IsTarget(edges[..i], e.target);
        return next, targets, Err(Merges);
      }
      AddSuccessor(edges[..i], next, targets, e);
      next, targets := next[e.source := e.target], targets + {e.target};
    }
    assert edges[..|edges|] == edges;
    failure := Ok([]);
  }

  lemma AddSuccessor(before: seq<Edge>, next: map<nat, nat>, targets: set<nat>, e: Edge)
    requires Follows(before, next, targets) && BranchFree(before) && MergeFree(before) && e.source !in next
             && e.target !in targets
    ensures Follows(before + [e], next[e.source := e.target], targets + {e.target})
    ensures BranchFree(before + [e]) && MergeFree(before + [e])
  {
    NewEnds(before, next, targets, e);
    var after := before + [e];
    assert forall f :: f in after <==> f in before || f == e;
    forall site | site in targets + {e.target} ensures IsTarget(after, site) {
      if site in targets {
        var source :| Edge(source, site) in before;
        assert Edge(source, site) in after;
      } else {
        assert Edge(e.source, site) in after;
      }
    }
    forall site | site in next ensures next[site] != e.target {
      assert Edge(site, next[site]) in before;
    }
  }

  lemma NewEnds(before: seq<Edge>, next: map<nat, nat>, targets: set<nat>, e: Edge)
    requires Follows(before, next, targets) && BranchFree(before) && MergeFree(before) && e.source !in next
             && e.target !in targets
    ensures BranchFree(before + [e]) && MergeFree(before + [e])
  {
    forall i | 0 <= i < |before| ensures before[i].source != e.source && before[i].target != e.target {
      assert before[i] in before;
    }
  }

  // ---------------------------------------------------------------------------
  // Following one chain
  // ---------------------------------------------------------------------------

  /** Nothing leads into or out of the placed sites. */
  ghost predicate Closed(next: map<nat, nat>, placed: set<nat>) {
    forall n :: n in next ==> (n in placed <==> next[n] in placed)
  }

  /** A chain under construction, from its start to its last site. */
  ghost predicate Following(next: map<nat, nat>, targets: set<nat>, placed: set<nat>, chain: seq<nat>) {
    && chain != [] && chain[0] in next && chain[0] !in targets && Distinct(chain) && Elements(chain) !! placed
    && forall i | 0 <= i < |chain| - 1 :: chain[i] in next && next[chain[i]] == chain[i + 1]
  }

  /** The next site is new: neither in an earlier chain nor in this one. */
  lemma NextIsNew(edges: seq<Edge>, next: map<nat, nat>, targets: set<nat>, placed: set<nat>, chain: seq<nat>)
    requires Follows(edges, next, targets) && Closed(next, placed) && Following(next, targets, placed, chain)
    requires chain[|chain| - 1] in next
    ensures next[chain[|chain| - 1]] !in chain && Following(next, targets, placed, chain + [next[chain[|chain| - 1]]])
  {
    var last := |chain| - 1;
    var site := next[chain[last]];
    assert Edge(chain[last], site) in edges;
    assert chain[last] in Elements(chain);
    forall j | 0 <= j < |chain| ensures chain[j] != site {
      if j > 0 {
        assert next[chain[j - 1]] == chain[j];
      }
    }
    assert Elements(chain + [site]) == Elements(chain) + {site};
  }

  /** The sources a chain passes. */
  ghost function Passed(chain: seq<nat>): set<nat>
    requires chain != []
  {
    Elements(chain[..|chain| - 1])
  }

  method FollowChain(edges: seq<Edge>, next: map<nat, nat>, ghost targets: set<nat>, start: nat, visited: set<nat>,
                     ghost placed: set<nat>)
    returns (chain: seq<nat>, visited': set<nat>, failure: Result)
    requires Follows(edges, next, targets) && Closed(next, placed) && visited <= placed
    requires start in next && start !in targets && start !in placed
    ensures failure.Ok?
    ensures chain != [] && chain[0] == start && Following(next, targets, placed, chain) && chain[|chain| - 1] !in next
    ensures visited' == visited + Passed(chain)
  {
    failure := Ok([]);
    var site := start;
    chain, visited' := [site], visited;
    var members := {site};
    while site in next
      invariant Following(next, targets, placed, chain) && chain[0] == start && site == chain[|chain| - 1]
      invariant members == Elements(chain) && visited' == visited + Passed(chain)
      decreases next.Keys - Passed(chain)
    {
      NextIsNew(edges, next, targets, placed, chain);
      if site in visited' {
        return chain, visited', Err(EdgeRepeats);
      }
      visited' := visited' + {site};
      site := next[site];
      if site in members {
        return chain, visited', Err(ContainsCycle);
      }
      members := members + {site};
      PassedGrows(chain, site);
      chain := chain + [site];
    }
  }

  lemma PassedGrows(chain: seq<nat>, site: nat)
    requires chain != [] && Distinct(chain)
    ensures Passed(chain + [site]) == Passed(chain) + {chain[|chain| - 1]} && chain[|chain| - 1] !in Passed(chain)
    ensures Elements(chain + [site]) == Elements(chain) + {site}
  {
    SplitLast(chain);
    assert (chain + [site])[..|chain|] == chain;
  }

  // ---------------------------------------------------------------------------
  // All chains
  // ---------------------------------------------------------------------------

  ghost predicate InSome(chains: seq<seq<nat>>, site: nat) { exists c :: 0 <= c < |chains| && site in chains[c] }

  /** The chains found so far, the sites in them and the sources they pass. */
  ghost predicate Placed(edges: seq<Edge>, next: map<nat, nat>, chains: seq<seq<nat>>, visited: set<nat>,
                         placed: set<nat>) {
    && (forall c | 0 <= c < |chains| :: Maximal(edges, chains[c]))
    && (forall c, d | 0 <= c < d < |chains| :: Disjoint(chains[c], chains[d]) && chains[c][0] <= chains[d][0])
    && (forall site :: site in placed <==> InSome(chains, site))
    && Closed(next, placed)
    && visited == placed * next.Keys
  }

  lemma ChainIsMaximal(edges: seq<Edge>, next: map<nat, nat>, targets: set<nat>, placed: set<nat>, chain: seq<nat>)
    requires Follows(edges, next, targets) && Following(next, targets, placed, chain) && chain[|chain| - 1] !in next
    ensures Maximal(edges, chain)
  {
    forall e | e in edges ensures e.target != chain[0] && e.source != chain[|chain| - 1] {
    }
  }

  lemma ChainCloses(edges: seq<Edge>, next: map<nat, nat>, targets: set<nat>, placed: set<nat>, chain: seq<nat>)
    requires Follows(edges, next, targets) && Closed(next, placed) && Following(next, targets, placed, chain)
             && chain[|chain| - 1] !in next
    ensures Closed(next, placed + Elements(chain)) && Passed(chain) == Elements(chain) * next.Keys
  {
    SplitLast(chain);
    forall n | n in next ensures n in placed + Elements(chain) <==> next[n] in placed + Elements(chain) {
      if n in chain {
        var i :| 0 <= i < |chain| && chain[i] == n;
        assert chain[i + 1] == next[n];
      }
      if next[n] in chain {
        var i :| 0 <= i < |chain| && chain[i] == next[n];
        assert Edge(n, next[n]) in edges;
        if i > 0 {
          assert next[chain[i - 1]] == next[n];
        }
      }
    }
  }

  lemma AddChain(edges: seq<Edge>, next: map<nat, nat>, targets: set<nat>, chains: seq<seq<nat>>, visited: set<nat>,
                 placed: set<nat>, chain: seq<nat>)
    requires Follows(edges, next, targets) && Placed(edges, next, chains, visited, placed)
    requires Following(next, targets, placed, chain) && chain[|chain| - 1] !in next
    requires forall c | 0 <= c < |chains| :: chains[c] != [] && chains[c][0] <= chain[0]
    ensures Placed(edges, next, chains + [chain], visited + Passed(chain), placed + Elements(chain))
  {
    ChainIsMaximal(edges, next, targets, placed, chain);
    ChainCloses(edges, next, targets, placed, chain);
    forall site ensures InSome(chains + [chain], site) <==> InSome(chains, site) || site in chain {
      InSomeGrows(chains, chain, site);
    }
    forall c | 0 <= c < |chains| ensures Disjoint(chains[c], chain) {
      forall site ensures !(site in chains[c] && site in chain) {
        assert site in chains[c] ==> InSome(chains, site);
        assert site in chain ==> site in Elements(chain);
      }
    }
  }

  lemma InSomeGrows(chains: seq<seq<nat>>, chain: seq<nat>, site: nat)
    ensures InSome(chains + [chain], site) <==> InSome(chains, site) || site in chain
  {
    var longer := chains + [chain];
    if InSome(chains, site) {
      var c :| 0 <= c < |chains| && site in chains[c];
      assert longer[c] == chains[c];
    }
    if site in chain {
      assert longer[|chains|] == chain;
    }
  }

  /** Finished: every start has its chain. */
  ghost predicate AllStarted(next: map<nat, nat>, targets: set<nat>, placed: set<nat>) {
    forall n :: n in next && n !in targets ==> n in placed
  }

  // ---------------------------------------------------------------------------
  // Cycles
  // ---------------------------------------------------------------------------

  lemma CloseCycle(edges: seq<Edge>, walk: seq<nat>, j: nat, before: nat)
    requires IsWalk(edges, walk) && j < |walk| && walk[j] == before && Edge(before, walk[0]) in edges
    ensures IsCycle(edges, [before] + walk[..j + 1])
  {
    var cycle := [before] + walk[..j + 1];
    forall i | 0 <= i < |cycle| - 1 ensures Edge(cycle[i], cycle[i + 1]) in edges {
      if i > 0 {
        assert Edge(walk[i - 1], walk[i]) in edges;
      }
    }
  }

  lemma PrependWalk(edges: seq<Edge>, walk: seq<nat>, before: nat)
    requires IsWalk(edges, walk) && walk != [] && Distinct(walk) && before !in walk && Edge(before, walk[0]) in edges
    ensures IsWalk(edges, [before] + walk) && Distinct([before] + walk)
            && Elements([before] + walk) == {before} + Elements(walk)
  {
  }

  /** A site left over has a predecessor that is left over too. */
  lemma LeftPredecessor(edges: seq<Edge>, next: map<nat, nat>, targets: set<nat>, placed: set<nat>, site: nat)
    returns (before: nat)
    requires Follows(edges, next, targets) && Closed(next, placed) && AllStarted(next, targets, placed)
    requires site in next && site !in placed
    ensures Edge(before, site) in edges && before in next && before !in placed
  {
    assert IsTarget(edges, site);
    before :| Edge(before, site) in edges;
  }

  /** Going back from any site left over runs into a cycle. */
  lemma {:induction false} FindCycle(edges: seq<Edge>, next: map<nat, nat>, targets: set<nat>, placed: set<nat>,
                                     left: set<nat>, walk: seq<nat>) returns (cycle: seq<nat>)
    requires Follows(edges, next, targets) && Closed(next, placed) && AllStarted(next, targets, placed)
    requires left == next.Keys - placed && walk != [] && Distinct(walk) && Elements(walk) <= left && IsWalk(edges, walk)
    ensures IsCycle(edges, cycle)
    decreases left - Elements(walk)
  {
    assert walk[0] in Elements(walk);
    var before := LeftPredecessor(edges, next, targets, placed, walk[0]);
    if before in walk {
      var j :| 0 <= j < |walk| && walk[j] == before;
      CloseCycle(edges, walk, j, before);
      cycle := [before] + walk[..j + 1];
    } else {
      PrependWalk(edges, walk, before);
      cycle := FindCycle(edges, next, targets, placed, left, [before] + walk);
    }
  }

  /** A cycle cannot pass through a chain: going back along it would pass the chain's first site. */
  lemma {:induction false} NoCycleMeets(edges: seq<Edge>, next: map<nat, nat>, targets: set<nat>, chain: seq<nat>,
                                        p: nat, walk: seq<nat>)
    requires Follows(edges, next, targets) && Maximal(edges, chain) && p < |chain| && IsCycle(edges, walk)
    ensures chain[p] !in walk
    decreases p
  {
    if p > 0 {
      NoCycleMeets(edges, next, targets, chain, p - 1, walk);
    }
    forall i | 0 <= i < |walk| ensures walk[i] != chain[p] {
      var j := if i > 0 then i - 1 else |walk| - 2;
      assert Edge(walk[j], walk[j + 1]) in edges && walk[j + 1] == walk[i];
      if p > 0 {
        assert Edge(chain[p - 1], chain[p]) in edges;
        assert walk[j] in walk;
      }
    }
  }

  lemma AllVisitedIsAcyclic(edges: seq<Edge>, next: map<nat, nat>, targets: set<nat>, chains: seq<seq<nat>>,
                            visited: set<nat>, placed: set<nat>, walk: seq<nat>)
    requires Follows(edges, next, targets) && Placed(edges, next, chains, visited, placed) && next.Keys <= placed
    ensures !IsCycle(edges, walk)
  {
    if |walk| >= 2 && Edge(walk[0], walk[1]) in edges {
      assert InSome(chains, walk[0]);
      var c :| 0 <= c < |chains| && walk[0] in chains[c];
      var p :| 0 <= p < |chains[c]| && chains[c][p] == walk[0];
      CycleMisses(edges, next, targets, chains[c], p, walk);
    }
  }

  lemma CycleMisses(edges: seq<Edge>, next: map<nat, nat>, targets: set<nat>, chain: seq<nat>, p: nat, walk: seq<nat>)
    requires Follows(edges, next, targets) && Maximal(edges, chain) && p < |chain| && walk != [] && walk[0] == chain[p]
    ensures !IsCycle(edges, walk)
  {
    if IsCycle(edges, walk) {
      NoCycleMeets(edges, next, targets, chain, p, walk);
    }
  }

  lemma SomeLeftIsCyclic(edges: seq<Edge>, next: map<nat, nat>, targets: set<nat>, placed: set<nat>)
    requires Follows(edges, next, targets) && Closed(next, placed) && AllStarted(next, targets, placed)
             && !(next.Keys <= placed)
    ensures !Acyclic(edges)
  {
    var site :| site in next.Keys && site !in placed;
    var cycle := FindCycle(edges, next, targets, placed, next.Keys - placed, [site]);
  }

  lemma VisitedAllIffAcyclic(edges: seq<Edge>, next: map<nat, nat>, targets: set<nat>, chains: seq<seq<nat>>,
                             visited: set<nat>, placed: set<nat>)
    requires Follows(edges, next, targets) && Placed(edges, next, chains, visited, placed)
             && AllStarted(next, targets, placed)
    ensures |visited| == |edges| <==> Acyclic(edges)
    ensures |visited| == |edges| ==> visited == next.Keys
  {
    SubsetSize(visited, next.Keys);
    if visited == next.Keys {
      forall walk ensures !IsCycle(edges, walk) {
        AllVisitedIsAcyclic(edges, next, targets, chains, visited, placed, walk);
      }
    } else {
      SomeLeftIsCyclic(edges, next, targets, placed);
    }
  }

  lemma PlacedDecomposes(edges: seq<Edge>, next: map<nat, nat>, targets: set<nat>, chains: seq<seq<nat>>,
                         visited: set<nat>, placed: set<nat>)
    requires Follows(edges, next, targets) && Placed(edges, next, chains, visited, placed) && visited == next.Keys
    ensures Decomposes(edges, chains)
  {
    forall e | e in edges ensures exists c :: 0 <= c < |chains| && Covers(chains[c], e) {
      assert e.source in visited;
      var c :| 0 <= c < |chains| && e.source in chains[c];
      ChainCovers(edges, next, targets, chains[c], e);
    }
  }

  lemma ChainCovers(edges: seq<Edge>, next: map<nat, nat>, targets: set<nat>, chain: seq<nat>, e: Edge)
    requires Follows(edges, next, targets) && Maximal(edges, chain) && e in edges && e.source in chain
    ensures Covers(chain, e)
  {
    var i :| 0 <= i < |chain| && chain[i] == e.source;
    assert IsSource(edges, e.source);
    assert Edge(chain[i], chain[i + 1]) in edges;
  }

  // ---------------------------------------------------------------------------
  // The decomposition
  // ---------------------------------------------------------------------------

  /** The starts that have no chain yet come after those that have one. */
  ghost predicate Waiting(next: map<nat, nat>, targets: set<nat>, chains: seq<seq<nat>>, placed: set<nat>,
                          starts: set<nat>) {
    && (forall n :: n in starts ==> n in next && n !in targets && n !in placed)
    && (forall n :: n in next && n !in targets ==> n in placed || n in starts)
    && (forall c, n | 0 <= c < |chains| && n in starts :: chains[c] != [] && chains[c][0] <= n)
  }

  lemma StartFollowed(next: map<nat, nat>, targets: set<nat>, chains: seq<seq<nat>>, placed: set<nat>, starts: set<nat>,
                      chain: seq<nat>)
    requires Waiting(next, targets, chains, placed, starts) && Following(next, targets, placed, chain)
             && chain[0] in starts
    requires forall n :: n in starts ==> chain[0] <= n
    requires forall n :: n in next ==> next[n] in targets
    ensures Waiting(next, targets, chains + [chain], placed + Elements(chain), starts - {chain[0]})
  {
    forall n | n in starts - {chain[0]} ensures n !in chain {
      forall i | 0 <= i < |chain| ensures chain[i] != n {
        if i > 0 {
          assert next[chain[i - 1]] == chain[i];
        }
      }
    }
    assert chain[0] in Elements(chain);
  }

  /** Follows the chain of the first start that waits. */
  method PlaceNext(edges: seq<Edge>, next: map<nat, nat>, ghost targets: set<nat>, starts: set<nat>,
                   chains: seq<seq<nat>>, visited: set<nat>, ghost placed: set<nat>)
    returns (start: nat, chains': seq<seq<nat>>, visited': set<nat>, ghost placed': set<nat>, failure: Result)
    requires Follows(edges, next, targets) && Placed(edges, next, chains, visited, placed)
             && Waiting(next, targets, chains, placed, starts)
    requires starts != {}
    ensures failure.Ok? && start in starts
    ensures Placed(edges, next, chains', visited', placed')
            && Waiting(next, targets, chains', placed', starts - {start})
  {
    start := LeastBy(starts, (n: nat) => [n]);
    var chain;
    chain, visited', failure := FollowChain(edges, next, targets, start, visited, placed);
    AddChain(edges, next, targets, chains, visited, placed, chain);
    TargetsKnown(edges, next, targets);
    StartFollowed(next, targets, chains, placed, starts, chain);
    chains' := chains + [chain];
    placed' := placed + Elements(chain);
  }

  lemma TargetsKnown(edges: seq<Edge>, next: map<nat, nat>, targets: set<nat>)
    requires Follows(edges, next, targets)
    ensures forall n :: n in next ==> next[n] in targets
  {
    forall n | n in next ensures next[n] in targets {
      assert Edge(n, next[n]) in edges;
    }
  }

  /** Decomposes the edges; succeeds exactly if they neither branch nor merge nor form a cycle, and
      never reports a repeated edge or a cycle while following a chain. */
  method DecomposeChains(edges: seq<Edge>) returns (result: Result)
    ensures result.Ok? <==> Decomposable(edges)
    ensures result.Ok? ==> Decomposes(edges, result.chains)
    ensures result.Err? ==>
              match result.failure
              case Branches => !BranchFree(edges)
              case Merges => !MergeFree(edges)
              case OrphanOrCyclic => BranchFree(edges) && MergeFree(edges) && !Acyclic(edges)
              case _ => false
  {
    var next, targets, read := Successors(edges);
    if read.Err? {
      return read;
    }
    var starts := set site | site in next && site !in targets;
    var chains: seq<seq<nat>> := [];
    var visited: set<nat> := {};
    ghost var placed: set<nat> := {};
    while starts != {}
      invariant Placed(edges, next, chains, visited, placed) && Waiting(next, targets, chains, placed, starts)
    {
      var start, failure;
      start, chains, visited, placed, failure := PlaceNext(edges, next, targets, starts, chains, visited, placed);
      if failure.Err? {
        return failure;
      }
      starts := starts - {start};
    }
    VisitedAllIffAcyclic(edges, next, targets, chains, visited, placed);
    if |visited| != |edges| {
      return Err(OrphanOrCyclic);
    }
    PlacedDecomposes(edges, next, targets, chains, visited, placed);
    result := Ok(chains);
  }
}
