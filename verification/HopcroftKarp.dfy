// The in-place Hopcroft-Karp matcher that certifies how many opposite-direction
// groups can share a lane.
module HopcroftKarp {
  import opened FiniteSums
  import opened Matchings

  ghost predicate ValidAdjacency(adjacency: seq<seq<nat>>, rightCount: nat) {
    forall l, j :: 0 <= l < |adjacency| && 0 <= j < |adjacency[l]| ==> adjacency[l][j] < rightCount
  }

  /** The `infinity` marker: larger than any layer number. */
  function Unreached(adjacency: seq<seq<nat>>, rightCount: nat): nat { |adjacency| + rightCount + 1 }

  // ---------------------------------------------------------------------------
  // Match arrays
  // ---------------------------------------------------------------------------

  ghost predicate Sized(adjacency: seq<seq<nat>>, rightCount: nat, left: seq<int>, right: seq<int>) {
    && |left| == |adjacency| && |right| == rightCount
    && (forall l :: 0 <= l < |left| ==> -1 <= left[l] < rightCount)
    && (forall r :: 0 <= r < |right| ==> -1 <= right[r] < |adjacency|)
  }

  /** Every matched left vertex uses an adjacency edge and its partner points back. */
  ghost predicate LeftsPointBack(adjacency: seq<seq<nat>>, rightCount: nat, left: seq<int>, right: seq<int>)
    requires Sized(adjacency, rightCount, left, right)
  {
    forall l :: 0 <= l < |left| && left[l] >= 0 ==> left[l] in adjacency[l] && right[left[l]] == l
  }

  /** Every matched right vertex but the stale one points to a partner that points back. */
  ghost predicate RightsPointBack(adjacency: seq<seq<nat>>, rightCount: nat, left: seq<int>, right: seq<int>,
                                  stale: int)
    requires Sized(adjacency, rightCount, left, right)
  {
    forall r :: 0 <= r < |right| && right[r] >= 0 && r != stale ==> left[right[r]] == r
  }

  /** The arrays are mutually inverse and use adjacency edges only. */
  ghost predicate Inverse(adjacency: seq<seq<nat>>, rightCount: nat, left: seq<int>, right: seq<int>) {
    && Sized(adjacency, rightCount, left, right)
    && LeftsPointBack(adjacency, rightCount, left, right)
    && RightsPointBack(adjacency, rightCount, left, right, -1)
  }

  /** The pairs an array of partners stands for. */
  ghost function Pairs(left: seq<int>): set<Pair> {
    set l: nat | l < |left| && left[l] >= 0 :: (l, left[l])
  }

  lemma InverseIsMatching(adjacency: seq<seq<nat>>, rightCount: nat, left: seq<int>, right: seq<int>)
    requires Inverse(adjacency, rightCount, left, right)
    ensures IsMatching(Edges(adjacency), Pairs(left))
  {
    forall p | p in Pairs(left) ensures p in Edges(adjacency) {
      var j :| 0 <= j < |adjacency[p.0]| && adjacency[p.0][j] == p.1;
    }
  }

  // ---------------------------------------------------------------------------
  // Layers
  // ---------------------------------------------------------------------------

  ghost predicate LayerRange(adjacency: seq<seq<nat>>, rightCount: nat, distance: seq<int>) {
    && |distance| == |adjacency|
    && forall l :: 0 <= l < |distance| ==> 0 <= distance[l] <= Unreached(adjacency, rightCount)
  }

  /** `p` has an edge to the partner of `l`. */
  ghost predicate Precedes(adjacency: seq<seq<nat>>, right: seq<int>, p: nat, l: nat) {
    p < |adjacency| && exists r :: r in adjacency[p] && r < |right| && right[r] == l
  }

  /** The layer before that of `l` has an edge to the partner of `l`. */
  ghost predicate HasPredecessor(adjacency: seq<seq<nat>>, right: seq<int>, distance: seq<int>, l: nat)
    requires l < |distance|
  {
    exists p: nat {:trigger Precedes(adjacency, right, p, l)} ::
      p < |distance| && distance[p] + 1 == distance[l] && Precedes(adjacency, right, p, l)
  }

  /** What a finished layering promises: free left vertices form layer 0 and every
      later layer is entered over a matched edge from the layer before. */
  ghost predicate Layered(adjacency: seq<seq<nat>>, rightCount: nat, left: seq<int>, right: seq<int>,
                          distance: seq<int>)
  {
    && |left| == |adjacency|
    && LayerRange(adjacency, rightCount, distance)
    && (forall l :: 0 <= l < |left| && left[l] < 0 ==> distance[l] == 0)
    && (forall l :: 0 <= l < |left| && distance[l] == 0 ==> left[l] < 0)
    && (forall l {:trigger HasPredecessor(adjacency, right, distance, l)} ::
          0 <= l < |left| && 0 < distance[l] < Unreached(adjacency, rightCount) ==>
            HasPredecessor(adjacency, right, distance, l))
    && (forall l :: 0 <= l < |left| && distance[l] < Unreached(adjacency, rightCount) ==> distance[l] < |adjacency|)
  }

  /** Left vertex `l` has a free neighbour. */
  ghost predicate HasFree(adjacency: seq<seq<nat>>, right: seq<int>, l: nat) {
    l < |adjacency| && exists r :: r in adjacency[l] && r < |right| && right[r] < 0
  }

  /** The partners of all matched neighbours of `l` are in `reached`. */
  ghost predicate Expanded(adjacency: seq<seq<nat>>, right: seq<int>, reached: set<nat>, l: nat) {
    l < |adjacency| && forall r :: r in adjacency[l] && r < |right| && 0 <= right[r] ==> right[r] in reached
  }

  ghost function Reached(adjacency: seq<seq<nat>>, rightCount: nat, distance: seq<int>): set<nat> {
    set l: nat | l < |distance| && distance[l] < Unreached(adjacency, rightCount)
  }

  /** A layering under construction; layer numbers stay below the number of reached vertices. */
  ghost predicate Searching(adjacency: seq<seq<nat>>, rightCount: nat, left: seq<int>, right: seq<int>,
                            distance: seq<int>, reached: set<nat>)
  {
    && Layered(adjacency, rightCount, left, right, distance)
    && reached == Reached(adjacency, rightCount, distance)
    && (forall l :: l in reached ==> distance[l] < |reached|)
  }

  lemma ExpandedGrows(adjacency: seq<seq<nat>>, right: seq<int>, processed: set<nat>, before: set<nat>,
                      reached: set<nat>)
    requires before <= reached
    requires forall l :: l in processed ==> Expanded(adjacency, right, before, l)
    ensures forall l :: l in processed ==> Expanded(adjacency, right, reached, l)
  {
  }

  lemma ReachedGrows(before: set<nat>, reached: set<nat>, n: nat)
    requires before <= reached && forall l :: l in reached ==> l < n
    ensures before == reached || |before| < |reached| <= n
  {
    BelowCard(reached, n);
    assert reached == before + (reached - before);
  }

  lemma Discover(adjacency: seq<seq<nat>>, rightCount: nat, left: seq<int>, right: seq<int>,
                 distance: seq<int>, reached: set<nat>, l: nat, r: nat, mate: nat)
    requires Inverse(adjacency, rightCount, left, right)
    requires Searching(adjacency, rightCount, left, right, distance, reached)
    requires l in reached && r in adjacency[l] && r < |right| && right[r] == mate
    requires distance[mate] == Unreached(adjacency, rightCount)
    ensures Searching(adjacency, rightCount, left, right, distance[mate := distance[l] + 1], reached + {mate})
    ensures mate !in reached
  {
    var distance' := distance[mate := distance[l] + 1];
    assert mate !in reached && |reached + {mate}| == |reached| + 1;
    BelowCard(reached + {mate}, |adjacency|);
    assert Reached(adjacency, rightCount, distance') == reached + {mate};
    assert Layered(adjacency, rightCount, left, right, distance') by {
      DiscoverLayered(adjacency, rightCount, left, right, distance, l, r, mate);
    }
  }

  lemma DiscoverLayered(adjacency: seq<seq<nat>>, rightCount: nat, left: seq<int>, right: seq<int>,
                        distance: seq<int>, l: nat, r: nat, mate: nat)
    requires Layered(adjacency, rightCount, left, right, distance)
    requires l < |adjacency| && r < |right| && r in adjacency[l] && right[r] == mate < |left|
    requires left[mate] >= 0
    requires distance[mate] == Unreached(adjacency, rightCount)
    requires distance[l] + 1 < |adjacency|
    ensures Layered(adjacency, rightCount, left, right, distance[mate := distance[l] + 1])
  {
    var distance' := distance[mate := distance[l] + 1];
    forall x: nat | x < |left| && 0 < distance'[x] < Unreached(adjacency, rightCount)
      ensures HasPredecessor(adjacency, right, distance', x)
    {
      if x == mate {
        assert Precedes(adjacency, right, l, mate);
      } else {
        assert HasPredecessor(adjacency, right, distance, x);
        var p: nat :| p < |distance| && distance[p] + 1 == distance[x] && Precedes(adjacency, right, p, x);
        assert distance'[p] == distance[p];
      }
    }
  }

  // ---------------------------------------------------------------------------
  // Dead ends of one phase
  // ---------------------------------------------------------------------------

  /** Every vertex withdrawn since the layering `layer` has only matched neighbours, and
      those whose partner lies in the next layer have a withdrawn partner. */
  ghost predicate DeadEnds(adjacency: seq<seq<nat>>, rightCount: nat, right: seq<int>, layer: seq<int>,
                           distance: seq<int>) {
    && |layer| == |distance| == |adjacency| && |right| == rightCount
    && (forall l :: 0 <= l < |layer| ==>
          distance[l] == layer[l] || distance[l] == Unreached(adjacency, rightCount))
    && (forall l ::
        0 <= l < |layer| && layer[l] < distance[l] ==> Dead(adjacency, rightCount, right, layer, distance, l))
  }

  ghost predicate Blocked(adjacency: seq<seq<nat>>, rightCount: nat, right: seq<int>, layer: seq<int>,
                          distance: seq<int>, l: nat, r: nat)
    requires l < |adjacency| == |layer| == |distance| && r < |right|
  {
    0 <= right[r] < |layer|
      && (layer[right[r]] == layer[l] + 1 ==> distance[right[r]] == Unreached(adjacency, rightCount))
  }

  ghost predicate Dead(adjacency: seq<seq<nat>>, rightCount: nat, right: seq<int>, layer: seq<int>, distance: seq<int>,
                       l: nat)
    requires l < |adjacency| == |layer| == |distance|
  {
    forall r :: r in adjacency[l] && r < |right| ==> Blocked(adjacency, rightCount, right, layer, distance, l, r)
  }

  /** A search from `u` leaves the layers up to its own alone, apart from withdrawing `u`. */
  ghost predicate Withdrawn(before: seq<int>, after: seq<int>, infinity: int, u: nat)
    requires u < |before|
  {
    && |before| == |after|
    && (forall l :: 0 <= l < |after| ==> after[l] == before[l] || after[l] == infinity)
    && (forall l :: 0 <= l < |after| && l != u && before[l] <= before[u] ==> after[l] == before[l])
  }

  /** If every free vertex was withdrawn without one augmentation, then every layered
      vertex was, so no reached vertex has a free neighbour. */
  lemma {:induction false} AllDead(adjacency: seq<seq<nat>>, rightCount: nat, left: seq<int>, right: seq<int>,
                                   layer: seq<int>, distance: seq<int>, l: nat)
    requires ValidAdjacency(adjacency, rightCount)
    requires Inverse(adjacency, rightCount, left, right)
    requires Layered(adjacency, rightCount, left, right, layer)
    requires DeadEnds(adjacency, rightCount, right, layer, distance)
    requires forall f :: 0 <= f < |left| && left[f] < 0 ==> distance[f] == Unreached(adjacency, rightCount)
    requires l < |left| && layer[l] < Unreached(adjacency, rightCount)
    ensures distance[l] == Unreached(adjacency, rightCount) && !HasFree(adjacency, right, l)
    decreases layer[l]
  {
    if layer[l] != 0 {
      assert HasPredecessor(adjacency, right, layer, l);
      var p: nat :| p < |layer| && layer[p] + 1 == layer[l] && Precedes(adjacency, right, p, l);
      AllDead(adjacency, rightCount, left, right, layer, distance, p);
      var r :| r in adjacency[p] && r < |right| && right[r] == l;
      assert Dead(adjacency, rightCount, right, layer, distance, p);
    }
    assert Dead(adjacency, rightCount, right, layer, distance, l);
  }

  /** So a phase that starts with a reachable free right vertex cannot withdraw every free
      left vertex without augmenting. */
  lemma SomeSearchSucceeds(adjacency: seq<seq<nat>>, rightCount: nat, left: seq<int>, right: seq<int>,
                           layer: seq<int>, distance: seq<int>)
    requires ValidAdjacency(adjacency, rightCount)
    requires Inverse(adjacency, rightCount, left, right)
    requires Layered(adjacency, rightCount, left, right, layer)
    requires DeadEnds(adjacency, rightCount, right, layer, distance)
    requires exists l :: l in Reached(adjacency, rightCount, layer) && HasFree(adjacency, right, l)
    ensures exists f :: 0 <= f < |left| && left[f] < 0 && distance[f] != Unreached(adjacency, rightCount)
  {
    var l :| l in Reached(adjacency, rightCount, layer) && HasFree(adjacency, right, l);
    if forall f :: 0 <= f < |left| && left[f] < 0 ==> distance[f] == Unreached(adjacency, rightCount) {
      AllDead(adjacency, rightCount, left, right, layer, distance, l);
    }
  }

  // ---------------------------------------------------------------------------
  // Flipping one edge of an augmenting path
  // ---------------------------------------------------------------------------

  /** The state a successful search from `u` leaves behind.  The vertex `u` has a new
      partner; its old partner still points to it and is overwritten by the caller. */
  ghost predicate Flipped(adjacency: seq<seq<nat>>, rightCount: nat, left: seq<int>, right: seq<int>,
                          distance: seq<int>, left': seq<int>, right': seq<int>, u: nat)
    requires u < |adjacency| == |distance|
    requires Sized(adjacency, rightCount, left, right)
  {
    && Sized(adjacency, rightCount, left', right')
    && LeftsPointBack(adjacency, rightCount, left', right')
    && RightsPointBack(adjacency, rightCount, left', right', left[u])
    && left'[u] >= 0 && left'[u] != left[u]
    && (forall l :: 0 <= l < |left| && l != u ==> (left'[l] >= 0 <==> left[l] >= 0))
    && (forall l :: 0 <= l < |left| && l != u && distance[l] <= distance[u] ==> left'[l] == left[l])
    && (forall r :: 0 <= r < |right| && right[r] >= 0 && distance[right[r]] <= distance[u] ==> right'[r] == right[r])
  }

  lemma FlipFree(adjacency: seq<seq<nat>>, rightCount: nat, left: seq<int>, right: seq<int>, distance: seq<int>, u: nat,
                 r: nat)
    requires Inverse(adjacency, rightCount, left, right)
    requires u < |adjacency| == |distance| && r in adjacency[u] && r < rightCount
    requires right[r] < 0
    ensures Flipped(adjacency, rightCount, left, right, distance, left[u := r], right[r := u], u)
  {
  }

  /** Distances may have been withdrawn between the start of the search from `u` and the
      start of the successful search from the partner of `r`. */
  lemma FlipMatched(adjacency: seq<seq<nat>>, rightCount: nat, left: seq<int>, right: seq<int>, before: seq<int>,
                    distance: seq<int>, left': seq<int>, right': seq<int>, u: nat, r: nat)
    requires Inverse(adjacency, rightCount, left, right)
    requires u < |adjacency| == |distance| == |before| && r in adjacency[u] && r < rightCount
    requires Withdrawn(before, distance, Unreached(adjacency, rightCount), u) && before[u] == distance[u]
    requires right[r] >= 0 && distance[right[r]] == distance[u] + 1
    requires Flipped(adjacency, rightCount, left, right, distance, left', right', right[r])
    ensures Flipped(adjacency, rightCount, left, right, before, left'[u := r], right'[r := u], u)
  {
    var mate: nat := right[r];
    assert right'[r] == mate && left'[mate] != r;
    assert left'[u] == left[u] && mate != u;

  }

  /** What the search from `u` relies on after trying neighbour `r`. */
  ghost predicate Augmentable(adjacency: seq<seq<nat>>, rightCount: nat, left: seq<int>, right: seq<int>,
                              distance: seq<int>, left': seq<int>, right': seq<int>, u: nat, r: nat)
    requires u < |adjacency| == |distance|
    requires Sized(adjacency, rightCount, left, right) && r < rightCount
  {
    if right[r] < 0 then left' == left && right' == right
    else distance[right[r]] == distance[u] + 1
           && Flipped(adjacency, rightCount, left, right, distance, left', right', right[r])
  }

  lemma Flip(adjacency: seq<seq<nat>>, rightCount: nat, left: seq<int>, right: seq<int>, before: seq<int>,
             distance: seq<int>, left': seq<int>, right': seq<int>, u: nat, r: nat)
    requires Inverse(adjacency, rightCount, left, right)
    requires u < |adjacency| == |distance| == |before| && r in adjacency[u] && r < rightCount
    requires Withdrawn(before, distance, Unreached(adjacency, rightCount), u) && before[u] == distance[u]
    requires Augmentable(adjacency, rightCount, left, right, distance, left', right', u, r)
    ensures |left'| == |adjacency| && |right'| == rightCount
    ensures Flipped(adjacency, rightCount, left, right, before, left'[u := r], right'[r := u], u)
  {
    if right[r] < 0 {
      FlipFree(adjacency, rightCount, left, right, before, u, r);
    } else {
      FlipMatched(adjacency, rightCount, left, right, before, distance, left', right', u, r);
    }
  }

  /** Withdrawing a vertex all of whose neighbours are blocked keeps the dead ends sound. */
  lemma Withdraw(adjacency: seq<seq<nat>>, rightCount: nat, right: seq<int>, layer: seq<int>, distance: seq<int>,
                 u: nat)
    requires ValidAdjacency(adjacency, rightCount) && LayerRange(adjacency, rightCount, distance)
    requires DeadEnds(adjacency, rightCount, right, layer, distance)
    requires u < |adjacency|
    requires distance[u] == layer[u] ==>
               forall k ::
                 0 <= k < |adjacency[u]| ==> Blocked(adjacency, rightCount, right, layer, distance, u, adjacency[u][k])
    ensures DeadEnds(adjacency, rightCount, right, layer, distance[u := Unreached(adjacency, rightCount)])
  {
    var distance' := distance[u := Unreached(adjacency, rightCount)];
    forall l | 0 <= l < |layer| && layer[l] < distance'[l]
      ensures Dead(adjacency, rightCount, right, layer, distance', l)
    {
      if l != u || distance[u] != layer[u] {
        assert Dead(adjacency, rightCount, right, layer, distance, l);
      }
    }
  }

  ghost function Matched(left: seq<int>): set<nat> { set l: nat | l < |left| && left[l] >= 0 }

  /** A layering that found no free right vertex is closed under alternating search. */
  lemma ClosedLayers(adjacency: seq<seq<nat>>, rightCount: nat, left: seq<int>, right: seq<int>, distance: seq<int>)
    requires ValidAdjacency(adjacency, rightCount)
    requires Inverse(adjacency, rightCount, left, right)
    requires Layered(adjacency, rightCount, left, right, distance)
    requires forall l :: l in Reached(adjacency, rightCount, distance) ==>
               Expanded(adjacency, right, Reached(adjacency, rightCount, distance), l) && !HasFree(adjacency, right, l)
    ensures AlternatingClosed(Edges(adjacency), Pairs(left), Reached(adjacency, rightCount, distance))
  {
    var reached := Reached(adjacency, rightCount, distance);
    forall e | e in Edges(adjacency) && e.0 !in reached ensures exists p :: p in Pairs(left) && p.0 == e.0 {
      assert (e.0, left[e.0] as nat) in Pairs(left);
    }
    forall e | e in Edges(adjacency) && e.0 in reached
      ensures exists p :: p in Pairs(left) && p.1 == e.1 && p.0 in reached
    {
      assert e.1 in adjacency[e.0] && e.1 < |right|;
      assert Expanded(adjacency, right, reached, e.0) && right[e.1] >= 0;
      assert (right[e.1] as nat, e.1) in Pairs(left);
    }
  }

  // ---------------------------------------------------------------------------
  // The matcher
  // ---------------------------------------------------------------------------

  lemma NonEmpty(s: set<nat>)
    requires s != {}
    ensures |s| > 0
  {
  }

  class Matcher {
    const adjacency: seq<seq<nat>>
    const rightCount: nat
    var leftMatch: seq<int>
    var rightMatch: seq<int>
    var distance: seq<int>

    ghost predicate Valid()
      reads this
    {
      && ValidAdjacency(adjacency, rightCount)
      && Inverse(adjacency, rightCount, leftMatch, rightMatch)
      && LayerRange(adjacency, rightCount, distance)
    }

    constructor (adjacency: seq<seq<nat>>, rightCount: nat)
      requires ValidAdjacency(adjacency, rightCount)
      ensures Valid() && this.adjacency == adjacency && this.rightCount == rightCount
      ensures Pairs(leftMatch) == {}
    {
      this.adjacency := adjacency;
      this.rightCount := rightCount;
      leftMatch := seq(|adjacency|, _ => -1);
      rightMatch := seq(rightCount, _ => -1);
      distance := seq(|adjacency|, _ => 0);
    }

    /** Layer 0: the free left vertices, which are also the initial queue. */
    method FreeLayer() returns (queue: seq<nat>)
      requires Valid()
      modifies this`distance
      ensures Valid()
      ensures Searching(adjacency, rightCount, leftMatch, rightMatch,
                        distance, Reached(adjacency, rightCount, distance))
      ensures forall l :: l in queue <==> l in Reached(adjacency, rightCount, distance)
    {
      var infinity := Unreached(adjacency, rightCount);
      queue := [];
      for left := 0 to |adjacency|
        invariant LayerRange(adjacency, rightCount, distance)
        invariant forall l :: 0 <= l < left ==> distance[l] == if leftMatch[l] < 0 then 0 else infinity
        invariant forall l :: l in queue <==> 0 <= l < left && leftMatch[l] < 0
      {
        if leftMatch[left] < 0 {
          distance := distance[left := 0];
          queue := queue + [left];
        } else {
          distance := distance[left := infinity];
        }
      }
      ghost var reached := Reached(adjacency, rightCount, distance);
      if reached != {} {
        NonEmpty(reached);
      }
    }

    /** Builds the layers; reports whether some reached vertex has a free neighbour. */
    method Bfs() returns (found: bool)
      requires Valid()
      modifies this`distance
      ensures Valid()
      ensures Layered(adjacency, rightCount, leftMatch, rightMatch, distance)
      ensures forall l :: l in Reached(adjacency, rightCount, distance) ==>
                Expanded(adjacency, rightMatch, Reached(adjacency, rightCount, distance), l)
      ensures found <==> exists l :: l in Reached(adjacency, rightCount, distance) && HasFree(adjacency, rightMatch, l)
    {
      var queue := FreeLayer();
      found := false;
      ghost var reached := Reached(adjacency, rightCount, distance);
      ghost var processed: set<nat> := {};
      while queue != []
        invariant Searching(adjacency, rightCount, leftMatch, rightMatch, distance, reached)
        invariant forall l :: l in reached ==> l in processed || l in queue
        invariant forall l :: l in queue || l in processed ==> l in reached
        invariant forall l :: l in processed ==> Expanded(adjacency, rightMatch, reached, l)
        invariant forall l :: l in processed && HasFree(adjacency, rightMatch, l) ==> found
        invariant found ==> exists l :: l in reached && HasFree(adjacency, rightMatch, l)
        decreases |adjacency| - |reached|, |queue|
      {
        var left := queue[0];
        queue := queue[1..];
        ghost var before := reached;
        found, queue, reached := Expand(left, found, queue, reached);
        ExpandedGrows(adjacency, rightMatch, processed, before, reached);
        ReachedGrows(before, reached, |adjacency|);
        processed := processed + {left};
      }
    }

    /** Scans the neighbours of `left` and appends the partners reached for the first time. */
    method Expand(left: nat, found0: bool, queue0: seq<nat>, ghost reached0: set<nat>)
      returns (found: bool, queue: seq<nat>, ghost reached: set<nat>)
      requires Valid() && left in reached0
      requires Searching(adjacency, rightCount, leftMatch, rightMatch, distance, reached0)
      modifies this`distance
      ensures Valid()
      ensures Searching(adjacency, rightCount, leftMatch, rightMatch, distance, reached)
      ensures reached0 <= reached
      ensures queue0 <= queue && (reached == reached0 ==> queue == queue0)
      ensures forall l :: l in queue ==> l in queue0 || l in reached
      ensures forall l :: l in reached ==> l in reached0 || l in queue
      ensures Expanded(adjacency, rightMatch, reached, left)
      ensures found <==> found0 || HasFree(adjacency, rightMatch, left)
    {
      var infinity := Unreached(adjacency, rightCount);
      found, queue, reached := found0, queue0, reached0;
      for j := 0 to |adjacency[left]|
        invariant Searching(adjacency, rightCount, leftMatch, rightMatch, distance, reached)
        invariant reached0 <= reached
        invariant queue0 <= queue && (reached == reached0 ==> queue == queue0)
        invariant forall l :: l in queue ==> l in queue0 || l in reached
        invariant forall l :: l in reached ==> l in reached0 || l in queue
        invariant forall k ::
                    0 <= k < j && rightMatch[adjacency[left][k]] >= 0 ==> rightMatch[adjacency[left][k]] in reached
        invariant (found0 ==> found) && (found ==> found0 || HasFree(adjacency, rightMatch, left))
        invariant forall k :: 0 <= k < j && rightMatch[adjacency[left][k]] < 0 ==> found
      {
        var right := adjacency[left][j];
        var mate := rightMatch[right];
        if mate < 0 {
          found := true;
        } else if distance[mate] == infinity {
          queue, reached := Enqueue(left, right, mate, queue, reached);
        }
      }
    }

    /** Puts the partner of `right` into the layer after `left` and at the end of the queue. */
    method Enqueue(left: nat, right: nat, mate: nat, queue0: seq<nat>, ghost reached0: set<nat>)
      returns (queue: seq<nat>, ghost reached: set<nat>)
      requires Valid() && left in reached0
      requires Searching(adjacency, rightCount, leftMatch, rightMatch, distance, reached0)
      requires right in adjacency[left] && right < rightCount && rightMatch[right] == mate
      requires distance[mate] == Unreached(adjacency, rightCount)
      modifies this`distance
      ensures Valid()
      ensures Searching(adjacency, rightCount, leftMatch, rightMatch, distance, reached)
      ensures queue == queue0 + [mate] && reached == reached0 + {mate} && mate !in reached0
    {
      Discover(adjacency, rightCount, leftMatch, rightMatch, distance, reached0, left, right, mate);
      distance := distance[mate := distance[left] + 1];
      queue := queue0 + [mate];
      reached := reached0 + {mate};
    }

    /** Searches an augmenting path along the layers and flips it.  A failed search withdraws
        `left` and changes no match. */
    method Dfs(left: nat, ghost layer: seq<int>) returns (ok: bool)
      requires Valid() && left < |adjacency|
      modifies this
      ensures LayerRange(adjacency, rightCount, distance)
      ensures Withdrawn(old(distance), distance, Unreached(adjacency, rightCount), left)
      ensures ok ==> Flipped(adjacency, rightCount, old(leftMatch), old(rightMatch), old(distance),
                             leftMatch, rightMatch, left)
      ensures !ok ==> leftMatch == old(leftMatch) && rightMatch == old(rightMatch)
      ensures !ok ==> distance[left] == Unreached(adjacency, rightCount)
      ensures !ok && old(DeadEnds(adjacency, rightCount, rightMatch, layer, distance)) ==>
                DeadEnds(adjacency, rightCount, rightMatch, layer, distance)
      decreases Unreached(adjacency, rightCount) - distance[left]
    {
      ghost var infinity := Unreached(adjacency, rightCount);
      ghost var sound := DeadEnds(adjacency, rightCount, rightMatch, layer, distance);
      for j := 0 to |adjacency[left]|
        invariant LayerRange(adjacency, rightCount, distance)
        invariant leftMatch == old(leftMatch) && rightMatch == old(rightMatch)
        invariant Withdrawn(old(distance), distance, infinity, left) && distance[left] == old(distance[left])
        invariant sound ==> DeadEnds(adjacency, rightCount, rightMatch, layer, distance)
        invariant sound && distance[left] == layer[left] ==>
          forall k ::
            0 <= k < j ==> Blocked(adjacency, rightCount, rightMatch, layer, distance, left, adjacency[left][k])
      {
        var right := adjacency[left][j];
        var mate := rightMatch[right];
        var flip := mate < 0;
        ghost var before := distance;
        if !flip && distance[mate] == distance[left] + 1 {
          flip := Dfs(mate, layer);
        }
        if flip {
          Flip(adjacency, rightCount, old(leftMatch), old(rightMatch),
               old(distance), before, leftMatch, rightMatch, left, right);
          leftMatch := leftMatch[left := right];
          rightMatch := rightMatch[right := left];
          return true;
        }
      }
      if sound {
        Withdraw(adjacency, rightCount, rightMatch, layer, distance, left);
      }
      distance := distance[left := Unreached(adjacency, rightCount)];
      return false;
    }

    /** One phase: every free left vertex is searched once.  After a layering that found a free
        right vertex, at least one search succeeds. */
    method Phase()
      requires Valid()
      requires Layered(adjacency, rightCount, leftMatch, rightMatch, distance)
      requires exists l :: l in Reached(adjacency, rightCount, distance) && HasFree(adjacency, rightMatch, l)
      modifies this
      ensures Valid()
      ensures Matched(old(leftMatch)) < Matched(leftMatch)
    {
      ghost var layer := distance;
      for left := 0 to |adjacency|
        invariant Valid()
        invariant Matched(old(leftMatch)) <= Matched(leftMatch)
        invariant Matched(old(leftMatch)) < Matched(leftMatch) ||
                  (leftMatch == old(leftMatch) && rightMatch == old(rightMatch)
                   && DeadEnds(adjacency, rightCount, rightMatch, layer, distance)
                   && forall f :: 0 <= f < left && leftMatch[f] < 0 ==> distance[f] == Unreached(adjacency, rightCount))
      {
        if leftMatch[left] < 0 {
          ghost var before := leftMatch;
          var ok := Dfs(left, layer);
          if ok {
            assert Matched(leftMatch) == Matched(before) + {left};
          }
        }
      }
      if Matched(old(leftMatch)) == Matched(leftMatch) {
        SomeSearchSucceeds(adjacency, rightCount, leftMatch, rightMatch, layer, distance);
      }
    }

    /** Alternates layerings and phases until no free right vertex can be reached. */
    method Run()
      requires Valid()
      modifies this
      ensures Inverse(adjacency, rightCount, leftMatch, rightMatch)
      ensures Maximum(Edges(adjacency), Pairs(leftMatch))
    {
      while true
        invariant Valid()
        decreases |adjacency| - |Matched(leftMatch)|
      {
        ghost var before := Matched(leftMatch);
        var found := Bfs();
        if !found {
          break;
        }
        Phase();
        ReachedGrows(before, Matched(leftMatch), |adjacency|);
      }
      InverseIsMatching(adjacency, rightCount, leftMatch, rightMatch);
      ClosedLayers(adjacency, rightCount, leftMatch, rightMatch, distance);
      ClosedIsMaximum(Edges(adjacency), Pairs(leftMatch), Reached(adjacency, rightCount, distance));
    }
  }

  /** The matcher as one call: arrays of partners, mutually inverse and of maximum cardinality. */
  method MaximumBipartiteMatching(adjacency: seq<seq<nat>>, rightCount: nat) returns (left: seq<int>, right: seq<int>)
    requires ValidAdjacency(adjacency, rightCount)
    ensures Inverse(adjacency, rightCount, left, right)
    ensures Maximum(Edges(adjacency), Pairs(left))
  {
    var matcher := new Matcher(adjacency, rightCount);
    matcher.Run();
    left, right := matcher.leftMatch, matcher.rightMatch;
  }
}
