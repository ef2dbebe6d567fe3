// Choosing which opposite-direction groups share a lane: forced pairs from fixed lanes, a
// feasibility check by maximum matching, then the cheapest additional pairs.
module SharedLanes {
  import opened FiniteSums
  import opened Matchings
  import opened LaneGroups
  import opened Sequences
  import opened Wrappers
  import HopcroftKarp
  import MinCostPairs
  import ResidualGraph

  type KeyPair = (Key, Key)

  /** The groups of one link with their slots, end points and fixed lanes. */
  datatype Instance = Instance(forward: seq<Key>, reverse: seq<Key>, slots: map<Key, set<int>>,
                               ends: map<Key, (real, real)>, fixed: map<Key, nat>)
  {
    ghost predicate Valid() {
      && Distinct(forward) && Distinct(reverse)
      && (forall k :: k in forward ==> k !in reverse)
      && (forall k :: k in forward || k in reverse ==> k in slots && k in ends)
    }

    /** Disjoint slots, and no two different fixed lanes. */
    predicate Compatible(l: Key, r: Key)
      requires l in slots && r in slots
    {
      slots[l] !! slots[r] && !(l in fixed && r in fixed && fixed[l] != fixed[r])
    }

    function Cost(l: Key, r: Key): (cost: int)
      requires l in ends && r in ends
      ensures cost >= 0
    {
      SharingCost(ends[l], ends[r])
    }

    ghost function Edges(): set<KeyPair>
      requires Valid()
    {
      set l, r | l in forward && r in reverse && Compatible(l, r) :: (l, r)
    }

    /** Opposite groups fixed to one lane. */
    ghost function Forced(): set<KeyPair> {
      set l, r | l in forward && r in reverse && l in fixed && r in fixed && fixed[l] == fixed[r] :: (l, r)
    }

    /** No lane is fixed twice in one direction, and groups forced together do not collide. */
    ghost predicate Guarded()
      requires Valid()
    {
      OneGroupPerLane(forward, fixed) && OneGroupPerLane(reverse, fixed) && ForcedDisjoint()
    }

    ghost predicate ForcedDisjoint()
      requires Valid()
    {
      AllDisjoint(this, Forced())
    }

    /** Disjoint compatible pairs that contain the forced ones. */
    ghost predicate Admissible(pairs: set<KeyPair>)
      requires Valid()
    {
      IsMatching(Edges(), pairs) && Forced() <= pairs
    }

    ghost function CostOf(): KeyPair -> int {
      (p: KeyPair) => if p.0 in ends && p.1 in ends then Cost(p.0, p.1) else 0
    }
  }

  ghost predicate AllDisjoint(inst: Instance, pairs: set<KeyPair>) {
    forall p :: p in pairs ==> p.0 in inst.slots && p.1 in inst.slots && inst.slots[p.0] !! inst.slots[p.1]
  }

  ghost predicate OneGroupPerLane(keys: seq<Key>, fixed: map<Key, nat>) {
    forall k, k' :: k in keys && k' in keys && k in fixed && k' in fixed && fixed[k] == fixed[k'] ==> k == k'
  }

  lemma ForcedIsMatching(inst: Instance)
    requires inst.Valid() && inst.Guarded()
    ensures IsMatching(inst.Edges(), inst.Forced())
  {
  }

  // ---------------------------------------------------------------------------
  // Forced pairs
  // ---------------------------------------------------------------------------

  ghost predicate LaneIndex(keys: seq<Key>, fixed: map<Key, nat>, byLane: map<nat, Key>) {
    && (forall lane :: lane in byLane ==> byLane[lane] in keys && byLane[lane] in fixed && fixed[byLane[lane]] == lane)
    && (forall k :: k in keys && k in fixed ==> fixed[k] in byLane)
  }

  /** Indexes the fixed groups by lane; `unique` tells whether no two of them share one. */
  method IndexLanes(keys: seq<Key>, fixed: map<Key, nat>) returns (byLane: map<nat, Key>, unique: bool)
    requires Distinct(keys)
    ensures unique <==> OneGroupPerLane(keys, fixed)
    ensures LaneIndex(keys, fixed, byLane)
  {
    byLane := map[];
    var count := 0;
    for i := 0 to |keys|
      invariant LaneIndex(keys[..i], fixed, byLane)
      invariant |byLane| <= count
      invariant |byLane| == count <==> OneGroupPerLane(keys[..i], fixed)
    {
      assert keys[..i + 1] == keys[..i] + [keys[i]];
      if keys[i] in fixed {
        ghost var before := byLane;
        byLane := byLane[fixed[keys[i]] := keys[i]];
        count := count + 1;
        assert keys[i] !in keys[..i];
        NextLane(keys[..i], keys[i], fixed, before);
      }
    }
    assert keys[..|keys|] == keys;
    unique := |byLane| == count;
  }

  lemma NextLane(keys: seq<Key>, k: Key, fixed: map<Key, nat>, before: map<nat, Key>)
    requires k in fixed && k !in keys
    requires LaneIndex(keys, fixed, before)
    ensures LaneIndex(keys + [k], fixed, before[fixed[k] := k])
    ensures |before[fixed[k] := k]| == if fixed[k] in before then |before| else |before| + 1
    ensures OneGroupPerLane(keys + [k], fixed) <==> OneGroupPerLane(keys, fixed) && fixed[k] !in before
  {
    var after := before[fixed[k] := k];
    assert after.Keys == before.Keys + {fixed[k]};
    assert |after| == |after.Keys| && |before| == |before.Keys|;
    assert forall x :: x in keys + [k] <==> x in keys || x == k;
    if fixed[k] in before {
      assert before[fixed[k]] in keys + [k] && k in keys + [k];
    }
  }

  ghost predicate IsLeast(lanes: set<nat>, x: nat) { x in lanes && forall other :: other in lanes ==> x <= other }

  lemma {:induction false} LeastLane(lanes: set<nat>) returns (least: nat)
    requires lanes != {}
    ensures IsLeast(lanes, least)
    decreases lanes
  {
    var x :| x in lanes;
    least := x;
    if lanes != {x} {
      var y := LeastLane(lanes - {x});
      assert forall other :: other in lanes ==> other == x || other in lanes - {x};
      least := if x < y then x else y;
    }
  }

  /** Both directions have exactly one group on the lane, and these two are forced together. */
  lemma ForcedOnLane(inst: Instance, forwardByLane: map<nat, Key>, reverseByLane: map<nat, Key>, lane: nat)
    requires inst.Valid()
    requires OneGroupPerLane(inst.forward, inst.fixed) && OneGroupPerLane(inst.reverse, inst.fixed)
    requires LaneIndex(inst.forward, inst.fixed, forwardByLane) && LaneIndex(inst.reverse, inst.fixed, reverseByLane)
    requires lane in forwardByLane && lane in reverseByLane
    ensures forall p ::
              p in inst.Forced() && inst.fixed[p.0] == lane <==> p == (forwardByLane[lane], reverseByLane[lane])
  {
  }

  /** The forced pairs whose lane is in `lanes`. */
  ghost function ForcedOn(inst: Instance, lanes: set<nat>): set<KeyPair> {
    set p | p in inst.Forced() && inst.fixed[p.0] in lanes
  }

  /** One more lane forces one more pair. */
  lemma ForcedNext(inst: Instance, done: set<nat>, lane: nat, p: KeyPair)
    requires inst.Valid() && ForcedOn(inst, {lane}) == {p}
    ensures ForcedOn(inst, done + {lane}) == ForcedOn(inst, done) + {p}
  {
    forall q ensures q in ForcedOn(inst, done + {lane}) <==> q in ForcedOn(inst, done) || q in ForcedOn(inst, {lane}) {
    }
  }

  /** The keys that are not excluded, in order. */
  function Without(keys: seq<Key>, excluded: set<Key>): seq<Key> {
    if keys == [] then []
    else Without(keys[..|keys| - 1], excluded) + if keys[|keys| - 1] in excluded then [] else [keys[|keys| - 1]]
  }

  /** Pairs the groups that are fixed to one lane from both directions. */
  method ForcedPairs(inst: Instance, forwardByLane: map<nat, Key>, reverseByLane: map<nat, Key>)
    returns (ok: bool, forced: set<KeyPair>)
    requires inst.Valid()
    requires OneGroupPerLane(inst.forward, inst.fixed) && OneGroupPerLane(inst.reverse, inst.fixed)
    requires LaneIndex(inst.forward, inst.fixed, forwardByLane) && LaneIndex(inst.reverse, inst.fixed, reverseByLane)
    ensures ok <==> inst.ForcedDisjoint()
    ensures ok ==> forced == inst.Forced()
  {
    forced := {};
    var common := forwardByLane.Keys * reverseByLane.Keys;
    var lanes := common;
    ghost var done: set<nat> := {};
    while lanes != {}
      invariant done + lanes == common
      invariant forced == ForcedOn(inst, done) && AllDisjoint(inst, forced)
      decreases lanes
    {
      ghost var least := LeastLane(lanes);
      var lane :| lane in lanes && forall other :: other in lanes ==> lane <= other;
      var lhs, rhs := forwardByLane[lane], reverseByLane[lane];
      ForcedOnLane(inst, forwardByLane, reverseByLane, lane);
      if !(inst.slots[lhs] !! inst.slots[rhs]) {
        assert (lhs, rhs) in inst.Forced();
        return false, forced;
      }
      ForcedNext(inst, done, lane, (lhs, rhs));
      forced := forced + {(lhs, rhs)};
      lanes := lanes - {lane};
      done := done + {lane};
    }
    ok := true;
    assert ForcedOn(inst, common) == inst.Forced();
  }

  // ---------------------------------------------------------------------------
  // Candidate pairs among the rest
  // ---------------------------------------------------------------------------

  method Unforced(keys: seq<Key>, forced: set<Key>) returns (rest: seq<Key>)
    requires Distinct(keys)
    ensures rest == Without(keys, forced)
    ensures Distinct(rest) && |rest| <= |keys| && forall k :: k in rest <==> k in keys && k !in forced
  {
    rest := [];
    for i := 0 to |keys|
      invariant rest == Without(keys[..i], forced)
    {
      TakeNext(keys, i);
      WithoutNext(keys[..i], keys[i], forced);
      if keys[i] !in forced {
        rest := rest + [keys[i]];
      }
    }
    assert keys[..|keys|] == keys;
    WithoutMembers(keys, forced);
    WithoutDistinct(keys, forced);
  }

  lemma WithoutNext(keys: seq<Key>, k: Key, excluded: set<Key>)
    ensures Without(keys + [k], excluded) == Without(keys, excluded) + if k in excluded then [] else [k]
  {
    assert (keys + [k])[..|keys|] == keys;
  }

  lemma {:induction false} WithoutMembers(keys: seq<Key>, excluded: set<Key>)
    ensures forall k :: k in Without(keys, excluded) <==> k in keys && k !in excluded
  {
    if keys != [] {
      WithoutMembers(keys[..|keys| - 1], excluded);
      SplitLast(keys);
    }
  }

  lemma {:induction false} WithoutDistinct(keys: seq<Key>, excluded: set<Key>)
    requires Distinct(keys)
    ensures Distinct(Without(keys, excluded)) && |Without(keys, excluded)| <= |keys|
  {
    if keys != [] {
      WithoutDistinct(keys[..|keys| - 1], excluded);
      WithoutMembers(keys[..|keys| - 1], excluded);
    }
  }

  /** `row` lists the positions below `n` in `b` that `lhs` may be paired with, in order. */
  ghost predicate Candidates(inst: Instance, lhs: Key, b: seq<Key>, n: nat, row: seq<nat>)
    requires n <= |b| && lhs in inst.slots && forall k :: k in b ==> k in inst.slots
  {
    && (forall i, j :: 0 <= i < j < |row| ==> row[i] < row[j])
    && (forall r: nat :: r in row <==> r < n && inst.Compatible(lhs, b[r]))
  }

  ghost predicate Drawn(inst: Instance, a: seq<Key>, b: seq<Key>) {
    && inst.Valid() && Distinct(a) && Distinct(b)
    && (forall k :: k in a ==> k in inst.forward) && (forall k :: k in b ==> k in inst.reverse)
  }

  method CandidateRow(inst: Instance, a: seq<Key>, b: seq<Key>, left: nat)
    returns (row: seq<nat>, weightedRow: seq<(nat, int)>)
    requires Drawn(inst, a, b) && left < |a|
    ensures Candidates(inst, a[left], b, |b|, row)
    ensures |weightedRow| == |row| && forall j :: 0 <= j < |row| ==>
              row[j] < |b| && weightedRow[j] == (row[j], inst.Cost(a[left], b[row[j]]))
  {
    row, weightedRow := [], [];
    for right := 0 to |b|
      invariant Candidates(inst, a[left], b, right, row)
      invariant |weightedRow| == |row| && forall j :: 0 <= j < |row| ==>
                  row[j] < |b| && weightedRow[j] == (row[j], inst.Cost(a[left], b[row[j]]))
    {
      if inst.Compatible(a[left], b[right]) {
        row := row + [right];
        weightedRow := weightedRow + [(right, inst.Cost(a[left], b[right]))];
      }
    }
  }

  /** The rows of the two adjacency lists: plain and with costs. */
  ghost predicate Listed(inst: Instance, a: seq<Key>, b: seq<Key>, n: nat, adjacency: seq<seq<nat>>,
                         weighted: ResidualGraph.Weighted)
    requires Drawn(inst, a, b) && n <= |a|
  {
    && |adjacency| == |weighted| == n
    && (forall l :: 0 <= l < n ==> Candidates(inst, a[l], b, |b|, adjacency[l]))
    && (forall l :: 0 <= l < n ==> |weighted[l]| == |adjacency[l]|)
    && (forall l, j | 0 <= l < n && 0 <= j < |adjacency[l]| ::
          adjacency[l][j] < |b| && weighted[l][j] == (adjacency[l][j], inst.Cost(a[l], b[adjacency[l][j]])))
  }

  method ListCandidates(inst: Instance, a: seq<Key>, b: seq<Key>)
    returns (adjacency: seq<seq<nat>>, weighted: ResidualGraph.Weighted)
    requires Drawn(inst, a, b)
    ensures Listed(inst, a, b, |a|, adjacency, weighted)
  {
    adjacency, weighted := [], [];
    for left := 0 to |a|
      invariant Listed(inst, a, b, left, adjacency, weighted)
    {
      var row, weightedRow := CandidateRow(inst, a, b, left);
      adjacency := adjacency + [row];
      weighted := weighted + [weightedRow];
    }
  }

  lemma ListedEdges(inst: Instance, a: seq<Key>, b: seq<Key>, adjacency: seq<seq<nat>>,
                    weighted: ResidualGraph.Weighted)
    requires Drawn(inst, a, b) && Listed(inst, a, b, |a|, adjacency, weighted)
    ensures Positions(a, b, inst.Edges(), Edges(adjacency))
    ensures ResidualGraph.WeightedPairs(weighted) == Edges(adjacency)
    ensures HopcroftKarp.ValidAdjacency(adjacency, |b|) && ResidualGraph.ValidWeighted(weighted, |b|)
  {
    forall i: nat, j: nat ensures (i, j) in Edges(adjacency) <==> i < |a| && j < |b| && (a[i], b[j]) in inst.Edges() {
      EdgeListed(inst, a, b, adjacency, weighted, i, j);
    }
    forall l, j, k | 0 <= l < |weighted| && 0 <= j < |weighted[l]| && 0 <= k < |weighted[l]|
                     && weighted[l][j].0 == weighted[l][k].0
      ensures j == k
    {
      assert adjacency[l][j] == adjacency[l][k];
    }
  }

  lemma EdgeListed(inst: Instance, a: seq<Key>, b: seq<Key>, adjacency: seq<seq<nat>>, weighted: ResidualGraph.Weighted,
                   i: nat, j: nat)
    requires Drawn(inst, a, b) && Listed(inst, a, b, |a|, adjacency, weighted)
    ensures (i, j) in Edges(adjacency) <==> i < |a| && j < |b| && (a[i], b[j]) in inst.Edges()
  {
    if i < |a| {
      assert Candidates(inst, a[i], b, |b|, adjacency[i]);
      assert j in adjacency[i] <==> j < |b| && inst.Compatible(a[i], b[j]);
      assert (i, j) in Edges(adjacency) <==> j in adjacency[i];
    }
  }

  // ---------------------------------------------------------------------------
  // Splitting off the forced pairs
  // ---------------------------------------------------------------------------

  /** `a` and `b` are the groups that are not forced, in order. */
  ghost predicate Rest(inst: Instance, a: seq<Key>, b: seq<Key>) {
    && Drawn(inst, a, b) && |a| <= |inst.forward| && |b| <= |inst.reverse|
    && a == RestForward(inst) && b == RestReverse(inst)
    && (forall k :: k in a <==> k in inst.forward && k !in Lefts(inst.Forced()))
    && (forall k :: k in b <==> k in inst.reverse && k !in Rights(inst.Forced()))
  }

  ghost function RestForward(inst: Instance): seq<Key> { Without(inst.forward, Lefts(inst.Forced())) }

  ghost function RestReverse(inst: Instance): seq<Key> { Without(inst.reverse, Rights(inst.Forced())) }

  lemma SplitForced(inst: Instance, a: seq<Key>, b: seq<Key>, pairs: set<KeyPair>)
    requires inst.Valid() && inst.Guarded() && Rest(inst, a, b) && inst.Admissible(pairs)
    ensures IsMatching(inst.Edges(), pairs - inst.Forced()) && Within(a, b, pairs - inst.Forced())
    ensures |pairs| == |inst.Forced()| + |pairs - inst.Forced()|
    ensures Sum(pairs, inst.CostOf()) == Sum(inst.Forced(), inst.CostOf()) + Sum(pairs - inst.Forced(), inst.CostOf())
  {
    var forced := inst.Forced();
    var free := pairs - forced;
    forall e | e in free ensures e.0 in a && e.1 in b {
      assert e in inst.Edges();
      assert forall p :: p in forced ==> p in pairs && p != e;
    }
    assert pairs == forced + free;
    SumUnion(forced, free, inst.CostOf());
  }

  lemma JoinMatchings(edges: set<KeyPair>, m: set<KeyPair>, m': set<KeyPair>)
    requires IsMatching(edges, m) && IsMatching(edges, m')
    requires forall p, q :: p in m && q in m' ==> p.0 != q.0 && p.1 != q.1
    ensures IsMatching(edges, m + m') && m !! m' && |m + m'| == |m| + |m'|
  {
  }

  lemma JoinForced(inst: Instance, a: seq<Key>, b: seq<Key>, free: set<KeyPair>)
    requires inst.Valid() && inst.Guarded() && Rest(inst, a, b)
    requires IsMatching(inst.Edges(), free) && Within(a, b, free)
    ensures inst.Admissible(inst.Forced() + free)
    ensures inst.Forced() !! free && |inst.Forced() + free| == |inst.Forced()| + |free|
    ensures Sum(inst.Forced() + free, inst.CostOf()) == Sum(inst.Forced(), inst.CostOf()) + Sum(free, inst.CostOf())
  {
    var forced := inst.Forced();
    ForcedIsMatching(inst);
    JoinMatchings(inst.Edges(), forced, free) by {
      forall p, q | p in forced && q in free ensures p.0 != q.0 && p.1 != q.1 {
        assert p.0 in Lefts(forced) && p.1 in Rights(forced);
      }
    }
    SumUnion(forced, free, inst.CostOf());
  }

  /** The cost of the selected positions is the cost of the groups at them. */
  lemma LiftedCost(inst: Instance, a: seq<Key>, b: seq<Key>, adjacency: seq<seq<nat>>, weighted: ResidualGraph.Weighted,
                   m: set<Pair>)
    requires Drawn(inst, a, b) && Listed(inst, a, b, |a|, adjacency, weighted)
    requires IsMatching(Edges(adjacency), m)
    ensures Sum(Lift(a, b, m), inst.CostOf()) == Sum(m, MinCostPairs.PrimaryOf(weighted))
  {
    ListedEdges(inst, a, b, adjacency, weighted);
    LiftMatching(a, b, inst.Edges(), Edges(adjacency), m);
    forall p | p in m ensures MinCostPairs.PrimaryOf(weighted)(p) == inst.CostOf()((a[p.0], b[p.1])) {
      PlacedCost(inst, a, b, adjacency, weighted, p);
    }
    SumLift(a, b, m, inst.CostOf(), MinCostPairs.PrimaryOf(weighted));
  }

  lemma PlacedCost(inst: Instance, a: seq<Key>, b: seq<Key>, adjacency: seq<seq<nat>>, weighted: ResidualGraph.Weighted,
                   p: Pair)
    requires Drawn(inst, a, b) && Listed(inst, a, b, |a|, adjacency, weighted)
    requires p in Edges(adjacency)
    ensures p.0 < |a| && p.1 < |b|
    ensures MinCostPairs.PrimaryOf(weighted)(p) == inst.CostOf()((a[p.0], b[p.1]))
  {
    ListedEdges(inst, a, b, adjacency, weighted);
    var j := ResidualGraph.Column(weighted, p);
    assert weighted[p.0][j] == (adjacency[p.0][j], inst.Cost(a[p.0], b[adjacency[p.0][j]]));
  }

  // ---------------------------------------------------------------------------
  // Reading order
  // ---------------------------------------------------------------------------

  /** How many of the first `n` keys of `b` may be paired with `lhs`. */
  ghost function RowCount(inst: Instance, lhs: Key, b: seq<Key>, n: nat): nat
    requires n <= |b| && lhs in inst.slots && forall k :: k in b ==> k in inst.slots
  {
    if n == 0 then 0 else RowCount(inst, lhs, b, n - 1) + if inst.Compatible(lhs, b[n - 1]) then 1 else 0
  }

  /** How many compatible pairs the first `n` keys of `a` form with keys of `b`. */
  ghost function RowsCount(inst: Instance, a: seq<Key>, b: seq<Key>, n: nat): nat
    requires n <= |a| && forall k :: k in a || k in b ==> k in inst.slots
  {
    if n == 0 then 0 else RowsCount(inst, a, b, n - 1) + RowCount(inst, a[n - 1], b, |b|)
  }

  /** How many compatible pairs of `a` and `b` come before a pair, read row by row. */
  ghost function RankIn(inst: Instance, a: seq<Key>, b: seq<Key>): KeyPair -> int
    requires forall k :: k in a || k in b ==> k in inst.slots
  {
    (p: KeyPair) =>
      if p.0 in a && p.1 in b then RowsCount(inst, a, b, IndexOf(a, p.0)) + RowCount(inst, p.0, b, IndexOf(b, p.1))
      else 0
  }

  /** The place of a pair among all compatible pairs of groups that are not forced. */
  ghost function ReadingRank(inst: Instance): KeyPair -> int
    requires inst.Valid()
  {
    WithoutMembers(inst.forward, Lefts(inst.Forced()));
    WithoutMembers(inst.reverse, Rights(inst.Forced()));
    RankIn(inst, RestForward(inst), RestReverse(inst))
  }

  lemma IndexAt(s: seq<Key>, i: nat)
    requires Distinct(s) && i < |s|
    ensures s[i] in s && IndexOf(s, s[i]) == i
  {
  }

  lemma {:induction false} RestKeepsOrder(keys: seq<Key>, excluded: set<Key>, i: nat, j: nat)
    requires Distinct(keys) && i < j < |keys| && keys[i] !in excluded && keys[j] !in excluded
    ensures var rest := Without(keys, excluded);
            keys[i] in rest && keys[j] in rest && IndexOf(rest, keys[i]) < IndexOf(rest, keys[j])
  {
    var last := |keys| - 1;
    var before, rest := Without(keys[..last], excluded), Without(keys, excluded);
    WithoutMembers(keys, excluded);
    WithoutMembers(keys[..last], excluded);
    WithoutDistinct(keys, excluded);
    assert keys[..last][i] == keys[i];
    IndexAt(rest, IndexOf(before, keys[i]));
    if j < last {
      assert keys[..last][j] == keys[j];
      RestKeepsOrder(keys[..last], excluded, i, j);
      IndexAt(rest, IndexOf(before, keys[j]));
    } else {
      IndexAt(rest, |before|);
    }
  }

  lemma {:induction false} RowCountGrows(inst: Instance, lhs: Key, b: seq<Key>, n: nat, m: nat)
    requires n <= m <= |b| && lhs in inst.slots && forall k :: k in b ==> k in inst.slots
    ensures RowCount(inst, lhs, b, n) <= RowCount(inst, lhs, b, m)
    ensures n < m && inst.Compatible(lhs, b[n]) ==> RowCount(inst, lhs, b, n) < RowCount(inst, lhs, b, m)
    decreases m
  {
    if n < m {
      RowCountGrows(inst, lhs, b, n, m - 1);
    }
  }

  lemma {:induction false} RowsCountGrows(inst: Instance, a: seq<Key>, b: seq<Key>, n: nat, m: nat)
    requires n <= m <= |a| && forall k :: k in a || k in b ==> k in inst.slots
    ensures RowsCount(inst, a, b, n) <= RowsCount(inst, a, b, m)
    decreases m
  {
    if n < m {
      RowsCountGrows(inst, a, b, n, m - 1);
    }
  }

  /** Among the pairs that are not forced, one comes first if its forward group does, or if it has the same
      forward group and its reverse group does. */
  lemma RankFollowsOrder(inst: Instance, p: KeyPair, q: KeyPair, i: nat, j: nat, k: nat, l: nat)
    requires inst.Valid() && p in inst.Edges() && q in inst.Edges()
    requires p.0 !in Lefts(inst.Forced()) && p.1 !in Rights(inst.Forced())
    requires q.0 !in Lefts(inst.Forced()) && q.1 !in Rights(inst.Forced())
    requires i < |inst.forward| && j < |inst.forward| && inst.forward[i] == p.0 && inst.forward[j] == q.0
    requires k < |inst.reverse| && l < |inst.reverse| && inst.reverse[k] == p.1 && inst.reverse[l] == q.1
    requires i < j || (i == j && k < l)
    ensures ReadingRank(inst)(p) < ReadingRank(inst)(q)
  {
    var a, b := RestForward(inst), RestReverse(inst);
    WithoutMembers(inst.forward, Lefts(inst.Forced()));
    WithoutMembers(inst.reverse, Rights(inst.Forced()));
    if i < j {
      RestKeepsOrder(inst.forward, Lefts(inst.Forced()), i, j);
      EarlierRow(inst, a, b, p, q);
    } else {
      RestKeepsOrder(inst.reverse, Rights(inst.Forced()), k, l);
      EarlierColumn(inst, a, b, p, q);
    }
  }

  lemma EarlierRow(inst: Instance, a: seq<Key>, b: seq<Key>, p: KeyPair, q: KeyPair)
    requires (forall k :: k in a || k in b ==> k in inst.slots) && p.0 in a && p.1 in b && q.0 in a && q.1 in b
    requires IndexOf(a, p.0) < IndexOf(a, q.0) && inst.Compatible(p.0, p.1)
    ensures RankIn(inst, a, b)(p) < RankIn(inst, a, b)(q)
  {
    RowCountGrows(inst, p.0, b, IndexOf(b, p.1), |b|);
    RowsCountGrows(inst, a, b, IndexOf(a, p.0) + 1, IndexOf(a, q.0));
  }

  lemma EarlierColumn(inst: Instance, a: seq<Key>, b: seq<Key>, p: KeyPair, q: KeyPair)
    requires (forall k :: k in a || k in b ==> k in inst.slots) && p.0 in a && p.1 in b && q.0 == p.0 && q.1 in b
    requires IndexOf(b, p.1) < IndexOf(b, q.1) && inst.Compatible(p.0, p.1)
    ensures RankIn(inst, a, b)(p) < RankIn(inst, a, b)(q)
  {
    RowCountGrows(inst, p.0, b, IndexOf(b, p.1), IndexOf(b, q.1));
  }

  /** A row of positions has as many as there are compatible keys. */
  lemma {:induction false} RowCounted(inst: Instance, lhs: Key, b: seq<Key>, n: nat, row: seq<nat>)
    requires n <= |b| && lhs in inst.slots && (forall k :: k in b ==> k in inst.slots)
               && Candidates(inst, lhs, b, n, row)
    ensures RowCount(inst, lhs, b, n) == |row|
  {
    if n > 0 {
      if inst.Compatible(lhs, b[n - 1]) {
        var last := LastCandidate(inst, lhs, b, n, row);
        RowCounted(inst, lhs, b, n - 1, row[..last]);
      } else {
        RowCounted(inst, lhs, b, n - 1, row);
      }
    } else {
      AscendingShort(row, 0);
    }
  }

  lemma LastCandidate(inst: Instance, lhs: Key, b: seq<Key>, n: nat, row: seq<nat>) returns (last: nat)
    requires 0 < n <= |b| && lhs in inst.slots && (forall k :: k in b ==> k in inst.slots)
    requires Candidates(inst, lhs, b, n, row) && inst.Compatible(lhs, b[n - 1])
    ensures |row| == last + 1 && Candidates(inst, lhs, b, n - 1, row[..last])
  {
    last := |row| - 1;
    var i :| 0 <= i < |row| && row[i] == n - 1;
    assert row[last] in row;
    CandidatesBefore(inst, lhs, b, n, row, last);
  }

  /** The part of a row before an entry lists the compatible keys before that entry's. */
  lemma CandidatesBefore(inst: Instance, lhs: Key, b: seq<Key>, n: nat, row: seq<nat>, j: nat)
    requires n <= |b| && lhs in inst.slots && (forall k :: k in b ==> k in inst.slots)
    requires Candidates(inst, lhs, b, n, row) && j < |row|
    ensures row[j] < n && Candidates(inst, lhs, b, row[j], row[..j])
  {
    assert row[j] in row;
    forall r: nat ensures r in row[..j] <==> r < row[j] && inst.Compatible(lhs, b[r]) {
    }
  }

  lemma {:induction false} RowsCounted(inst: Instance, a: seq<Key>, b: seq<Key>, adjacency: seq<seq<nat>>,
                                       weighted: ResidualGraph.Weighted, n: nat)
    requires Drawn(inst, a, b) && Listed(inst, a, b, |a|, adjacency, weighted) && n <= |a|
    ensures RowsCount(inst, a, b, n) == ResidualGraph.RowStart(weighted, n)
    decreases n
  {
    if n > 0 {
      RowsCounted(inst, a, b, adjacency, weighted, n - 1);
      RowCounted(inst, a[n - 1], b, |b|, adjacency[n - 1]);
    }
  }

  lemma RankAt(inst: Instance, a: seq<Key>, b: seq<Key>, p: Pair)
    requires (forall k :: k in a || k in b ==> k in inst.slots) && Distinct(a) && Distinct(b) && p.0 < |a| && p.1 < |b|
    ensures RankIn(inst, a, b)((a[p.0], b[p.1])) == RowsCount(inst, a, b, p.0) + RowCount(inst, a[p.0], b, p.1)
  {
    assert IndexOf(a, a[p.0]) == p.0 && IndexOf(b, b[p.1]) == p.1;
  }

  /** The flow ranks a pair of positions by the place of its keys in reading order. */
  lemma PlacedRank(inst: Instance, a: seq<Key>, b: seq<Key>, adjacency: seq<seq<nat>>, weighted: ResidualGraph.Weighted,
                   p: Pair)
    requires Drawn(inst, a, b) && Listed(inst, a, b, |a|, adjacency, weighted)
    requires p in Edges(adjacency)
    ensures p.0 < |a| && p.1 < |b|
    ensures MinCostPairs.OrderOf(weighted)(p) == RankIn(inst, a, b)((a[p.0], b[p.1]))
  {
    ListedEdges(inst, a, b, adjacency, weighted);
    var j := ListedColumn(inst, a, b, adjacency, weighted, p);
    RowsCounted(inst, a, b, adjacency, weighted, p.0);
    RowBefore(inst, a[p.0], b, adjacency[p.0], j);
    RankAt(inst, a, b, p);
  }

  lemma RowBefore(inst: Instance, lhs: Key, b: seq<Key>, row: seq<nat>, j: nat)
    requires lhs in inst.slots && (forall k :: k in b ==> k in inst.slots)
    requires Candidates(inst, lhs, b, |b|, row) && j < |row|
    ensures row[j] < |b| && RowCount(inst, lhs, b, row[j]) == j
  {
    CandidatesBefore(inst, lhs, b, |b|, row, j);
    RowCounted(inst, lhs, b, row[j], row[..j]);
  }

  lemma ListedColumn(inst: Instance, a: seq<Key>, b: seq<Key>, adjacency: seq<seq<nat>>,
                     weighted: ResidualGraph.Weighted, p: Pair) returns (j: nat)
    requires Drawn(inst, a, b) && Listed(inst, a, b, |a|, adjacency, weighted)
    requires p in ResidualGraph.WeightedPairs(weighted)
    ensures p.0 < |a| && j < |adjacency[p.0]| && adjacency[p.0][j] == p.1
    ensures MinCostPairs.OrderOf(weighted)(p) == ResidualGraph.RowStart(weighted, p.0) + j
  {
    j := ResidualGraph.Column(weighted, p);
  }

  /** The rank sum of the selected positions is that of the groups at them. */
  lemma LiftedRank(inst: Instance, a: seq<Key>, b: seq<Key>, adjacency: seq<seq<nat>>, weighted: ResidualGraph.Weighted,
                   m: set<Pair>)
    requires inst.Valid() && Rest(inst, a, b) && Listed(inst, a, b, |a|, adjacency, weighted)
    requires IsMatching(Edges(adjacency), m)
    ensures Sum(Lift(a, b, m), ReadingRank(inst)) == Sum(m, MinCostPairs.OrderOf(weighted))
  {
    ListedEdges(inst, a, b, adjacency, weighted);
    LiftMatching(a, b, inst.Edges(), Edges(adjacency), m);
    forall p | p in m ensures MinCostPairs.OrderOf(weighted)(p) == ReadingRank(inst)((a[p.0], b[p.1])) {
      PlacedRank(inst, a, b, adjacency, weighted, p);
    }
    SumLift(a, b, m, ReadingRank(inst), MinCostPairs.OrderOf(weighted));
  }

  // ---------------------------------------------------------------------------
  // Bounds for the flow
  // ---------------------------------------------------------------------------

  /** Lane sharing costs are small enough for the flow's unreachable marker. */
  ghost predicate CostsFit(inst: Instance, limit: nat) {
    var n, m := |inst.forward|, |inst.reverse|;
    && inst.Valid() && MinCostPairs.BelowMarker(limit, n)
    && forall l, r ::
         l in inst.forward && r in inst.reverse ==> inst.Cost(l, r) * (n * (n * m + 1) + 1) + n * m <= limit
  }

  lemma {:induction false} AscendingShort(row: seq<nat>, n: nat)
    requires forall i, j :: 0 <= i < j < |row| ==> row[i] < row[j]
    requires forall r :: r in row ==> r < n
    ensures |row| <= n
    decreases |row|
  {
    if row != [] {
      var last := row[|row| - 1];
      assert last in row;
      AscendingShort(row[..|row| - 1], last);
    }
  }

  lemma {:induction false} FewEdges(weighted: ResidualGraph.Weighted, m: nat, l: nat)
    requires l <= |weighted| && forall k :: 0 <= k < |weighted| ==> |weighted[k]| <= m
    ensures ResidualGraph.RowStart(weighted, l) <= l * m
    decreases l
  {
    if l > 0 {
      FewEdges(weighted, m, l - 1);
      assert l * m == (l - 1) * m + m;
    }
  }

  lemma Products(x: nat, y: nat, x': nat, y': nat)
    requires x <= x' && y <= y'
    ensures x * y <= x' * y'
  {
    assert x * y <= x' * y;
    assert x' * y <= x' * y';
  }

  lemma ScaleFits(weighted: ResidualGraph.Weighted, target: nat, n: nat, m: nat)
    requires target <= n && ResidualGraph.EdgeCount(weighted) <= n * m
    ensures ResidualGraph.Scale(weighted, target) <= n * (n * m + 1) + 1
  {
    var edges := ResidualGraph.EdgeCount(weighted);
    Products(target, if edges >= 1 then edges else 1, n, n * m + 1);
  }

  lemma FewListed(inst: Instance, a: seq<Key>, b: seq<Key>, adjacency: seq<seq<nat>>, weighted: ResidualGraph.Weighted,
                  n: nat, m: nat)
    requires Drawn(inst, a, b) && Listed(inst, a, b, |a|, adjacency, weighted) && |a| <= n && |b| <= m
    ensures ResidualGraph.EdgeCount(weighted) <= n * m
  {
    forall k | 0 <= k < |weighted| ensures |weighted[k]| <= m {
      assert Candidates(inst, a[k], b, |b|, adjacency[k]);
      AscendingShort(adjacency[k], |b|);
    }
    FewEdges(weighted, m, |weighted|);
    Products(|weighted|, m, n, m);
  }

  lemma WeightFits(cost: nat, scale: nat, edges: nat, n: nat, m: nat, limit: nat)
    requires cost * (n * (n * m + 1) + 1) + n * m <= limit
    requires scale <= n * (n * m + 1) + 1 && edges <= n * m
    ensures cost * scale + edges <= limit
  {
    Products(cost, scale, cost, n * (n * m + 1) + 1);
  }

  lemma WeightsFit(inst: Instance, a: seq<Key>, b: seq<Key>, adjacency: seq<seq<nat>>, weighted: ResidualGraph.Weighted,
                   target: nat, limit: nat)
    requires CostsFit(inst, limit) && Drawn(inst, a, b) && |a| <= |inst.forward| && |b| <= |inst.reverse|
    requires Listed(inst, a, b, |a|, adjacency, weighted) && target <= |a|
    ensures MinCostPairs.BelowInfinity(weighted, target, limit)
  {
    var n, m := |inst.forward|, |inst.reverse|;
    Products(limit, |weighted|, limit, n);
    FewListed(inst, a, b, adjacency, weighted, n, m);
    ScaleFits(weighted, target, n, m);
    forall l, j | 0 <= l < |weighted| && 0 <= j < |weighted[l]|
      ensures weighted[l][j].1 * ResidualGraph.Scale(weighted, target) + ResidualGraph.EdgeCount(weighted) <= limit
    {
      var lhs, rhs := a[l], b[adjacency[l][j]];
      assert weighted[l][j] == (adjacency[l][j], inst.Cost(lhs, rhs)) && lhs in inst.forward && rhs in inst.reverse;
      WeightFits(inst.Cost(lhs, rhs), ResidualGraph.Scale(weighted, target),
                 ResidualGraph.EdgeCount(weighted), n, m, limit);
    }
  }

  // ---------------------------------------------------------------------------
  // The choice
  // ---------------------------------------------------------------------------

  datatype Choice =
    | Chosen(pairs: set<KeyPair>, maximum: nat)
    | SameDirectionLane
    | GuardCollision
    | OverBudget(maximum: nat)
    | FlowFailure

  function Required(inst: Instance, laneCount: int): nat {
    var groups := |inst.forward| + |inst.reverse|;
    if groups > laneCount then groups - laneCount else 0
  }

  /** No admissible set is larger than `maximum`, and one is as large. */
  ghost predicate LargestAdmissible(inst: Instance, maximum: nat)
    requires inst.Valid()
  {
    && (exists pairs :: inst.Admissible(pairs) && |pairs| == maximum)
    && (forall pairs :: inst.Admissible(pairs) ==> |pairs| <= maximum)
  }

  /** `pairs` cost less than `other`, or as much and what they add to the forced pairs is read no later. */
  ghost predicate Preferred(inst: Instance, pairs: set<KeyPair>, other: set<KeyPair>)
    requires inst.Valid()
  {
    || Sum(pairs, inst.CostOf()) < Sum(other, inst.CostOf())
    || (Sum(pairs, inst.CostOf()) == Sum(other, inst.CostOf())
        && Sum(pairs - inst.Forced(), ReadingRank(inst)) <= Sum(other - inst.Forced(), ReadingRank(inst)))
  }

  /** Fewest pairs that fit the lanes and contain the forced ones, at least cost and then in reading order. */
  ghost predicate CheapestFit(inst: Instance, laneCount: int, pairs: set<KeyPair>)
    requires inst.Valid()
  {
    && inst.Admissible(pairs)
    && |pairs| == (if Required(inst, laneCount) > |inst.Forced()| then Required(inst, laneCount) else |inst.Forced()|)
    && forall other :: inst.Admissible(other) && |other| == |pairs| ==> Preferred(inst, pairs, other)
  }

  ghost predicate ChoiceMeets(inst: Instance, laneCount: int, choice: Choice)
    requires inst.Valid()
  {
    match choice
    case SameDirectionLane => !(OneGroupPerLane(inst.forward, inst.fixed) && OneGroupPerLane(inst.reverse, inst.fixed))
    case GuardCollision =>
      OneGroupPerLane(inst.forward, inst.fixed) && OneGroupPerLane(inst.reverse, inst.fixed) && !inst.ForcedDisjoint()
    case OverBudget(maximum) =>
      inst.Guarded() && LargestAdmissible(inst, maximum) && maximum < Required(inst, laneCount)
    case Chosen(pairs, maximum) =>
      inst.Guarded() && LargestAdmissible(inst, maximum) && |pairs| <= maximum && CheapestFit(inst, laneCount, pairs)
    case FlowFailure => false
  }

  /** The least number of pairs that leaves no more groups than lanes. */
  lemma RequiredIsLeast(inst: Instance, laneCount: int, n: nat)
    ensures n >= Required(inst, laneCount) <==> |inst.forward| + |inst.reverse| - n <= laneCount
  {
  }

  /** Joining the pairs leaves no more groups than lanes. */
  ghost predicate Fits(inst: Instance, laneCount: int, pairs: set<KeyPair>) {
    |inst.forward| + |inst.reverse| - |pairs| <= laneCount
  }

  /** A choice is made exactly if some admissible set fits, and then it is a smallest one. */
  lemma ChosenIsFewest(inst: Instance, laneCount: int, choice: Choice)
    requires inst.Valid() && inst.Guarded() && ChoiceMeets(inst, laneCount, choice)
    ensures choice.Chosen? <==> exists pairs :: inst.Admissible(pairs) && Fits(inst, laneCount, pairs)
    ensures choice.Chosen? ==>
              && inst.Admissible(choice.pairs) && Fits(inst, laneCount, choice.pairs)
              && forall other :: inst.Admissible(other) && Fits(inst, laneCount, other) ==> |choice.pairs| <= |other|
  {
    forall other | inst.Admissible(other) ensures |inst.Forced()| <= |other| {
      SubsetSize(inst.Forced(), other);
    }
  }

  /** The maximum matching of the rest plus the forced pairs is the largest admissible set. */
  lemma MaximumAdmissible(inst: Instance, a: seq<Key>, b: seq<Key>, adjacency: seq<seq<nat>>, m: set<Pair>)
    requires inst.Valid() && inst.Guarded() && Rest(inst, a, b)
    requires Positions(a, b, inst.Edges(), Edges(adjacency)) && Maximum(Edges(adjacency), m)
    ensures LargestAdmissible(inst, |inst.Forced()| + |m|)
  {
    LiftMatching(a, b, inst.Edges(), Edges(adjacency), m);
    JoinForced(inst, a, b, Lift(a, b, m));
    forall pairs | inst.Admissible(pairs) ensures |pairs| <= |inst.Forced()| + |m| {
      SplitForced(inst, a, b, pairs);
      LowerMatching(a, b, inst.Edges(), Edges(adjacency), pairs - inst.Forced());
    }
  }

  /** An admissible set seen as forced pairs plus a matching of positions. */
  lemma Lowered(inst: Instance, a: seq<Key>, b: seq<Key>, adjacency: seq<seq<nat>>, weighted: ResidualGraph.Weighted,
                pairs: set<KeyPair>)
    returns (m: set<Pair>)
    requires inst.Valid() && inst.Guarded() && Rest(inst, a, b) && Listed(inst, a, b, |a|, adjacency, weighted)
    requires inst.Admissible(pairs)
    ensures IsMatching(Edges(adjacency), m) && |pairs| == |inst.Forced()| + |m|
    ensures Sum(pairs, inst.CostOf()) == Sum(inst.Forced(), inst.CostOf()) + Sum(m, MinCostPairs.PrimaryOf(weighted))
    ensures Sum(pairs - inst.Forced(), ReadingRank(inst)) == Sum(m, MinCostPairs.OrderOf(weighted))
  {
    ListedEdges(inst, a, b, adjacency, weighted);
    SplitForced(inst, a, b, pairs);
    m := Lower(a, b, pairs - inst.Forced());
    LowerMatching(a, b, inst.Edges(), Edges(adjacency), pairs - inst.Forced());
    LiftedCost(inst, a, b, adjacency, weighted, m);
    LiftedRank(inst, a, b, adjacency, weighted, m);
  }

  /** And back. */
  lemma Raised(inst: Instance, a: seq<Key>, b: seq<Key>, adjacency: seq<seq<nat>>, weighted: ResidualGraph.Weighted,
               m: set<Pair>)
    requires inst.Valid() && inst.Guarded() && Rest(inst, a, b) && Listed(inst, a, b, |a|, adjacency, weighted)
    requires IsMatching(Edges(adjacency), m)
    ensures inst.Admissible(inst.Forced() + Lift(a, b, m)) && |inst.Forced() + Lift(a, b, m)| == |inst.Forced()| + |m|
    ensures Sum(inst.Forced() + Lift(a, b, m), inst.CostOf()) ==
            Sum(inst.Forced(), inst.CostOf()) + Sum(m, MinCostPairs.PrimaryOf(weighted))
    ensures Sum(inst.Forced() + Lift(a, b, m) - inst.Forced(), ReadingRank(inst)) ==
              Sum(m, MinCostPairs.OrderOf(weighted))
  {
    ListedEdges(inst, a, b, adjacency, weighted);
    LiftMatching(a, b, inst.Edges(), Edges(adjacency), m);
    JoinForced(inst, a, b, Lift(a, b, m));
    LiftedCost(inst, a, b, adjacency, weighted, m);
    LiftedRank(inst, a, b, adjacency, weighted, m);
    assert inst.Forced() + Lift(a, b, m) - inst.Forced() == Lift(a, b, m);
  }

  lemma SelectionIsCheapest(inst: Instance, a: seq<Key>, b: seq<Key>, adjacency: seq<seq<nat>>,
                            weighted: ResidualGraph.Weighted, laneCount: int, target: nat, m: set<Pair>)
    requires inst.Valid() && inst.Guarded() && Rest(inst, a, b) && Listed(inst, a, b, |a|, adjacency, weighted)
    requires target == Additional(inst, laneCount, |inst.Forced()|)
    requires IsMatching(Edges(adjacency), m) && |m| == target
    requires forall other ::
               IsMatching(Edges(adjacency), other) && |other| == target ==> MinCostPairs.NoWorse(weighted, m, other)
    ensures CheapestFit(inst, laneCount, inst.Forced() + Lift(a, b, m))
  {
    Raised(inst, a, b, adjacency, weighted, m);
    forall other | inst.Admissible(other) && |other| == |inst.Forced()| + target
      ensures Preferred(inst, inst.Forced() + Lift(a, b, m), other)
    {
      var lowered := Lowered(inst, a, b, adjacency, weighted, other);
      assert MinCostPairs.NoWorse(weighted, m, lowered);
    }
  }

  /** Packs opposite directions onto shared lanes. */
  method ChoosePairs(inst: Instance, laneCount: int, ghost limit: nat) returns (choice: Choice)
    requires inst.Valid() && CostsFit(inst, limit)
    ensures ChoiceMeets(inst, laneCount, choice)
  {
    var forwardByLane, forwardUnique := IndexLanes(inst.forward, inst.fixed);
    var reverseByLane, reverseUnique := IndexLanes(inst.reverse, inst.fixed);
    if !forwardUnique || !reverseUnique {
      return SameDirectionLane;
    }
    var disjoint, forced := ForcedPairs(inst, forwardByLane, reverseByLane);
    if !disjoint {
      return GuardCollision;
    }
    var a := Unforced(inst.forward, set p | p in forced :: p.0);
    var b := Unforced(inst.reverse, set p | p in forced :: p.1);
    choice := ChooseAdditional(inst, laneCount, forced, a, b, limit);
  }

  /** How many pairs must be added to the forced ones. */
  function Additional(inst: Instance, laneCount: int, forced: nat): nat {
    if Required(inst, laneCount) > forced then Required(inst, laneCount) - forced else 0
  }

  /** The candidates among the rest and how many of them can be joined at most. */
  method CountAdditional(inst: Instance, a: seq<Key>, b: seq<Key>)
    returns (adjacency: seq<seq<nat>>, weighted: ResidualGraph.Weighted, maximum: nat, ghost m: set<Pair>)
    requires inst.Valid() && inst.Guarded() && Rest(inst, a, b)
    ensures Listed(inst, a, b, |a|, adjacency, weighted)
    ensures IsMatching(Edges(adjacency), m) && maximum == |m| <= |a|
              && LargestAdmissible(inst, |inst.Forced()| + maximum)
  {
    adjacency, weighted := ListCandidates(inst, a, b);
    ListedEdges(inst, a, b, adjacency, weighted);
    var left, right := HopcroftKarp.MaximumBipartiteMatching(adjacency, |b|);
    maximum := CountMatched(left);
    m := HopcroftKarp.Pairs(left);
    MaximumAdmissible(inst, a, b, adjacency, m);
  }

  lemma BudgetExceeded(inst: Instance, laneCount: int, maximum: nat)
    requires inst.Valid() && inst.Guarded() && LargestAdmissible(inst, |inst.Forced()| + maximum)
    requires maximum < Additional(inst, laneCount, |inst.Forced()|)
    ensures ChoiceMeets(inst, laneCount, OverBudget(|inst.Forced()| + maximum))
  {
  }

  lemma BudgetMet(inst: Instance, laneCount: int, pairs: set<KeyPair>, maximum: nat)
    requires inst.Valid() && inst.Guarded() && LargestAdmissible(inst, maximum)
    requires CheapestFit(inst, laneCount, pairs) && |pairs| <= maximum
    ensures ChoiceMeets(inst, laneCount, Chosen(pairs, maximum))
  {
  }

  /** Adds the cheapest pairs of the rest that make the groups fit the lanes. */
  method ChooseAdditional(inst: Instance, laneCount: int, forced: set<KeyPair>, a: seq<Key>, b: seq<Key>,
                          ghost limit: nat)
    returns (choice: Choice)
    requires inst.Valid() && CostsFit(inst, limit) && inst.Guarded() && Rest(inst, a, b) && forced == inst.Forced()
    ensures ChoiceMeets(inst, laneCount, choice)
  {
    var adjacency, weighted, maximumAdditional, m := CountAdditional(inst, a, b);
    var target := Additional(inst, laneCount, |forced|);
    if maximumAdditional < target {
      BudgetExceeded(inst, laneCount, maximumAdditional);
      return OverBudget(|forced| + maximumAdditional);
    }
    var pairs := SelectAdditional(inst, a, b, adjacency, weighted, laneCount, target, m, limit);
    if pairs.None? {
      return FlowFailure;
    }
    BudgetMet(inst, laneCount, forced + pairs.value, |forced| + maximumAdditional);
    choice := Chosen(forced + pairs.value, |forced| + maximumAdditional);
  }

  /** The cheapest additional pairs; as many as asked for exist, so the flow finds them. */
  method SelectAdditional(inst: Instance, a: seq<Key>, b: seq<Key>, ghost adjacency: seq<seq<nat>>,
                          weighted: ResidualGraph.Weighted, ghost laneCount: int, target: nat, ghost most: set<Pair>,
                          ghost limit: nat) returns (pairs: Option<set<KeyPair>>)
    requires inst.Valid() && CostsFit(inst, limit) && inst.Guarded() && Rest(inst, a, b)
    requires Listed(inst, a, b, |a|, adjacency, weighted)
    requires target == Additional(inst, laneCount, |inst.Forced()|)
    requires IsMatching(Edges(adjacency), most) && target <= |most| <= |a|
    ensures pairs.Some? && CheapestFit(inst, laneCount, inst.Forced() + pairs.value)
    ensures |inst.Forced() + pairs.value| <= |inst.Forced()| + |most|
  {
    ListedEdges(inst, a, b, adjacency, weighted);
    WeightsFit(inst, a, b, adjacency, weighted, target, limit);
    var outcome := MinCostPairs.MinimumCostPairs(weighted, |b|, target, limit);
    match outcome {
      case Selected(selected) =>
        SelectionIsCheapest(inst, a, b, adjacency, weighted, laneCount, target, MinCostPairs.AsSet(selected));
        var keys := SelectedKeys(a, b, selected);
        pairs := Some(keys);
      case Infeasible =>
        pairs := None;
      case Incomplete =>
        pairs := None;
    }
  }

  method CountMatched(left: seq<int>) returns (count: nat)
    ensures count == |HopcroftKarp.Pairs(left)| <= |left|
  {
    count := 0;
    assert HopcroftKarp.Pairs(left[..0]) == {};
    for l := 0 to |left|
      invariant count == |HopcroftKarp.Pairs(left[..l])| <= l
    {
      if left[l] >= 0 {
        assert HopcroftKarp.Pairs(left[..l + 1]) == HopcroftKarp.Pairs(left[..l]) + {(l, left[l] as nat)};
        count := count + 1;
      } else {
        assert HopcroftKarp.Pairs(left[..l + 1]) == HopcroftKarp.Pairs(left[..l]);
      }
    }
    assert left[..|left|] == left;
  }

  method SelectedKeys(a: seq<Key>, b: seq<Key>, selected: seq<Pair>) returns (pairs: set<KeyPair>)
    requires forall p :: p in selected ==> p.0 < |a| && p.1 < |b|
    ensures pairs == Lift(a, b, MinCostPairs.AsSet(selected))
  {
    pairs := {};
    for i := 0 to |selected|
      invariant pairs == Lift(a, b, MinCostPairs.AsSet(selected[..i]))
    {
      assert selected[i] in selected;
      assert MinCostPairs.AsSet(selected[..i + 1]) == MinCostPairs.AsSet(selected[..i]) + {selected[i]};
      pairs := pairs + {(a[selected[i].0], b[selected[i].1])};
    }
    assert selected[..|selected|] == selected;
  }
}
