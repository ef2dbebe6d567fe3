// The residual-dual certificate of a min-cost assignment: what the checker accepts, and why
// an accepted assignment is optimal whatever potentials came with it.
module Certificates {
  import opened Sequences

  /** An admissible edge with its cost. */
  datatype Candidate = Candidate(right: nat, left: nat, cost: int)

  /** The right vertex and the cost claimed for one left vertex. */
  datatype Claim = Claim(right: int, cost: int)

  /** A certificate over rights 0..|capacities| and lefts 0..lefts.  Potentials are numbered
      source, rights, lefts, sink. */
  datatype Problem = Problem(capacities: seq<int>, lefts: nat, candidates: seq<Candidate>)
  {
    ghost predicate Valid() {
      forall c :: c in candidates ==> c.right < |capacities| && c.left < lefts
    }

    function Right(r: int): int { 1 + r }
    function Left(l: int): int { 1 + |capacities| + l }
    function Sink(): nat { 1 + |capacities| + lefts }

    ghost predicate NoDuplicates() {
      NoRepeats(candidates)
    }
  }

  datatype Verdict =
    Accepted | InvalidDimensions | DuplicateCandidates | MissingOrWrongCost | InvalidPrimal | NegativeReducedCost

  /** How many of the first `n` lefts claim `r`. */
  ghost function Uses(claims: map<nat, Claim>, n: nat, r: int): nat {
    if n == 0 then 0
    else Uses(claims, n - 1, r) + if n - 1 in claims && claims[n - 1].right == r then 1 else 0
  }

  ghost function ClaimedCost(claims: map<nat, Claim>, n: nat): int {
    if n == 0 then 0 else ClaimedCost(claims, n - 1) + if n - 1 in claims then claims[n - 1].cost else 0
  }

  ghost predicate Covers(p: Problem, claims: map<nat, Claim>) {
    forall l :: l in claims <==> 0 <= l < p.lefts
  }

  /** Every claim is a candidate with its cost, within the capacities, for the stated total. */
  ghost predicate Primal(p: Problem, claims: map<nat, Claim>, total: int)
    requires Covers(p, claims)
  {
    && ClaimsListed(p, claims)
    && ClaimedCost(claims, p.lefts) == total
    && forall r :: 0 <= r < |p.capacities| ==> Uses(claims, p.lefts, r) <= p.capacities[r]
  }

  ghost predicate ClaimsListed(p: Problem, claims: map<nat, Claim>)
    requires Covers(p, claims)
  {
    forall l: nat ::
      l < p.lefts ==> claims[l].right >= 0 && Candidate(claims[l].right, l, claims[l].cost) in p.candidates
  }

  /** No residual edge has a negative reduced cost. */
  ghost predicate Dual(p: Problem, claims: map<nat, Claim>, potentials: seq<int>)
    requires Covers(p, claims) && |potentials| == p.Sink() + 1
  {
    RightsDual(p, claims, potentials) && CandidatesDual(p, claims, potentials) && LeftsDual(p, potentials)
  }

  ghost predicate RightsDual(p: Problem, claims: map<nat, Claim>, potentials: seq<int>)
    requires |potentials| == p.Sink() + 1
  {
    forall r :: 0 <= r < |p.capacities| ==>
      && (Uses(claims, p.lefts, r) < p.capacities[r] ==> potentials[0] - potentials[p.Right(r)] >= 0)
      && (Uses(claims, p.lefts, r) > 0 ==> potentials[p.Right(r)] - potentials[0] >= 0)
  }

  ghost predicate CandidateDual(p: Problem, claims: map<nat, Claim>, potentials: seq<int>, c: Candidate)
    requires c.right < |p.capacities| && c.left < p.lefts && |potentials| == p.Sink() + 1 && c.left in claims
  {
    if claims[c.left].right == c.right then -c.cost + potentials[p.Left(c.left)] - potentials[p.Right(c.right)] >= 0
    else c.cost + potentials[p.Right(c.right)] - potentials[p.Left(c.left)] >= 0
  }

  ghost predicate CandidatesDual(p: Problem, claims: map<nat, Claim>, potentials: seq<int>)
    requires Covers(p, claims) && |potentials| == p.Sink() + 1
  {
    forall c ::
      c in p.candidates && c.right < |p.capacities| && c.left < p.lefts ==> CandidateDual(p, claims, potentials, c)
  }

  ghost predicate LeftsDual(p: Problem, potentials: seq<int>)
    requires |potentials| == p.Sink() + 1
  {
    forall l :: 0 <= l < p.lefts ==> potentials[p.Sink()] - potentials[p.Left(l)] >= 0
  }

  /** What acceptance means. */
  ghost predicate Certified(p: Problem, claims: map<nat, Claim>, potentials: seq<int>, total: int) {
    && |potentials| == p.Sink() + 1 && Covers(p, claims) && p.NoDuplicates()
    && Primal(p, claims, total) && Dual(p, claims, potentials)
  }

  // ---------------------------------------------------------------------------
  // Optimality
  // ---------------------------------------------------------------------------

  /** Another assignment of every left to a candidate right within the capacities. */
  ghost predicate Feasible(p: Problem, claims: map<nat, Claim>) {
    && Covers(p, claims) && ClaimsListed(p, claims)
    && forall r :: 0 <= r < |p.capacities| ==> Uses(claims, p.lefts, r) <= p.capacities[r]
  }

  /** The potentials of the claimed rights, relative to the source. */
  ghost function Prices(p: Problem, claims: map<nat, Claim>, potentials: seq<int>, n: nat): int {
    if n == 0 then 0
    else Prices(p, claims, potentials, n - 1) + if n - 1 in claims then Price(p, potentials, claims[n - 1].right) else 0
  }

  ghost function Price(p: Problem, potentials: seq<int>, r: int): int {
    if 0 <= r < |p.capacities| < |potentials| then potentials[p.Right(r)] - potentials[0] else 0
  }

  /** The same sum taken right by right, over the rights below `m`. */
  ghost function PricesByRight(p: Problem, claims: map<nat, Claim>, potentials: seq<int>, n: nat, m: nat): int {
    if m == 0 then 0
    else PricesByRight(p, claims, potentials, n, m - 1) + Price(p, potentials, m - 1) * Uses(claims, n, m - 1)
  }

  lemma {:induction false} NoPrices(p: Problem, claims: map<nat, Claim>, potentials: seq<int>, m: nat)
    ensures PricesByRight(p, claims, potentials, 0, m) == 0
    decreases m
  {
    if m > 0 {
      NoPrices(p, claims, potentials, m - 1);
    }
  }

  lemma {:induction false} OneMorePrice(p: Problem, claims: map<nat, Claim>, potentials: seq<int>, n: nat, m: nat)
    requires n in claims
    ensures PricesByRight(p, claims, potentials, n + 1, m) == PricesByRight(p, claims, potentials, n, m) +
              if 0 <= claims[n].right < m then Price(p, potentials, claims[n].right) else 0
    decreases m
  {
    if m > 0 {
      OneMorePrice(p, claims, potentials, n, m - 1);
      if claims[n].right == m - 1 {
        OneMore(Price(p, potentials, m - 1), Uses(claims, n, m - 1));
      }
    }
  }

  lemma OneMore(x: int, k: int)
    ensures x * (k + 1) == x * k + x
  {
  }

  lemma {:induction false} PricesTwoWays(p: Problem, claims: map<nat, Claim>, potentials: seq<int>, n: nat)
    requires forall l: nat :: l < n ==> l in claims && 0 <= claims[l].right < |p.capacities|
    ensures Prices(p, claims, potentials, n) == PricesByRight(p, claims, potentials, n, |p.capacities|)
    decreases n
  {
    if n == 0 {
      NoPrices(p, claims, potentials, |p.capacities|);
    } else {
      PricesTwoWays(p, claims, potentials, n - 1);
      OneMorePrice(p, claims, potentials, n - 1, |p.capacities|);
    }
  }

  /** Rights that cost more than the source are full, rights that cost less are empty, so no
      assignment within the capacities collects a higher price. */
  lemma {:induction false} PricesHighest(p: Problem, claims: map<nat, Claim>, other: map<nat, Claim>,
                                         potentials: seq<int>, m: nat)
    requires |potentials| == p.Sink() + 1 && m <= |p.capacities|
    requires RightsDual(p, claims, potentials)
    requires forall r :: 0 <= r < |p.capacities| ==> Uses(claims, p.lefts, r) <= p.capacities[r]
    requires forall r :: 0 <= r < |p.capacities| ==> Uses(other, p.lefts, r) <= p.capacities[r]
    ensures PricesByRight(p, other, potentials, p.lefts, m) <= PricesByRight(p, claims, potentials, p.lefts, m)
    decreases m
  {
    if m > 0 {
      PricesHighest(p, claims, other, potentials, m - 1);
      SignedProduct(Price(p, potentials, m - 1), Uses(other, p.lefts, m - 1), Uses(claims, p.lefts, m - 1));
    }
  }

  lemma SignedProduct(x: int, j: nat, k: nat)
    requires x > 0 ==> j <= k
    requires x < 0 ==> k <= j
    ensures x * j <= x * k
  {
  }

  lemma SameEdgeSameCost(p: Problem, c: Candidate, d: Candidate)
    requires p.NoDuplicates() && c in p.candidates && d in p.candidates && c.left == d.left && c.right == d.right
    ensures c == d
  {
  }

  /** Claiming another right for one left costs at least the price difference. */
  lemma OneClaim(p: Problem, claims: map<nat, Claim>, other: map<nat, Claim>, potentials: seq<int>, l: nat)
    requires p.Valid() && p.NoDuplicates() && l < p.lefts && |potentials| == p.Sink() + 1
    requires Covers(p, claims) && Covers(p, other) && ClaimsListed(p, claims) && ClaimsListed(p, other)
    requires CandidatesDual(p, claims, potentials)
    ensures claims[l].cost - other[l].cost <=
              Price(p, potentials, other[l].right) - Price(p, potentials, claims[l].right)
  {
    var mine := Candidate(claims[l].right, l, claims[l].cost);
    var theirs := Candidate(other[l].right, l, other[l].cost);
    assert mine in p.candidates && theirs in p.candidates;
    assert CandidateDual(p, claims, potentials, mine) && CandidateDual(p, claims, potentials, theirs);
    if claims[l].right == other[l].right {
      SameEdgeSameCost(p, mine, theirs);
    }
  }

  lemma {:induction false} CostAgainstPrice(p: Problem, claims: map<nat, Claim>, other: map<nat, Claim>,
                                            potentials: seq<int>, n: nat)
    requires forall l: nat :: l < n ==> l in claims && l in other
    requires forall l: nat :: l < n ==>
               claims[l].cost - other[l].cost <=
                 Price(p, potentials, other[l].right) - Price(p, potentials, claims[l].right)
    ensures ClaimedCost(claims, n) - ClaimedCost(other, n) <=
              Prices(p, other, potentials, n) - Prices(p, claims, potentials, n)
    decreases n
  {
    if n > 0 {
      CostAgainstPrice(p, claims, other, potentials, n - 1);
    }
  }

  lemma ListedInRange(p: Problem, claims: map<nat, Claim>)
    requires p.Valid() && Covers(p, claims) && ClaimsListed(p, claims)
    ensures forall l: nat :: l < p.lefts ==> l in claims && 0 <= claims[l].right < |p.capacities|
  {
    forall l: nat | l < p.lefts ensures l in claims && 0 <= claims[l].right < |p.capacities| {
      assert Candidate(claims[l].right, l, claims[l].cost) in p.candidates;
    }
  }

  /** Soundness: a certified assignment costs no more than any other one. */
  lemma CertifiedIsOptimal(p: Problem, claims: map<nat, Claim>, potentials: seq<int>, total: int,
                           other: map<nat, Claim>)
    requires p.Valid() && Certified(p, claims, potentials, total) && Feasible(p, other)
    ensures total <= ClaimedCost(other, p.lefts)
  {
    forall l: nat | l < p.lefts
      ensures claims[l].cost - other[l].cost <=
                Price(p, potentials, other[l].right) - Price(p, potentials, claims[l].right)
    {
      OneClaim(p, claims, other, potentials, l);
    }
    CostAgainstPrice(p, claims, other, potentials, p.lefts);
    ListedInRange(p, claims);
    ListedInRange(p, other);
    PricesTwoWays(p, claims, potentials, p.lefts);
    PricesTwoWays(p, other, potentials, p.lefts);
    PricesHighest(p, claims, other, potentials, |p.capacities|);
  }

  // ---------------------------------------------------------------------------
  // The checker
  // ---------------------------------------------------------------------------

  datatype ResidualEdge = ResidualEdge(start: nat, end: nat, cost: int)

  predicate EdgeHolds(potentials: seq<int>, e: ResidualEdge) {
    e.start < |potentials| && e.end < |potentials| && e.cost + potentials[e.start] - potentials[e.end] >= 0
  }

  ghost predicate AllHold(potentials: seq<int>, edges: seq<ResidualEdge>) {
    forall i :: 0 <= i < |edges| ==> EdgeHolds(potentials, edges[i])
  }

  type EdgeKey = (int, nat)

  ghost predicate NoRepeats(cs: seq<Candidate>) {
    forall i, j | 0 <= i < j < |cs| :: cs[i].right != cs[j].right || cs[i].left != cs[j].left
  }

  /** `costs` holds the edges of `cs`, with the cost of some candidate for each. */
  ghost predicate Indexes(cs: seq<Candidate>, costs: map<EdgeKey, int>) {
    && (forall c :: c in cs ==> (c.right, c.left) in costs)
    && (forall k :: k in costs ==> k.0 >= 0 && Candidate(k.0, k.1, costs[k]) in cs)
  }

  lemma NextCandidate(cs: seq<Candidate>, c: Candidate, costs: map<EdgeKey, int>)
    requires Indexes(cs, costs)
    ensures var after := costs[(c.right as int, c.left) := c.cost];
            && Indexes(cs + [c], after)
            && |after| == (if (c.right as int, c.left) in costs then |costs| else |costs| + 1)
            && (NoRepeats(cs + [c]) <==> NoRepeats(cs) && (c.right as int, c.left) !in costs)
  {
    var key: EdgeKey := (c.right, c.left);
    var after := costs[key := c.cost];
    assert after.Keys == costs.Keys + {key};
    assert |after| == |after.Keys| && |costs| == |costs.Keys|;
    RepeatedLast(cs, c);
    if key in costs {
      assert Candidate(key.0, key.1, costs[key]) in cs;
    }
  }

  lemma RepeatedLast(cs: seq<Candidate>, c: Candidate)
    ensures NoRepeats(cs + [c]) <==> NoRepeats(cs) && forall d :: d in cs ==> d.right != c.right || d.left != c.left
  {
    if NoRepeats(cs + [c]) {
      forall i, j | 0 <= i < j < |cs| ensures cs[i].right != cs[j].right || cs[i].left != cs[j].left {
        assert (cs + [c])[i] == cs[i] && (cs + [c])[j] == cs[j];
      }
      forall d | d in cs ensures d.right != c.right || d.left != c.left {
        var i :| 0 <= i < |cs| && cs[i] == d;
        assert (cs + [c])[i] == d && (cs + [c])[|cs|] == c;
      }
    }
  }

  /** The costs by edge; fewer entries than candidates mean a repeated edge. */
  method IndexCandidates(p: Problem) returns (costs: map<EdgeKey, int>, unique: bool)
    ensures unique <==> p.NoDuplicates()
    ensures Indexes(p.candidates, costs)
  {
    costs := map[];
    ghost var done: seq<Candidate> := [];
    for i := 0 to |p.candidates|
      invariant done == p.candidates[..i] && Indexes(done, costs)
      invariant |costs| <= i && (|costs| == i <==> NoRepeats(done))
    {
      var c := p.candidates[i];
      TakeNext(p.candidates, i);
      NextCandidate(done, c, costs);
      costs := costs[(c.right as int, c.left) := c.cost];
      done := done + [c];
    }
    assert done == p.candidates;
    unique := |costs| == |p.candidates|;
  }

  /** The usage counters after the first `n` claims. */
  ghost predicate Counted(p: Problem, claims: map<nat, Claim>, n: nat, used: seq<nat>) {
    |used| == |p.capacities| && forall r :: 0 <= r < |used| ==> used[r] == Uses(claims, n, r)
  }

  method CheckClaims(p: Problem, claims: map<nat, Claim>, costs: map<EdgeKey, int>)
    returns (ok: bool, used: seq<nat>, total: int)
    requires p.Valid() && p.NoDuplicates() && Covers(p, claims) && Indexes(p.candidates, costs)
    ensures ok <==> ClaimsListed(p, claims)
    ensures ok ==> Counted(p, claims, p.lefts, used) && total == ClaimedCost(claims, p.lefts)
  {
    used, total := seq(|p.capacities|, _ => 0), 0;
    for left := 0 to p.lefts
      invariant forall l: nat ::
                  l < left ==> claims[l].right >= 0 && Candidate(claims[l].right, l, claims[l].cost) in p.candidates
      invariant Counted(p, claims, left, used) && total == ClaimedCost(claims, left)
    {
      var claim := claims[left];
      ListedCost(p, costs, claim.right, left, claim.cost);
      if (claim.right, left) !in costs || costs[(claim.right, left)] != claim.cost {
        return false, used, total;
      }
      used := used[claim.right := used[claim.right] + 1];
      total := total + claim.cost;
    }
    ok := true;
  }

  lemma ListedCost(p: Problem, costs: map<EdgeKey, int>, r: int, l: nat, cost: int)
    requires p.Valid() && p.NoDuplicates() && Indexes(p.candidates, costs)
    ensures (r, l) in costs && costs[(r, l)] == cost <==> r >= 0 && Candidate(r, l, cost) in p.candidates
    ensures (r, l) in costs ==> 0 <= r < |p.capacities|
  {
    if r >= 0 && Candidate(r, l, cost) in p.candidates {
      assert Candidate(r, l, costs[(r, l)]) in p.candidates;
      SameEdgeSameCost(p, Candidate(r, l, cost), Candidate(r, l, costs[(r, l)]));
    }
  }

  method RightEdges(p: Problem, ghost claims: map<nat, Claim>, used: seq<nat>, ghost potentials: seq<int>)
    returns (edges: seq<ResidualEdge>)
    requires |potentials| == p.Sink() + 1 && Counted(p, claims, p.lefts, used)
    ensures AllHold(potentials, edges) <==> RightsDual(p, claims, potentials)
  {
    edges := [];
    for right := 0 to |p.capacities|
      invariant AllHold(potentials, edges) <==> forall r :: 0 <= r < right ==>
                  && (Uses(claims, p.lefts, r) < p.capacities[r] ==> potentials[0] - potentials[p.Right(r)] >= 0)
                  && (Uses(claims, p.lefts, r) > 0 ==> potentials[p.Right(r)] - potentials[0] >= 0)
    {
      ghost var before := edges;
      if p.capacities[right] - used[right] > 0 {
        HoldNext(potentials, edges, ResidualEdge(0, p.Right(right), 0));
        edges := edges + [ResidualEdge(0, p.Right(right), 0)];
      }
      if used[right] > 0 {
        HoldNext(potentials, edges, ResidualEdge(p.Right(right), 0, 0));
        edges := edges + [ResidualEdge(p.Right(right), 0, 0)];
      }
    }
  }

  lemma HoldNext(potentials: seq<int>, edges: seq<ResidualEdge>, e: ResidualEdge)
    ensures AllHold(potentials, edges + [e]) <==> AllHold(potentials, edges) && EdgeHolds(potentials, e)
  {
    forall i | 0 <= i < |edges| ensures (edges + [e])[i] == edges[i] {
    }
    assert (edges + [e])[|edges|] == e;
    if AllHold(potentials, edges + [e]) {
      forall i | 0 <= i < |edges| ensures EdgeHolds(potentials, edges[i]) {
        assert (edges + [e])[i] == edges[i];
      }
    }
  }

  lemma HoldConcat(potentials: seq<int>, a: seq<ResidualEdge>, b: seq<ResidualEdge>)
    ensures AllHold(potentials, a + b) <==> AllHold(potentials, a) && AllHold(potentials, b)
  {
    if AllHold(potentials, a + b) {
      forall i | 0 <= i < |a| ensures EdgeHolds(potentials, a[i]) {
        assert (a + b)[i] == a[i];
      }
      forall i | 0 <= i < |b| ensures EdgeHolds(potentials, b[i]) {
        assert (a + b)[|a| + i] == b[i];
      }
    }
  }

  method CandidateEdges(p: Problem, claims: map<nat, Claim>, ghost potentials: seq<int>)
    returns (edges: seq<ResidualEdge>)
    requires p.Valid() && Covers(p, claims) && |potentials| == p.Sink() + 1
    ensures AllHold(potentials, edges) <==> CandidatesDual(p, claims, potentials)
  {
    edges := [];
    for i := 0 to |p.candidates|
      invariant AllHold(potentials, edges) <==>
                  forall k :: 0 <= k < i ==> CandidateDual(p, claims, potentials, p.candidates[k])
    {
      var c := p.candidates[i];
      assert c in p.candidates;
      var edge := if claims[c.left].right == c.right then ResidualEdge(p.Left(c.left), p.Right(c.right), -c.cost)
                  else ResidualEdge(p.Right(c.right), p.Left(c.left), c.cost);
      HoldNext(potentials, edges, edge);
      edges := edges + [edge];
    }
  }

  method LeftEdges(p: Problem, ghost potentials: seq<int>) returns (edges: seq<ResidualEdge>)
    requires |potentials| == p.Sink() + 1
    ensures AllHold(potentials, edges) <==> LeftsDual(p, potentials)
  {
    edges := [];
    for left := 0 to p.lefts
      invariant AllHold(potentials, edges) <==>
                  forall l :: 0 <= l < left ==> potentials[p.Sink()] - potentials[p.Left(l)] >= 0
    {
      HoldNext(potentials, edges, ResidualEdge(p.Sink(), p.Left(left), 0));
      edges := edges + [ResidualEdge(p.Sink(), p.Left(left), 0)];
    }
  }

  /** Checks the reduced costs of all residual edges. */
  method CheckDual(p: Problem, claims: map<nat, Claim>, used: seq<nat>, potentials: seq<int>) returns (ok: bool)
    requires p.Valid() && Covers(p, claims) && |potentials| == p.Sink() + 1 && Counted(p, claims, p.lefts, used)
    ensures ok <==> Dual(p, claims, potentials)
  {
    var right := RightEdges(p, claims, used, potentials);
    var crossing := CandidateEdges(p, claims, potentials);
    var final := LeftEdges(p, potentials);
    HoldConcat(potentials, right + crossing, final);
    HoldConcat(potentials, right, crossing);
    var edges := right + crossing + final;
    for i := 0 to |edges|
      invariant forall k :: 0 <= k < i ==> EdgeHolds(potentials, edges[k])
    {
      if !EdgeHolds(potentials, edges[i]) {
        return false;
      }
    }
    ok := true;
  }

  method WithinCapacities(p: Problem, ghost claims: map<nat, Claim>, used: seq<nat>) returns (ok: bool)
    requires Counted(p, claims, p.lefts, used)
    ensures ok <==> forall r :: 0 <= r < |p.capacities| ==> Uses(claims, p.lefts, r) <= p.capacities[r]
  {
    for r := 0 to |p.capacities|
      invariant forall k :: 0 <= k < r ==> Uses(claims, p.lefts, k) <= p.capacities[k]
    {
      if used[r] > p.capacities[r] {
        return false;
      }
    }
    ok := true;
  }

  /** Accepts exactly the certificates. */
  method VerifyCertificate(p: Problem, claims: map<nat, Claim>, potentials: seq<int>, expectedTotal: int)
    returns (verdict: Verdict)
    requires p.Valid()
    ensures verdict.Accepted? <==> Certified(p, claims, potentials, expectedTotal)
  {
    if |potentials| != p.Sink() + 1 || claims.Keys != Below(p.lefts) {
      CoversRange(p, claims);
      return InvalidDimensions;
    }
    CoversRange(p, claims);
    var costs, unique := IndexCandidates(p);
    if !unique {
      return DuplicateCandidates;
    }
    var listed, used, total := CheckClaims(p, claims, costs);
    if !listed {
      return MissingOrWrongCost;
    }
    var fits := WithinCapacities(p, claims, used);
    if total != expectedTotal || !fits {
      return InvalidPrimal;
    }
    var holds := CheckDual(p, claims, used, potentials);
    verdict := if holds then Accepted else NegativeReducedCost;
  }

  lemma CoversRange(p: Problem, claims: map<nat, Claim>)
    ensures Covers(p, claims) <==> claims.Keys == Below(p.lefts)
  {
    if Covers(p, claims) {
      assert forall l: nat :: l in claims.Keys <==> l in Below(p.lefts);
    }
    if claims.Keys == Below(p.lefts) {
      assert forall l: nat :: l in claims <==> l in claims.Keys;
    }
  }
}
