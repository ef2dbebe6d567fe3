// The residual network of a bipartite matching: which arcs exist, what they cost, which of
// them have capacity left, and what a feasible potential says about the matching.
module ResidualNetwork {
  import opened FiniteSums
  import opened Matchings

  /** `lefts` and `rights` vertices with the cost of every admissible pair.  Node 0 is the
      source, then come the left vertices, the right vertices and the sink. */
  datatype Net = Net(lefts: nat, rights: nat, cost: map<Pair, int>)
  {
    function Size(): nat { lefts + rights + 2 }
    function Sink(): nat { lefts + rights + 1 }
    function Left(l: nat): nat { 1 + l }
    function Right(r: nat): nat { 1 + lefts + r }
    predicate IsLeft(u: nat) { 1 <= u <= lefts }
    predicate IsRight(u: nat) { lefts < u <= lefts + rights }
    ghost predicate Valid() { forall p :: p in cost ==> p.0 < lefts && p.1 < rights }

    /** The pair joined by an arc between a left and a right node. */
    function PairOf(u: nat, v: nat): Pair
      requires (IsLeft(u) && IsRight(v)) || (IsRight(u) && IsLeft(v))
    {
      if IsLeft(u) then (u - 1, v - 1 - lefts) else (v - 1, u - 1 - lefts)
    }

    /** Forward arcs and their reverses. */
    predicate Arc(u: nat, v: nat) {
      || (u == 0 && IsLeft(v))
      || (v == 0 && IsLeft(u))
      || (u == Sink() && IsRight(v))
      || (v == Sink() && IsRight(u))
      || (((IsLeft(u) && IsRight(v)) || (IsRight(u) && IsLeft(v))) && PairOf(u, v) in cost)
    }

    function Cost(u: nat, v: nat): int
      requires Arc(u, v)
    {
      if u == 0 || v == 0 || u == Sink() || v == Sink() then 0
      else if IsLeft(u) then cost[PairOf(u, v)]
      else -cost[PairOf(u, v)]
    }

    /** What flow `f` leaves of the arc. */
    ghost function Capacity(f: Flow, u: nat, v: nat): int
      requires Arc(u, v)
    {
      if u == 0 then (if v - 1 in f.lefts then 0 else 1)
      else if v == 0 then (if u - 1 in f.lefts then 1 else 0)
      else if v == Sink() then (if u - 1 - lefts in f.rights then 0 else 1)
      else if u == Sink() then (if v - 1 - lefts in f.rights then 1 else 0)
      else if IsLeft(u) then (if PairOf(u, v) in f.pairs then 0 else 1)
      else (if PairOf(u, v) in f.pairs then 1 else 0)
    }
  }

  /** The arcs that carry a unit: pairs, source arcs and sink arcs. */
  datatype Flow = Flow(pairs: set<Pair>, lefts: set<nat>, rights: set<nat>)

  /** A conserved flow is a matching together with its end points. */
  ghost predicate Conserved(net: Net, f: Flow) {
    && IsMatching(net.cost.Keys, f.pairs)
    && f.lefts == Lefts(f.pairs) && f.rights == Rights(f.pairs)
  }

  /** No arc with capacity left has negative reduced cost. */
  ghost predicate Feasible(net: Net, f: Flow, pi: seq<int>) {
    && |pi| == net.Size()
    && forall u: nat, v: nat {:trigger net.Arc(u, v)} ::
         net.Arc(u, v) && net.Capacity(f, u, v) > 0 ==> net.Cost(u, v) + pi[u] - pi[v] >= 0
  }

  // ---------------------------------------------------------------------------
  // Optimality from a feasible potential
  // ---------------------------------------------------------------------------

  ghost function PairCost(net: Net): Pair -> int {
    p => if p in net.cost then net.cost[p] else 0
  }

  ghost function TotalCost(net: Net, m: set<Pair>): int { Sum(m, PairCost(net)) }

  ghost function At(pi: seq<int>, i: int): int { if 0 <= i < |pi| then pi[i] else 0 }

  /** Reduced cost of a pair, and the potential drops at its two ends. */
  ghost function ReducedPair(net: Net, pi: seq<int>): Pair -> int {
    p => PairCost(net)(p) + At(pi, net.Left(p.0)) - At(pi, net.Right(p.1))
  }

  ghost function Gap(net: Net, pi: seq<int>): int { At(pi, net.Sink()) - At(pi, 0) }

  ghost function LeftDrop(net: Net, pi: seq<int>): nat -> int { (l: nat) => At(pi, 0) - At(pi, net.Left(l)) }

  ghost function RightRise(net: Net, pi: seq<int>): nat -> int { (r: nat) => At(pi, net.Right(r)) - At(pi, net.Sink()) }

  /** The cost of a matching splits into its reduced cost, the drops at its left vertices, the
      rises at its right vertices and one source-to-sink difference per pair. */
  lemma CostSplits(net: Net, pi: seq<int>, m: set<Pair>)
    requires net.Valid() && IsMatching(net.cost.Keys, m)
    ensures TotalCost(net, m) == Sum(m, ReducedPair(net, pi)) + Sum(Lefts(m), LeftDrop(net, pi))
                                 + Sum(Rights(m), RightRise(net, pi)) + Gap(net, pi) * |m|
  {
    LeftSum(net, m, LeftDrop(net, pi));
    RightSum(net, m, RightRise(net, pi));
    var left, right := Along0(LeftDrop(net, pi)), Along1(RightRise(net, pi));
    forall p | p in m
      ensures PairCost(net)(p) == ReducedPair(net, pi)(p) + left(p) + right(p) + Gap(net, pi)
    {
      PairSplits(net, pi, p);
    }
    SumOfFour(m, PairCost(net), ReducedPair(net, pi), left, right, Gap(net, pi));
  }

  lemma PairSplits(net: Net, pi: seq<int>, p: Pair)
    ensures PairCost(net)(p) == ReducedPair(net, pi)(p) + Along0(LeftDrop(net, pi))(p) + Along1(RightRise(net, pi))(p)
                                + Gap(net, pi)
  {
    assert ReducedPair(net, pi)(p) == PairCost(net)(p) + At(pi, net.Left(p.0)) - At(pi, net.Right(p.1));
    assert LeftDrop(net, pi)(p.0) == At(pi, 0) - At(pi, net.Left(p.0));
    assert RightRise(net, pi)(p.1) == At(pi, net.Right(p.1)) - At(pi, net.Sink());
  }

  ghost function Along0(g: nat -> int): Pair -> int { (p: Pair) => g(p.0) }

  ghost function Along1(g: nat -> int): Pair -> int { (p: Pair) => g(p.1) }

  lemma LeftSum(net: Net, m: set<Pair>, g: nat -> int)
    requires IsMatching(net.cost.Keys, m)
    ensures Sum(m, Along0(g)) == Sum(Lefts(m), g)
  {
    SumReindex(m, (p: Pair) => p.0, Lefts(m), Along0(g), g);
  }

  lemma RightSum(net: Net, m: set<Pair>, g: nat -> int)
    requires IsMatching(net.cost.Keys, m)
    ensures Sum(m, Along1(g)) == Sum(Rights(m), g)
  {
    SumReindex(m, (p: Pair) => p.1, Rights(m), Along1(g), g);
  }

  lemma {:induction false} SumOfFour<T(!new)>(s: set<T>, h: T -> int, f: T -> int, g: T -> int, k: T -> int, c: int)
    requires forall x :: x in s ==> h(x) == f(x) + g(x) + k(x) + c
    ensures Sum(s, h) == Sum(s, f) + Sum(s, g) + Sum(s, k) + c * |s|
    decreases s
  {
    if s != {} {
      var x :| x in s;
      SumRemove(s, h, x);
      SumRemove(s, f, x);
      SumRemove(s, g, x);
      SumRemove(s, k, x);
      SumOfFour(s - {x}, h, f, g, k, c);
      Distribute(c, |s - {x}|);
    }
  }

  /** Complementary slackness holds for a conserved flow, so no matching of the same size
      is cheaper. */
  lemma FeasibleIsOptimal(net: Net, f: Flow, pi: seq<int>, other: set<Pair>)
    requires net.Valid() && Conserved(net, f) && Feasible(net, f, pi)
    requires IsMatching(net.cost.Keys, other) && |other| == |f.pairs|
    ensures TotalCost(net, f.pairs) <= TotalCost(net, other)
  {
    CostSplits(net, pi, f.pairs);
    CostSplits(net, pi, other);
    PairsSlack(net, f, pi, other);
    LeftsSlack(net, f, pi, other);
    RightsSlack(net, f, pi, other);
  }

  lemma PairsSlack(net: Net, f: Flow, pi: seq<int>, other: set<Pair>)
    requires net.Valid() && Conserved(net, f) && Feasible(net, f, pi)
    requires IsMatching(net.cost.Keys, other)
    ensures Sum(f.pairs, ReducedPair(net, pi)) <= Sum(other, ReducedPair(net, pi))
  {
    forall p | p in net.cost
      ensures p in f.pairs ==> ReducedPair(net, pi)(p) <= 0
      ensures p !in f.pairs ==> 0 <= ReducedPair(net, pi)(p)
    {
      var u, v := net.Left(p.0), net.Right(p.1);
      assert net.PairOf(u, v) == p && net.PairOf(v, u) == p;
      assert net.Arc(u, v) && net.Arc(v, u);
      assert net.Cost(u, v) == net.cost[p] && net.Cost(v, u) == -net.cost[p];
      assert At(pi, u) == pi[u] && At(pi, v) == pi[v];
      assert PairCost(net)(p) == net.cost[p];
      assert ReducedPair(net, pi)(p) == net.cost[p] + pi[u] - pi[v];
      assert p in f.pairs ==> net.Capacity(f, v, u) == 1;
      assert p !in f.pairs ==> net.Capacity(f, u, v) == 1;
    }
    SumLeast(f.pairs, other, ReducedPair(net, pi));
  }

  lemma LeftsSlack(net: Net, f: Flow, pi: seq<int>, other: set<Pair>)
    requires net.Valid() && Conserved(net, f) && Feasible(net, f, pi)
    requires IsMatching(net.cost.Keys, other)
    ensures Sum(Lefts(f.pairs), LeftDrop(net, pi)) <= Sum(Lefts(other), LeftDrop(net, pi))
  {
    forall l: nat | l < net.lefts
      ensures l in f.lefts ==> LeftDrop(net, pi)(l) <= 0
      ensures l !in f.lefts ==> 0 <= LeftDrop(net, pi)(l)
    {
      assert net.Arc(0, net.Left(l)) && net.Arc(net.Left(l), 0);
    }
    SumLeast(Lefts(f.pairs), Lefts(other), LeftDrop(net, pi));
  }

  lemma RightsSlack(net: Net, f: Flow, pi: seq<int>, other: set<Pair>)
    requires net.Valid() && Conserved(net, f) && Feasible(net, f, pi)
    requires IsMatching(net.cost.Keys, other)
    ensures Sum(Rights(f.pairs), RightRise(net, pi)) <= Sum(Rights(other), RightRise(net, pi))
  {
    forall r: nat | r < net.rights
      ensures r in f.rights ==> RightRise(net, pi)(r) <= 0
      ensures r !in f.rights ==> 0 <= RightRise(net, pi)(r)
    {
      assert net.Arc(net.Right(r), net.Sink()) && net.Arc(net.Sink(), net.Right(r));
    }
    SumLeast(Rights(f.pairs), Rights(other), RightRise(net, pi));
  }

  // ---------------------------------------------------------------------------
  // Maximality from a cut
  // ---------------------------------------------------------------------------

  /** `live` is entered by the source and left by no arc with capacity. */
  ghost predicate Closed(net: Net, f: Flow, live: set<nat>) {
    && 0 in live && (forall v :: v in live ==> v < net.Size())
    && forall u: nat, v: nat {:trigger net.Arc(u, v)} ::
         net.Arc(u, v) && u in live && net.Capacity(f, u, v) > 0 ==> v in live
  }

  /** When the sink cannot be reached, the matching is maximum. */
  lemma CutIsMaximum(net: Net, f: Flow, live: set<nat>)
    requires net.Valid() && Conserved(net, f) && Closed(net, f, live) && net.Sink() !in live
    ensures Maximum(net.cost.Keys, f.pairs)
  {
    var z := set l: nat | l < net.lefts && net.Left(l) in live;
    forall e | e in net.cost && e.0 !in z ensures exists p :: p in f.pairs && p.0 == e.0 {
      assert net.Arc(0, net.Left(e.0));
      assert e.0 in f.lefts;
    }
    forall e | e in net.cost && e.0 in z ensures exists p :: p in f.pairs && p.1 == e.1 && p.0 in z {
      if e !in f.pairs {
        assert net.Arc(net.Left(e.0), net.Right(e.1)) && net.PairOf(net.Left(e.0), net.Right(e.1)) == e;
        assert net.Arc(net.Right(e.1), net.Sink());
        assert e.1 in f.rights;
        var p :| p in f.pairs && p.1 == e.1;
        assert net.Arc(net.Right(e.1), net.Left(p.0)) && net.PairOf(net.Right(e.1), net.Left(p.0)) == p;
      }
    }
    ClosedIsMaximum(net.cost.Keys, f.pairs, z);
  }
}
