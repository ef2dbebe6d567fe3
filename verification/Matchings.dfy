// Bipartite matchings as finite sets of (left, right) pairs, and the certificate
// of maximality that both matching algorithms end with.
module Matchings {
  import opened FiniteSums
  import opened Sequences

  type Pair = (nat, nat)

  /** The edge set of an adjacency list. */
  ghost function Edges(adjacency: seq<seq<nat>>): set<Pair> {
    set l: nat, j: nat | l < |adjacency| && j < |adjacency[l]| :: (l, adjacency[l][j])
  }

  /** Pairs taken from `edges` in which no left and no right vertex occurs twice. */
  ghost predicate IsMatching<A, B>(edges: set<(A, B)>, m: set<(A, B)>) {
    && m <= edges
    && forall p, q :: p in m && q in m && (p.0 == q.0 || p.1 == q.1) ==> p == q
  }

  ghost function Lefts<A, B>(m: set<(A, B)>): set<A> { set p | p in m :: p.0 }

  ghost function Rights<A, B>(m: set<(A, B)>): set<B> { set p | p in m :: p.1 }

  ghost predicate Maximum(edges: set<Pair>, m: set<Pair>) {
    && IsMatching(edges, m)
    && forall other :: IsMatching(edges, other) ==> |other| <= |m|
  }

  /** `z` is closed under alternating search from `m`: every left vertex outside `z`
      is matched, and every neighbour of `z` is matched back into `z`. */
  ghost predicate AlternatingClosed(edges: set<Pair>, m: set<Pair>, z: set<nat>) {
    && (forall e :: e in edges && e.0 !in z ==> exists p :: p in m && p.0 == e.0)
    && (forall e :: e in edges && e.0 in z ==> exists p :: p in m && p.1 == e.1 && p.0 in z)
  }

  /** Koenig's argument: the closed set yields a vertex cover with one vertex per
      matched pair, so no matching is larger. */
  lemma ClosedIsMaximum(edges: set<Pair>, m: set<Pair>, z: set<nat>)
    requires IsMatching(edges, m) && AlternatingClosed(edges, m, z)
    ensures Maximum(edges, m)
  {
    forall other | IsMatching(edges, other) ensures |other| <= |m| {
      var cover := map e | e in other :: CoverPair(edges, m, z, e);
      InjectionCard(other, m, cover);
    }
  }

  /** The matched pair that owns the cover vertex of edge `e`. */
  ghost function CoverPair(edges: set<Pair>, m: set<Pair>, z: set<nat>, e: Pair): (p: Pair)
    requires AlternatingClosed(edges, m, z) && e in edges
    ensures p in m
    ensures if e.0 in z then p.1 == e.1 && p.0 in z else p.0 == e.0
  {
    if e.0 in z then
      var p :| p in m && p.1 == e.1 && p.0 in z; p
    else
      var p :| p in m && p.0 == e.0; p
  }

  lemma WithoutPair<A, B>(edges: set<(A, B)>, m: set<(A, B)>, d: (A, B))
    requires IsMatching(edges, m) && d in m
    ensures IsMatching(edges, m - {d})
    ensures Lefts(m - {d}) == Lefts(m) - {d.0} && Rights(m - {d}) == Rights(m) - {d.1}
  {
    assert forall p :: p in m && (p.0 == d.0 || p.1 == d.1) ==> p == d;
  }

  lemma WithPair<A, B>(edges: set<(A, B)>, m: set<(A, B)>, e: (A, B))
    requires IsMatching(edges, m) && e in edges && e.0 !in Lefts(m) && e.1 !in Rights(m)
    ensures IsMatching(edges, m + {e})
    ensures Lefts(m + {e}) == Lefts(m) + {e.0} && Rights(m + {e}) == Rights(m) + {e.1}
  {
  }

  // ---------------------------------------------------------------------------
  // Matchings over list positions
  // ---------------------------------------------------------------------------

  /** Positions replaced by the elements at them, and back. */
  ghost function Lift<A, B>(a: seq<A>, b: seq<B>, m: set<Pair>): set<(A, B)> {
    set p | p in m && p.0 < |a| && p.1 < |b| :: (a[p.0], b[p.1])
  }

  ghost function Lower<A, B>(a: seq<A>, b: seq<B>, m: set<(A, B)>): set<Pair> {
    set i: nat, j: nat | i < |a| && j < |b| && (a[i], b[j]) in m :: (i, j)
  }

  /** `positions` are the positions of the admissible pairs of elements of `a` and `b`. */
  ghost predicate Positions<A, B>(a: seq<A>, b: seq<B>, edges: set<(A, B)>, positions: set<Pair>) {
    && Distinct(a) && Distinct(b)
    && forall i: nat, j: nat :: (i, j) in positions <==> i < |a| && j < |b| && (a[i], b[j]) in edges
  }

  ghost function IndexOf<A>(s: seq<A>, x: A): (i: nat)
    requires x in s
    ensures i < |s| && s[i] == x
  {
    var i: nat :| i < |s| && s[i] == x; i
  }

  ghost predicate Within<A, B>(a: seq<A>, b: seq<B>, m: set<(A, B)>) {
    forall e :: e in m ==> e.0 in a && e.1 in b
  }

  ghost predicate InRange<A, B>(a: seq<A>, b: seq<B>, m: set<Pair>) {
    forall p :: p in m ==> p.0 < |a| && p.1 < |b|
  }

  lemma LiftLower<A, B>(a: seq<A>, b: seq<B>, m: set<(A, B)>)
    requires Within(a, b, m)
    ensures Lift(a, b, Lower(a, b, m)) == m
  {
    forall e | e in m ensures e in Lift(a, b, Lower(a, b, m)) {
      var p := (IndexOf(a, e.0), IndexOf(b, e.1));
      assert (a[p.0], b[p.1]) == e;
      assert p in Lower(a, b, m);
    }
  }

  lemma LiftCard<A, B>(a: seq<A>, b: seq<B>, m: set<Pair>)
    requires Distinct(a) && Distinct(b) && InRange(a, b, m)
    ensures |Lift(a, b, m)| == |m|
  {
    InjectionCard(m, Lift(a, b, m), map p | p in m :: (a[p.0], b[p.1]));
    InjectionCard(Lift(a, b, m), m, map e | e in Lift(a, b, m) :: (IndexOf(a, e.0), IndexOf(b, e.1)));
  }

  /** Positions of a matching form a matching of the same size, and conversely. */
  lemma LiftMatching<A, B>(a: seq<A>, b: seq<B>, edges: set<(A, B)>, positions: set<Pair>, m: set<Pair>)
    requires Positions(a, b, edges, positions) && IsMatching(positions, m)
    ensures InRange(a, b, m) && Within(a, b, Lift(a, b, m))
    ensures IsMatching(edges, Lift(a, b, m)) && |Lift(a, b, m)| == |m|
  {
    forall p | p in m ensures p.0 < |a| && p.1 < |b| && (a[p.0], b[p.1]) in edges {
      assert (p.0, p.1) in positions;
    }
    LiftCard(a, b, m);
  }

  lemma LowerMatching<A, B>(a: seq<A>, b: seq<B>, edges: set<(A, B)>, positions: set<Pair>, m: set<(A, B)>)
    requires Positions(a, b, edges, positions) && IsMatching(edges, m) && Within(a, b, m)
    ensures IsMatching(positions, Lower(a, b, m)) && |Lower(a, b, m)| == |m| && Lift(a, b, Lower(a, b, m)) == m
  {
    LiftLower(a, b, m);
    LiftCard(a, b, Lower(a, b, m));
  }

  lemma LiftRemove<A, B>(a: seq<A>, b: seq<B>, m: set<Pair>, p: Pair, e: (A, B))
    requires Distinct(a) && Distinct(b) && InRange(a, b, m)
    requires p in m && e == (a[p.0], b[p.1])
    ensures e in Lift(a, b, m) && Lift(a, b, m) - {e} == Lift(a, b, m - {p})
  {
  }

  lemma {:induction false} SumLift<A(!new), B(!new)>(a: seq<A>, b: seq<B>, m: set<Pair>,
                                                           f: ((A, B)) -> int, g: Pair -> int)
    requires Distinct(a) && Distinct(b) && InRange(a, b, m)
    requires forall p :: p in m ==> g(p) == f((a[p.0], b[p.1]))
    ensures Sum(Lift(a, b, m), f) == Sum(m, g)
    decreases m
  {
    if m == {} {
      assert Lift(a, b, m) == {};
    } else {
      var p :| p in m;
      var e := (a[p.0], b[p.1]);
      SumRemove(m, g, p);
      LiftRemove(a, b, m, p, e);
      SumRemove(Lift(a, b, m), f, e);
      SumLift(a, b, m - {p}, f, g);
    }
  }
}
