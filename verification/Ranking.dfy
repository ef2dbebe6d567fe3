// Ranks with ties averaged, and the rank correlation computed from them.
module Ranking {
  import opened Sequences
  import opened Wrappers

  // ---------------------------------------------------------------------------
  // What a rank is
  // ---------------------------------------------------------------------------

  /** How far a value pushes another one up: a smaller one by a place, an equal one by half. */
  ghost function Weight(other: real, value: real): real {
    if other < value then 1.0 else if other == value then 0.5 else 0.0
  }

  ghost function Position(values: seq<real>, value: real): real {
    if values == [] then 0.0 else Position(values[..|values| - 1], value) + Weight(values[|values| - 1], value)
  }

  /** Half a place plus a place for every smaller value and half a place for every equal one: the
      average of the places that the values equal to this one take. */
  ghost function RankOf(values: seq<real>, i: nat): real
    requires i < |values|
  {
    Position(values, values[i]) + 0.5
  }

  ghost predicate AreRanks(values: seq<real>, ranks: seq<real>) {
    |ranks| == |values| && forall i | 0 <= i < |values| :: ranks[i] == RankOf(values, i)
  }

  lemma {:induction false} PositionAppend(a: seq<real>, b: seq<real>, value: real)
    ensures Position(a + b, value) == Position(a, value) + Position(b, value)
    decreases |b|
  {
    if b == [] {
      assert a + b == a;
    } else {
      var last := |b| - 1;
      PositionAppend(a, b[..last], value);
      assert (a + b)[..|a + b| - 1] == a + b[..last];
    }
  }

  lemma {:induction false} PositionSorted(sorted: seq<real>, value: real, from: nat, to: nat)
    requires from <= to <= |sorted|
    requires forall p | 0 <= p < |sorted| ::
               if p < from then sorted[p] < value else if p < to then sorted[p] == value else sorted[p] > value
    ensures Position(sorted, value) == from as real + (to - from) as real / 2.0
    decreases |sorted|
  {
    if sorted != [] {
      var last := |sorted| - 1;
      PositionSorted(sorted[..last], value, if from > last then last else from, if to > last then last else to);
    }
  }

  // ---------------------------------------------------------------------------
  // Sorting
  // ---------------------------------------------------------------------------

  function Values(values: seq<real>, order: seq<nat>): seq<real>
    requires forall p | 0 <= p < |order| :: order[p] < |values|
  {
    seq(|order|, p requires 0 <= p < |order| => values[order[p]])
  }

  /** The first `n` positions in the order of their values, earlier ones first among equals. */
  ghost predicate Sorts(values: seq<real>, order: seq<nat>, n: nat) {
    && n <= |values| && |order| == n && (forall p | 0 <= p < n :: order[p] < n)
    && (forall i: nat | i < n :: i in order)
    && (forall p, q | 0 <= p < q < n ::
        values[order[p]] < values[order[q]] || (values[order[p]] == values[order[q]] && order[p] < order[q]))
  }

  method SortedOrder(values: seq<real>) returns (order: seq<nat>)
    ensures Sorts(values, order, |values|) && SamePositions(values, order, |values|)
  {
    order := [];
    for i := 0 to |values|
      invariant Sorts(values, order, i)
      invariant SamePositions(values, order, i)
    {
      var k := i;
      while k > 0 && values[order[k - 1]] > values[i]
        invariant 0 <= k <= i
        invariant forall p | k <= p < i :: values[order[p]] > values[i]
      {
        k := k - 1;
      }
      InsertSorts(values, order, i, k);
      InsertSamePositions(values, order, i, k);
      order := order[..k] + [i] + order[k..];
    }
  }

  lemma InsertKeeps(order: seq<nat>, i: nat, k: nat, j: nat)
    requires k <= |order|
    ensures j in order[..k] + [i] + order[k..] <==> j in order || j == i
  {
    var longer := order[..k] + [i] + order[k..];
    if j in order {
      var p :| 0 <= p < |order| && order[p] == j;
      assert longer[if p < k then p else p + 1] == j;
    } else if j == i {
      assert longer[k] == i;
    }
  }

  /** Reordering the values changes no position. */
  ghost predicate SamePositions(values: seq<real>, order: seq<nat>, n: nat)
    requires n <= |values| && forall p | 0 <= p < |order| :: order[p] < |values|
  {
    forall value :: Position(Values(values, order), value) == Position(values[..n], value)
  }

  lemma InsertSamePositions(values: seq<real>, order: seq<nat>, i: nat, k: nat)
    requires |order| == i < |values| && k <= i
             && (forall p | 0 <= p < i :: order[p] < |values|) && SamePositions(values, order, i)
    ensures forall p | 0 <= p < i + 1 :: (order[..k] + [i] + order[k..])[p] < |values|
    ensures SamePositions(values, order[..k] + [i] + order[k..], i + 1)
  {
    var longer := order[..k] + [i] + order[k..];
    forall value ensures Position(Values(values, longer), value) == Position(values[..i + 1], value) {
      InsertPosition(values, order, i, k, value);
      assert values[..i + 1][..i] == values[..i];
    }
  }

  lemma InsertSorts(values: seq<real>, order: seq<nat>, i: nat, k: nat)
    requires Sorts(values, order, i) && i < |values| && k <= i
    requires forall p | k <= p < i :: values[order[p]] > values[i]
    requires k > 0 ==> values[order[k - 1]] <= values[i]
    ensures Sorts(values, order[..k] + [i] + order[k..], i + 1)
  {
    var longer := order[..k] + [i] + order[k..];
    forall p | 0 <= p < k ensures values[order[p]] <= values[i] {
      assert p < k - 1 ==> values[order[p]] <= values[order[k - 1]];
    }
    forall p, q | 0 <= p < q < i + 1
      ensures values[longer[p]] < values[longer[q]] || (values[longer[p]] == values[longer[q]] && longer[p] < longer[q])
    {
      var p', q' := if p > k then p - 1 else p, if q > k then q - 1 else q;
      assert longer[p] == (if p == k then i else order[p']) && longer[q] == (if q == k then i else order[q']);
    }
    forall j: nat | j < i + 1 ensures j in longer {
      InsertKeeps(order, i, k, j);
    }
  }

  lemma InsertPosition(values: seq<real>, order: seq<nat>, i: nat, k: nat, value: real)
    requires |order| == i < |values| && k <= i && forall p | 0 <= p < i :: order[p] < |values|
    ensures Position(Values(values, order[..k] + [i] + order[k..]), value)
            == Position(Values(values, order), value) + Weight(values[i], value)
  {
    var low, high := Values(values, order[..k]), Values(values, order[k..]);
    assert Values(values, order) == low + high;
    assert Values(values, order[..k] + [i] + order[k..]) == low + [values[i]] + high;
    PositionAppend(low, high, value);
    PositionAppend(low + [values[i]], high, value);
    PositionAppend(low, [values[i]], value);
    assert Position([values[i]], value) == Weight(values[i], value) by {
      assert [values[i]][..0] == [];
    }
  }

  // ---------------------------------------------------------------------------
  // Ranking
  // ---------------------------------------------------------------------------

  /** The average of the places a run of equal values takes is the rank of each of them. */
  lemma RunRank(values: seq<real>, order: seq<nat>, cursor: nat, end: nat)
    requires Sorts(values, order, |values|) && SamePositions(values, order, |values|)
    requires cursor < end <= |values|
    requires cursor > 0 ==> values[order[cursor - 1]] < values[order[cursor]]
    requires forall p | cursor <= p < end :: values[order[p]] == values[order[cursor]]
    requires end < |values| ==> values[order[end]] != values[order[cursor]]
    ensures forall p | cursor <= p < end :: RankOf(values, order[p]) == (cursor + 1 + end) as real / 2.0
  {
    var sorted, value := Values(values, order), values[order[cursor]];
    forall p | 0 <= p < |sorted|
      ensures if p < cursor then sorted[p] < value else if p < end then sorted[p] == value else sorted[p] > value
    {
      if p < cursor {
        assert p < cursor - 1 ==> values[order[p]] <= values[order[cursor - 1]];
      } else if p >= end {
        assert values[order[cursor]] <= values[order[end]];
        assert p > end ==> values[order[end]] <= values[order[p]];
      }
    }
    PositionSorted(sorted, value, cursor, end);
    assert values[..|values|] == values;
    assert Position(values, value) == cursor as real + (end - cursor) as real / 2.0;
  }

  method Rank(values: seq<real>) returns (result: seq<real>)
    ensures AreRanks(values, result)
  {
    var order := SortedOrder(values);
    var ranks := new real[|values|](_ => 0.0);
    var cursor: nat := 0;
    while cursor < |order|
      invariant cursor <= |order|
      invariant 0 < cursor < |order| ==> values[order[cursor - 1]] < values[order[cursor]]
      invariant forall p | 0 <= p < cursor :: ranks[order[p]] == RankOf(values, order[p])
    {
      var end := cursor + 1;
      while end < |order| && values[order[end]] == values[order[cursor]]
        invariant cursor < end <= |order|
        invariant forall p | cursor <= p < end :: values[order[p]] == values[order[cursor]]
      {
        end := end + 1;
      }
      RunRank(values, order, cursor, end);
      var average := (cursor + 1 + end) as real / 2.0;
      for position := cursor to end
        invariant forall p | 0 <= p < position :: ranks[order[p]] == RankOf(values, order[p])
      {
        ranks[order[position]] := average;
      }
      cursor := end;
    }
    forall i | 0 <= i < |values| ensures ranks[i] == RankOf(values, i) {
      assert i in order;
    }
    result := ranks[..];
  }

  // ---------------------------------------------------------------------------
  // Properties of ranks
  // ---------------------------------------------------------------------------

  lemma {:induction false} PositionOrder(values: seq<real>, a: real, b: real)
    ensures a < b ==> Position(values, a) <= Position(values, b)
    ensures a < b && (a in values || b in values) ==> Position(values, a) < Position(values, b)
  {
    if values != [] {
      var last := |values| - 1;
      PositionOrder(values[..last], a, b);
      SplitLast(values);
    }
  }

  /** Ranks keep the order of the values: equal exactly for equal values, and smaller for smaller ones. */
  lemma RanksKeepOrder(values: seq<real>, ranks: seq<real>, i: nat, j: nat)
    requires AreRanks(values, ranks) && i < |values| && j < |values|
    ensures ranks[i] == ranks[j] <==> values[i] == values[j]
    ensures ranks[i] < ranks[j] <==> values[i] < values[j]
  {
    PositionOrder(values, values[i], values[j]);
    PositionOrder(values, values[j], values[i]);
  }

  function Sum(xs: seq<real>): real {
    if xs == [] then 0.0 else Sum(xs[..|xs| - 1]) + xs[|xs| - 1]
  }

  /** The positions of some values among all of them. */
  ghost function Positions(values: seq<real>, some: seq<real>): real {
    if some == [] then 0.0 else Positions(values, some[..|some| - 1]) + Position(values, some[|some| - 1])
  }

  /** One more value and those there before push each other up by one place altogether. */
  lemma {:induction false} PositionsGrow(values: seq<real>, some: seq<real>, value: real)
    ensures Positions(values + [value], some) + Position(some, value) == Positions(values, some) + |some| as real
    decreases |some|
  {
    if some != [] {
      var last := |some| - 1;
      PositionsGrow(values, some[..last], value);
      assert (values + [value])[..|values|] == values;
    }
  }

  lemma {:induction false} PositionsTotal(values: seq<real>)
    ensures Positions(values, values) == |values| as real * |values| as real / 2.0
  {
    if values != [] {
      var last := |values| - 1;
      var before, value := values[..last], values[last];
      PositionsTotal(before);
      SplitLast(values);
      PositionsGrow(before, before, value);
      assert Position(values, value) == Position(before, value) + 0.5;
      Square(last as real);
    }
  }

  lemma Square(n: real)
    ensures (n + 1.0) * (n + 1.0) / 2.0 == n * n / 2.0 + n + 0.5
  {
  }

  lemma {:induction false} RanksSum(values: seq<real>, ranks: seq<real>, n: nat)
    requires AreRanks(values, ranks) && n <= |values|
    ensures Sum(ranks[..n]) == Positions(values, values[..n]) + n as real / 2.0
  {
    if n > 0 {
      RanksSum(values, ranks, n - 1);
      assert ranks[..n][..n - 1] == ranks[..n - 1] && values[..n][..n - 1] == values[..n - 1];
    }
  }

  /** Whatever the ties, the ranks add up to the sum of the places. */
  lemma RankSumConserved(values: seq<real>, ranks: seq<real>)
    requires AreRanks(values, ranks)
    ensures Sum(ranks) == |values| as real * (|values| + 1) as real / 2.0
  {
    RanksSum(values, ranks, |values|);
    assert ranks[..|values|] == ranks && values[..|values|] == values;
    PositionsTotal(values);
  }

  // ---------------------------------------------------------------------------
  // Correlation
  // ---------------------------------------------------------------------------

  /** The correlation `numerator / sqrt(leftNorm * rightNorm)`. */
  datatype Correlation = Correlation(numerator: real, leftNorm: real, rightNorm: real)

  function Mean(xs: seq<real>): real
    requires xs != []
  {
    Sum(xs) / |xs| as real
  }

  function Products(xs: seq<real>, ys: seq<real>, xMean: real, yMean: real): real
    requires |xs| == |ys|
  {
    if xs == [] then 0.0
    else Products(xs[..|xs| - 1], ys[..|ys| - 1], xMean, yMean) + Times(xs[|xs| - 1] - xMean, ys[|ys| - 1] - yMean)
  }

  function Times(a: real, b: real): real { a * b }

  function Correlate(xs: seq<real>, ys: seq<real>): Correlation
    requires |xs| == |ys| > 0
  {
    var x, y := Mean(xs), Mean(ys);
    Correlation(Products(xs, ys, x, y), Products(xs, xs, x, x), Products(ys, ys, y, y))
  }

  ghost function RanksOf(values: seq<real>): seq<real> {
    seq(|values|, i requires 0 <= i < |values| => RankOf(values, i))
  }

  ghost predicate Constant(xs: seq<real>) { forall i, j | 0 <= i < |xs| && 0 <= j < |xs| :: xs[i] == xs[j] }

  lemma SquareSign(a: real)
    ensures Times(a, a) >= 0.0 && (a != 0.0 ==> Times(a, a) > 0.0)
  {
    if a > 0.0 {
      PositiveProduct(a, a, Times(a, a));
    } else if a < 0.0 {
      PositiveProduct(-a, -a, Times(a, a));
    }
  }

  lemma PositiveProduct(a: real, b: real, product: real)
    requires a > 0.0 && b > 0.0 && product == a * b
    ensures product > 0.0
  {
  }

  lemma {:induction false} NormSign(xs: seq<real>, mean: real)
    ensures Products(xs, xs, mean, mean) >= 0.0
    ensures forall i | 0 <= i < |xs| :: xs[i] != mean ==> Products(xs, xs, mean, mean) > 0.0
  {
    if xs != [] {
      var last := |xs| - 1;
      NormSign(xs[..last], mean);
      SquareSign(xs[last] - mean);
      forall i | 0 <= i < |xs| && xs[i] != mean ensures Products(xs, xs, mean, mean) > 0.0 {
        assert i < last ==> xs[..last][i] != mean;
      }
    }
  }

  lemma {:induction false} ConstantSum(xs: seq<real>, value: real)
    requires forall i | 0 <= i < |xs| :: xs[i] == value
    ensures Sum(xs) == |xs| as real * value
  {
    if xs != [] {
      ConstantSum(xs[..|xs| - 1], value);
      OneMore((|xs| - 1) as real, value);
    }
  }

  lemma OneMore(n: real, value: real)
    ensures n * value + value == (n + 1.0) * value
  {
  }

  lemma OneMean(n: real, value: real)
    requires n > 0.0
    ensures n * value / n == value
  {
  }

  lemma NormZeroIffConstant(xs: seq<real>)
    requires xs != []
    ensures Products(xs, xs, Mean(xs), Mean(xs)) == 0.0 <==> Constant(xs)
  {
    NormSign(xs, Mean(xs));
    if Constant(xs) {
      ConstantSum(xs, xs[0]);
      OneMean(|xs| as real, xs[0]);
      ZeroProducts(xs, xs, Mean(xs), Mean(xs));
    } else {
      var i, j :| 0 <= i < |xs| && 0 <= j < |xs| && xs[i] != xs[j];
      assert xs[i] != Mean(xs) || xs[j] != Mean(xs);
    }
  }

  lemma ConstantRanks(values: seq<real>)
    ensures Constant(RanksOf(values)) <==> Constant(values)
  {
    var ranks := RanksOf(values);
    forall i, j | 0 <= i < |values| && 0 <= j < |values| ensures ranks[i] == ranks[j] <==> values[i] == values[j] {
      RanksKeepOrder(values, ranks, i, j);
    }
  }

  /** The correlation of the ranks; there is none for fewer than two values or for constant ones. */
  method Spearman(left: seq<real>, right: seq<real>) returns (correlation: Option<Correlation>)
    ensures correlation.None? <==> |left| != |right| || |left| < 2 || Constant(left) || Constant(right)
    ensures correlation.Some? ==> correlation.value == Correlate(RanksOf(left), RanksOf(right))
  {
    if |left| != |right| || |left| < 2 {
      return None;
    }
    var leftRank := Rank(left);
    var rightRank := Rank(right);
    assert leftRank == RanksOf(left) && rightRank == RanksOf(right);
    var result := Correlate(leftRank, rightRank);
    NormZeroIffConstant(leftRank);
    NormZeroIffConstant(rightRank);
    ConstantRanks(left);
    ConstantRanks(right);
    correlation := if result.leftNorm == 0.0 || result.rightNorm == 0.0 then None else Some(result);
  }

  // ---------------------------------------------------------------------------
  // What the correlation computes
  // ---------------------------------------------------------------------------

  /** The sum of the products. */
  ghost function Dot(xs: seq<real>, ys: seq<real>): real
    requires |xs| == |ys|
  {
    if xs == [] then 0.0 else Dot(xs[..|xs| - 1], ys[..|ys| - 1]) + Times(xs[|xs| - 1], ys[|ys| - 1])
  }

  lemma NextProduct(p: real, d: real, s: real, t: real, n: real, a: real, b: real, x: real, y: real)
    requires p == d - Times(y, s) - Times(x, t) + Times(n, Times(x, y))
    ensures p + Times(a - x, b - y) ==
            d + Times(a, b) - Times(y, s + a) - Times(x, t + b) + Times(n + 1.0, Times(x, y))
  {
    assert Times(a - x, b - y) == a * b - a * y - x * b + x * y;
    assert Times(y, s + a) == y * s + y * a && Times(x, t + b) == x * t + x * b;
    assert Times(n + 1.0, Times(x, y)) == n * (x * y) + x * y;
  }

  lemma {:induction false} ProductsExpanded(xs: seq<real>, ys: seq<real>, x: real, y: real)
    requires |xs| == |ys|
    ensures Products(xs, ys, x, y) ==
            Dot(xs, ys) - Times(y, Sum(xs)) - Times(x, Sum(ys)) + Times(|xs| as real, Times(x, y))
  {
    if xs != [] {
      var last := |xs| - 1;
      ProductsExpanded(xs[..last], ys[..last], x, y);
      NextProduct(Products(xs[..last], ys[..last], x, y), Dot(xs[..last], ys[..last]), Sum(xs[..last]), Sum(ys[..last]),
                  last as real, xs[last], ys[last], x, y);
    }
  }

  lemma MeansOut(n: real, p: real, d: real, s: real, t: real, x: real, y: real)
    requires n * x == s && n * y == t && p == d - Times(y, s) - Times(x, t) + Times(n, Times(x, y))
    ensures Times(n, p) == Times(n, d) - Times(s, t)
  {
    assert n * Times(y, s) == t * s && n * Times(x, t) == s * t;
    assert n * Times(n, Times(x, y)) == (n * x) * (n * y) == s * t;
    assert n * p == n * d - n * Times(y, s) - n * Times(x, t) + n * Times(n, Times(x, y));
  }

  lemma ProductsAtMeans(xs: seq<real>, ys: seq<real>)
    requires |xs| == |ys| > 0
    ensures Times(|xs| as real, Products(xs, ys, Mean(xs), Mean(ys))) ==
            Times(|xs| as real, Dot(xs, ys)) - Times(Sum(xs), Sum(ys))
  {
    var n, x, y := |xs| as real, Mean(xs), Mean(ys);
    ProductsExpanded(xs, ys, x, y);
    Undo(Sum(xs), n);
    Undo(Sum(ys), n);
    MeansOut(n, Products(xs, ys, x, y), Dot(xs, ys), Sum(xs), Sum(ys), x, y);
  }

  /** The n-fold numerator and norms without the means: n times the sum of products less the product of sums. */
  lemma CorrelationMeans(xs: seq<real>, ys: seq<real>)
    requires |xs| == |ys| > 0
    ensures var c, n := Correlate(xs, ys), |xs| as real;
            && Times(n, c.numerator) == Times(n, Dot(xs, ys)) - Times(Sum(xs), Sum(ys))
            && Times(n, c.leftNorm) == Times(n, Dot(xs, xs)) - Times(Sum(xs), Sum(xs))
            && Times(n, c.rightNorm) == Times(n, Dot(ys, ys)) - Times(Sum(ys), Sum(ys))
  {
    ProductsAtMeans(xs, ys);
    ProductsAtMeans(xs, xs);
    ProductsAtMeans(ys, ys);
  }

  // ---------------------------------------------------------------------------
  // Properties of the correlation
  // ---------------------------------------------------------------------------

  lemma Expand(a: real, b: real, x: real, y: real)
    ensures a * a * Times(y, y) - 2.0 * (a * b) * Times(x, y) + b * b * Times(x, x) >= 0.0
  {
    var d := a * y - b * x;
    SquareSign(d);
    assert Times(d, d) == d * d == a * a * (y * y) - 2.0 * (a * b) * (x * y) + b * b * (x * x);
  }

  lemma {:induction false} Discriminant(xs: seq<real>, ys: seq<real>, x: real, y: real, a: real, b: real)
    requires |xs| == |ys|
    ensures a * a * Products(ys, ys, y, y) - 2.0 * (a * b) * Products(xs, ys, x, y)
              + b * b * Products(xs, xs, x, x) >= 0.0
  {
    if xs != [] {
      var last := |xs| - 1;
      Discriminant(xs[..last], ys[..last], x, y, a, b);
      Expand(a, b, xs[last] - x, ys[last] - y);
      Distribute(a * a, Products(ys[..last], ys[..last], y, y), Times(ys[last] - y, ys[last] - y));
      Distribute(2.0 * (a * b), Products(xs[..last], ys[..last], x, y), Times(xs[last] - x, ys[last] - y));
      Distribute(b * b, Products(xs[..last], xs[..last], x, x), Times(xs[last] - x, xs[last] - x));
    }
  }

  lemma DiscriminantAt(xs: seq<real>, ys: seq<real>, x: real, y: real, l: real, r: real, n: real)
    requires |xs| == |ys| && l == Products(xs, xs, x, x) && r == Products(ys, ys, y, y) && n == Products(xs, ys, x, y)
    ensures l * l * r - 2.0 * (l * n) * n + n * n * l >= 0.0
  {
    Discriminant(xs, ys, x, y, l, n);
  }

  lemma Distribute(a: real, b: real, c: real)
    ensures a * (b + c) == a * b + a * c
  {
  }

  lemma CancelPositive(l: real, r: real, n: real)
    requires l > 0.0 && l * l * r - 2.0 * (l * n) * n + n * n * l >= 0.0
    ensures Times(n, n) <= Times(l, r)
  {
    assert l * l * r - 2.0 * (l * n) * n + n * n * l == l * (l * r - n * n);
    if l * r < n * n {
      PositiveProduct(l, n * n - l * r, l * (n * n - l * r));
    }
  }

  ghost predicate Bounded(c: Correlation) { Times(c.numerator, c.numerator) <= Times(c.leftNorm, c.rightNorm) }

  /** The correlation lies between -1 and 1. */
  lemma CorrelationBounded(xs: seq<real>, ys: seq<real>)
    requires |xs| == |ys| > 0
    ensures Bounded(Correlate(xs, ys))
  {
    var c := Correlate(xs, ys);
    ProductsBounded(xs, ys, Mean(xs), Mean(ys), c.leftNorm, c.rightNorm, c.numerator);
  }

  lemma ProductsBounded(xs: seq<real>, ys: seq<real>, x: real, y: real, l: real, r: real, n: real)
    requires |xs| == |ys| && l == Products(xs, xs, x, x) && r == Products(ys, ys, y, y) && n == Products(xs, ys, x, y)
    ensures Times(n, n) <= Times(l, r)
  {
    NormSign(xs, x);
    if l == 0.0 {
      ZeroProducts(xs, ys, x, y);
      ZeroTimes(n, l, r);
    } else {
      DiscriminantAt(xs, ys, x, y, l, r, n);
      CancelPositive(l, r, n);
    }
  }

  lemma ZeroTimes(n: real, l: real, r: real)
    requires n == 0.0 && l == 0.0
    ensures Times(n, n) <= Times(l, r)
  {
  }

  lemma {:induction false} ZeroProducts(xs: seq<real>, ys: seq<real>, x: real, y: real)
    requires |xs| == |ys| && forall i | 0 <= i < |xs| :: xs[i] == x
    ensures Products(xs, ys, x, y) == 0.0
  {
    if xs != [] {
      ZeroProducts(xs[..|xs| - 1], ys[..|ys| - 1], x, y);
    }
  }

  ghost predicate SameOrder(a: seq<real>, b: seq<real>) {
    |a| == |b| && forall i, j | 0 <= i < |a| && 0 <= j < |a| :: a[i] < a[j] <==> b[i] < b[j]
  }

  ghost predicate OppositeOrder(a: seq<real>, b: seq<real>) {
    |a| == |b| && forall i, j | 0 <= i < |a| && 0 <= j < |a| :: a[i] < a[j] <==> b[j] < b[i]
  }

  lemma {:induction false} SamePosition(a: seq<real>, b: seq<real>, i: nat, n: nat)
    requires SameOrder(a, b) && i < |a| && n <= |a|
    ensures Position(a[..n], a[i]) == Position(b[..n], b[i])
  {
    if n > 0 {
      SamePosition(a, b, i, n - 1);
      assert a[..n][..n - 1] == a[..n - 1] && b[..n][..n - 1] == b[..n - 1];
      assert (a[n - 1] < a[i] <==> b[n - 1] < b[i]) && (a[i] < a[n - 1] <==> b[i] < b[n - 1]);
    }
  }

  /** Any strictly increasing transform of the values leaves their ranks alone, and with them the correlation. */
  lemma TransformKeepsRanks(a: seq<real>, b: seq<real>)
    requires SameOrder(a, b)
    ensures RanksOf(a) == RanksOf(b)
  {
    forall i | 0 <= i < |a| ensures RankOf(a, i) == RankOf(b, i) {
      SamePosition(a, b, i, |a|);
      assert a[..|a|] == a && b[..|b|] == b;
    }
  }

  lemma {:induction false} OppositePosition(a: seq<real>, b: seq<real>, i: nat, n: nat)
    requires OppositeOrder(a, b) && i < |a| && n <= |a|
    ensures Position(a[..n], a[i]) + Position(b[..n], b[i]) == n as real
  {
    if n > 0 {
      OppositePosition(a, b, i, n - 1);
      assert a[..n][..n - 1] == a[..n - 1] && b[..n][..n - 1] == b[..n - 1];
      assert (a[n - 1] < a[i] <==> b[i] < b[n - 1]) && (a[i] < a[n - 1] <==> b[n - 1] < b[i]);
    }
  }

  lemma {:induction false} MirroredSum(xs: seq<real>, ys: seq<real>, total: real)
    requires |xs| == |ys| && forall i | 0 <= i < |xs| :: xs[i] + ys[i] == total
    ensures Sum(xs) + Sum(ys) == |xs| as real * total
  {
    if xs != [] {
      MirroredSum(xs[..|xs| - 1], ys[..|ys| - 1], total);
    }
  }

  lemma {:induction false} MirroredProducts(xs: seq<real>, ys: seq<real>, x: real, y: real)
    requires |xs| == |ys| && forall i | 0 <= i < |xs| :: xs[i] + ys[i] == x + y
    ensures Products(xs, ys, x, y) == -Products(xs, xs, x, x) && Products(ys, ys, y, y) == Products(xs, xs, x, x)
  {
    if xs != [] {
      var last := |xs| - 1;
      MirroredProducts(xs[..last], ys[..last], x, y);
      assert ys[last] - y == -(xs[last] - x);
    }
  }

  /** Values in the opposite order have opposite ranks, and a correlation of exactly -1. */
  lemma OppositeCorrelation(a: seq<real>, b: seq<real>)
    requires OppositeOrder(a, b) && a != []
    ensures var c := Correlate(RanksOf(a), RanksOf(b)); c.numerator == -c.leftNorm && c.leftNorm == c.rightNorm
  {
    var xs, ys, n := RanksOf(a), RanksOf(b), |a| as real;
    forall i | 0 <= i < |a| ensures xs[i] + ys[i] == n + 1.0 {
      OppositePosition(a, b, i, |a|);
      assert a[..|a|] == a && b[..|b|] == b;
    }
    MirroredSum(xs, ys, n + 1.0);
    MeansAdd(Sum(xs), Sum(ys), n);
    MirroredProducts(xs, ys, Mean(xs), Mean(ys));
  }

  lemma MeansAdd(s: real, t: real, n: real)
    requires n > 0.0 && s + t == n * (n + 1.0)
    ensures s / n + t / n == n + 1.0
  {
    Undo(s, n);
    Undo(t, n);
    Distribute(n, s / n, t / n);
    Cancel(n, s / n + t / n, n + 1.0);
  }

  lemma Undo(a: real, n: real)
    requires n > 0.0
    ensures n * (a / n) == a
  {
  }

  lemma Cancel(n: real, a: real, b: real)
    requires n > 0.0 && n * a == n * b
    ensures a == b
  {
    if a < b {
      PositiveProduct(n, b - a, n * (b - a));
    } else if a > b {
      PositiveProduct(n, a - b, n * (a - b));
    }
  }
}
