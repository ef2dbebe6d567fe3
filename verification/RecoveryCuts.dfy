// Choosing the cut line of a recovery partition: prefix counts along one axis and the most
// balanced position, as done for each axis of a partition node.
module RecoveryCuts {
  import opened Wrappers

  /** A connection's extent along one axis. */
  datatype Span = Span(low: int, high: int)

  /** A cut between coordinates `line` and `line + 1`, with its imbalance. */
  datatype Cut = Cut(score: real, line: int)

  function Max(a: int, b: int): int { if a > b then a else b }

  function Min(a: int, b: int): int { if a < b then a else b }

  function Start(s: Span, low: int): int { Max(low, s.low) - low }

  function End(s: Span, low: int, high: int): int { Min(high, s.high) - low }

  /** Spans that start at or before offset `x`. */
  ghost function Before(spans: seq<Span>, low: int, x: int): nat {
    if spans == [] then 0
    else Before(spans[..|spans| - 1], low, x) + if Start(spans[|spans| - 1], low) <= x then 1 else 0
  }

  /** Spans that end after offset `x`. */
  ghost function After(spans: seq<Span>, low: int, high: int, x: int): nat {
    if spans == [] then 0
    else After(spans[..|spans| - 1], low, high, x) + if End(spans[|spans| - 1], low, high) > x then 1 else 0
  }

  /** Different start counts are due to a span that starts in between. */
  lemma {:induction false} StartBetween(spans: seq<Span>, low: int, x: int, y: int) returns (i: nat)
    requires x <= y && Before(spans, low, x) != Before(spans, low, y)
    ensures i < |spans| && x < Start(spans[i], low) <= y
    decreases |spans|
  {
    var last := |spans| - 1;
    if x < Start(spans[last], low) <= y {
      i := last;
    } else {
      i := StartBetween(spans[..last], low, x, y);
    }
  }

  /** Different end counts are due to a span that ends in between. */
  lemma {:induction false} EndBetween(spans: seq<Span>, low: int, high: int, x: int, y: int) returns (i: nat)
    requires x <= y && After(spans, low, high, x) != After(spans, low, high, y)
    ensures i < |spans| && x < End(spans[i], low, high) <= y
    decreases |spans|
  {
    var last := |spans| - 1;
    if x < End(spans[last], low, high) <= y {
      i := last;
    } else {
      i := EndBetween(spans[..last], low, high, x, y);
    }
  }

  /** A line with spans entirely on both sides. */
  ghost predicate Separates(spans: seq<Span>, low: int, high: int, line: int) {
    && low <= line < high
    && (exists i :: 0 <= i < |spans| && spans[i].high <= line)
    && (exists i :: 0 <= i < |spans| && spans[i].low > line)
  }

  /** A line the scan may choose: both counts differ from their extremes. */
  ghost predicate Candidate(spans: seq<Span>, low: int, high: int, x: int) {
    && 0 <= x < high - low
    && Before(spans, low, x) != Before(spans, low, high - low - 1)
    && After(spans, low, high, x) != After(spans, low, high, 0)
  }

  lemma CandidateSeparates(spans: seq<Span>, low: int, high: int, x: int)
    requires Candidate(spans, low, high, x)
    ensures Separates(spans, low, high, low + x)
  {
    var i := StartBetween(spans, low, x, high - low - 1);
    var j := EndBetween(spans, low, high, 0, x);
    assert spans[i].low > low + x && spans[j].high <= low + x;
  }

  /** The imbalance of the line at offset `x`. */
  ghost function Imbalance(spans: seq<Span>, low: int, high: int, x: int): real {
    Ratio(Before(spans, low, x), After(spans, low, high, x))
  }

  function Ratio(b: int, a: int): real {
    var denominator := Max(b, a);
    if denominator <= 0 then 0.0 else Max(b - a, a - b) as real / denominator as real
  }

  /** `best` is at most the imbalance of every scannable line before offset `n`, and is either the
      one known before or the first line to reach a strictly better balance. */
  ghost predicate BestBelow(spans: seq<Span>, low: int, high: int, n: int, before: Option<Cut>, best: Option<Cut>) {
    && (forall x :: 0 <= x < n && Scannable(spans, low, high, x) ==>
          best.Some? && best.value.score <= Imbalance(spans, low, high, x))
    && (before.Some? ==> best.Some?)
    && (best == before || (best.Some? && FirstBest(spans, low, high, n, before, best.value)))
  }

  ghost predicate FirstBest(spans: seq<Span>, low: int, high: int, n: int, before: Option<Cut>, best: Cut) {
    && low <= best.line < low + n && Scannable(spans, low, high, best.line - low)
    && best.score == Imbalance(spans, low, high, best.line - low)
    && (before.Some? ==> best.score < before.value.score)
    && (forall x ::
        0 <= x < best.line - low && Scannable(spans, low, high, x) ==> best.score < Imbalance(spans, low, high, x))
  }

  /** A candidate with some span on either side count. */
  ghost predicate Scannable(spans: seq<Span>, low: int, high: int, x: int) {
    Candidate(spans, low, high, x) && Max(Before(spans, low, x), After(spans, low, high, x)) != 0
  }

  // ---------------------------------------------------------------------------
  // The scan
  // ---------------------------------------------------------------------------

  /** Adds one to every entry from `start` on. */
  method CountFrom(counts: array<int>, start: nat)
    modifies counts
    ensures forall x :: 0 <= x < counts.Length ==> counts[x] == old(counts[x]) + if start <= x then 1 else 0
  {
    var x := start;
    while x < counts.Length
      invariant start <= x
      invariant forall k :: 0 <= k < counts.Length ==> counts[k] == old(counts[k]) + if start <= k < x then 1 else 0
    {
      counts[x] := counts[x] + 1;
      x := x + 1;
    }
  }

  /** Adds one to every entry before `end`. */
  method CountUpTo(counts: array<int>, end: int)
    requires end <= counts.Length
    modifies counts
    ensures forall x :: 0 <= x < counts.Length ==> counts[x] == old(counts[x]) + if x < end then 1 else 0
  {
    var x := 0;
    while x < end
      invariant 0 <= x <= Max(end, 0)
      invariant forall k :: 0 <= k < counts.Length ==> counts[k] == old(counts[k]) + if k < x then 1 else 0
    {
      counts[x] := counts[x] + 1;
      x := x + 1;
    }
  }

  method PrefixCounts(spans: seq<Span>, low: int, high: int) returns (before: array<int>, after: array<int>)
    requires low < high
    ensures fresh(before) && fresh(after) && before.Length == after.Length == high - low
    ensures forall x ::
              0 <= x < high - low ==> before[x] == Before(spans, low, x) && after[x] == After(spans, low, high, x)
  {
    before := new int[high - low](_ => 0);
    after := new int[high - low](_ => 0);
    assert spans[..0] == [];
    for i := 0 to |spans|
      invariant before != after
      invariant forall x :: 0 <= x < high - low ==> before[x] == Before(spans[..i], low, x)
      invariant forall x :: 0 <= x < high - low ==> after[x] == After(spans[..i], low, high, x)
    {
      assert spans[..i + 1][..i] == spans[..i] && spans[..i + 1][i] == spans[i];
      CountFrom(before, Start(spans[i], low));
      CountUpTo(after, End(spans[i], low, high));
    }
    assert spans[..|spans|] == spans;
  }

  /** The most balanced line of the axis, unless the one already known is as good. */
  method ScanAxis(spans: seq<Span>, low: int, high: int, known: Option<Cut>) returns (best: Option<Cut>)
    ensures BestBelow(spans, low, high, high - low, known, best)
  {
    best := known;
    if high - low + 1 > 1 {
      var before, after := PrefixCounts(spans, low, high);
      var maximumBefore, maximumAfter := before[high - low - 1], after[0];
      for x := 0 to high - low
        invariant BestBelow(spans, low, high, x, known, best)
      {
        if before[x] != maximumBefore && after[x] != maximumAfter {
          var denominator := Max(before[x], after[x]);
          if denominator != 0 {
            var score := Ratio(before[x], after[x]);
            if best.None? || score < best.value.score {
              best := Some(Cut(score, low + x));
            }
          }
        }
      }
    }
  }
}
