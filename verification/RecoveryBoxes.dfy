// What the partition tree and its schedule say about the connections' own bounding boxes.
module RecoveryBoxes {
  import opened RecoveryCuts
  import opened RecoveryTree
  import RecoverySchedule
  import opened Sequences
  import opened Wrappers
  import opened Numbers

  /** One box ends before the other begins, along one of the axes. */
  ghost predicate BoxesDisjoint(c: Connection, d: Connection) {
    c.xMax < d.xMin || d.xMax < c.xMin || c.yMax < d.yMin || d.yMax < c.yMin
  }

  /** Clamping never separates what overlaps. */
  lemma ApartIsDisjoint(device: Bounds, c: Connection, d: Connection)
    requires Apart(device, c, d)
    ensures BoxesDisjoint(c, d)
  {
  }

  /** Whatever the interleaving, connections that are routed at the same time have disjoint boxes. */
  lemma RoutedBoxesDisjoint(device: Bounds, t: Tree, states: seq<RecoverySchedule.Program>,
                             events: seq<RecoverySchedule.Event>, i: nat, j: nat)
    requires Sound(device, t) && RecoverySchedule.IsRun(states, events) && states[0] == RecoverySchedule.ProgramOf(t)
    requires i < j < |RecoverySchedule.Active(states[|events|])|
    ensures var active := RecoverySchedule.Active(states[|events|]); BoxesDisjoint(active[i], active[j])
  {
    RecoverySchedule.EveryRunIsSafe(device, t, states, events);
    var active := RecoverySchedule.Active(states[|events|]);
    ApartIsDisjoint(device, active[i], active[j]);
  }

  // ---------------------------------------------------------------------------
  // Sides of a line
  // ---------------------------------------------------------------------------

  /** The box is below the line, above it, or across it. */
  ghost predicate BoxBelow(c: Connection, splitX: bool, line: int) { if splitX then c.xMax <= line else c.yMax <= line }

  ghost predicate BoxAbove(c: Connection, splitX: bool, line: int) { if splitX then line < c.xMin else line < c.yMin }

  ghost predicate BoxAcross(c: Connection, splitX: bool, line: int) {
    if splitX then c.xMin <= line < c.xMax else c.yMin <= line < c.yMax
  }

  /** The bounds are not empty and lie in the device. */
  ghost predicate Within(device: Bounds, b: Bounds) {
    device.xMin <= b.xMin <= b.xMax <= device.xMax && device.yMin <= b.yMin <= b.yMax <= device.yMax
  }

  lemma SideMeans(device: Bounds, b: Bounds, c: Connection, splitX: bool, line: int)
    requires Within(device, b)
    requires if splitX then b.xMin <= line < b.xMax else b.yMin <= line < b.yMax
    ensures SpanOf(device, c, splitX).high <= line <==> BoxBelow(c, splitX, line)
    ensures SpanOf(device, c, splitX).low > line <==> BoxAbove(c, splitX, line)
    ensures Straddles(device, c, splitX, line) <==> BoxAcross(c, splitX, line)
  {
  }

  /** The children of a fork: left of a vertical line, or below a horizontal one; right of it or above; and across,
      over the same bounds. */
  ghost predicate DividedAt(t: Tree)
    requires t.Fork?
  {
    var b := t.bounds;
    && (if t.splitX then b.xMin <= t.line < b.xMax else b.yMin <= t.line < b.yMax)
    && t.left.bounds ==
       (if t.splitX then Bounds(b.xMin, t.line, b.yMin, b.yMax) else Bounds(b.xMin, b.xMax, b.yMin, t.line))
    && t.right.bounds ==
       (if t.splitX then Bounds(t.line + 1, b.xMax, b.yMin, b.yMax) else Bounds(b.xMin, b.xMax, t.line + 1, b.yMax))
    && (forall c :: c in t.left.connections ==> BoxBelow(c, t.splitX, t.line))
    && (forall c :: c in t.right.connections ==> BoxAbove(c, t.splitX, t.line))
    && (t.middle.Some? ==> t.middle.value.bounds == b
                           && forall c :: c in t.middle.value.connections ==> BoxAcross(c, t.splitX, t.line))
  }

  lemma ForkDivides(device: Bounds, t: Tree)
    requires Sound(device, t) && t.Fork? && Within(device, t.bounds)
    ensures DividedAt(t) && Within(device, t.left.bounds) && Within(device, t.right.bounds)
    ensures t.middle.Some? ==> Within(device, t.middle.value.bounds)
  {
    forall c
      ensures SpanOf(device, c, t.splitX).high <= t.line <==> BoxBelow(c, t.splitX, t.line)
      ensures SpanOf(device, c, t.splitX).low > t.line <==> BoxAbove(c, t.splitX, t.line)
      ensures Straddles(device, c, t.splitX, t.line) <==> BoxAcross(c, t.splitX, t.line)
    {
      SideMeans(device, t.bounds, c, t.splitX, t.line);
    }
  }

  // ---------------------------------------------------------------------------
  // Lines that can be cut
  // ---------------------------------------------------------------------------

  lemma {:induction false} BeforeGrows(spans: seq<Span>, low: int, x: int, y: int)
    requires x <= y
    ensures Before(spans, low, x) <= Before(spans, low, y)
    ensures Before(spans, low, x) < Before(spans, low, y) <==>
              exists i :: 0 <= i < |spans| && x < Start(spans[i], low) <= y
    decreases |spans|
  {
    if spans != [] {
      var last := |spans| - 1;
      BeforeGrows(spans[..last], low, x, y);
      if i :| 0 <= i < |spans| && x < Start(spans[i], low) <= y {
        assert i < last ==> spans[..last][i] == spans[i];
      }
      if i :| 0 <= i < last && x < Start(spans[..last][i], low) <= y {
        assert spans[i] == spans[..last][i];
      }
    }
  }

  lemma {:induction false} AfterShrinks(spans: seq<Span>, low: int, high: int, x: int, y: int)
    requires x <= y
    ensures After(spans, low, high, y) <= After(spans, low, high, x)
    ensures After(spans, low, high, y) < After(spans, low, high, x) <==>
              exists i :: 0 <= i < |spans| && x < End(spans[i], low, high) <= y
    decreases |spans|
  {
    if spans != [] {
      var last := |spans| - 1;
      AfterShrinks(spans[..last], low, high, x, y);
      if i :| 0 <= i < |spans| && x < End(spans[i], low, high) <= y {
        assert i < last ==> spans[..last][i] == spans[i];
      }
      if i :| 0 <= i < last && x < End(spans[..last][i], low, high) <= y {
        assert spans[i] == spans[..last][i];
      }
    }
  }

  /** A connection begins beyond the line but not in the last column or row of the bounds. */
  ghost predicate BeginsBeyond(b: Bounds, c: Connection, splitX: bool, line: int) {
    if splitX then line < c.xMin < b.xMax else line < c.yMin < b.yMax
  }

  /** A connection ends before the line but not in the first column or row of the bounds. */
  ghost predicate EndsBefore(b: Bounds, c: Connection, splitX: bool, line: int) {
    if splitX then b.xMin < c.xMax <= line else b.yMin < c.yMax <= line
  }

  ghost predicate SomeBegin(b: Bounds, cs: seq<Connection>, splitX: bool, line: int) {
    exists i :: 0 <= i < |cs| && BeginsBeyond(b, cs[i], splitX, line)
  }

  ghost predicate SomeEnd(b: Bounds, cs: seq<Connection>, splitX: bool, line: int) {
    exists i :: 0 <= i < |cs| && EndsBefore(b, cs[i], splitX, line)
  }

  lemma StartMeans(device: Bounds, b: Bounds, c: Connection, splitX: bool, line: int)
    requires Within(device, b) && Boxed(c) && Low(b, splitX) <= line < High(b, splitX)
    ensures var low, high := Low(b, splitX), High(b, splitX);
            line - low < Start(SpanOf(device, c, splitX), low) <= high - low - 1 <==> BeginsBeyond(b, c, splitX, line)
  {
  }

  lemma EndMeans(device: Bounds, b: Bounds, c: Connection, splitX: bool, line: int)
    requires Within(device, b) && Boxed(c) && Low(b, splitX) <= line < High(b, splitX)
    ensures var low, high := Low(b, splitX), High(b, splitX);
            0 < End(SpanOf(device, c, splitX), low, high) <= line - low <==> EndsBefore(b, c, splitX, line)
  {
  }

  lemma SomeBeginIff(device: Bounds, b: Bounds, cs: seq<Connection>, splitX: bool, line: int)
    requires Within(device, b) && (forall c :: c in cs ==> Boxed(c)) && Low(b, splitX) <= line < High(b, splitX)
    ensures var spans, low, high := Spans(device, cs, splitX), Low(b, splitX), High(b, splitX);
            Before(spans, low, line - low) != Before(spans, low, high - low - 1) <==> SomeBegin(b, cs, splitX, line)
  {
    var spans, low, high := Spans(device, cs, splitX), Low(b, splitX), High(b, splitX);
    BeforeGrows(spans, low, line - low, high - low - 1);
    forall i | 0 <= i < |cs|
      ensures line - low < Start(spans[i], low) <= high - low - 1 <==> BeginsBeyond(b, cs[i], splitX, line)
    {
      assert cs[i] in cs;
      StartMeans(device, b, cs[i], splitX, line);
    }
  }

  lemma SomeEndIff(device: Bounds, b: Bounds, cs: seq<Connection>, splitX: bool, line: int)
    requires Within(device, b) && (forall c :: c in cs ==> Boxed(c)) && Low(b, splitX) <= line < High(b, splitX)
    ensures var spans, low, high := Spans(device, cs, splitX), Low(b, splitX), High(b, splitX);
            After(spans, low, high, line - low) != After(spans, low, high, 0) <==> SomeEnd(b, cs, splitX, line)
  {
    var spans, low, high := Spans(device, cs, splitX), Low(b, splitX), High(b, splitX);
    AfterShrinks(spans, low, high, 0, line - low);
    forall i | 0 <= i < |cs|
      ensures 0 < End(spans[i], low, high) <= line - low <==> EndsBefore(b, cs[i], splitX, line)
    {
      assert cs[i] in cs;
      EndMeans(device, b, cs[i], splitX, line);
    }
  }

  lemma {:induction false} BeforeCounts(spans: seq<Span>, low: int, x: int, i: nat)
    requires i < |spans| && Start(spans[i], low) <= x
    ensures Before(spans, low, x) > 0
    decreases |spans|
  {
    var last := |spans| - 1;
    if i < last {
      assert spans[..last][i] == spans[i];
      BeforeCounts(spans[..last], low, x, i);
    }
  }

  /** A line can be cut exactly if, within the bounds, a connection begins beyond it and another ends before it. */
  lemma CanCutIff(device: Bounds, b: Bounds, cs: seq<Connection>, splitX: bool, line: int)
    requires Within(device, b) && forall c :: c in cs ==> Boxed(c)
    ensures CanCut(device, b, cs, splitX, line) <==>
              && Low(b, splitX) <= line < High(b, splitX)
              && SomeBegin(b, cs, splitX, line) && SomeEnd(b, cs, splitX, line)
  {
    if Low(b, splitX) <= line < High(b, splitX) {
      SomeBeginIff(device, b, cs, splitX, line);
      SomeEndIff(device, b, cs, splitX, line);
      if SomeEnd(b, cs, splitX, line) {
        var i :| 0 <= i < |cs| && EndsBefore(b, cs[i], splitX, line);
        assert cs[i] in cs;
        StartOfEnded(device, b, cs[i], splitX, line);
        BeforeCounts(Spans(device, cs, splitX), Low(b, splitX), line - Low(b, splitX), i);
      }
    }
  }

  lemma StartOfEnded(device: Bounds, b: Bounds, c: Connection, splitX: bool, line: int)
    requires Within(device, b) && Boxed(c) && EndsBefore(b, c, splitX, line) && Low(b, splitX) <= line < High(b, splitX)
    ensures Start(SpanOf(device, c, splitX), Low(b, splitX)) <= line - Low(b, splitX)
  {
  }

  /** The connections that begin up to the line, and those that end beyond it. */
  ghost function BeginUpTo(cs: seq<Connection>, splitX: bool, line: int): set<nat> {
    set i: nat | i < |cs| && (if splitX then cs[i].xMin <= line else cs[i].yMin <= line)
  }

  ghost function EndBeyond(cs: seq<Connection>, splitX: bool, line: int): set<nat> {
    set i: nat | i < |cs| && (if splitX then line < cs[i].xMax else line < cs[i].yMax)
  }

  lemma {:induction false} CountsMean(device: Bounds, b: Bounds, cs: seq<Connection>, splitX: bool, line: int)
    requires Within(device, b) && Low(b, splitX) <= line < High(b, splitX)
    ensures Before(Spans(device, cs, splitX), Low(b, splitX), line - Low(b, splitX)) == |BeginUpTo(cs, splitX, line)|
    ensures After(Spans(device, cs, splitX), Low(b, splitX), High(b, splitX), line - Low(b, splitX)) ==
            |EndBeyond(cs, splitX, line)|
    decreases |cs|
  {
    if cs != [] {
      var last := |cs| - 1;
      CountsMean(device, b, cs[..last], splitX, line);
      assert Spans(device, cs, splitX)[..last] == Spans(device, cs[..last], splitX);
      NextBegins(cs, splitX, line);
      NextEnds(cs, splitX, line);
    } else {
      assert BeginUpTo(cs, splitX, line) == {} && EndBeyond(cs, splitX, line) == {};
    }
  }

  lemma NextBegins(cs: seq<Connection>, splitX: bool, line: int)
    requires cs != []
    ensures var last := |cs| - 1;
            |BeginUpTo(cs, splitX, line)| ==
            |BeginUpTo(cs[..last], splitX, line)| + (if BoxAbove(cs[last], splitX, line) then 0 else 1)
  {
    var last := |cs| - 1;
    var before := BeginUpTo(cs[..last], splitX, line);
    if BoxAbove(cs[last], splitX, line) {
      forall i: nat ensures i in BeginUpTo(cs, splitX, line) <==> i in before {
      }
      assert BeginUpTo(cs, splitX, line) == before;
    } else {
      forall i: nat ensures i in BeginUpTo(cs, splitX, line) <==> i in before || i == last {
      }
      assert BeginUpTo(cs, splitX, line) == before + {last};
    }
  }

  lemma NextEnds(cs: seq<Connection>, splitX: bool, line: int)
    requires cs != []
    ensures var last := |cs| - 1;
            |EndBeyond(cs, splitX, line)| ==
            |EndBeyond(cs[..last], splitX, line)| + (if BoxBelow(cs[last], splitX, line) then 0 else 1)
  {
    var last := |cs| - 1;
    var before := EndBeyond(cs[..last], splitX, line);
    if BoxBelow(cs[last], splitX, line) {
      forall i: nat ensures i in EndBeyond(cs, splitX, line) <==> i in before {
      }
      assert EndBeyond(cs, splitX, line) == before;
    } else {
      forall i: nat ensures i in EndBeyond(cs, splitX, line) <==> i in before || i == last {
      }
      assert EndBeyond(cs, splitX, line) == before + {last};
    }
  }

  /** The imbalance of two counts: their difference in units of the greater one, so nothing exactly if they agree. */
  lemma RatioMeans(b: nat, a: nat)
    requires a > 0 || b > 0
    ensures Ratio(b, a) * (if b > a then b else a) as real == (if b > a then b - a else a - b) as real
    ensures Ratio(b, a) == 0.0 <==> a == b
  {
    var n, d := if b > a then b - a else a - b, if b > a then b else a;
    Quotient(n, d);
  }

  /** Imbalances compare as fractions do. */
  lemma RatioOrder(b: nat, a: nat, b': nat, a': nat)
    requires (a > 0 || b > 0) && (a' > 0 || b' > 0)
    ensures Ratio(b, a) <= Ratio(b', a') <==>
              (if b > a then b - a else a - b) * (if b' > a' then b' else a')
              <= (if b' > a' then b' - a' else a' - b') * (if b > a then b else a)
  {
    Fractions(if b > a then b - a else a - b, if b > a then b else a,
              if b' > a' then b' - a' else a' - b', if b' > a' then b' else a');
  }

  /** The score of a line is the imbalance between the connections that begin up to it and those that end beyond it. */
  lemma ScoreMeans(device: Bounds, b: Bounds, cs: seq<Connection>, splitX: bool, line: int)
    requires Within(device, b) && Low(b, splitX) <= line < High(b, splitX)
    ensures LineScore(device, b, cs, splitX, line) ==
              Ratio(|BeginUpTo(cs, splitX, line)|, |EndBeyond(cs, splitX, line)|)
  {
    CountsMean(device, b, cs, splitX, line);
  }

  /** A node of a sound tree is a leaf exactly if none of its lines can be cut; otherwise it is cut at the first of
      the lines with the least imbalance, vertical lines before horizontal ones. */
  lemma CutIsBest(device: Bounds, t: Tree, splitX: bool, line: int)
    requires Sound(device, t) && Within(device, t.bounds) && forall c :: c in t.connections ==> Boxed(c)
    requires Low(t.bounds, splitX) <= line < High(t.bounds, splitX)
    requires SomeBegin(t.bounds, t.connections, splitX, line) && SomeEnd(t.bounds, t.connections, splitX, line)
    ensures t.Fork?
    ensures Low(t.bounds, t.splitX) <= t.line < High(t.bounds, t.splitX)
    ensures SomeBegin(t.bounds, t.connections, t.splitX, t.line) && SomeEnd(t.bounds, t.connections, t.splitX, t.line)
    ensures var chosen, other :=
              Ratio(|BeginUpTo(t.connections, t.splitX, t.line)|, |EndBeyond(t.connections, t.splitX, t.line)|),
              Ratio(|BeginUpTo(t.connections, splitX, line)|, |EndBeyond(t.connections, splitX, line)|);
            && chosen <= other
            && ((splitX && !t.splitX) || (splitX == t.splitX && line < t.line) ==> chosen < other)
  {
    CanCutIff(device, t.bounds, t.connections, splitX, line);
    CanCutIff(device, t.bounds, t.connections, t.splitX, t.line);
    ScoreMeans(device, t.bounds, t.connections, splitX, line);
    ScoreMeans(device, t.bounds, t.connections, t.splitX, t.line);
  }
}
