// Routing a recovery tree: the middle child first, then both outer children in parallel. Every
// interleaving of the parallel branches is a run of the program a tree stands for.
module RecoverySchedule {
  import opened Wrappers
  import opened RecoveryTree

  /** A leaf visits its connections one at a time; `current` is the one being routed. */
  datatype Program =
    | Visit(current: Option<Connection>, waiting: seq<Connection>)
    | Then(first: Program, second: Program)
    | Both(left: Program, right: Program)

  function ProgramOf(t: Tree): Program {
    match t
    case Leaf(_, cs) => Visit(None, cs)
    case Fork(_, _, _, _, left, middle, right) =>
      var sides := Both(ProgramOf(left), ProgramOf(right));
      if middle.Some? then Then(ProgramOf(middle.value), sides) else sides
  }

  predicate Done(p: Program) {
    match p
    case Visit(current, waiting) => current == None && waiting == []
    case Then(first, second) => Done(first) && Done(second)
    case Both(left, right) => Done(left) && Done(right)
  }

  /** Connections that need no routing are skipped. */
  datatype Event = Start(c: Connection) | Skip(c: Connection) | Finish(c: Connection)

  ghost predicate Step(p: Program, e: Event, q: Program) {
    match p
    case Visit(None, waiting) =>
      && waiting != []
      && ((q == Visit(None, waiting[1..]) && e == Skip(waiting[0]))
          || (q == Visit(Some(waiting[0]), waiting[1..]) && e == Start(waiting[0])))
    case Visit(Some(c), waiting) => q == Visit(None, waiting) && e == Finish(c)
    case Then(first, second) =>
      && q.Then?
      && if Done(first) then q.first == first && Step(second, e, q.second)
         else q.second == second && Step(first, e, q.first)
    case Both(left, right) =>
      && q.Both?
      && ((q.right == right && Step(left, e, q.left)) || (q.left == left && Step(right, e, q.right)))
  }

  ghost predicate CanStep(p: Program) { exists e, q :: Step(p, e, q) }

  /** Connections not visited yet. */
  ghost function Waiting(p: Program): multiset<Connection> {
    match p
    case Visit(_, waiting) => multiset(waiting)
    case Then(first, second) => Waiting(first) + Waiting(second)
    case Both(left, right) => Waiting(left) + Waiting(right)
  }

  /** Connections being routed at this moment. */
  ghost function Active(p: Program): seq<Connection> {
    match p
    case Visit(current, _) => if current.Some? then [current.value] else []
    case Then(first, second) => Active(first) + Active(second)
    case Both(left, right) => Active(left) + Active(right)
  }

  ghost predicate Unfinished(p: Program, c: Connection) { c in Waiting(p) || c in Active(p) }

  ghost predicate AllApart(device: Bounds, p: Program, q: Program) {
    forall c, d :: Unfinished(p, c) && Unfinished(q, d) ==> Apart(device, c, d)
  }

  /** Parallel branches hold only connections that are apart, and what comes second waits. */
  ghost predicate Safe(device: Bounds, p: Program) {
    match p
    case Visit(_, _) => true
    case Then(first, second) => Safe(device, first) && Safe(device, second) && (Active(second) == [] || Done(first))
    case Both(left, right) => Safe(device, left) && Safe(device, right) && AllApart(device, left, right)
  }

  // ---------------------------------------------------------------------------
  // One step
  // ---------------------------------------------------------------------------

  ghost function Visits(e: Event): multiset<Connection> { if e.Finish? then multiset{} else multiset{e.c} }

  lemma HeadAndTail(waiting: seq<Connection>)
    requires waiting != []
    ensures multiset(waiting) == multiset(waiting[1..]) + multiset{waiting[0]}
  {
    assert waiting == [waiting[0]] + waiting[1..];
  }

  lemma {:induction false} StepVisits(p: Program, e: Event, q: Program)
    requires Step(p, e, q)
    ensures Waiting(p) == Waiting(q) + Visits(e)
  {
    match p
    case Visit(None, waiting) =>
      HeadAndTail(waiting);
    case Visit(Some(c), waiting) =>
    case Then(first, second) =>
      if Done(first) { StepVisits(second, e, q.second); } else { StepVisits(first, e, q.first); }
    case Both(left, right) =>
      if q.right == right && Step(left, e, q.left) {
        StepVisits(left, e, q.left);
      } else {
        StepVisits(right, e, q.right);
      }
  }

  lemma {:induction false} StepActivates(p: Program, e: Event, q: Program)
    requires Step(p, e, q)
    ensures forall c :: c in Active(q) ==> c in Active(p) || c in Waiting(p)
  {
    match p
    case Visit(None, waiting) =>
    case Visit(Some(c), waiting) =>
    case Then(first, second) =>
      if Done(first) { StepActivates(second, e, q.second); } else { StepActivates(first, e, q.first); }
    case Both(left, right) =>
      if q.right == right && Step(left, e, q.left) {
        StepActivates(left, e, q.left);
      } else {
        StepActivates(right, e, q.right);
      }
  }

  lemma StepShrinks(p: Program, e: Event, q: Program)
    requires Step(p, e, q)
    ensures forall c :: Unfinished(q, c) ==> Unfinished(p, c)
  {
    StepVisits(p, e, q);
    StepActivates(p, e, q);
  }

  lemma {:induction false} DoneIsIdle(p: Program)
    requires Done(p)
    ensures Active(p) == [] && Waiting(p) == multiset{}
  {
    match p
    case Visit(_, _) =>
    case Then(first, second) =>
      DoneIsIdle(first);
      DoneIsIdle(second);
    case Both(left, right) =>
      DoneIsIdle(left);
      DoneIsIdle(right);
  }

  lemma {:induction false} StepKeepsSafe(device: Bounds, p: Program, e: Event, q: Program)
    requires Safe(device, p) && Step(p, e, q)
    ensures Safe(device, q)
  {
    match p
    case Visit(_, _) =>
    case Then(first, second) =>
      if Done(first) { StepKeepsSafe(device, second, e, q.second); } else { StepKeepsSafe(device, first, e, q.first); }
    case Both(left, right) =>
      if q.right == right && Step(left, e, q.left) {
        StepKeepsSafe(device, left, e, q.left);
        StepShrinks(left, e, q.left);
      } else {
        StepKeepsSafe(device, right, e, q.right);
        StepShrinks(right, e, q.right);
      }
  }

  /** Connections routed at the same time have disjoint boxes. */
  ghost predicate Exclusive(device: Bounds, active: seq<Connection>) {
    forall i, j | 0 <= i < j < |active| :: Apart(device, active[i], active[j])
  }

  lemma {:induction false} SafeIsExclusive(device: Bounds, p: Program)
    requires Safe(device, p)
    ensures Exclusive(device, Active(p))
  {
    match p
    case Visit(_, _) =>
    case Then(first, second) =>
      SafeIsExclusive(device, first);
      SafeIsExclusive(device, second);
      if Done(first) {
        DoneIsIdle(first);
      }
    case Both(left, right) =>
      SafeIsExclusive(device, left);
      SafeIsExclusive(device, right);
      var l, r := Active(left), Active(right);
      forall i, j | 0 <= i < j < |l + r| ensures Apart(device, (l + r)[i], (l + r)[j]) {
        if i < |l| <= j {
          assert Unfinished(left, l[i]) && Unfinished(right, r[j - |l|]);
        }
      }
  }

  // ---------------------------------------------------------------------------
  // Progress
  // ---------------------------------------------------------------------------

  /** The number of steps left if every connection is routed. */
  ghost function Work(p: Program): nat { 2 * |Waiting(p)| + |Active(p)| }

  lemma {:induction false} StepsOn(p: Program) returns (e: Event, q: Program)
    requires !Done(p)
    ensures Step(p, e, q)
  {
    match p
    case Visit(None, waiting) =>
      e, q := Start(waiting[0]), Visit(Some(waiting[0]), waiting[1..]);
    case Visit(Some(c), waiting) =>
      e, q := Finish(c), Visit(None, waiting);
    case Then(first, second) =>
      if Done(first) {
        e, q := StepsOn(second);
        q := Then(first, q);
      } else {
        e, q := StepsOn(first);
        q := Then(q, second);
      }
    case Both(left, right) =>
      if Done(left) {
        e, q := StepsOn(right);
        q := Both(left, q);
      } else {
        e, q := StepsOn(left);
        q := Both(q, right);
      }
  }

  lemma {:induction false} StepWorks(p: Program, e: Event, q: Program)
    requires Step(p, e, q)
    ensures Work(q) < Work(p)
  {
    StepVisits(p, e, q);
    ActiveCount(p, e, q);
  }

  lemma {:induction false} ActiveCount(p: Program, e: Event, q: Program)
    requires Step(p, e, q)
    ensures |Active(q)| == |Active(p)| + (if e.Start? then 1 else if e.Skip? then 0 else -1)
  {
    match p
    case Visit(None, waiting) =>
    case Visit(Some(c), waiting) =>
    case Then(first, second) =>
      if Done(first) { ActiveCount(second, e, q.second); } else { ActiveCount(first, e, q.first); }
    case Both(left, right) =>
      if q.right == right && Step(left, e, q.left) {
        ActiveCount(left, e, q.left);
      } else {
        ActiveCount(right, e, q.right);
      }
  }

  // ---------------------------------------------------------------------------
  // Whole runs
  // ---------------------------------------------------------------------------

  ghost predicate IsRun(states: seq<Program>, events: seq<Event>) {
    |states| == |events| + 1 && forall i | 0 <= i < |events| :: Step(states[i], events[i], states[i + 1])
  }

  /** The connections started or skipped. */
  ghost function Visited(events: seq<Event>): multiset<Connection> {
    if events == [] then multiset{} else Visited(events[..|events| - 1]) + Visits(events[|events| - 1])
  }

  lemma {:induction false} RunConserves(device: Bounds, states: seq<Program>, events: seq<Event>)
    requires IsRun(states, events) && Safe(device, states[0])
    ensures Safe(device, states[|events|])
    ensures Waiting(states[0]) == Waiting(states[|events|]) + Visited(events)
    ensures Work(states[|events|]) + |events| <= Work(states[0])
    decreases |events|
  {
    if events != [] {
      var n := |events| - 1;
      RunConserves(device, states[..n + 1], events[..n]);
      assert Step(states[n], events[n], states[n + 1]);
      StepKeepsSafe(device, states[n], events[n], states[n + 1]);
      StepVisits(states[n], events[n], states[n + 1]);
      StepWorks(states[n], events[n], states[n + 1]);
    }
  }

  lemma {:induction false} ProgramOfTree(device: Bounds, t: Tree)
    requires Sound(device, t)
    ensures Waiting(ProgramOf(t)) == Bag(t) && Active(ProgramOf(t)) == [] && Safe(device, ProgramOf(t))
  {
    match t
    case Leaf(_, _) =>
    case Fork(_, _, splitX, line, left, middle, right) =>
      ProgramOfTree(device, left);
      ProgramOfTree(device, right);
      var l, r := ProgramOf(left), ProgramOf(right);
      forall c, d | Unfinished(l, c) && Unfinished(r, d) ensures Apart(device, c, d) {
        assert c in left.connections && d in right.connections;
        assert SpanOf(device, c, splitX).high < SpanOf(device, d, splitX).low;
      }
      if middle.Some? {
        ProgramOfTree(device, middle.value);
      }
  }

  /** In every run over a sound tree, whatever the interleaving: connections routed at the same time
      have disjoint boxes; the run is bounded; it can go on until nothing is left; and when nothing
      is left, every connection has been visited exactly once. */
  lemma EveryRunIsSafe(device: Bounds, t: Tree, states: seq<Program>, events: seq<Event>)
    requires Sound(device, t) && IsRun(states, events) && states[0] == ProgramOf(t)
    ensures Exclusive(device, Active(states[|events|]))
    ensures |events| <= 2 * |t.connections|
    ensures Visited(events) <= multiset(t.connections)
    ensures Done(states[|events|]) ==> Visited(events) == multiset(t.connections)
    ensures Done(states[|events|]) || CanStep(states[|events|])
  {
    ProgramOfTree(device, t);
    RunConserves(device, states, events);
    var last := states[|events|];
    SafeIsExclusive(device, last);
    assert |multiset(t.connections)| == |t.connections|;
    if Done(last) {
      DoneIsIdle(last);
      assert Waiting(last) + Visited(events) == Visited(events);
    } else {
      var e, q := StepsOn(last);
    }
  }

  // ---------------------------------------------------------------------------
  // The middle comes first
  // ---------------------------------------------------------------------------

  /** The second part of `Then` waits until a moment when the first one is done, if there is one. */
  lemma {:induction false} FirstIsDone(states: seq<Program>, events: seq<Event>, p: Program, q: Program)
    returns (n: nat)
    requires IsRun(states, events) && states[0] == Then(p, q)
    ensures n <= |events| && states[n].Then? && states[n].second == q
    ensures n < |events| ==> Done(states[n].first)
    decreases |events|
  {
    n := 0;
    if events != [] {
      var last := |events| - 1;
      n := FirstIsDone(states[..last + 1], events[..last], p, q);
      assert Step(states[last], events[last], states[last + 1]);
      if n == last && !Done(states[last].first) {
        n := last + 1;
      }
    }
  }

  lemma Suffix(states: seq<Program>, events: seq<Event>, n: nat)
    requires IsRun(states, events) && n <= |events|
    ensures IsRun(states[..n + 1], events[..n]) && IsRun(states[n..], events[n..])
    ensures states[n..][|events[n..]|] == states[|events|]
  {
    forall i | 0 <= i < |events| - n ensures Step(states[n..][i], events[n..][i], states[n..][i + 1]) {
      assert Step(states[n + i], events[n + i], states[n + i + 1]);
    }
  }

  /** In every run over a node with a middle child, nothing of the two sides is visited before everything of the middle
      has been visited and is no longer being routed. */
  lemma MiddleBeforeSides(device: Bounds, t: Tree, states: seq<Program>, events: seq<Event>) returns (n: nat)
    requires Sound(device, t) && t.Fork? && t.middle.Some?
    requires IsRun(states, events) && states[0] == ProgramOf(t)
    ensures n <= |events| && Visited(events[..n]) <= multiset(t.middle.value.connections)
    ensures n < |events| ==>
              && Visited(events[..n]) == multiset(t.middle.value.connections) && Active(states[n]) == []
    ensures Visited(events[n..]) <= multiset(t.left.connections) + multiset(t.right.connections)
  {
    var p, q := ProgramOf(t.middle.value), Both(ProgramOf(t.left), ProgramOf(t.right));
    ProgramOfTree(device, t);
    ProgramOfTree(device, t.middle.value);
    ProgramOfTree(device, t.left);
    ProgramOfTree(device, t.right);
    n := FirstIsDone(states, events, p, q);
    Suffix(states, events, n);
    RunConserves(device, states[..n + 1], events[..n]);
    VisitedFirst(p, q, states[n], Visited(events[..n]));
    if n < |events| {
      RunConserves(device, states[n..], events[n..]);
      VisitedSecond(states[n], states[|events|], Visited(events[n..]));
    } else {
      assert events[n..] == [];
    }
  }

  lemma VisitedFirst(p: Program, q: Program, moment: Program, visited: multiset<Connection>)
    requires moment.Then? && moment.second == q && Waiting(Then(p, q)) == Waiting(moment) + visited
    ensures visited <= Waiting(p)
    ensures Done(moment.first) ==> visited == Waiting(p) && Active(moment) == Active(q)
  {
    assert Waiting(p) == Waiting(moment.first) + visited by {
      Cancel(Waiting(p), Waiting(moment.first) + visited, Waiting(q));
    }
    if Done(moment.first) {
      DoneIsIdle(moment.first);
    }
  }

  lemma Cancel(a: multiset<Connection>, b: multiset<Connection>, c: multiset<Connection>)
    requires a + c == b + c
    ensures a == b
  {
    assert a == a + c - c && b == b + c - c;
  }

  lemma VisitedSecond(moment: Program, now: Program, visited: multiset<Connection>)
    requires moment.Then? && Done(moment.first) && Waiting(moment) == Waiting(now) + visited
    ensures visited <= Waiting(moment.second)
  {
    DoneIsIdle(moment.first);
    assert Waiting(moment) == Waiting(moment.second);
  }
}
