// The cost of putting a signal group on a pair of end points, and the signature that
// determines it.
module ChannelCosts {
  import opened Numbers

  datatype Point = Point(x: real, y: real)

  /** A signal of a group: direction 0 drives the first end point, direction 1 the second. */
  datatype Member = Member(weight: real, direction: nat, fanout: Point, fanins: seq<Point>)

  /** Kind 0 is a TDM group with direction 0, 1 or 2 (both); kind 1 is a common signal. */
  datatype Group = Group(domain: nat, kind: nat, direction: nat, members: seq<Member>)

  ghost predicate ValidGroup(g: Group) {
    && g.kind <= 1 && g.direction <= 2
    && forall m :: m in g.members ==> m.fanins != []
  }

  function Distance(lhs: Point, rhs: Point): real { Abs(lhs.x - rhs.x) + Abs(lhs.y - rhs.y) }

  function TotalDistance(points: seq<Point>, to: Point): real {
    if points == [] then 0.0 else Distance(points[0], to) + TotalDistance(points[1..], to)
  }

  /** Driver distance plus mean load distance, weighted. */
  function WeightedMean(weight: real, driver: real, loads: real, count: nat): real
    requires count > 0
  {
    weight * (driver + loads / count as real)
  }

  function MemberCost(m: Member, a: Point, b: Point): real
    requires m.fanins != []
  {
    var (output, input) := if m.direction == 0 then (a, b) else (b, a);
    WeightedMean(m.weight, Distance(m.fanout, output), TotalDistance(m.fanins, input), |m.fanins|)
  }

  function RawCost(members: seq<Member>, a: Point, b: Point): real
    requires forall m :: m in members ==> m.fanins != []
  {
    if members == [] then 0.0 else MemberCost(members[0], a, b) + RawCost(members[1..], a, b)
  }

  /** The cost on an integer scale, rounded to the nearest. */
  function CandidateCost(g: Group, a: Point, b: Point, scale: int): int
    requires ValidGroup(g)
  {
    Ranked(RawCost(g.members, a, b), scale)
  }

  function Ranked(raw: real, scale: int): int { (raw * scale as real + 0.5).Floor }

  // ---------------------------------------------------------------------------
  // What the cost means
  // ---------------------------------------------------------------------------

  /** Every driver is on the end its signal is sent from, every load on the other end. */
  ghost predicate OnTheEnds(members: seq<Member>, a: Point, b: Point) {
    forall m :: m in members ==>
      && (m.direction == 0 ==> m.fanout == a && forall q :: q in m.fanins ==> q == b)
      && (m.direction != 0 ==> m.fanout == b && forall q :: q in m.fanins ==> q == a)
  }

  lemma DistanceZero(p: Point, q: Point)
    ensures Distance(p, q) >= 0.0 && (Distance(p, q) == 0.0 <==> p == q)
  {
    assert Distance(p, q) == Abs(p.x - q.x) + Abs(p.y - q.y);
    assert p == Point(p.x, p.y) && q == Point(q.x, q.y);
  }

  lemma {:induction false} TotalDistanceZero(points: seq<Point>, to: Point)
    ensures TotalDistance(points, to) >= 0.0
    ensures TotalDistance(points, to) == 0.0 <==> forall q :: q in points ==> q == to
  {
    if points != [] {
      TotalDistanceZero(points[1..], to);
      DistanceZero(points[0], to);
      assert points[0] in points && forall q :: q in points <==> q == points[0] || q in points[1..];
    }
  }

  lemma WeightedZero(weight: real, driver: real, loads: real, count: nat)
    requires weight > 0.0 && driver >= 0.0 && loads >= 0.0 && count > 0
    ensures WeightedMean(weight, driver, loads, count) >= 0.0
    ensures WeightedMean(weight, driver, loads, count) == 0.0 <==> driver == 0.0 && loads == 0.0
  {
    QuotientZero(loads, count);
    ProductZero(weight, driver + loads / count as real);
  }

  lemma QuotientZero(x: real, n: nat)
    requires x >= 0.0 && n > 0
    ensures x / n as real >= 0.0 && (x / n as real == 0.0 <==> x == 0.0)
  {
  }

  lemma ProductZero(x: real, y: real)
    requires x > 0.0 && y >= 0.0
    ensures x * y >= 0.0 && (x * y == 0.0 <==> y == 0.0)
  {
  }

  lemma MemberCostZero(m: Member, a: Point, b: Point)
    requires m.weight > 0.0 && m.fanins != []
    ensures MemberCost(m, a, b) >= 0.0 && (MemberCost(m, a, b) == 0.0 <==> OnTheEnds([m], a, b))
  {
    var (output, input) := if m.direction == 0 then (a, b) else (b, a);
    DistanceZero(m.fanout, output);
    TotalDistanceZero(m.fanins, input);
    WeightedZero(m.weight, Distance(m.fanout, output), TotalDistance(m.fanins, input), |m.fanins|);
    assert m in [m];
  }

  /** With positive weights only a group that is on the ends already is free. */
  lemma {:induction false} FreeIffOnTheEnds(members: seq<Member>, a: Point, b: Point)
    requires forall m :: m in members ==> m.fanins != [] && m.weight > 0.0
    ensures RawCost(members, a, b) >= 0.0
    ensures RawCost(members, a, b) == 0.0 <==> OnTheEnds(members, a, b)
  {
    if members != [] {
      FreeIffOnTheEnds(members[1..], a, b);
      MemberCostZero(members[0], a, b);
      assert members == [members[0]] + members[1..];
    }
  }

  lemma {:induction false} RawCostReplaced(members: seq<Member>, i: nat, m: Member, a: Point, b: Point)
    requires i < |members| && m.fanins != [] && forall x :: x in members ==> x.fanins != []
    ensures forall x :: x in members[i := m] ==> x.fanins != []
    ensures RawCost(members[i := m], a, b) ==
              RawCost(members, a, b) - MemberCost(members[i], a, b) + MemberCost(m, a, b)
  {
    var changed := members[i := m];
    assert members == [members[0]] + members[1..];
    if i == 0 {
      assert changed[1..] == members[1..] && changed == [m] + members[1..];
    } else {
      assert changed[1..] == members[1..][i - 1 := m] && changed == [members[0]] + changed[1..];
      RawCostReplaced(members[1..], i - 1, m, a, b);
    }
  }

  lemma RawCostShifted(members: seq<Member>, i: nat, m: Member, a: Point, b: Point, more: real)
    requires i < |members| && m.fanins != [] && forall x :: x in members ==> x.fanins != []
    requires MemberCost(m, a, b) == MemberCost(members[i], a, b) + more
    ensures forall x :: x in members[i := m] ==> x.fanins != []
    ensures RawCost(members[i := m], a, b) == RawCost(members, a, b) + more
  {
    RawCostReplaced(members, i, m, a, b);
  }

  /** A driver away from its end costs its weight for every unit along either axis. */
  lemma DriverAway(members: seq<Member>, i: nat, moved: Member, x: real, y: real, a: Point, b: Point, more: real)
    requires i < |members| && forall m :: m in members ==> m.fanins != []
    requires members[i].fanout == if members[i].direction == 0 then a else b
    requires moved == members[i].(fanout := Point(members[i].fanout.x + x, members[i].fanout.y + y))
    requires more == members[i].weight * (Abs(x) + Abs(y))
    ensures forall m :: m in members[i := moved] ==> m.fanins != []
    ensures RawCost(members[i := moved], a, b) == RawCost(members, a, b) + more
  {
    assert members[i] in members;
    DriverMoved(members[i], moved, x, y, a, b, more);
    RawCostShifted(members, i, moved, a, b, more);
  }

  lemma DriverMoved(m: Member, moved: Member, x: real, y: real, a: Point, b: Point, more: real)
    requires m.fanins != [] && m.fanout == if m.direction == 0 then a else b
    requires moved == m.(fanout := Point(m.fanout.x + x, m.fanout.y + y)) && more == m.weight * (Abs(x) + Abs(y))
    ensures MemberCost(moved, a, b) == MemberCost(m, a, b) + more
  {
    DistanceZero(m.fanout, m.fanout);
    DistanceMoved(m.fanout, x, y);
    WeightedDriver(m.weight, Distance(moved.fanout, m.fanout),
                   TotalDistance(m.fanins, if m.direction == 0 then b else a),
                   |m.fanins|);
  }

  lemma DistanceMoved(p: Point, x: real, y: real)
    ensures Distance(Point(p.x + x, p.y + y), p) == Abs(x) + Abs(y)
  {
  }

  lemma WeightedDriver(weight: real, driver: real, loads: real, count: nat)
    requires count > 0
    ensures WeightedMean(weight, driver, loads, count) == WeightedMean(weight, 0.0, loads, count) + weight * driver
  {
    Distributed(weight, driver, loads / count as real);
  }

  lemma Distributed(w: real, x: real, y: real)
    ensures w * (x + y) == w * x + w * y
  {
  }

  lemma {:induction false} TotalDistanceReplaced(points: seq<Point>, j: nat, q: Point, to: Point)
    requires j < |points|
    ensures TotalDistance(points[j := q], to) == TotalDistance(points, to) - Distance(points[j], to) + Distance(q, to)
  {
    if j == 0 {
      assert points[j := q][1..] == points[1..];
    } else {
      assert points[j := q][1..] == points[1..][j - 1 := q];
      TotalDistanceReplaced(points[1..], j - 1, q, to);
    }
  }

  /** One of n loads away from its end costs an n-th of the weight for every unit along either axis. */
  lemma LoadAway(members: seq<Member>, i: nat, j: nat, moved: Member, x: real, y: real, a: Point, b: Point, more: real)
    requires i < |members| && j < |members[i].fanins| && forall m :: m in members ==> m.fanins != []
    requires members[i].fanins[j] == if members[i].direction == 0 then b else a
    requires var loads := members[i].fanins;
             && moved == members[i].(fanins := loads[j := Point(loads[j].x + x, loads[j].y + y)])
             && more == members[i].weight * ((Abs(x) + Abs(y)) / |loads| as real)
    ensures forall m :: m in members[i := moved] ==> m.fanins != []
    ensures RawCost(members[i := moved], a, b) == RawCost(members, a, b) + more
  {
    assert members[i] in members;
    LoadMoved(members[i], j, moved, x, y, a, b, more);
    RawCostShifted(members, i, moved, a, b, more);
  }

  lemma LoadMoved(m: Member, j: nat, moved: Member, x: real, y: real, a: Point, b: Point, more: real)
    requires j < |m.fanins| && m.fanins[j] == if m.direction == 0 then b else a
    requires moved == m.(fanins := m.fanins[j := Point(m.fanins[j].x + x, m.fanins[j].y + y)])
    requires more == m.weight * ((Abs(x) + Abs(y)) / |m.fanins| as real)
    ensures MemberCost(moved, a, b) == MemberCost(m, a, b) + more
  {
    var (output, input) := if m.direction == 0 then (a, b) else (b, a);
    TotalDistanceMoved(m.fanins, j, x, y, input);
    WeightedMore(m.weight, Distance(m.fanout, output), TotalDistance(m.fanins, input),
                 Abs(x) + Abs(y), |m.fanins|, more);
  }

  lemma TotalDistanceMoved(points: seq<Point>, j: nat, x: real, y: real, to: Point)
    requires j < |points| && points[j] == to
    ensures TotalDistance(points[j := Point(to.x + x, to.y + y)], to) == TotalDistance(points, to) + (Abs(x) + Abs(y))
  {
    TotalDistanceReplaced(points, j, Point(to.x + x, to.y + y), to);
    DistanceZero(to, to);
    DistanceMoved(to, x, y);
  }

  lemma WeightedMore(weight: real, driver: real, loads: real, units: real, count: nat, more: real)
    requires count > 0 && more == weight * (units / count as real)
    ensures WeightedMean(weight, driver, loads + units, count) == WeightedMean(weight, driver, loads, count) + more
  {
    var n := count as real;
    assert (loads + units) / n == loads / n + units / n;
    Distributed(weight, driver + loads / n, units / n);
  }

  /** Candidate costs are the costs on the integer scale, to the nearest; halves are rounded up. */
  lemma CostToTheNearest(g: Group, a: Point, b: Point, scale: int)
    requires ValidGroup(g)
    ensures var cost := CandidateCost(g, a, b, scale) as real;
            cost - 0.5 <= scale as real * RawCost(g.members, a, b) < cost + 0.5
  {
  }

  // ---------------------------------------------------------------------------
  // Signatures
  // ---------------------------------------------------------------------------

  /** Members up to the order of their loads. */
  type MemberSignature = (real, nat, Point, multiset<Point>)

  /** Groups up to the order of members and loads, without identifiers. */
  type Signature = (nat, nat, multiset<MemberSignature>)

  function SignatureOf(m: Member): MemberSignature { (m.weight, m.direction, m.fanout, multiset(m.fanins)) }

  function MemberSignatures(members: seq<Member>): seq<MemberSignature> {
    seq(|members|, i requires 0 <= i < |members| => SignatureOf(members[i]))
  }

  function GroupSignature(g: Group): Signature { (g.kind, g.direction, multiset(MemberSignatures(g.members))) }

  // ---------------------------------------------------------------------------
  // Sums over bags
  // ---------------------------------------------------------------------------

  ghost function BagTotal<T(!new)>(bag: multiset<T>, f: T -> real): real {
    if bag == multiset{} then 0.0
    else
      var x :| x in bag;
      f(x) + BagTotal(bag - multiset{x}, f)
  }

  lemma {:induction false} BagRemove<T(!new)>(bag: multiset<T>, f: T -> real, x: T)
    requires x in bag
    ensures BagTotal(bag, f) == f(x) + BagTotal(bag - multiset{x}, f)
    decreases |bag|
  {
    var y :| y in bag && BagTotal(bag, f) == f(y) + BagTotal(bag - multiset{y}, f);
    if y != x {
      BagRemove(bag - multiset{y}, f, x);
      BagRemove(bag - multiset{x}, f, y);
      assert bag - multiset{y} - multiset{x} == bag - multiset{x} - multiset{y};
    }
  }

  lemma HeadBag<T>(s: seq<T>)
    requires s != []
    ensures s[0] in multiset(s) && multiset(s) - multiset{s[0]} == multiset(s[1..])
  {
    assert s == [s[0]] + s[1..];
  }

  ghost function DistanceTo(p: Point): Point -> real { (q: Point) => Distance(q, p) }

  ghost function SeqTotal<T>(s: seq<T>, f: T -> real): real {
    if s == [] then 0.0 else f(s[0]) + SeqTotal(s[1..], f)
  }

  lemma {:induction false} SeqTotalOfBag<T(!new)>(s: seq<T>, f: T -> real)
    ensures SeqTotal(s, f) == BagTotal(multiset(s), f)
    decreases |s|
  {
    if s != [] {
      SeqTotalOfBag(s[1..], f);
      HeadBag(s);
      BagRemove(multiset(s), f, s[0]);
    }
  }

  lemma {:induction false} TotalDistanceOfBag(points: seq<Point>, p: Point)
    ensures TotalDistance(points, p) == SeqTotal(points, DistanceTo(p)) == BagTotal(multiset(points), DistanceTo(p))
    decreases |points|
  {
    if points != [] {
      TotalDistanceOfBag(points[1..], p);
    }
    SeqTotalOfBag(points, DistanceTo(p));
  }

  ghost function SignatureCost(a: Point, b: Point): MemberSignature -> real {
    (s: MemberSignature) =>
      if |s.3| == 0 then 0.0
      else WeightedMean(s.0, Distance(s.2, if s.1 == 0 then a else b),
                        BagTotal(s.3, DistanceTo(if s.1 == 0 then b else a)), |s.3|)
  }

  lemma MemberCostOfSignature(m: Member, a: Point, b: Point)
    requires m.fanins != []
    ensures MemberCost(m, a, b) == SignatureCost(a, b)(SignatureOf(m))
  {
    TotalDistanceOfBag(m.fanins, if m.direction == 0 then b else a);
    assert |multiset(m.fanins)| == |m.fanins|;
  }

  lemma {:induction false} RawCostOfBag(members: seq<Member>, a: Point, b: Point)
    requires forall m :: m in members ==> m.fanins != []
    ensures RawCost(members, a, b) == SeqTotal(MemberSignatures(members), SignatureCost(a, b))
    decreases |members|
  {
    if members != [] {
      RawCostOfBag(members[1..], a, b);
      MemberCostOfSignature(members[0], a, b);
      assert MemberSignatures(members)[1..] == MemberSignatures(members[1..]);
    }
  }

  /** Groups with equal signatures cost the same everywhere. */
  lemma SameSignatureSameCost(g: Group, h: Group, a: Point, b: Point, scale: int)
    requires ValidGroup(g) && ValidGroup(h) && GroupSignature(g) == GroupSignature(h)
    ensures CandidateCost(g, a, b, scale) == CandidateCost(h, a, b, scale)
  {
    RawCostOfBag(g.members, a, b);
    RawCostOfBag(h.members, a, b);
    SeqTotalOfBag(MemberSignatures(g.members), SignatureCost(a, b));
    SeqTotalOfBag(MemberSignatures(h.members), SignatureCost(a, b));
  }
}
