// Validating the electrical binding of TDM groups to physical lanes and package pins.
module WireBinding {
  import opened Sequences
  import opened Wrappers

  datatype Direction = AToB | BToA | Bidirectional | Unknown

  datatype Sharing = PerDirection | SharedBidirectional

  datatype Link = Link(endpoints: set<nat>, bitsPerDirection: int, bankCount: Option<int>, fullDuplex: bool,
                       sharing: Sharing)

  datatype Entry = Entry(source: nat, sink: nat, link: nat, slot: int, ratio: int)

  /** One bound group; `electrical` says whether its bank, voltage and pin position checks pass. */
  datatype Record = Record(group: nat, members: seq<nat>, link: nat, fpgaA: nat, fpgaB: nat, lane: int,
                           direction: Direction, pinA: nat, pinB: nat, electrical: bool)

  datatype Design = Design(schedule: map<nat, Entry>, plan: map<nat, int>, links: map<nat, Link>)

  // ---------------------------------------------------------------------------
  // What is accepted
  // ---------------------------------------------------------------------------

  /** The direction a scheduled entry takes over the record's endpoints. */
  function Travel(e: Entry, r: Record): Direction {
    if e.source == r.fpgaA && e.sink == r.fpgaB then AToB
    else if e.source == r.fpgaB && e.sink == r.fpgaA then BToA
    else Unknown
  }

  predicate MemberFits(d: Design, r: Record, m: nat) {
    && m in d.schedule && m in d.plan
    && Travel(d.schedule[m], r) != Unknown && d.schedule[m].ratio >= 1 && d.schedule[m].slot >= 0
    && d.schedule[m].link == r.link && d.plan[m] == r.lane
  }

  function TravelOf(d: Design, r: Record, m: nat): Direction {
    if m in d.schedule then Travel(d.schedule[m], r) else Unknown
  }

  function SlotOf(d: Design, m: nat): int { if m in d.schedule then d.schedule[m].slot else -1 }

  function RatioOf(d: Design, m: nat): int { if m in d.schedule then d.schedule[m].ratio else 1 }

  function Count(d: Design, r: Record, members: seq<nat>, direction: Direction): nat {
    if members == [] then 0
    else
      Count(d, r, members[..|members| - 1], direction)
      + if TravelOf(d, r, members[|members| - 1]) == direction then 1 else 0
  }

  /** One ratio for each direction in use, no exceeded ratio, and the directions the record announces. */
  ghost predicate RatiosFit(d: Design, r: Record) {
    && (forall p, q | 0 <= p < |r.members| && 0 <= q < |r.members| ::
          TravelOf(d, r, r.members[p]) == TravelOf(d, r, r.members[q]) ==>
            RatioOf(d, r.members[p]) == RatioOf(d, r.members[q]))
    && (forall p | 0 <= p < |r.members| ::
        Count(d, r, r.members, TravelOf(d, r, r.members[p])) <= RatioOf(d, r.members[p]))
  }

  ghost predicate Uses(d: Design, r: Record, direction: Direction) {
    exists p :: 0 <= p < |r.members| && TravelOf(d, r, r.members[p]) == direction
  }

  ghost predicate DirectionsFit(d: Design, r: Record) {
    if r.direction == Bidirectional then Uses(d, r, AToB) && Uses(d, r, BToA)
    else Uses(d, r, r.direction) && forall p | 0 <= p < |r.members| :: TravelOf(d, r, r.members[p]) == r.direction
  }

  ghost predicate SlotsDistinct(d: Design, members: seq<nat>) {
    forall p, q | 0 <= p < q < |members| :: SlotOf(d, members[p]) != SlotOf(d, members[q])
  }

  ghost predicate MembersFit(d: Design, r: Record) {
    && (forall p | 0 <= p < |r.members| :: MemberFits(d, r, r.members[p]))
    && SlotsDistinct(d, r.members) && RatiosFit(d, r) && DirectionsFit(d, r)
  }

  predicate LinkFits(d: Design, r: Record) {
    && r.link in d.links && d.links[r.link].endpoints == {r.fpgaA, r.fpgaB}
    && 0 <= r.lane < d.links[r.link].bitsPerDirection
    && r.direction != Unknown
    && (r.direction == Bidirectional ==>
          && d.links[r.link].bankCount.None? && d.links[r.link].fullDuplex
          && d.links[r.link].sharing == SharedBidirectional)
  }

  /** The record by itself is in order. */
  ghost predicate RecordFits(d: Design, r: Record) {
    r.members != [] && Distinct(r.members) && LinkFits(d, r) && MembersFit(d, r) && r.electrical
  }

  ghost predicate SameWire(r: Record, s: Record) { r.link == s.link && r.lane == s.lane }

  /** A wire is used twice only in both single directions of a link that has wires for each. */
  ghost predicate MayShareWire(d: Design, r: Record, s: Record) {
    && r.direction != s.direction && r.direction != Bidirectional && s.direction != Bidirectional
    && r.link in d.links && d.links[r.link].fullDuplex && d.links[r.link].sharing == PerDirection
  }

  ghost predicate Compatible(d: Design, r: Record, s: Record) {
    && r.group != s.group
    && (forall m :: !(m in r.members && m in s.members))
    && (SameWire(r, s) ==> MayShareWire(d, r, s))
    && Pins(r) !! Pins(s)
  }

  function Pins(r: Record): set<(nat, nat)> { {(r.fpgaA, r.pinA), (r.fpgaB, r.pinB)} }

  ghost predicate Bound(records: seq<Record>, m: nat) { exists i :: 0 <= i < |records| && m in records[i].members }

  ghost predicate FitUpTo(d: Design, records: seq<Record>) {
    && (forall i | 0 <= i < |records| :: RecordFits(d, records[i]))
    && (forall i, j | 0 <= i < j < |records| :: Compatible(d, records[i], records[j]))
  }

  /** Every record is in order, no two get in each other's way, and every scheduled entry is bound. */
  ghost predicate Accepted(d: Design, records: seq<Record>) {
    d.plan.Keys == d.schedule.Keys && FitUpTo(d, records) && forall m :: m in d.schedule ==> Bound(records, m)
  }

  // ---------------------------------------------------------------------------
  // Validation of one record
  // ---------------------------------------------------------------------------

  ghost function TravelsOf(d: Design, r: Record, members: seq<nat>): set<Direction> {
    set m | m in members :: TravelOf(d, r, m)
  }

  ghost function SlotSet(d: Design, members: seq<nat>): set<int> { set m | m in members :: SlotOf(d, m) }

  ghost function RatioSet(d: Design, r: Record, members: seq<nat>, direction: Direction): set<int> {
    set m | m in members && TravelOf(d, r, m) == direction :: RatioOf(d, m)
  }

  datatype Tally = Tally(travels: set<Direction>, slots: set<int>, ratios: map<Direction, set<int>>,
                         counts: map<Direction, nat>) {
    function Add(travel: Direction, slot: int, ratio: int): Tally
      requires travel in ratios && travel in counts
    {
      Tally(travels + {travel}, slots + {slot}, ratios[travel := ratios[travel] + {ratio}],
            counts[travel := counts[travel] + 1])
    }
  }

  ghost predicate Tallies(d: Design, r: Record, members: seq<nat>, t: Tally) {
    && t.travels == TravelsOf(d, r, members) && t.slots == SlotSet(d, members)
    && t.ratios.Keys == {AToB, BToA} && t.counts.Keys == {AToB, BToA}
    && (forall direction :: direction in t.ratios ==> t.ratios[direction] == RatioSet(d, r, members, direction))
    && (forall direction :: direction in t.counts ==> t.counts[direction] == Count(d, r, members, direction))
  }

  lemma TallyNext(d: Design, r: Record, members: seq<nat>, t: Tally, m: nat)
    requires Tallies(d, r, members, t) && MemberFits(d, r, m)
    ensures TravelOf(d, r, m) in t.ratios && TravelOf(d, r, m) in t.counts
    ensures Tallies(d, r, members + [m], t.Add(TravelOf(d, r, m), SlotOf(d, m), RatioOf(d, m)))
  {
    var after := t.Add(TravelOf(d, r, m), SlotOf(d, m), RatioOf(d, m));
    var longer, travel := members + [m], TravelOf(d, r, m);
    assert longer[..|members|] == members;
    assert forall n :: n in longer <==> n in members || n == m;
    forall direction | direction in after.ratios ensures after.ratios[direction] == RatioSet(d, r, longer, direction) {
      assert RatioSet(d, r, longer, direction) ==
             RatioSet(d, r, members, direction) + if direction == travel then {RatioOf(d, m)} else {};
    }
  }

  lemma SlotNext(d: Design, members: seq<nat>, p: nat)
    requires p < |members| && SlotsDistinct(d, members[..p])
    ensures SlotsDistinct(d, members[..p + 1]) <==> SlotOf(d, members[p]) !in SlotSet(d, members[..p])
    ensures SlotOf(d, members[p]) in SlotSet(d, members[..p]) ==> !SlotsDistinct(d, members)
  {
    if SlotOf(d, members[p]) in SlotSet(d, members[..p]) {
      var n :| n in members[..p] && SlotOf(d, n) == SlotOf(d, members[p]);
      var q :| 0 <= q < p && members[q] == n;
      assert members[..p + 1][q] == n && members[..p + 1][p] == members[p];
    } else {
      forall q | 0 <= q < p ensures SlotOf(d, members[q]) != SlotOf(d, members[p]) {
        assert members[q] in members[..p];
      }
    }
  }

  /** Goes through the members of a record; stops at one that does not fit. */
  method TallyMembers(d: Design, r: Record) returns (tally: Tally, fits: bool)
    ensures fits <==> (forall p | 0 <= p < |r.members| :: MemberFits(d, r, r.members[p])) && SlotsDistinct(d, r.members)
    ensures fits ==> Tallies(d, r, r.members, tally)
  {
    tally := Tally({}, {}, map[AToB := {}, BToA := {}], map[AToB := 0, BToA := 0]);
    for p := 0 to |r.members|
      invariant forall q | 0 <= q < p :: MemberFits(d, r, r.members[q])
      invariant SlotsDistinct(d, r.members[..p]) && Tallies(d, r, r.members[..p], tally)
    {
      var m := r.members[p];
      TakeNext(r.members, p);
      if !MemberFits(d, r, m) {
        return tally, false;
      }
      assert forall q | 0 <= q < p + 1 :: MemberFits(d, r, r.members[q]);
      SlotNext(d, r.members, p);
      if SlotOf(d, m) in tally.slots {
        return tally, false;
      }
      TallyNext(d, r, r.members[..p], tally, m);
      tally := tally.Add(TravelOf(d, r, m), SlotOf(d, m), RatioOf(d, m));
    }
    assert r.members[..|r.members|] == r.members;
    fits := true;
  }

  /** The tallied ratios are single and large enough. */
  predicate TallyRatiosFit(t: Tally)
    requires t.travels <= t.ratios.Keys && t.ratios.Keys == t.counts.Keys
  {
    forall direction | direction in t.travels :: OneRatio(t.ratios[direction], t.counts[direction])
  }

  predicate OneRatio(ratios: set<int>, count: nat) { |ratios| == 1 && forall ratio | ratio in ratios :: count <= ratio }

  lemma SingletonSet<T>(s: set<T>, x: T)
    requires x in s
    ensures |s| == 1 <==> forall y :: y in s ==> y == x
  {
    if |s| == 1 {
      forall y | y in s ensures y == x {
        SmallerSet(s, x, y);
      }
    }
    if forall y :: y in s ==> y == x {
      assert s == {x};
    }
  }

  lemma SmallerSet<T>(s: set<T>, x: T, y: T)
    requires x in s && y in s && |s| == 1
    ensures x == y
  {
    assert |s - {x}| == 0;
    assert y !in s - {x};
  }

  lemma RatiosTallied(d: Design, r: Record, t: Tally)
    requires Tallies(d, r, r.members, t) && t.travels <= t.ratios.Keys
    ensures TallyRatiosFit(t) <==> RatiosFit(d, r)
  {
    if TallyRatiosFit(t) {
      forall p, q | 0 <= p < |r.members| && 0 <= q < |r.members|
        && TravelOf(d, r, r.members[p]) == TravelOf(d, r, r.members[q])
        ensures RatioOf(d, r.members[p]) == RatioOf(d, r.members[q])
      {
        RatioInSet(d, r, t, p);
        RatioInSet(d, r, t, q);
        SingletonSet(t.ratios[TravelOf(d, r, r.members[p])], RatioOf(d, r.members[p]));
      }
      forall p | 0 <= p < |r.members|
        ensures Count(d, r, r.members, TravelOf(d, r, r.members[p])) <= RatioOf(d, r.members[p])
      {
        CountWithin(d, r, t, p);
      }
    }
    if RatiosFit(d, r) {
      forall direction | direction in t.travels
        ensures OneRatio(t.ratios[direction], t.counts[direction])
      {
        RatioOfDirection(d, r, t, direction);
      }
    }
  }

  lemma RatioInSet(d: Design, r: Record, t: Tally, p: nat)
    requires Tallies(d, r, r.members, t) && t.travels <= t.ratios.Keys && p < |r.members|
    ensures TravelOf(d, r, r.members[p]) in t.travels
            && RatioOf(d, r.members[p]) in t.ratios[TravelOf(d, r, r.members[p])]
  {
    assert r.members[p] in r.members;
  }

  lemma CountWithin(d: Design, r: Record, t: Tally, p: nat)
    requires Tallies(d, r, r.members, t) && t.travels <= t.ratios.Keys && TallyRatiosFit(t) && p < |r.members|
    ensures Count(d, r, r.members, TravelOf(d, r, r.members[p])) <= RatioOf(d, r.members[p])
  {
    RatioInSet(d, r, t, p);
    var direction := TravelOf(d, r, r.members[p]);
    assert direction in t.counts && t.counts[direction] == Count(d, r, r.members, direction);
    assert OneRatio(t.ratios[direction], t.counts[direction]);
  }

  lemma RatioOfDirection(d: Design, r: Record, t: Tally, direction: Direction)
    requires Tallies(d, r, r.members, t) && t.travels <= t.ratios.Keys && RatiosFit(d, r) && direction in t.travels
    ensures OneRatio(t.ratios[direction], t.counts[direction])
  {
    var m :| m in r.members && TravelOf(d, r, m) == direction;
    var p :| 0 <= p < |r.members| && r.members[p] == m;
    RatioInSet(d, r, t, p);
    forall ratio | ratio in t.ratios[direction] ensures ratio == RatioOf(d, m) {
      var n :| n in r.members && TravelOf(d, r, n) == direction && RatioOf(d, n) == ratio;
      var q :| 0 <= q < |r.members| && r.members[q] == n;
    }
    SingletonSet(t.ratios[direction], RatioOf(d, m));
  }

  predicate TallyDirectionsFit(t: Tally, direction: Direction) {
    if direction == Bidirectional then t.travels == {AToB, BToA} else t.travels == {direction}
  }

  lemma UsesTallied(d: Design, r: Record, direction: Direction)
    ensures direction in TravelsOf(d, r, r.members) <==> Uses(d, r, direction)
  {
    if direction in TravelsOf(d, r, r.members) {
      var m :| m in r.members && TravelOf(d, r, m) == direction;
      var p :| 0 <= p < |r.members| && r.members[p] == m;
    }
    if Uses(d, r, direction) {
      var p :| 0 <= p < |r.members| && TravelOf(d, r, r.members[p]) == direction;
      assert r.members[p] in r.members;
    }
  }

  lemma DirectionsTallied(d: Design, r: Record, t: Tally)
    requires Tallies(d, r, r.members, t) && forall p | 0 <= p < |r.members| :: MemberFits(d, r, r.members[p])
    ensures TallyDirectionsFit(t, r.direction) <==> DirectionsFit(d, r)
    ensures t.travels <= t.ratios.Keys
  {
    forall direction ensures direction in t.travels <==> Uses(d, r, direction) {
      UsesTallied(d, r, direction);
    }
    forall p | 0 <= p < |r.members| ensures TravelOf(d, r, r.members[p]) in t.travels {
      assert r.members[p] in r.members;
    }
  }

  method ValidateMembers(d: Design, r: Record) returns (fits: bool)
    ensures fits <==> MembersFit(d, r)
  {
    var tally;
    tally, fits := TallyMembers(d, r);
    if fits {
      DirectionsTallied(d, r, tally);
      RatiosTallied(d, r, tally);
      fits := TallyRatiosFit(tally) && TallyDirectionsFit(tally, r.direction);
    }
  }

  // ---------------------------------------------------------------------------
  // Validation of all records
  // ---------------------------------------------------------------------------

  function Lookup(uses: map<(nat, int), set<Direction>>, wire: (nat, int)): set<Direction> {
    if wire in uses then uses[wire] else {}
  }

  /** What the records seen so far occupy. */
  datatype State = State(groups: set<nat>, covered: set<nat>, lanes: set<(nat, Direction, int)>,
                         uses: map<(nat, int), set<Direction>>, pins: set<(nat, nat)>) {
    function Add(r: Record): State {
      State(groups + {r.group}, covered + Elements(r.members), lanes + {(r.link, r.direction, r.lane)},
            uses[(r.link, r.lane) := Lookup(uses, (r.link, r.lane)) + {r.direction}], pins + Pins(r))
    }

    predicate WireFree(d: Design, r: Record) {
      && (r.link, r.direction, r.lane) !in lanes
      && (Lookup(uses, (r.link, r.lane)) != {} ==>
            && r.direction != Bidirectional && Bidirectional !in Lookup(uses, (r.link, r.lane))
            && r.link in d.links && d.links[r.link].fullDuplex && d.links[r.link].sharing == PerDirection)
    }
  }

  ghost predicate HasGroup(records: seq<Record>, group: nat) {
    exists i :: 0 <= i < |records| && records[i].group == group
  }

  ghost predicate HasLane(records: seq<Record>, link: nat, direction: Direction, lane: int) {
    exists i ::
      0 <= i < |records| && records[i].link == link && records[i].direction == direction && records[i].lane == lane
  }

  ghost predicate HasPin(records: seq<Record>, pin: (nat, nat)) {
    exists i :: 0 <= i < |records| && pin in Pins(records[i])
  }

  ghost predicate Occupies(records: seq<Record>, s: State) {
    && (forall group :: group in s.groups <==> HasGroup(records, group))
    && (forall m :: m in s.covered <==> Bound(records, m))
    && (forall link: nat, direction, lane ::
        (link, direction, lane) in s.lanes <==> HasLane(records, link, direction, lane))
    && (forall link: nat, direction, lane ::
        direction in Lookup(s.uses, (link, lane)) <==> HasLane(records, link, direction, lane))
    && (forall pin :: pin in s.pins <==> HasPin(records, pin))
  }

  lemma OccupiesNext(records: seq<Record>, s: State, r: Record)
    requires Occupies(records, s)
    ensures Occupies(records + [r], s.Add(r))
  {
    var longer, t := records + [r], s.Add(r);
    forall group: nat ensures group in t.groups <==> HasGroup(longer, group) { GrowGroup(records, r, group); }
    forall m: nat ensures m in t.covered <==> Bound(longer, m) { GrowBound(records, r, m); }
    forall link: nat, direction, lane ensures HasLane(longer, link, direction, lane)
                                         <==> (HasLane(records, link, direction, lane)
                                               || (r.link == link && r.direction == direction && r.lane == lane)) {
      GrowLane(records, r, link, direction, lane);
    }
    forall pin: (nat, nat) ensures pin in t.pins <==> HasPin(longer, pin) { GrowPin(records, r, pin); }
  }

  lemma GrowGroup(records: seq<Record>, r: Record, group: nat)
    ensures HasGroup(records + [r], group) <==> HasGroup(records, group) || r.group == group
  {
    var longer := records + [r];
    assert longer[|records|] == r;
    if HasGroup(records, group) {
      var i :| 0 <= i < |records| && records[i].group == group;
      assert longer[i] == records[i];
    }
  }

  lemma GrowBound(records: seq<Record>, r: Record, m: nat)
    ensures Bound(records + [r], m) <==> Bound(records, m) || m in r.members
  {
    var longer := records + [r];
    assert longer[|records|] == r;
    if Bound(records, m) {
      var i :| 0 <= i < |records| && m in records[i].members;
      assert longer[i] == records[i];
    }
  }

  lemma GrowLane(records: seq<Record>, r: Record, link: nat, direction: Direction, lane: int)
    ensures HasLane(records + [r], link, direction, lane)
            <==> (HasLane(records, link, direction, lane)
                  || (r.link == link && r.direction == direction && r.lane == lane))
  {
    var longer := records + [r];
    assert longer[|records|] == r;
    if HasLane(records, link, direction, lane) {
      var i :| 0 <= i < |records| && records[i].link == link
            && records[i].direction == direction && records[i].lane == lane;
      assert longer[i] == records[i];
    }
  }

  lemma GrowPin(records: seq<Record>, r: Record, pin: (nat, nat))
    ensures HasPin(records + [r], pin) <==> HasPin(records, pin) || pin in Pins(r)
  {
    var longer := records + [r];
    assert longer[|records|] == r;
    if HasPin(records, pin) {
      var i :| 0 <= i < |records| && pin in Pins(records[i]);
      assert longer[i] == records[i];
    }
  }

  predicate Free(d: Design, s: State, r: Record) {
    r.group !in s.groups && Elements(r.members) !! s.covered && s.WireFree(d, r) && Pins(r) !! s.pins
  }

  /** Looking a record up in the state compares it with every record before. */
  lemma FreeIffCompatible(d: Design, records: seq<Record>, s: State, r: Record)
    requires Occupies(records, s)
    ensures Free(d, s, r) <==> forall i | 0 <= i < |records| :: Compatible(d, records[i], r)
  {
    if Free(d, s, r) {
      forall i | 0 <= i < |records| ensures Compatible(d, records[i], r) {
        FreeOf(d, records, s, r, i);
      }
    }
    if forall i | 0 <= i < |records| :: Compatible(d, records[i], r) {
      forall m | m in Elements(r.members) ensures m !in s.covered {
        assert m in r.members;
      }
      WireFreeOf(d, records, s, r);
    }
  }

  lemma FreeOf(d: Design, records: seq<Record>, s: State, r: Record, i: nat)
    requires Occupies(records, s) && Free(d, s, r) && i < |records|
    ensures Compatible(d, records[i], r)
  {
    var q := records[i];
    assert HasGroup(records, q.group);
    forall m ensures !(m in q.members && m in r.members) {
      assert m in q.members ==> Bound(records, m);
      assert m in r.members ==> m in Elements(r.members);
    }
    assert HasLane(records, q.link, q.direction, q.lane);
    forall pin | pin in Pins(q) ensures pin !in Pins(r) {
      assert HasPin(records, pin);
    }
  }

  lemma WireFreeOf(d: Design, records: seq<Record>, s: State, r: Record)
    requires Occupies(records, s) && forall i | 0 <= i < |records| :: Compatible(d, records[i], r)
    ensures s.WireFree(d, r)
  {
    var existing := Lookup(s.uses, (r.link, r.lane));
    forall direction | direction in existing ensures direction != r.direction && MayShare(d, r, direction) {
      var i :| 0 <= i < |records| && records[i].link == r.link
            && records[i].direction == direction && records[i].lane == r.lane;
      assert Compatible(d, records[i], r);
    }
    forall i | 0 <= i < |records| && records[i].link == r.link && records[i].lane == r.lane
      ensures records[i].direction != r.direction
    {
      assert Compatible(d, records[i], r);
    }
    if existing != {} {
      var direction :| direction in existing;
      assert MayShare(d, r, direction);
    }
  }

  ghost predicate MayShare(d: Design, r: Record, direction: Direction) {
    && r.direction != Bidirectional && direction != Bidirectional
    && r.link in d.links && d.links[r.link].fullDuplex && d.links[r.link].sharing == PerDirection
  }

  method ValidateRecord(d: Design, ghost records: seq<Record>, s: State, r: Record) returns (fits: bool)
    requires Occupies(records, s)
    ensures fits <==> FitsWithAll(d, records, r)
  {
    FreeIffCompatible(d, records, s, r);
    DistinctSize(r.members);
    if r.group in s.groups || r.members == [] || |Elements(r.members)| != |r.members|
         || !(Elements(r.members) !! s.covered) {
      return false;
    }
    if !LinkFits(d, r) || !s.WireFree(d, r) {
      return false;
    }
    var members := ValidateMembers(d, r);
    fits := members && Pins(r) !! s.pins && r.electrical;
  }

  /** Accepts exactly the bindings whose records are in order, keep out of each other's way and cover the schedule. */
  method ValidateBinding(d: Design, records: seq<Record>) returns (accepted: bool)
    ensures accepted <==> Accepted(d, records)
  {
    if d.plan.Keys != d.schedule.Keys {
      return false;
    }
    var s := State({}, {}, {}, map[], {});
    for i := 0 to |records|
      invariant FitUpTo(d, records[..i]) && Occupies(records[..i], s)
    {
      TakeNext(records, i);
      var fits := ValidateRecord(d, records[..i], s, records[i]);
      FitNext(d, records, i);
      if !fits {
        return false;
      }
      OccupiesNext(records[..i], s, records[i]);
      s := s.Add(records[i]);
    }
    assert records[..|records|] == records;
    CoverageChecked(d, records, s);
    accepted := s.covered == d.schedule.Keys;
  }

  ghost predicate FitsWithAll(d: Design, records: seq<Record>, r: Record) {
    RecordFits(d, r) && forall i | 0 <= i < |records| :: Compatible(d, records[i], r)
  }

  lemma FitNext(d: Design, records: seq<Record>, i: nat)
    requires i < |records| && FitUpTo(d, records[..i])
    ensures FitUpTo(d, records[..i + 1]) <==> FitsWithAll(d, records[..i], records[i])
    ensures !FitUpTo(d, records[..i + 1]) ==> !Accepted(d, records)
  {
    var before, upTo, r := records[..i], records[..i + 1], records[i];
    assert upTo[i] == r && forall j | 0 <= j < i :: upTo[j] == before[j];
  }

  lemma CoverageChecked(d: Design, records: seq<Record>, s: State)
    requires FitUpTo(d, records) && Occupies(records, s)
    ensures s.covered == d.schedule.Keys <==> forall m :: m in d.schedule ==> Bound(records, m)
  {
    forall m | m in s.covered ensures m in d.schedule {
      var i :| 0 <= i < |records| && m in records[i].members;
      assert RecordFits(d, records[i]);
      var p :| 0 <= p < |records[i].members| && records[i].members[p] == m;
      assert MemberFits(d, records[i], records[i].members[p]);
    }
  }

  // ---------------------------------------------------------------------------
  // What acceptance guarantees
  // ---------------------------------------------------------------------------

  ghost function AllMembers(records: seq<Record>): multiset<nat> {
    if records == [] then multiset{}
    else AllMembers(records[..|records| - 1]) + multiset(records[|records| - 1].members)
  }

  lemma {:induction false} DistinctCount(s: seq<nat>, x: nat)
    requires Distinct(s)
    ensures multiset(s)[x] == if x in s then 1 else 0
  {
    if s != [] {
      DistinctCount(s[..|s| - 1], x);
      SplitLast(s);
    }
  }

  lemma {:induction false} BoundOnce(d: Design, records: seq<Record>, m: nat)
    requires FitUpTo(d, records)
    ensures AllMembers(records)[m] == if Bound(records, m) then 1 else 0
  {
    if records != [] {
      var last := |records| - 1;
      FitNext(d, records, last);
      BoundOnce(d, records[..last], m);
      SplitLast(records);
      GrowBound(records[..last], records[last], m);
      DistinctCount(records[last].members, m);
      if Bound(records[..last], m) {
        var i :| 0 <= i < last && m in records[..last][i].members;
        assert Compatible(d, records[i], records[last]);
      }
    }
  }

  /** The groups partition the schedule: every entry is a member exactly once. */
  lemma EveryEntryBoundOnce(d: Design, records: seq<Record>)
    requires Accepted(d, records)
    ensures AllMembers(records) == multiset(d.schedule.Keys)
  {
    var a, b := AllMembers(records), multiset(d.schedule.Keys);
    forall m ensures a[m] == b[m] {
      BoundOnce(d, records, m);
      if Bound(records, m) {
        BoundIsScheduled(d, records, m);
      }
    }
    EqualCounts(a, b);
  }

  lemma BoundIsScheduled(d: Design, records: seq<Record>, m: nat)
    requires FitUpTo(d, records) && Bound(records, m)
    ensures m in d.schedule
  {
    var i :| 0 <= i < |records| && m in records[i].members;
    assert RecordFits(d, records[i]);
    var p :| 0 <= p < |records[i].members| && records[i].members[p] == m;
    assert MemberFits(d, records[i], records[i].members[p]);
  }

  /** Every link joins two devices. */
  ghost predicate TwoEnded(d: Design) { forall link :: link in d.links ==> |d.links[link].endpoints| == 2 }

  ghost function AllPins(records: seq<Record>): set<(nat, nat)> {
    if records == [] then {} else AllPins(records[..|records| - 1]) + Pins(records[|records| - 1])
  }

  lemma EndsDiffer(d: Design, r: Record)
    requires TwoEnded(d) && LinkFits(d, r)
    ensures r.fpgaA != r.fpgaB
  {
    assert |{r.fpgaA}| == 1 && |d.links[r.link].endpoints| == 2;
    assert d.links[r.link].endpoints != {r.fpgaA};
  }

  lemma PinFree(d: Design, records: seq<Record>, r: Record, pin: (nat, nat))
    requires FitsWithAll(d, records, r) && HasPin(records, pin)
    ensures pin !in Pins(r)
  {
    var i :| 0 <= i < |records| && pin in Pins(records[i]);
    assert Compatible(d, records[i], r);
  }

  /** No package pin is used twice: the records take two pins each. */
  lemma {:induction false} PinsNeverRepeat(d: Design, records: seq<Record>)
    requires TwoEnded(d) && FitUpTo(d, records)
    ensures |AllPins(records)| == 2 * |records| && forall pin :: pin in AllPins(records) <==> HasPin(records, pin)
  {
    if records != [] {
      var last := |records| - 1;
      var before, r := records[..last], records[last];
      FitNext(d, records, last);
      PinsNeverRepeat(d, before);
      SplitLast(records);
      EndsDiffer(d, r);
      assert |Pins(r)| == 2;
      forall pin ensures pin in AllPins(records) <==> HasPin(records, pin) {
        GrowPin(before, r, pin);
      }
      forall pin | pin in AllPins(before) ensures pin !in Pins(r) {
        PinFree(d, before, r, pin);
      }
      assert AllPins(before) !! Pins(r);
    }
  }
}
