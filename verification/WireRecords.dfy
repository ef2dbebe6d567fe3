// What an accepted binding says about the records, the schedule and the pin plan, field by field.
module WireRecords {
  import opened Sequences
  import opened Wrappers
  import opened WireBinding
  import opened WireSharing

  /** The entry goes from the record's first end to its second one, or back. */
  ghost predicate Forward(d: Design, r: Record, m: nat) {
    m in d.schedule && d.schedule[m].source == r.fpgaA && d.schedule[m].sink == r.fpgaB
  }

  ghost predicate Backward(d: Design, r: Record, m: nat) {
    m in d.schedule && d.schedule[m].source == r.fpgaB && d.schedule[m].sink == r.fpgaA
  }

  /** The entry is on the record's wire with a usable ratio and slot. */
  ghost predicate OnWire(d: Design, r: Record, m: nat) {
    && m in d.schedule && m in d.plan && d.schedule[m].link == r.link && d.plan[m] == r.lane
    && d.schedule[m].ratio >= 1 && d.schedule[m].slot >= 0 && (Forward(d, r, m) || Backward(d, r, m))
  }

  ghost function ForwardAt(d: Design, r: Record): set<nat> {
    set p: nat | p < |r.members| && Forward(d, r, r.members[p])
  }

  ghost function BackwardAt(d: Design, r: Record): set<nat> {
    set p: nat | p < |r.members| && Backward(d, r, r.members[p])
  }

  /** All these members have one ratio, and there are no more of them. */
  ghost predicate OneRatioFits(d: Design, r: Record, places: set<nat>)
    requires forall p :: p in places ==> p < |r.members| && r.members[p] in d.schedule
  {
    && (forall p, q :: p in places && q in places ==>
          d.schedule[r.members[p]].ratio == d.schedule[r.members[q]].ratio)
    && (forall p :: p in places ==> |places| <= d.schedule[r.members[p]].ratio)
  }

  ghost predicate MembersInOrder(d: Design, r: Record) {
    && (forall p | 0 <= p < |r.members| :: OnWire(d, r, r.members[p]))
    && (forall p, q | 0 <= p < q < |r.members| :: r.members[p] != r.members[q])
    && (forall p, q | 0 <= p < q < |r.members| :: d.schedule[r.members[p]].slot != d.schedule[r.members[q]].slot)
    && OneRatioFits(d, r, ForwardAt(d, r)) && OneRatioFits(d, r, BackwardAt(d, r))
    && match r.direction
       case AToB => ForwardAt(d, r) != {} && BackwardAt(d, r) == {}
       case BToA => ForwardAt(d, r) == {} && BackwardAt(d, r) != {}
       case Bidirectional => ForwardAt(d, r) != {} && BackwardAt(d, r) != {}
       case Unknown => false
  }

  ghost predicate LinkInOrder(d: Design, r: Record) {
    && r.link in d.links
    && d.links[r.link].endpoints == {r.fpgaA, r.fpgaB} && 0 <= r.lane < d.links[r.link].bitsPerDirection
    && (r.direction == Bidirectional ==>
          d.links[r.link].bankCount == None && d.links[r.link].fullDuplex
          && d.links[r.link].sharing == SharedBidirectional)
  }

  ghost predicate RecordInOrder(d: Design, r: Record) { MembersInOrder(d, r) && LinkInOrder(d, r) && r.electrical }

  /** No package pin of one record is a pin of the other. */
  ghost predicate PinsDiffer(r: Record, s: Record) {
    && (r.fpgaA == s.fpgaA ==> r.pinA != s.pinA) && (r.fpgaA == s.fpgaB ==> r.pinA != s.pinB)
    && (r.fpgaB == s.fpgaA ==> r.pinB != s.pinA) && (r.fpgaB == s.fpgaB ==> r.pinB != s.pinB)
  }

  /** The records have different groups, members and pins, and share a wire only as its two single directions. */
  ghost predicate KeepApart(d: Design, r: Record, s: Record) {
    && r.group != s.group && PinsDiffer(r, s)
    && (forall p, q | 0 <= p < |r.members| && 0 <= q < |s.members| :: r.members[p] != s.members[q])
    && (r.link == s.link && r.lane == s.lane ==>
          && r.link in d.links && d.links[r.link].fullDuplex && d.links[r.link].sharing == PerDirection
          && ((r.direction == AToB && s.direction == BToA) || (r.direction == BToA && s.direction == AToB)))
  }

  ghost predicate BoundSomewhere(records: seq<Record>, m: nat) {
    exists i, p :: 0 <= i < |records| && 0 <= p < |records[i].members| && records[i].members[p] == m
  }

  // ---------------------------------------------------------------------------
  // One record
  // ---------------------------------------------------------------------------

  lemma TravelMeans(d: Design, r: Record, m: nat)
    requires r.fpgaA != r.fpgaB
    ensures TravelOf(d, r, m) == if Forward(d, r, m) then AToB else if Backward(d, r, m) then BToA else Unknown
    ensures !(Forward(d, r, m) && Backward(d, r, m))
    ensures MemberFits(d, r, m) <==> OnWire(d, r, m)
  {
  }

  /** The places of the members that travel one way. */
  ghost function Places(d: Design, r: Record, members: seq<nat>, direction: Direction): set<nat> {
    set p: nat | p < |members| && TravelOf(d, r, members[p]) == direction
  }

  lemma {:induction false} CountIsSize(d: Design, r: Record, members: seq<nat>, direction: Direction)
    ensures Count(d, r, members, direction) == |Places(d, r, members, direction)|
  {
    if members != [] {
      var last := |members| - 1;
      CountIsSize(d, r, members[..last], direction);
      var before := Places(d, r, members[..last], direction);
      if TravelOf(d, r, members[last]) == direction {
        assert Places(d, r, members, direction) == before + {last};
      } else {
        assert Places(d, r, members, direction) == before;
      }
    } else {
      assert Places(d, r, members, direction) == {};
    }
  }

  lemma PlacesMean(d: Design, r: Record)
    requires r.fpgaA != r.fpgaB
    ensures Places(d, r, r.members, AToB) == ForwardAt(d, r) && Places(d, r, r.members, BToA) == BackwardAt(d, r)
  {
    forall p: nat | p < |r.members|
      ensures TravelOf(d, r, r.members[p]) == AToB <==> Forward(d, r, r.members[p])
      ensures TravelOf(d, r, r.members[p]) == BToA <==> Backward(d, r, r.members[p])
    {
      TravelMeans(d, r, r.members[p]);
    }
  }

  ghost predicate AllOnWire(d: Design, r: Record) { forall p | 0 <= p < |r.members| :: OnWire(d, r, r.members[p]) }

  lemma RatiosMean(d: Design, r: Record)
    requires r.fpgaA != r.fpgaB && AllOnWire(d, r)
    ensures RatiosFit(d, r) <==> OneRatioFits(d, r, ForwardAt(d, r)) && OneRatioFits(d, r, BackwardAt(d, r))
  {
    CountIsSize(d, r, r.members, AToB);
    CountIsSize(d, r, r.members, BToA);
    PlacesMean(d, r);
    WaysOfMembers(d, r);
    if RatiosFit(d, r) {
      forall p, q | p in ForwardAt(d, r) && q in ForwardAt(d, r)
        ensures d.schedule[r.members[p]].ratio == d.schedule[r.members[q]].ratio
      {
        assert RatioOf(d, r.members[p]) == RatioOf(d, r.members[q]);
      }
      forall p, q | p in BackwardAt(d, r) && q in BackwardAt(d, r)
        ensures d.schedule[r.members[p]].ratio == d.schedule[r.members[q]].ratio
      {
        assert RatioOf(d, r.members[p]) == RatioOf(d, r.members[q]);
      }
    }
  }

  /** Every member travels one of the two ways. */
  lemma WaysOfMembers(d: Design, r: Record)
    requires r.fpgaA != r.fpgaB && AllOnWire(d, r)
    ensures forall p | 0 <= p < |r.members| ::
              && r.members[p] in d.schedule && RatioOf(d, r.members[p]) == d.schedule[r.members[p]].ratio
              && TravelOf(d, r, r.members[p]) == (if p in ForwardAt(d, r) then AToB else BToA)
              && (p in ForwardAt(d, r) <==> p !in BackwardAt(d, r))
  {
    forall p | 0 <= p < |r.members|
      ensures r.members[p] in d.schedule && RatioOf(d, r.members[p]) == d.schedule[r.members[p]].ratio
      ensures TravelOf(d, r, r.members[p]) == (if p in ForwardAt(d, r) then AToB else BToA)
      ensures p in ForwardAt(d, r) <==> p !in BackwardAt(d, r)
    {
      assert OnWire(d, r, r.members[p]);
      TravelMeans(d, r, r.members[p]);
    }
  }

  lemma DirectionsMean(d: Design, r: Record)
    requires r.fpgaA != r.fpgaB && AllOnWire(d, r)
    ensures DirectionsFit(d, r) && r.direction != Unknown <==>
              match r.direction
              case AToB => ForwardAt(d, r) != {} && BackwardAt(d, r) == {}
              case BToA => ForwardAt(d, r) == {} && BackwardAt(d, r) != {}
              case Bidirectional => ForwardAt(d, r) != {} && BackwardAt(d, r) != {}
              case Unknown => false
  {
    WaysOfMembers(d, r);
    UsesMeans(d, r);
  }

  lemma UsesMeans(d: Design, r: Record)
    requires r.fpgaA != r.fpgaB && AllOnWire(d, r)
    ensures Uses(d, r, AToB) <==> ForwardAt(d, r) != {}
    ensures Uses(d, r, BToA) <==> BackwardAt(d, r) != {}
  {
    PlacesMean(d, r);
    if Uses(d, r, AToB) {
      var p :| 0 <= p < |r.members| && TravelOf(d, r, r.members[p]) == AToB;
      assert p in Places(d, r, r.members, AToB);
    }
    if Uses(d, r, BToA) {
      var p :| 0 <= p < |r.members| && TravelOf(d, r, r.members[p]) == BToA;
      assert p in Places(d, r, r.members, BToA);
    }
  }

  lemma SlotsMean(d: Design, r: Record)
    requires AllOnWire(d, r)
    ensures SlotsDistinct(d, r.members) <==>
              forall p, q | 0 <= p < q < |r.members| :: d.schedule[r.members[p]].slot != d.schedule[r.members[q]].slot
  {
    forall p | 0 <= p < |r.members|
      ensures r.members[p] in d.schedule && SlotOf(d, r.members[p]) == d.schedule[r.members[p]].slot
    {
      assert OnWire(d, r, r.members[p]);
    }
  }

  lemma MembersMean(d: Design, r: Record)
    requires r.fpgaA != r.fpgaB
    ensures MembersInOrder(d, r) <==>
              r.members != [] && Distinct(r.members) && MembersFit(d, r) && r.direction != Unknown
  {
    forall p | 0 <= p < |r.members| ensures MemberFits(d, r, r.members[p]) <==> OnWire(d, r, r.members[p]) {
      TravelMeans(d, r, r.members[p]);
    }
    if AllOnWire(d, r) {
      SlotsMean(d, r);
      RatiosMean(d, r);
      DirectionsMean(d, r);
    }
  }

  /** A record is in order by itself exactly if its fields are. */
  lemma RecordMeans(d: Design, r: Record)
    requires TwoEnded(d)
    ensures RecordFits(d, r) <==> RecordInOrder(d, r)
  {
    if LinkInOrder(d, r) {
      assert |{r.fpgaA}| == 1 && |d.links[r.link].endpoints| == 2;
      assert d.links[r.link].endpoints != {r.fpgaA};
      MembersMean(d, r);
    }
  }

  // ---------------------------------------------------------------------------
  // All records
  // ---------------------------------------------------------------------------

  lemma PinsMean(r: Record, s: Record)
    ensures Pins(r) !! Pins(s) <==> PinsDiffer(r, s)
  {
    assert (r.fpgaA, r.pinA) in Pins(r) && (r.fpgaB, r.pinB) in Pins(r);
    assert (s.fpgaA, s.pinA) in Pins(s) && (s.fpgaB, s.pinB) in Pins(s);
  }

  lemma MembersApart(r: Record, s: Record)
    ensures (forall m :: !(m in r.members && m in s.members)) <==>
              forall p, q | 0 <= p < |r.members| && 0 <= q < |s.members| :: r.members[p] != s.members[q]
  {
    if forall m :: !(m in r.members && m in s.members) {
      forall p, q | 0 <= p < |r.members| && 0 <= q < |s.members| ensures r.members[p] != s.members[q] {
        assert r.members[p] in r.members;
      }
    }
  }

  lemma ApartMeans(d: Design, r: Record, s: Record)
    requires r.direction != Unknown && s.direction != Unknown
    ensures Compatible(d, r, s) <==> KeepApart(d, r, s)
  {
    PinsMean(r, s);
    MembersApart(r, s);
  }

  lemma BoundMeans(records: seq<Record>, m: nat)
    ensures Bound(records, m) <==> BoundSomewhere(records, m)
  {
    if Bound(records, m) {
      var i :| 0 <= i < |records| && m in records[i].members;
      var p :| 0 <= p < |records[i].members| && records[i].members[p] == m;
    }
  }

  /** A binding is accepted exactly if it plans the scheduled entries, every record is in order, no two records repeat
      a group, a member or a package pin or misuse a wire, and every entry is bound. */
  lemma AcceptedIff(d: Design, records: seq<Record>)
    requires TwoEnded(d)
    ensures Accepted(d, records) <==>
              && (forall m :: m in d.plan <==> m in d.schedule)
              && (forall i | 0 <= i < |records| :: RecordInOrder(d, records[i]))
              && (forall i, j | 0 <= i < j < |records| :: KeepApart(d, records[i], records[j]))
              && (forall m :: m in d.schedule ==> BoundSomewhere(records, m))
  {
    PlanMeans(d);
    RecordsMean(d, records);
    forall m ensures Bound(records, m) <==> BoundSomewhere(records, m) {
      BoundMeans(records, m);
    }
  }

  lemma PlanMeans(d: Design)
    ensures d.plan.Keys == d.schedule.Keys <==> forall m :: m in d.plan <==> m in d.schedule
  {
    if forall m :: m in d.plan <==> m in d.schedule {
      assert d.plan.Keys == d.schedule.Keys;
    }
    if d.plan.Keys == d.schedule.Keys {
      forall m ensures m in d.plan <==> m in d.schedule {
        assert m in d.plan.Keys <==> m in d.schedule.Keys;
      }
    }
  }

  lemma RecordsMean(d: Design, records: seq<Record>)
    requires TwoEnded(d)
    ensures FitUpTo(d, records) <==>
              && (forall i | 0 <= i < |records| :: RecordInOrder(d, records[i]))
              && (forall i, j | 0 <= i < j < |records| :: KeepApart(d, records[i], records[j]))
  {
    forall i | 0 <= i < |records| ensures RecordFits(d, records[i]) <==> RecordInOrder(d, records[i]) {
      RecordMeans(d, records[i]);
    }
    if forall i | 0 <= i < |records| :: RecordFits(d, records[i]) {
      forall i, j | 0 <= i < j < |records|
        ensures Compatible(d, records[i], records[j]) <==> KeepApart(d, records[i], records[j])
      {
        assert RecordFits(d, records[i]) && RecordFits(d, records[j]);
        ApartMeans(d, records[i], records[j]);
      }
    }
  }

  /** In an accepted binding, a single-direction record's wire is driven by the source of each of its members. */
  lemma DriverIsSource(d: Design, records: seq<Record>, i: nat, p: nat)
    requires TwoEnded(d) && Accepted(d, records) && i < |records| && p < |records[i].members|
    requires records[i].direction != Bidirectional
    ensures records[i].members[p] in d.schedule && d.schedule[records[i].members[p]].source == Driver(records[i])
  {
    assert RecordFits(d, records[i]);
    DriverOfMember(d, records[i], p);
  }

  lemma DriverOfMember(d: Design, r: Record, p: nat)
    requires TwoEnded(d) && RecordFits(d, r) && p < |r.members| && r.direction != Bidirectional
    ensures r.members[p] in d.schedule && d.schedule[r.members[p]].source == Driver(r)
  {
    EndsDiffer(d, r);
    assert MemberFits(d, r, r.members[p]) && TravelOf(d, r, r.members[p]) == r.direction;
  }

  /** The pin plan is free of collisions exactly if no two entries share link, lane and slot, and the way they go
      where a link has lanes for each. */
  lemma CollisionFreeIff(d: Design)
    requires Planned(d)
    ensures CollisionFree(d) <==>
              forall m, n | m in d.schedule && n in d.schedule && m != n ::
                var e, f := d.schedule[m], d.schedule[n];
                !(e.link == f.link && d.plan[m] == d.plan[n] && e.slot == f.slot
                  && (d.links[e.link].sharing == SharedBidirectional || (e.source == f.source && e.sink == f.sink)))
  {
    forall m, n | m in d.schedule && n in d.schedule && m != n
      ensures var e, f := d.schedule[m], d.schedule[n];
              PlaceOf(d, m) == PlaceOf(d, n) <==>
                e.link == f.link && d.plan[m] == d.plan[n] && e.slot == f.slot
                && (d.links[e.link].sharing == SharedBidirectional || (e.source == f.source && e.sink == f.sink))
    {
    }
  }
}
