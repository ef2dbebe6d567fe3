// When two entries may use one wire in one slot, and which of the two validators makes sure of it.
module WireSharing {
  import opened Sequences
  import opened Wrappers
  import opened WireBinding

  // ---------------------------------------------------------------------------
  // Collisions in the pin plan
  // ---------------------------------------------------------------------------

  /** The wire, slot and way an entry travels; a wire that both directions share has no way of its own. */
  datatype Place = Place(link: nat, way: Option<(nat, nat)>, lane: int, slot: int)

  function PlaceOf(d: Design, m: nat): Place
    requires m in d.schedule && m in d.plan && d.schedule[m].link in d.links
  {
    var e := d.schedule[m];
    var way := if d.links[e.link].sharing == SharedBidirectional then None else Some((e.source, e.sink));
    Place(e.link, way, d.plan[m], e.slot)
  }

  ghost predicate Planned(d: Design) {
    d.plan.Keys == d.schedule.Keys && forall m :: m in d.schedule ==> d.schedule[m].link in d.links
  }

  /** No two entries are at one place. */
  ghost predicate CollisionFree(d: Design)
    requires Planned(d)
  {
    forall m, n :: m in d.schedule && n in d.schedule && m != n ==> PlaceOf(d, m) != PlaceOf(d, n)
  }

  ghost predicate PlacesDistinct(d: Design, entries: seq<nat>)
    requires Planned(d) && forall m :: m in entries ==> m in d.schedule
  {
    forall i, j | 0 <= i < j < |entries| :: PlaceOf(d, entries[i]) != PlaceOf(d, entries[j])
  }

  /** The collision check of the pin plan, which runs before the binding is validated. */
  method CheckCollisions(d: Design, entries: seq<nat>) returns (free: bool)
    requires Planned(d) && Distinct(entries) && Elements(entries) == d.schedule.Keys
    ensures free <==> CollisionFree(d)
  {
    assert forall m :: m in entries <==> m in Elements(entries);
    var places: set<Place> := {};
    for i := 0 to |entries|
      invariant forall place :: place in places <==> exists j :: 0 <= j < i && PlaceOf(d, entries[j]) == place
      invariant forall j, k | 0 <= j < k < i :: PlaceOf(d, entries[j]) != PlaceOf(d, entries[k])
    {
      var place := PlaceOf(d, entries[i]);
      if place in places {
        return false;
      }
      places := places + {place};
    }
    PlacesOfEntries(d, entries);
    free := true;
  }

  lemma PlacesOfEntries(d: Design, entries: seq<nat>)
    requires Planned(d) && Elements(entries) == d.schedule.Keys && (forall m :: m in entries ==> m in d.schedule)
    requires PlacesDistinct(d, entries)
    ensures CollisionFree(d)
  {
    forall m, n | m in d.schedule && n in d.schedule && m != n ensures PlaceOf(d, m) != PlaceOf(d, n) {
      assert m in Elements(entries) && n in Elements(entries);
      var i, j :| 0 <= i < |entries| && 0 <= j < |entries| && entries[i] == m && entries[j] == n;
      assert i < j || j < i;
    }
  }

  // ---------------------------------------------------------------------------
  // Drivers of a wire
  // ---------------------------------------------------------------------------

  /** The device that drives the wire of a single-direction record. */
  function Driver(r: Record): nat { if r.direction == AToB then r.fpgaA else r.fpgaB }

  /** Records on one wire name its ends in the same order. */
  ghost predicate Aligned(records: seq<Record>) {
    forall i, j | 0 <= i < j < |records| && SameWire(records[i], records[j]) :: records[i].fpgaA == records[j].fpgaA
  }

  ghost predicate DriversDiffer(records: seq<Record>) {
    forall i, j | 0 <= i < j < |records| && SameWire(records[i], records[j]) :: Driver(records[i]) != Driver(records[j])
  }

  lemma SharedWire(d: Design, r: Record, s: Record)
    requires TwoEnded(d) && RecordFits(d, r) && RecordFits(d, s) && Compatible(d, r, s) && SameWire(r, s)
    ensures r.fpgaA == s.fpgaA <==> Driver(r) != Driver(s)
  {
    EndsDiffer(d, r);
    EndsDiffer(d, s);
    assert s.fpgaA in d.links[r.link].endpoints && s.fpgaB in d.links[r.link].endpoints;
  }

  /** An accepted binding never lets two groups drive one wire from the same end exactly if its
      records name the ends of a wire in the same order, which validation does not ask of them. */
  lemma DriversDifferIffAligned(d: Design, records: seq<Record>)
    requires TwoEnded(d) && Accepted(d, records)
    ensures DriversDiffer(records) <==> Aligned(records)
  {
    forall i, j | 0 <= i < j < |records| && SameWire(records[i], records[j])
      ensures records[i].fpgaA == records[j].fpgaA <==> Driver(records[i]) != Driver(records[j])
    {
      assert Compatible(d, records[i], records[j]);
      SharedWire(d, records[i], records[j]);
    }
  }

  // ---------------------------------------------------------------------------
  // Slots of a wire
  // ---------------------------------------------------------------------------

  ghost predicate SameWireSlot(d: Design, m: nat, n: nat) {
    && m in d.schedule && n in d.schedule && m in d.plan && n in d.plan
    && d.schedule[m].link == d.schedule[n].link && d.plan[m] == d.plan[n] && d.schedule[m].slot == d.schedule[n].slot
  }

  ghost predicate Opposite(d: Design, m: nat, n: nat) {
    && m in d.schedule && n in d.schedule && d.schedule[m].source != d.schedule[m].sink
    && d.schedule[m].source == d.schedule[n].sink && d.schedule[m].sink == d.schedule[n].source
    && d.schedule[m].link in d.links
    && d.links[d.schedule[m].link].fullDuplex && d.links[d.schedule[m].link].sharing == PerDirection
  }

  /** Two entries share a wire and a slot only if they travel in opposite directions on a full-duplex
      link that has wires for each direction. */
  ghost predicate SlotsExclusive(d: Design) {
    forall m, n :: m != n && SameWireSlot(d, m, n) ==> Opposite(d, m, n)
  }

  ghost predicate SlotsApart(d: Design, r: Record, s: Record) {
    forall p, q | 0 <= p < |r.members| && 0 <= q < |s.members| :: SlotOf(d, r.members[p]) != SlotOf(d, s.members[q])
  }

  /** Records that name the ends of one wire in different orders use disjoint slots. */
  ghost predicate MisalignedApart(d: Design, records: seq<Record>) {
    forall i, j | 0 <= i < j < |records| && SameWire(records[i], records[j]) && records[i].fpgaA != records[j].fpgaA ::
      SlotsApart(d, records[i], records[j])
  }

  lemma MemberOf(d: Design, records: seq<Record>, m: nat) returns (i: nat, p: nat)
    requires FitUpTo(d, records) && Bound(records, m)
    ensures i < |records| && p < |records[i].members| && records[i].members[p] == m
    ensures m in d.schedule && m in d.plan && d.schedule[m].link == records[i].link && d.plan[m] == records[i].lane
  {
    i :| 0 <= i < |records| && m in records[i].members;
    p :| 0 <= p < |records[i].members| && records[i].members[p] == m;
    assert RecordFits(d, records[i]);
    assert MemberFits(d, records[i], records[i].members[p]);
  }

  lemma MembersOpposite(d: Design, r: Record, p: nat, s: Record, q: nat)
    requires TwoEnded(d) && RecordFits(d, r) && RecordFits(d, s) && SameWire(r, s) && MayShareWire(d, r, s)
             && r.fpgaA == s.fpgaA
    requires p < |r.members| && q < |s.members|
    ensures Opposite(d, r.members[p], s.members[q])
  {
    EndsDiffer(d, r);
    EndsDiffer(d, s);
    assert s.fpgaB in d.links[r.link].endpoints;
    assert MemberFits(d, r, r.members[p]) && MemberFits(d, s, s.members[q]);
    assert TravelOf(d, r, r.members[p]) == r.direction && TravelOf(d, s, s.members[q]) == s.direction;
  }

  /** Members of records that name the ends differently travel the same way. */
  lemma MembersAlike(d: Design, r: Record, p: nat, s: Record, q: nat)
    requires TwoEnded(d) && RecordFits(d, r) && RecordFits(d, s) && SameWire(r, s) && MayShareWire(d, r, s)
             && r.fpgaA != s.fpgaA
    requires Planned(d) && p < |r.members| && q < |s.members|
    requires SlotOf(d, r.members[p]) == SlotOf(d, s.members[q])
    ensures r.members[p] in d.schedule && s.members[q] in d.schedule
    ensures PlaceOf(d, r.members[p]) == PlaceOf(d, s.members[q])
  {
    EndsDiffer(d, r);
    EndsDiffer(d, s);
    assert s.fpgaA in d.links[r.link].endpoints && s.fpgaB in d.links[r.link].endpoints;
    assert MemberFits(d, r, r.members[p]) && MemberFits(d, s, s.members[q]);
    assert TravelOf(d, r, r.members[p]) == r.direction && TravelOf(d, s, s.members[q]) == s.direction;
  }

  lemma AcceptedIsPlanned(d: Design, records: seq<Record>)
    requires Accepted(d, records)
    ensures Planned(d)
  {
    forall m | m in d.schedule ensures d.schedule[m].link in d.links {
      var i, p := MemberOf(d, records, m);
      assert RecordFits(d, records[i]);
    }
  }

  lemma ExclusiveMeansFree(d: Design)
    requires Planned(d) && SlotsExclusive(d)
    ensures CollisionFree(d)
  {
    forall m, n | m in d.schedule && n in d.schedule && m != n ensures PlaceOf(d, m) != PlaceOf(d, n) {
      if SameWireSlot(d, m, n) {
        OppositePlaces(d, m, n);
      }
    }
  }

  lemma OppositePlaces(d: Design, m: nat, n: nat)
    requires Planned(d) && Opposite(d, m, n)
    ensures PlaceOf(d, m) != PlaceOf(d, n)
  {
  }

  lemma FreeMeansApart(d: Design, records: seq<Record>)
    requires TwoEnded(d) && Accepted(d, records) && Planned(d) && CollisionFree(d)
    ensures MisalignedApart(d, records)
  {
    forall i, j | 0 <= i < j < |records| && SameWire(records[i], records[j]) && records[i].fpgaA != records[j].fpgaA
      ensures SlotsApart(d, records[i], records[j])
    {
      MisalignedPair(d, records[i], records[j]) by { assert Compatible(d, records[i], records[j]); }
    }
  }

  lemma MisalignedPair(d: Design, r: Record, s: Record)
    requires TwoEnded(d) && RecordFits(d, r) && RecordFits(d, s) && Compatible(d, r, s) && SameWire(r, s)
    requires r.fpgaA != s.fpgaA && Planned(d) && CollisionFree(d)
    ensures SlotsApart(d, r, s)
  {
    forall p, q | 0 <= p < |r.members| && 0 <= q < |s.members|
      ensures SlotOf(d, r.members[p]) != SlotOf(d, s.members[q])
    {
      assert r.members[p] in r.members && s.members[q] in s.members;
      if SlotOf(d, r.members[p]) == SlotOf(d, s.members[q]) {
        MembersAlike(d, r, p, s, q);
      }
    }
  }

  lemma ApartMeansExclusive(d: Design, records: seq<Record>)
    requires TwoEnded(d) && Accepted(d, records) && MisalignedApart(d, records)
    ensures SlotsExclusive(d)
  {
    forall m, n | m != n && SameWireSlot(d, m, n) ensures Opposite(d, m, n) {
      var i, p := MemberOf(d, records, m);
      var j, q := MemberOf(d, records, n);
      RecordsDiffer(d, records, i, p, j, q);
      PairOpposite(d, records, i, p, j, q);
    }
  }

  /** In an accepted binding, a wire carries two entries in one slot only in opposite directions exactly if
      records that name its ends differently use disjoint slots, and exactly if the pin plan is free of
      collisions, which another validator checks. */
  lemma SlotsExclusiveIffApart(d: Design, records: seq<Record>)
    requires TwoEnded(d) && Accepted(d, records)
    ensures SlotsExclusive(d) <==> MisalignedApart(d, records)
    ensures Planned(d) && (SlotsExclusive(d) <==> CollisionFree(d))
  {
    AcceptedIsPlanned(d, records);
    if SlotsExclusive(d) {
      ExclusiveMeansFree(d);
    }
    if CollisionFree(d) {
      FreeMeansApart(d, records);
    }
    if MisalignedApart(d, records) {
      ApartMeansExclusive(d, records);
    }
  }

  /** With aligned records the slots are exclusive. */
  lemma AlignedIsExclusive(d: Design, records: seq<Record>)
    requires TwoEnded(d) && Accepted(d, records) && Aligned(records)
    ensures SlotsExclusive(d)
  {
    ApartMeansExclusive(d, records);
  }

  lemma RecordsDiffer(d: Design, records: seq<Record>, i: nat, p: nat, j: nat, q: nat)
    requires FitUpTo(d, records) && i < |records| && j < |records| && p < |records[i].members|
             && q < |records[j].members|
    requires records[i].members[p] != records[j].members[q]
             && SlotOf(d, records[i].members[p]) == SlotOf(d, records[j].members[q])
    ensures i != j
  {
    if i == j {
      SlotOnce(d, records, i, p, q);
    }
  }

  lemma PairOpposite(d: Design, records: seq<Record>, i: nat, p: nat, j: nat, q: nat)
    requires TwoEnded(d) && FitUpTo(d, records) && MisalignedApart(d, records)
    requires i < |records| && j < |records| && i != j && SameWire(records[i], records[j])
    requires p < |records[i].members| && q < |records[j].members|
    requires SlotOf(d, records[i].members[p]) == SlotOf(d, records[j].members[q])
    ensures Opposite(d, records[i].members[p], records[j].members[q])
  {
    if i < j {
      assert Compatible(d, records[i], records[j]);
      assert SlotsApart(d, records[i], records[j]) || records[i].fpgaA == records[j].fpgaA;
      MembersOpposite(d, records[i], p, records[j], q);
    } else {
      assert Compatible(d, records[j], records[i]);
      assert SlotsApart(d, records[j], records[i]) || records[i].fpgaA == records[j].fpgaA;
      MembersOpposite(d, records[j], q, records[i], p);
    }
  }

  lemma SlotOnce(d: Design, records: seq<Record>, i: nat, p: nat, q: nat)
    requires FitUpTo(d, records) && i < |records| && p < |records[i].members| && q < |records[i].members| && p != q
    ensures SlotOf(d, records[i].members[p]) != SlotOf(d, records[i].members[q])
  {
    assert RecordFits(d, records[i]);
  }

  /** Records that name the ends of one wire in different orders are accepted although both groups
      drive it the same way in the same slot. */
  lemma MisalignedCollision() returns (d: Design, records: seq<Record>)
    ensures TwoEnded(d) && Accepted(d, records) && !Aligned(records)
    ensures SameWireSlot(d, 1, 2) && d.schedule[1].source == d.schedule[2].source
            && d.schedule[1].sink == d.schedule[2].sink
    ensures Planned(d) && !CollisionFree(d)
  {
    var link := Link({10, 20}, 1, None, true, PerDirection);
    d := Design(map[1 := Entry(10, 20, 0, 0, 1), 2 := Entry(10, 20, 0, 0, 1)], map[1 := 0, 2 := 0], map[0 := link]);
    var r := Record(100, [1], 0, 10, 20, 0, AToB, 1, 1, true);
    var s := Record(200, [2], 0, 20, 10, 0, BToA, 2, 2, true);
    records := [r, s];
    SingleMemberFits(d, r, 1);
    SingleMemberFits(d, s, 2);
    assert SameWire(r, s);
    assert records[0] == r && records[1] == s;
    assert 1 in r.members && 2 in s.members;
    assert PlaceOf(d, 1) == PlaceOf(d, 2);
  }

  lemma SingleMemberFits(d: Design, r: Record, m: nat)
    requires r.members == [m] && LinkFits(d, r) && r.electrical && MemberFits(d, r, m)
             && TravelOf(d, r, m) == r.direction != Bidirectional
    ensures RecordFits(d, r)
  {
    assert r.members[..0] == [];
    assert TravelOf(d, r, r.members[0]) == r.direction;
    assert Count(d, r, r.members, r.direction) == 1;
  }
}
