// The lane fixed for every guarded group, and why the coalesced groups never meet the errors that
// bundling and lane assignment raise about fixed lanes.
module FixedLanes {
  import opened LaneGroups
  import opened SharedLanes
  import opened LaneBundles
  import opened Sequences
  import opened Wrappers
  import opened TimingGuards
  import LaneAssignment

  /** The name of every link and its two ends, in order. */
  datatype Board = Board(names: map<nat, string>, ends: map<nat, (nat, nat)>)

  /** The scheduled entries with their groups and with the vertical positions of their drivers and loads. */
  datatype Layout = Layout(board: Board, entries: seq<TimingGuards.Entry>, groups: map<nat, int>,
                           points: map<nat, (real, real)>)
  {
    ghost predicate Valid() {
      && DistinctIds(entries)
      && (forall e :: e in entries ==> Knows(e))
      && (forall a, b :: a in board.names && b in board.names && board.names[a] == board.names[b] ==> a == b)
    }

    predicate Knows(e: TimingGuards.Entry) {
      e.lane.link in board.names && e.lane.link in board.ends && e.id in groups && e.id in points
    }

    /** Groups are told apart by link, by direction and by number. */
    function KeyOf(e: TimingGuards.Entry): Key
      requires Knows(e)
    {
      var forward := (e.lane.source, e.lane.sink) == board.ends[e.lane.link];
      Key(board.names[e.lane.link], if forward then AToB else BToA, groups[e.id])
    }

    function MemberOf(e: TimingGuards.Entry): Member
      requires Knows(e)
    {
      Member(e.id, points[e.id].0, [points[e.id].1])
    }

    ghost predicate Has(k: Key, e: TimingGuards.Entry) { e in entries && Knows(e) && KeyOf(e) == k }

    /** Entries travel between the ends of their links. */
    ghost predicate Oriented() {
      forall e :: e in entries && e.lane.link in board.ends ==>
        || (e.lane.source, e.lane.sink) == board.ends[e.lane.link]
        || (e.lane.sink, e.lane.source) == board.ends[e.lane.link]
    }
  }

  // ---------------------------------------------------------------------------
  // Groups with their members
  // ---------------------------------------------------------------------------

  /** The members of a group among the first `n` entries, in schedule order. */
  ghost function MembersUpTo(layout: Layout, n: nat, k: Key): seq<Member>
    requires n <= |layout.entries|
  {
    if n == 0 then []
    else
      var e := layout.entries[n - 1];
      MembersUpTo(layout, n - 1, k) + if layout.Knows(e) && layout.KeyOf(e) == k then [layout.MemberOf(e)] else []
  }

  ghost predicate GroupedUpTo(layout: Layout, n: nat, grouped: Groups)
    requires n <= |layout.entries|
  {
    forall k :: MembersUpTo(layout, n, k) == MembersIn(grouped, k) && (k in grouped ==> grouped[k] != [])
  }

  function MembersIn(grouped: Groups, k: Key): seq<Member> { if k in grouped then grouped[k] else [] }

  /** Collects the members of every group. */
  method GroupEntries(layout: Layout) returns (grouped: Groups)
    requires layout.Valid()
    ensures GroupedUpTo(layout, |layout.entries|, grouped)
  {
    grouped := map[];
    NothingGrouped(layout);
    for i := 0 to |layout.entries|
      invariant GroupedUpTo(layout, i, grouped)
    {
      var e := layout.entries[i];
      assert e in layout.entries;
      var k := layout.KeyOf(e);
      GroupNext(layout, i, grouped, e, k);
      grouped := grouped[k := MembersIn(grouped, k) + [layout.MemberOf(e)]];
    }
  }

  lemma NothingGrouped(layout: Layout)
    ensures GroupedUpTo(layout, 0, map[])
  {
  }

  lemma GroupNext(layout: Layout, i: nat, grouped: Groups, e: TimingGuards.Entry, k: Key)
    requires i < |layout.entries| && GroupedUpTo(layout, i, grouped)
    requires layout.entries[i] == e && layout.Knows(e) && layout.KeyOf(e) == k
    ensures GroupedUpTo(layout, i + 1, grouped[k := MembersIn(grouped, k) + [layout.MemberOf(e)]])
  {
    var after := grouped[k := MembersIn(grouped, k) + [layout.MemberOf(e)]];
    forall x ensures MembersUpTo(layout, i + 1, x) == MembersIn(after, x) && (x in after ==> after[x] != []) {
      assert MembersUpTo(layout, i, x) == MembersIn(grouped, x);
    }
  }

  /** The members of a group are its entries. */
  lemma {:induction false} MemberIsEntry(layout: Layout, n: nat, k: Key, m: Member)
    requires n <= |layout.entries|
    ensures m in MembersUpTo(layout, n, k) <==>
            exists i :: 0 <= i < n && layout.Has(k, layout.entries[i]) && layout.MemberOf(layout.entries[i]) == m
  {
    if n > 0 {
      MemberIsEntry(layout, n - 1, k, m);
    }
  }

  lemma EntryOf(layout: Layout, grouped: Groups, k: Key, m: Member) returns (e: TimingGuards.Entry)
    requires GroupedUpTo(layout, |layout.entries|, grouped) && k in grouped && m in grouped[k]
    ensures layout.Has(k, e) && layout.MemberOf(e) == m
  {
    assert m in MembersUpTo(layout, |layout.entries|, k);
    MemberIsEntry(layout, |layout.entries|, k, m);
    var i :| 0 <= i < |layout.entries| && layout.Has(k, layout.entries[i]) && layout.MemberOf(layout.entries[i]) == m;
    e := layout.entries[i];
  }

  lemma EntryListed(layout: Layout, grouped: Groups, k: Key, e: TimingGuards.Entry)
    requires GroupedUpTo(layout, |layout.entries|, grouped) && layout.Has(k, e)
    ensures k in grouped && layout.MemberOf(e) in grouped[k]
  {
    var i :| 0 <= i < |layout.entries| && layout.entries[i] == e;
    MemberIsEntry(layout, |layout.entries|, k, layout.MemberOf(e));
    assert MembersUpTo(layout, |layout.entries|, k) == MembersIn(grouped, k);
  }

  /** What the groups hold, in terms of the entries: those of one link, one direction and one number. */
  lemma GroupedMeans(layout: Layout, grouped: Groups, k: Key, m: Member)
    requires layout.Valid() && GroupedUpTo(layout, |layout.entries|, grouped)
    ensures k in grouped && m in grouped[k] <==>
              exists e :: e in layout.entries && MemberFor(layout, k, m, e)
  {
    if k in grouped && m in grouped[k] {
      var e := EntryOf(layout, grouped, k, m);
      assert MemberFor(layout, k, m, e);
    }
    forall e | e in layout.entries && MemberFor(layout, k, m, e) ensures k in grouped && m in grouped[k] {
      EntryListed(layout, grouped, k, e);
    }
  }

  /** The member stands for the entry, and the key for the entry's link, its way between the ends and its group. */
  ghost predicate MemberFor(layout: Layout, k: Key, m: Member, e: TimingGuards.Entry) {
    && m.id == e.id && e.id in layout.points && m.fanoutY == layout.points[e.id].0
    && m.faninsY == [layout.points[e.id].1]
    && e.lane.link in layout.board.names && k.link == layout.board.names[e.lane.link]
    && e.id in layout.groups && k.group == layout.groups[e.id]
    && e.lane.link in layout.board.ends && k.direction != Bidirectional
    && (k.direction == AToB <==>
          e.lane.source == layout.board.ends[e.lane.link].0 && e.lane.sink == layout.board.ends[e.lane.link].1)
  }

  // ---------------------------------------------------------------------------
  // The lane of a guarded group
  // ---------------------------------------------------------------------------

  ghost function LanesOfKey(layout: Layout, k: Key): set<Lane> {
    set e | e in layout.entries && layout.Has(k, e) :: e.lane
  }

  /** A group with an entry on a protected lane has no entry on another lane. */
  ghost predicate Exact(layout: Layout, protected: set<nat>, k: Key) {
    forall a, b ::
      layout.Has(k, a) && layout.Has(k, b) && a.lane in ProtectedLanes(layout.entries, protected) ==> a.lane == b.lane
  }

  ghost predicate Guards(layout: Layout, protected: set<nat>, k: Key) {
    exists e :: layout.Has(k, e) && e.lane in ProtectedLanes(layout.entries, protected)
  }

  /** Group `k` is fixed exactly if it has an entry on a protected lane, and then to the lane of all its entries. */
  ghost predicate FixedRight(layout: Layout, protected: set<nat>, fixed: map<Key, nat>, k: Key) {
    && (k in fixed <==> Guards(layout, protected, k))
    && (forall e :: layout.Has(k, e) && k in fixed ==> fixed[k] == e.lane.lane)
  }

  /** The lane of a group that meets the exact-lane check. */
  lemma ExactIffOneLane(layout: Layout, protected: set<nat>, k: Key, lanes: set<Lane>, guarded: set<Lane>)
    requires lanes == LanesOfKey(layout, k) && guarded == lanes * ProtectedLanes(layout.entries, protected)
    ensures guarded != {} <==> Guards(layout, protected, k)
    ensures guarded != {} ==> (Exact(layout, protected, k) <==> |lanes| == 1 && |guarded| == 1)
    ensures guarded == {} ==> Exact(layout, protected, k)
  {
    forall e | layout.Has(k, e) && e.lane in ProtectedLanes(layout.entries, protected) ensures e.lane in guarded {
    }
    if guarded != {} {
      GuardedLane(layout, protected, k, lanes, guarded);
    }
  }

  lemma GuardedLane(layout: Layout, protected: set<nat>, k: Key, lanes: set<Lane>, guarded: set<Lane>)
    requires lanes == LanesOfKey(layout, k) && guarded == lanes * ProtectedLanes(layout.entries, protected)
    requires guarded != {}
    ensures Guards(layout, protected, k) && (Exact(layout, protected, k) <==> |lanes| == 1 && |guarded| == 1)
  {
    var lane :| lane in guarded;
    var a :| a in layout.entries && layout.Has(k, a) && a.lane == lane;
    OneElement(lanes, lane);
    OneElement(guarded, lane);
    if Exact(layout, protected, k) {
      forall other | other in lanes ensures other == lane {
        var b :| b in layout.entries && layout.Has(k, b) && b.lane == other;
      }
      assert lanes == {lane};
    }
    if lanes == {lane} {
      forall b | layout.Has(k, b) ensures b.lane == lane {
        assert b.lane in lanes;
      }
    }
  }

  lemma OneElement<T>(s: set<T>, x: T)
    requires x in s
    ensures |s| == 1 <==> s == {x}
  {
    assert s == (s - {x}) + {x};
  }

  ghost predicate LanesById(entries: seq<TimingGuards.Entry>, byId: map<nat, Lane>) {
    forall e :: e in entries ==> e.id in byId && byId[e.id] == e.lane
  }

  /** Every group is fixed as it should be. */
  ghost predicate AllFixedRight(layout: Layout, protected: set<nat>, fixed: map<Key, nat>) {
    forall k :: FixedRight(layout, protected, fixed, k)
  }

  ghost predicate AllExact(layout: Layout, protected: set<nat>, keys: set<Key>) {
    forall k :: k in keys ==> Exact(layout, protected, k)
  }

  /** The groups in `done` are exact and fixed. */
  ghost predicate FixedUpTo(layout: Layout, protected: set<nat>, done: set<Key>, fixed: map<Key, nat>) {
    && fixed.Keys <= done && AllExact(layout, protected, done)
    && forall k :: k in done ==> FixedRight(layout, protected, fixed, k)
  }

  /** Fixes every guarded group to its lane; fails exactly if a guarded group mixes lanes. */
  method FixLanes(layout: Layout, protected: set<nat>, grouped: Groups) returns (result: Option<map<Key, nat>>)
    requires layout.Valid() && GroupedUpTo(layout, |layout.entries|, grouped)
    ensures result.Some? <==> AllExact(layout, protected, grouped.Keys)
    ensures result.Some? ==> AllFixedRight(layout, protected, result.value)
  {
    var byId := IndexLanesById(layout.entries);
    var fixed: map<Key, nat> := map[];
    var rest := grouped.Keys;
    while rest != {}
      invariant rest <= grouped.Keys && FixedUpTo(layout, protected, grouped.Keys - rest, fixed)
      decreases rest
    {
      var k :| k in rest;
      var lane, exact := LaneOfGroup(layout, protected, grouped, byId, k);
      if !exact {
        return None;
      }
      FixNext(layout, protected, grouped.Keys - rest, fixed, k, lane);
      fixed := if lane.Some? then fixed[k := lane.value.lane] else fixed;
      assert grouped.Keys - (rest - {k}) == grouped.Keys - rest + {k};
      rest := rest - {k};
    }
    assert grouped.Keys - rest == grouped.Keys;
    AllFixed(layout, protected, grouped, fixed);
    result := Some(fixed);
  }

  /** The protected lane of a group's members, if there is one, and whether it is then the only lane. */
  method LaneOfGroup(layout: Layout, protected: set<nat>, grouped: Groups, byId: map<nat, Lane>, k: Key)
    returns (lane: Option<Lane>, exact: bool)
    requires GroupedUpTo(layout, |layout.entries|, grouped) && LanesById(layout.entries, byId) && k in grouped
    ensures exact <==> Exact(layout, protected, k)
    ensures exact ==> GroupLane(layout, protected, k, lane)
  {
    MemberLanes(layout, grouped, byId, k);
    var lanes := set m | m in grouped[k] && m.id in byId :: byId[m.id];
    var guarded := lanes * set e | e in layout.entries && e.id in protected :: e.lane;
    ExactIffOneLane(layout, protected, k, lanes, guarded);
    if guarded == {} {
      return None, true;
    }
    if |lanes| != 1 || |guarded| != 1 {
      return None, false;
    }
    var only :| only in guarded;
    OneElement(lanes, only);
    return Some(only), true;
  }

  ghost predicate GroupLane(layout: Layout, protected: set<nat>, k: Key, lane: Option<Lane>) {
    && (lane.Some? <==> Guards(layout, protected, k))
    && (lane.Some? ==> LanesOfKey(layout, k) == {lane.value})
  }

  lemma FixNext(layout: Layout, protected: set<nat>, done: set<Key>, fixed: map<Key, nat>, k: Key, lane: Option<Lane>)
    requires FixedUpTo(layout, protected, done, fixed) && k !in done && Exact(layout, protected, k)
    requires GroupLane(layout, protected, k, lane)
    ensures FixedUpTo(layout, protected, done + {k}, if lane.Some? then fixed[k := lane.value.lane] else fixed)
  {
    var after := if lane.Some? then fixed[k := lane.value.lane] else fixed;
    forall e | layout.Has(k, e) && lane.Some? ensures e.lane == lane.value {
      assert e.lane in LanesOfKey(layout, k);
    }
    assert FixedRight(layout, protected, after, k);
    forall x | x in done ensures FixedRight(layout, protected, after, x) {
      assert FixedRight(layout, protected, fixed, x);
    }
  }

  lemma AllFixed(layout: Layout, protected: set<nat>, grouped: Groups, fixed: map<Key, nat>)
    requires GroupedUpTo(layout, |layout.entries|, grouped) && FixedUpTo(layout, protected, grouped.Keys, fixed)
    ensures AllFixedRight(layout, protected, fixed)
  {
    forall k ensures FixedRight(layout, protected, fixed, k) {
      if k !in grouped {
        NoEntries(layout, grouped, k);
      }
    }
  }

  lemma NoEntries(layout: Layout, grouped: Groups, k: Key)
    requires GroupedUpTo(layout, |layout.entries|, grouped) && k !in grouped
    ensures forall e :: !layout.Has(k, e)
  {
    forall e ensures !layout.Has(k, e) {
      if layout.Has(k, e) {
        EntryListed(layout, grouped, k, e);
      }
    }
  }

  method IndexLanesById(entries: seq<TimingGuards.Entry>) returns (byId: map<nat, Lane>)
    requires DistinctIds(entries)
    ensures LanesById(entries, byId)
  {
    byId := map[];
    for i := 0 to |entries|
      invariant forall j :: 0 <= j < i ==> entries[j].id in byId && byId[entries[j].id] == entries[j].lane
    {
      byId := byId[entries[i].id := entries[i].lane];
    }
  }

  lemma MemberLanes(layout: Layout, grouped: Groups, byId: map<nat, Lane>, k: Key)
    requires GroupedUpTo(layout, |layout.entries|, grouped) && LanesById(layout.entries, byId) && k in grouped
    ensures (set m | m in grouped[k] && m.id in byId :: byId[m.id]) == LanesOfKey(layout, k)
  {
    var lanes := set m | m in grouped[k] && m.id in byId :: byId[m.id];
    forall m | m in grouped[k] && m.id in byId ensures byId[m.id] in LanesOfKey(layout, k) {
      var e := EntryOf(layout, grouped, k, m);
    }
    forall e | layout.Has(k, e) ensures e.lane in lanes {
      EntryListed(layout, grouped, k, e);
      assert layout.MemberOf(e) in grouped[k];
    }
  }

  // ---------------------------------------------------------------------------
  // After coalescing
  // ---------------------------------------------------------------------------

  /** The groups of the layout come from coalescing the protected lanes. */
  ghost predicate CoalescedLayout(layout: Layout, protected: set<nat>) {
    exists native, top, bundles :: RightCoalescing(layout.entries, protected, native, top, layout.groups, bundles)
  }

  lemma SameGroupSameLane(layout: Layout, protected: set<nat>, a: TimingGuards.Entry, b: TimingGuards.Entry)
    requires CoalescedLayout(layout, protected) && a in layout.entries && b in layout.entries
    requires a.lane in ProtectedLanes(layout.entries, protected)
    ensures a.id in layout.groups && b.id in layout.groups
    ensures layout.groups[a.id] == layout.groups[b.id] <==> a.lane == b.lane
  {
    var native, top, bundles :| RightCoalescing(layout.entries, protected, native, top, layout.groups, bundles);
    GroupIsLane(layout.entries, protected, native, top, layout.groups, bundles, a, b);
  }

  /** Coalesced groups never mix a protected lane with another one, so fixing their lanes cannot fail. */
  lemma CoalescedIsExact(layout: Layout, protected: set<nat>, k: Key)
    requires CoalescedLayout(layout, protected)
    ensures Exact(layout, protected, k)
  {
    forall a, b | layout.Has(k, a) && layout.Has(k, b) && a.lane in ProtectedLanes(layout.entries, protected)
      ensures a.lane == b.lane
    {
      SameGroupSameLane(layout, protected, a, b);
    }
  }

  lemma FixedEntry(layout: Layout, protected: set<nat>, fixed: map<Key, nat>, k: Key) returns (e: TimingGuards.Entry)
    requires AllFixedRight(layout, protected, fixed) && k in fixed
    ensures layout.Has(k, e) && e.lane in ProtectedLanes(layout.entries, protected) && e.lane.lane == fixed[k]
  {
    assert FixedRight(layout, protected, fixed, k);
    e :| layout.Has(k, e) && e.lane in ProtectedLanes(layout.entries, protected);
  }

  lemma SameLane(layout: Layout, k: Key, k': Key, e: TimingGuards.Entry, e': TimingGuards.Entry)
    requires layout.Valid() && layout.Oriented() && layout.Has(k, e) && layout.Has(k', e')
    requires k.link == k'.link && k.direction == k'.direction && e.lane.lane == e'.lane.lane
    ensures e.lane == e'.lane
  {
  }

  /** In one direction of a link, no two coalesced groups are fixed to one lane. */
  lemma FixedOnce(layout: Layout, protected: set<nat>, fixed: map<Key, nat>, k: Key, k': Key)
    requires layout.Valid() && layout.Oriented() && CoalescedLayout(layout, protected)
    requires AllFixedRight(layout, protected, fixed) && k in fixed && k' in fixed
    requires k.link == k'.link && k.direction == k'.direction && fixed[k] == fixed[k']
    ensures k == k'
  {
    var e := FixedEntry(layout, protected, fixed, k);
    var e' := FixedEntry(layout, protected, fixed, k');
    SameLane(layout, k, k', e, e');
    SameGroupSameLane(layout, protected, e, e');
  }

  /** So the lanes of one direction are never fixed twice, whether the two directions share them or not. */
  lemma DirectionFixedOnce(layout: Layout, protected: set<nat>, fixed: map<Key, nat>, keys: set<Key>)
    requires layout.Valid() && layout.Oriented() && CoalescedLayout(layout, protected)
    requires AllFixedRight(layout, protected, fixed) && OneDirection(keys)
    ensures LaneAssignment.InjectiveLanes(keys, fixed)
  {
    forall k, k' | k in keys && k' in keys && k in fixed && k' in fixed && fixed[k] == fixed[k'] ensures k == k' {
      FixedOnce(layout, protected, fixed, k, k');
    }
  }

  // ---------------------------------------------------------------------------
  // What bundling a shared link can rely on
  // ---------------------------------------------------------------------------

  /** On lanes that both directions share, the entries of one lane have different slots. */
  ghost predicate SharedSlotsFree(layout: Layout, link: string) {
    forall a, b | a in layout.entries && b in layout.entries && a != b && layout.Knows(a) && layout.Knows(b)
                  && layout.KeyOf(a).link == link && layout.KeyOf(b).link == link && a.lane.lane == b.lane.lane ::
      a.slot != b.slot
  }

  ghost predicate SlotsScheduled(layout: Layout, schedule: Schedule) {
    forall e :: e in layout.entries && e.id in schedule ==> schedule[e.id].slot == e.slot
  }

  ghost predicate LanesInRange(layout: Layout, link: string, laneCount: nat) {
    forall e :: e in layout.entries && layout.Knows(e) && layout.KeyOf(e).link == link ==> e.lane.lane < laneCount
  }

  lemma SlotOfEntry(layout: Layout, grouped: Groups, schedule: Schedule, k: Key, slot: int)
    returns (e: TimingGuards.Entry)
    requires GroupedUpTo(layout, |layout.entries|, grouped) && SlotsScheduled(layout, schedule)
    requires k in grouped && slot in SlotsOf(grouped[k], schedule)
    ensures layout.Has(k, e) && e.slot == slot
  {
    var m :| m in grouped[k] && m.id in schedule && schedule[m.id].slot == slot;
    e := EntryOf(layout, grouped, k, m);
  }

  /** Groups of the two directions that are fixed to one lane use different slots. */
  lemma ForcedSlotsDiffer(layout: Layout, protected: set<nat>, grouped: Groups, fixed: map<Key, nat>,
                          schedule: Schedule, l: Key, r: Key)
    requires GroupedUpTo(layout, |layout.entries|, grouped) && SlotsScheduled(layout, schedule)
    requires SharedSlotsFree(layout, l.link) && l.link == r.link && l.direction != r.direction
    requires AllFixedRight(layout, protected, fixed) && l in fixed && r in fixed && fixed[l] == fixed[r]
    requires l in grouped && r in grouped
    ensures SlotsOf(grouped[l], schedule) !! SlotsOf(grouped[r], schedule)
  {
    assert FixedRight(layout, protected, fixed, l) && FixedRight(layout, protected, fixed, r);
    forall slot | slot in SlotsOf(grouped[l], schedule) ensures slot !in SlotsOf(grouped[r], schedule) {
      if slot in SlotsOf(grouped[r], schedule) {
        var a := SlotOfEntry(layout, grouped, schedule, l, slot);
        var b := SlotOfEntry(layout, grouped, schedule, r, slot);
      }
    }
  }

  /** The instance that bundling is given for the link. */
  ghost predicate GivesInstance(layout: Layout, protected: set<nat>, grouped: Groups, fixed: map<Key, nat>,
                                schedule: Schedule, link: string, inst: Instance) {
    && layout.Valid() && GroupedUpTo(layout, |layout.entries|, grouped) && AllFixedRight(layout, protected, fixed)
    && SlotsScheduled(layout, schedule) && Describes(inst, grouped, link, fixed, schedule)
  }

  lemma InstanceSides(layout: Layout, protected: set<nat>, grouped: Groups, fixed: map<Key, nat>, schedule: Schedule,
                      link: string, inst: Instance)
    requires GivesInstance(layout, protected, grouped, fixed, schedule, link, inst)
    ensures inst.Valid()
    ensures forall k :: k in inst.forward ==> k in grouped && k.link == link && k.direction == AToB
    ensures forall k :: k in inst.reverse ==> k in grouped && k.link == link && k.direction == BToA
  {
    SideListed(inst.forward, grouped, link, AToB);
    SideListed(inst.reverse, grouped, link, BToA);
  }

  lemma SideFixedOnce(layout: Layout, protected: set<nat>, fixed: map<Key, nat>, keys: seq<Key>, link: string,
                      direction: Direction)
    requires layout.Valid() && layout.Oriented() && CoalescedLayout(layout, protected)
    requires AllFixedRight(layout, protected, fixed)
    requires forall k :: k in keys ==> k.link == link && k.direction == direction
    ensures OneGroupPerLane(keys, fixed)
  {
    forall k, k' | k in keys && k' in keys && k in fixed && k' in fixed && fixed[k] == fixed[k'] ensures k == k' {
      FixedOnce(layout, protected, fixed, k, k');
    }
  }

  lemma ForcedApart(layout: Layout, protected: set<nat>, grouped: Groups, fixed: map<Key, nat>, schedule: Schedule,
                    link: string, inst: Instance)
    requires GivesInstance(layout, protected, grouped, fixed, schedule, link, inst) && inst.Valid()
    requires SharedSlotsFree(layout, link)
    ensures inst.ForcedDisjoint()
  {
    InstanceSides(layout, protected, grouped, fixed, schedule, link, inst);
    forall p | p in inst.Forced()
      ensures p.0 in inst.slots && p.1 in inst.slots && inst.slots[p.0] !! inst.slots[p.1]
    {
      ForcedSlotsDiffer(layout, protected, grouped, fixed, schedule, p.0, p.1);
    }
  }

  /** Bundling a link whose groups were coalesced fails for want of lanes only. */
  lemma CoalescedChoice(layout: Layout, protected: set<nat>, grouped: Groups, fixed: map<Key, nat>, schedule: Schedule,
                        link: string, inst: Instance, laneCount: int, choice: Choice)
    requires CoalescedLayout(layout, protected) && layout.Oriented() && SharedSlotsFree(layout, link)
    requires GivesInstance(layout, protected, grouped, fixed, schedule, link, inst)
    ensures inst.Valid() && inst.Guarded()
    ensures ChoiceMeets(inst, laneCount, choice) ==> choice.Chosen? || choice.OverBudget?
  {
    InstanceSides(layout, protected, grouped, fixed, schedule, link, inst);
    SideFixedOnce(layout, protected, fixed, inst.forward, link, AToB);
    SideFixedOnce(layout, protected, fixed, inst.reverse, link, BToA);
    ForcedApart(layout, protected, grouped, fixed, schedule, link, inst);
  }

  /** The lanes that lane assignment relies on are those of scheduled entries. */
  lemma FixedLanesExist(layout: Layout, protected: set<nat>, grouped: Groups, fixed: map<Key, nat>, schedule: Schedule,
                        link: string, inst: Instance, laneCount: nat)
    requires GivesInstance(layout, protected, grouped, fixed, schedule, link, inst)
    requires LanesInRange(layout, link, laneCount)
    ensures LaneAssignment.OwnLanesExist(inst, laneCount)
  {
    InstanceSides(layout, protected, grouped, fixed, schedule, link, inst);
    forall k | (k in inst.forward || k in inst.reverse) && k in inst.fixed ensures inst.fixed[k] < laneCount {
      var e := FixedEntry(layout, protected, fixed, k);
    }
  }
}
