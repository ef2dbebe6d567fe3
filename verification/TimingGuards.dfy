// The timing guard around Chimew's groups: explicit ratios for lanes that are already scheduled,
// and one fixed group for every lane with a protected entry.
module TimingGuards {
  import opened Lexicographic
  import opened Sequences
  import opened Wrappers
  import LaneGroups

  /** A physical lane of a link in one direction; numbers stand for names in sort order. */
  datatype Lane = Lane(link: nat, source: nat, sink: nat, lane: nat) {
    function Order(): seq<int> { [link, source, sink, lane] }
  }

  datatype Entry = Entry(id: nat, lane: Lane, slot: nat, ratio: Option<int>)

  ghost predicate DistinctIds(entries: seq<Entry>) {
    forall i, j | 0 <= i < j < |entries| :: entries[i].id != entries[j].id
  }

  ghost predicate NoCollision(entries: seq<Entry>) {
    forall i, j | 0 <= i < j < |entries| :: entries[i].lane != entries[j].lane || entries[i].slot != entries[j].slot
  }

  /** The ids of the lane's entries, in schedule order. */
  ghost function Members(entries: seq<Entry>, lane: Lane): seq<nat> {
    if entries == [] then []
    else
      var last := entries[|entries| - 1];
      Members(entries[..|entries| - 1], lane) + if last.lane == lane then [last.id] else []
  }

  lemma {:induction false} MemberIsEntry(entries: seq<Entry>, lane: Lane, id: nat)
    ensures id in Members(entries, lane) <==>
              exists i :: 0 <= i < |entries| && entries[i].id == id && entries[i].lane == lane
  {
    if entries != [] {
      var last := |entries| - 1;
      MemberIsEntry(entries[..last], lane, id);
      if id in Members(entries[..last], lane) {
        var i :| 0 <= i < last && entries[..last][i].id == id && entries[..last][i].lane == lane;
        assert entries[i].id == id;
      }
      if i :| 0 <= i < |entries| && entries[i].id == id && entries[i].lane == lane {
        if i < last {
          assert entries[..last][i] == entries[i];
        }
      }
    }
  }

  // ---------------------------------------------------------------------------
  // Explicit ratios
  // ---------------------------------------------------------------------------

  ghost predicate Materializable(entries: seq<Entry>) {
    entries != [] && (forall e :: e in entries ==> e.ratio.None?) && DistinctIds(entries) && NoCollision(entries)
  }

  ghost predicate HasId(entries: seq<Entry>, id: nat) { exists i :: 0 <= i < |entries| && entries[i].id == id }

  ghost predicate HasSlot(entries: seq<Entry>, lane: Lane, slot: nat) {
    exists i :: 0 <= i < |entries| && entries[i].lane == lane && entries[i].slot == slot
  }

  lemma HasNext(entries: seq<Entry>, e: Entry, id: nat, lane: Lane, slot: nat)
    ensures HasId(entries + [e], id) <==> HasId(entries, id) || e.id == id
    ensures HasSlot(entries + [e], lane, slot) <==> HasSlot(entries, lane, slot) || (e.lane == lane && e.slot == slot)
  {
    var longer := entries + [e];
    assert longer[|entries|] == e && forall i | 0 <= i < |entries| :: longer[i] == entries[i];
  }

  /** The lanes seen so far with their entries, and the occupied slots. */
  ghost predicate Collected(entries: seq<Entry>, ids: set<nat>, occupied: set<(Lane, nat)>,
                            groups: map<Lane, seq<nat>>) {
    && (forall id :: id in ids <==> HasId(entries, id))
    && (forall lane, slot: nat :: (lane, slot) in occupied <==> HasSlot(entries, lane, slot))
    && (forall lane :: Members(entries, lane) == Listed(groups, lane))
  }

  function Listed(groups: map<Lane, seq<nat>>, lane: Lane): seq<nat> { if lane in groups then groups[lane] else [] }

  lemma CollectNext(entries: seq<Entry>, ids: set<nat>, occupied: set<(Lane, nat)>, groups: map<Lane, seq<nat>>,
                    e: Entry)
    requires Collected(entries, ids, occupied, groups)
    ensures Collected(entries + [e], ids + {e.id}, occupied + {(e.lane, e.slot)},
                      groups[e.lane := Listed(groups, e.lane) + [e.id]])
  {
    forall id, lane, slot
      ensures HasId(entries + [e], id) <==> HasId(entries, id) || e.id == id
      ensures HasSlot(entries + [e], lane, slot) <==> HasSlot(entries, lane, slot) || (e.lane == lane && e.slot == slot)
    {
      HasNext(entries, e, id, lane, slot);
    }
    forall lane ensures Members(entries + [e], lane) == Members(entries, lane) + if e.lane == lane then [e.id] else [] {
      assert (entries + [e])[..|entries|] == entries;
    }
  }

  lemma CollectFails(entries: seq<Entry>, i: nat)
    requires i < |entries| && DistinctIds(entries[..i]) && NoCollision(entries[..i])
    ensures HasId(entries[..i], entries[i].id) ==> !DistinctIds(entries)
    ensures HasSlot(entries[..i], entries[i].lane, entries[i].slot) ==> !NoCollision(entries)
    ensures !HasId(entries[..i], entries[i].id) ==> DistinctIds(entries[..i + 1])
    ensures !HasSlot(entries[..i], entries[i].lane, entries[i].slot) ==> NoCollision(entries[..i + 1])
  {
    assert forall j | 0 <= j < i :: entries[..i][j] == entries[j];
    if !HasId(entries[..i], entries[i].id) {
      forall j | 0 <= j < i ensures entries[j].id != entries[i].id {
        assert entries[..i][j].id == entries[j].id;
      }
    }
    if !HasSlot(entries[..i], entries[i].lane, entries[i].slot) {
      forall j | 0 <= j < i ensures entries[j].lane != entries[i].lane || entries[j].slot != entries[i].slot {
        assert entries[..i][j] == entries[j];
      }
    }
  }

  lemma CollectStep(entries: seq<Entry>, i: nat, ids: set<nat>, occupied: set<(Lane, nat)>, groups: map<Lane, seq<nat>>)
    requires i < |entries| && Collected(entries[..i], ids, occupied, groups) && DistinctIds(entries[..i])
             && NoCollision(entries[..i])
    ensures var e := entries[i];
            if e.id in ids || (e.lane, e.slot) in occupied then !(DistinctIds(entries) && NoCollision(entries))
            else DistinctIds(entries[..i + 1]) && NoCollision(entries[..i + 1])
                 && Collected(entries[..i + 1], ids + {e.id}, occupied + {(e.lane, e.slot)},
                              groups[e.lane := Listed(groups, e.lane) + [e.id]])
  {
    TakeNext(entries, i);
    CollectFails(entries, i);
    CollectNext(entries[..i], ids, occupied, groups, entries[i]);
  }

  /** Lists the entries of every lane; fails on a repeated id or a slot collision. */
  method CollectLanes(entries: seq<Entry>) returns (groups: map<Lane, seq<nat>>, valid: bool)
    ensures valid <==> DistinctIds(entries) && NoCollision(entries)
    ensures valid ==> forall lane :: Members(entries, lane) == Listed(groups, lane)
  {
    var ids: set<nat>, occupied: set<(Lane, nat)> := {}, {};
    groups := map[];
    for i := 0 to |entries|
      invariant Collected(entries[..i], ids, occupied, groups) && DistinctIds(entries[..i]) && NoCollision(entries[..i])
    {
      var e := entries[i];
      CollectStep(entries, i, ids, occupied, groups);
      if e.id in ids || (e.lane, e.slot) in occupied {
        return groups, false;
      }
      ids, occupied := ids + {e.id}, occupied + {(e.lane, e.slot)};
      groups := groups[e.lane := Listed(groups, e.lane) + [e.id]];
    }
    assert entries[..|entries|] == entries;
    valid := true;
  }

  /** Every entry's ratio is the number of entries on its lane. */
  ghost predicate LaneRatios(entries: seq<Entry>, ratios: map<nat, nat>) {
    && (forall id :: id in ratios <==> HasId(entries, id))
    && forall i | 0 <= i < |entries| ::
         entries[i].id in ratios && ratios[entries[i].id] == |Members(entries, entries[i].lane)|
  }

  /** Makes the occupancy of its lane the ratio of every entry; fails on entries that already have a
      ratio, repeat an id or collide on a slot. */
  method MaterializeRatios(entries: seq<Entry>) returns (ratios: Option<map<nat, nat>>)
    ensures ratios.Some? <==> Materializable(entries)
    ensures ratios.Some? ==> LaneRatios(entries, ratios.value)
  {
    if entries == [] || (exists e :: e in entries && e.ratio.Some?) {
      return None;
    }
    var groups, valid := CollectLanes(entries);
    if !valid {
      return None;
    }
    var result: map<nat, nat> := map[];
    for i := 0 to |entries|
      invariant forall id :: id in result <==> HasId(entries[..i], id)
      invariant forall j | 0 <= j < i ::
                  entries[j].id in result && result[entries[j].id] == |Members(entries, entries[j].lane)|
    {
      TakeNext(entries, i);
      var e := entries[i];
      forall id ensures HasId(entries[..i + 1], id) <==> HasId(entries[..i], id) || e.id == id {
        HasNext(entries[..i], e, id, e.lane, e.slot);
      }
      result := result[e.id := |Listed(groups, e.lane)|];
    }
    assert entries[..|entries|] == entries;
    ratios := Some(result);
  }

  // ---------------------------------------------------------------------------
  // One group per protected lane
  // ---------------------------------------------------------------------------

  /** The group a refinement gives an entry. */
  datatype Refined = Refined(entry: nat, group: int)

  datatype Bundle = Bundle(lane: Lane, members: seq<nat>, refinedGroups: set<int>, group: int)

  datatype Coalescing = Coalesced(groups: map<nat, int>, bundles: seq<Bundle>) | Rejected

  ghost predicate ValidRefinement(refined: seq<Refined>) {
    && (forall i | 0 <= i < |refined| :: refined[i].group >= 0)
    && (forall i, j | 0 <= i < j < |refined| :: refined[i].entry != refined[j].entry)
  }

  ghost predicate HasRefined(refined: seq<Refined>, id: nat) {
    exists i :: 0 <= i < |refined| && refined[i].entry == id
  }

  ghost predicate AgreesWith(refined: seq<Refined>, groups: map<nat, int>) {
    && (forall i | 0 <= i < |refined| :: refined[i].entry in groups && groups[refined[i].entry] == refined[i].group)
    && (forall id :: id in groups ==> groups[id] >= 0 && HasRefined(refined, id))
  }

  method ReadRefinement(refined: seq<Refined>) returns (groups: map<nat, int>, valid: bool)
    ensures valid <==> ValidRefinement(refined)
    ensures valid ==> AgreesWith(refined, groups)
  {
    groups := map[];
    for i := 0 to |refined|
      invariant ValidRefinement(refined[..i]) && AgreesWith(refined[..i], groups)
    {
      var item := refined[i];
      assert forall j | 0 <= j < i :: refined[..i][j] == refined[j];
      if item.group < 0 || item.entry in groups {
        return groups, false;
      }
      groups := groups[item.entry := item.group];
      assert refined[..i + 1][i] == item;
    }
    assert refined[..|refined|] == refined;
    valid := true;
  }

  ghost predicate Covers(refined: seq<Refined>, entries: seq<Entry>) {
    && (forall i | 0 <= i < |entries| :: HasRefined(refined, entries[i].id))
    && (forall j | 0 <= j < |refined| :: HasId(entries, refined[j].entry))
  }

  ghost function ProtectedLanes(entries: seq<Entry>, protected: set<nat>): set<Lane> {
    set e | e in entries && e.id in protected :: e.lane
  }

  ghost predicate Coalescible(entries: seq<Entry>, refined: seq<Refined>, protected: set<nat>) {
    && ValidRefinement(refined) && DistinctIds(entries) && Covers(refined, entries)
    && forall id :: id in protected ==> HasId(entries, id)
  }

  /** The bundle holds exactly the entries of its lane, and remembers the groups they came from. */
  ghost predicate RightBundle(entries: seq<Entry>, native: map<nat, int>, b: Bundle, number: int) {
    && b.members == Members(entries, b.lane) && b.group == number
    && b.refinedGroups == set id | id in b.members && id in native :: native[id]
  }

  /** Bundles in lane order, numbered from above `top`. */
  ghost predicate RightBundles(entries: seq<Entry>, native: map<nat, int>, top: int, bundles: seq<Bundle>) {
    && (forall k | 0 <= k < |bundles| :: RightBundle(entries, native, bundles[k], top + 1 + k))
    && (forall k, l | 0 <= k < l < |bundles| ::
        bundles[k].lane != bundles[l].lane && LexLeq(bundles[k].lane.Order(), bundles[l].lane.Order()))
  }

  ghost predicate HasBundle(bundles: seq<Bundle>, lane: Lane) {
    exists k :: 0 <= k < |bundles| && bundles[k].lane == lane
  }

  /** Entries of a bundled lane have its group; all others keep their own. */
  ghost predicate Regrouped(entries: seq<Entry>, native: map<nat, int>, groups: map<nat, int>, bundles: seq<Bundle>) {
    && groups.Keys == native.Keys
    && (forall e, k | e in entries && 0 <= k < |bundles| && e.lane == bundles[k].lane ::
        e.id in groups && groups[e.id] == bundles[k].group)
    && (forall e | e in entries && !HasBundle(bundles, e.lane) ::
        e.id in native && e.id in groups && groups[e.id] == native[e.id])
  }

  /** Every protected lane has its bundle, with a number no refined group has. */
  ghost predicate RightCoalescing(entries: seq<Entry>, protected: set<nat>, native: map<nat, int>, top: int,
                                  groups: map<nat, int>, bundles: seq<Bundle>) {
    && RightBundles(entries, native, top, bundles) && Regrouped(entries, native, groups, bundles)
    && IsTop(native, top)
    && (forall lane :: HasBundle(bundles, lane) <==> lane in ProtectedLanes(entries, protected))
  }

  /** The members of the given lanes, in schedule order. */
  method LaneMembers(entries: seq<Entry>, lanes: set<Lane>) returns (members: map<Lane, seq<nat>>)
    ensures forall lane :: lane in lanes ==> Listed(members, lane) == Members(entries, lane)
  {
    members := map[];
    for i := 0 to |entries|
      invariant forall lane :: lane in lanes ==> Listed(members, lane) == Members(entries[..i], lane)
    {
      TakeNext(entries, i);
      assert entries[..i + 1][..i] == entries[..i];
      if entries[i].lane in lanes {
        members := members[entries[i].lane := Listed(members, entries[i].lane) + [entries[i].id]];
      }
    }
    assert entries[..|entries|] == entries;
  }

  ghost predicate Moved(groups: map<nat, int>, members: seq<nat>, group: int, groups': map<nat, int>) {
    && groups'.Keys == groups.Keys + Elements(members)
    && forall id :: id in groups' ==> groups'[id] == if id in members then group else groups[id]
  }

  /** Moves the members to the group. */
  method MoveMembers(groups: map<nat, int>, members: seq<nat>, group: int) returns (groups': map<nat, int>)
    ensures Moved(groups, members, group, groups')
  {
    groups' := groups;
    for i := 0 to |members|
      invariant Moved(groups, members[..i], group, groups')
    {
      TakeNext(members, i);
      groups' := groups'[members[i] := group];
    }
    assert members[..|members|] == members;
  }

  lemma SameEntry(entries: seq<Entry>, a: Entry, b: Entry)
    requires DistinctIds(entries) && a in entries && b in entries && a.id == b.id
    ensures a == b
  {
    var i :| 0 <= i < |entries| && entries[i] == a;
    var j :| 0 <= j < |entries| && entries[j] == b;
    assert i == j;
  }

  lemma InMembers(entries: seq<Entry>, lane: Lane, e: Entry)
    requires DistinctIds(entries) && e in entries
    ensures e.id in Members(entries, lane) <==> e.lane == lane
  {
    MemberIsEntry(entries, lane, e.id);
    if e.id in Members(entries, lane) {
      var i :| 0 <= i < |entries| && entries[i].id == e.id && entries[i].lane == lane;
      SameEntry(entries, entries[i], e);
    }
  }

  /** One more lane gets its bundle. */
  lemma AddBundle(entries: seq<Entry>, native: map<nat, int>, top: int, groups: map<nat, int>, bundles: seq<Bundle>,
                  b: Bundle, groups': map<nat, int>)
    requires DistinctIds(entries) && RightBundles(entries, native, top, bundles)
             && Regrouped(entries, native, groups, bundles)
    requires RightBundle(entries, native, b, top + 1 + |bundles|)
    requires forall k | 0 <= k < |bundles| ::
               bundles[k].lane != b.lane && LexLeq(bundles[k].lane.Order(), b.lane.Order())
    requires groups'.Keys == groups.Keys
             && forall id :: id in groups' ==> groups'[id] == if id in b.members then b.group else groups[id]
    requires forall e :: e in entries ==> e.id in native
    ensures RightBundles(entries, native, top, bundles + [b]) && Regrouped(entries, native, groups', bundles + [b])
    ensures forall lane :: HasBundle(bundles + [b], lane) <==> HasBundle(bundles, lane) || lane == b.lane
  {
    var longer := bundles + [b];
    assert longer[|bundles|] == b && forall k | 0 <= k < |bundles| :: longer[k] == bundles[k];
    forall e | e in entries ensures e.id in b.members <==> e.lane == b.lane {
      InMembers(entries, b.lane, e);
    }
    forall lane ensures HasBundle(longer, lane) <==> HasBundle(bundles, lane) || lane == b.lane {
      if HasBundle(bundles, lane) {
        var k :| 0 <= k < |bundles| && bundles[k].lane == lane;
        assert longer[k].lane == lane;
      }
    }
  }

  /** The greatest group number, or -1 if there is none. */
  ghost predicate IsTop(groups: map<nat, int>, top: int) {
    && (forall id :: id in groups ==> groups[id] <= top)
    && (if groups == map[] then top == -1 else exists id :: id in groups && groups[id] == top)
  }

  method TopGroup(groups: map<nat, int>) returns (top: int)
    requires forall id :: id in groups ==> groups[id] >= 0
    ensures IsTop(groups, top)
  {
    top := -1;
    var rest := groups.Keys;
    while rest != {}
      invariant rest <= groups.Keys && top >= -1
      invariant forall id :: id in groups && id !in rest ==> groups[id] <= top
      invariant top == -1 || exists id :: id in groups && groups[id] == top
    {
      var id :| id in rest;
      if groups[id] > top {
        top := groups[id];
      }
      rest := rest - {id};
    }
  }

  ghost predicate LanesDone(bundles: seq<Bundle>, lanes: set<Lane>, pending: set<Lane>) {
    && pending <= lanes && (forall lane :: HasBundle(bundles, lane) <==> lane in lanes - pending)
    && (forall k, lane | 0 <= k < |bundles| && lane in pending ::
        bundles[k].lane != lane && LexLeq(bundles[k].lane.Order(), lane.Order()))
  }

  lemma LaneDone(bundles: seq<Bundle>, lanes: set<Lane>, pending: set<Lane>, b: Bundle)
    requires LanesDone(bundles, lanes, pending) && Least(pending, (l: Lane) => l.Order(), b.lane)
    requires forall lane :: HasBundle(bundles + [b], lane) <==> HasBundle(bundles, lane) || lane == b.lane
    ensures LanesDone(bundles + [b], lanes, pending - {b.lane})
  {
    var longer := bundles + [b];
    assert longer[|bundles|] == b && forall k | 0 <= k < |bundles| :: longer[k] == bundles[k];
  }

  /** The bundles of the lanes that are done, and the groups they lead to. */
  ghost predicate Bundling(entries: seq<Entry>, native: map<nat, int>, top: int, lanes: set<Lane>, pending: set<Lane>,
                           groups: map<nat, int>, bundles: seq<Bundle>) {
    && RightBundles(entries, native, top, bundles) && Regrouped(entries, native, groups, bundles)
    && LanesDone(bundles, lanes, pending)
  }

  lemma BundleAdded(entries: seq<Entry>, native: map<nat, int>, top: int, lanes: set<Lane>, pending: set<Lane>,
                    groups: map<nat, int>, bundles: seq<Bundle>, b: Bundle, groups': map<nat, int>)
    requires DistinctIds(entries) && forall id :: id in native <==> HasId(entries, id)
    requires Bundling(entries, native, top, lanes, pending, groups, bundles)
    requires Least(pending, (l: Lane) => l.Order(), b.lane) && RightBundle(entries, native, b, top + 1 + |bundles|)
    requires Moved(groups, b.members, b.group, groups')
    ensures Bundling(entries, native, top, lanes, pending - {b.lane}, groups', bundles + [b])
  {
    MembersHaveIds(entries, b.lane);
    EntriesHaveIds(entries);
    AddBundle(entries, native, top, groups, bundles, b, groups');
    LaneDone(bundles, lanes, pending, b);
  }

  /** Gives the first pending lane its group. */
  method BundleNext(ghost entries: seq<Entry>, native: map<nat, int>, top: int, membersByLane: map<Lane, seq<nat>>,
                    ghost lanes: set<Lane>, pending: set<Lane>, groups: map<nat, int>, bundles: seq<Bundle>)
    returns (groups': map<nat, int>, bundles': seq<Bundle>, lane: Lane)
    requires DistinctIds(entries) && (forall id :: id in native <==> HasId(entries, id)) && pending != {}
    requires forall lane :: lane in lanes ==> Listed(membersByLane, lane) == Members(entries, lane)
    requires Bundling(entries, native, top, lanes, pending, groups, bundles)
    ensures lane in pending && Bundling(entries, native, top, lanes, pending - {lane}, groups', bundles')
  {
    lane := LeastBy(pending, (l: Lane) => l.Order());
    var members := Listed(membersByLane, lane);
    var b := Bundle(lane, members, set id | id in members && id in native :: native[id], top + 1 + |bundles|);
    groups' := MoveMembers(groups, members, b.group);
    BundleAdded(entries, native, top, lanes, pending, groups, bundles, b, groups');
    bundles' := bundles + [b];
  }

  /** Gives each of the lanes a group of its own, in order. */
  method BundleLanes(entries: seq<Entry>, native: map<nat, int>, top: int, lanes: set<Lane>)
    returns (groups: map<nat, int>, bundles: seq<Bundle>)
    requires DistinctIds(entries) && forall id :: id in native <==> HasId(entries, id)
    ensures Bundling(entries, native, top, lanes, {}, groups, bundles)
  {
    groups, bundles := native, [];
    EntriesHaveIds(entries);
    var membersByLane := LaneMembers(entries, lanes);
    var pending := lanes;
    while pending != {}
      invariant Bundling(entries, native, top, lanes, pending, groups, bundles)
      decreases pending
    {
      var lane;
      groups, bundles, lane := BundleNext(entries, native, top, membersByLane, lanes, pending, groups, bundles);
      pending := pending - {lane};
    }
  }

  lemma EntriesHaveIds(entries: seq<Entry>)
    ensures forall e :: e in entries ==> HasId(entries, e.id)
  {
    forall e | e in entries ensures HasId(entries, e.id) {
      var i :| 0 <= i < |entries| && entries[i] == e;
    }
  }

  lemma MembersHaveIds(entries: seq<Entry>, lane: Lane)
    ensures forall id :: id in Members(entries, lane) ==> HasId(entries, id)
  {
    forall id | id in Members(entries, lane) ensures HasId(entries, id) {
      MemberIsEntry(entries, lane, id);
    }
  }

  lemma CoverageChecked(entries: seq<Entry>, refined: seq<Refined>, native: map<nat, int>)
    requires AgreesWith(refined, native)
    ensures Covers(refined, entries) <==> forall id :: id in native <==> HasId(entries, id)
  {
    forall id ensures HasRefined(refined, id) <==> id in native {
    }
    if forall id :: id in native <==> HasId(entries, id) {
      forall i | 0 <= i < |entries| ensures HasRefined(refined, entries[i].id) {
        assert HasId(entries, entries[i].id);
      }
      forall j | 0 <= j < |refined| ensures HasId(entries, refined[j].entry) {
        assert refined[j].entry in native;
      }
    }
  }

  method EntryIds(entries: seq<Entry>) returns (ids: set<nat>, distinct: bool)
    ensures distinct <==> DistinctIds(entries)
    ensures distinct ==> forall id :: id in ids <==> HasId(entries, id)
  {
    ids := {};
    for i := 0 to |entries|
      invariant DistinctIds(entries[..i]) && forall id :: id in ids <==> HasId(entries[..i], id)
    {
      TakeNext(entries, i);
      var e := entries[i];
      RepeatedId(entries, i);
      if e.id in ids {
        return ids, false;
      }
      forall id ensures HasId(entries[..i] + [e], id) <==> HasId(entries[..i], id) || e.id == id {
        HasNext(entries[..i], e, id, e.lane, e.slot);
      }
      ids := ids + {e.id};
    }
    assert entries[..|entries|] == entries;
    distinct := true;
  }

  lemma RepeatedId(entries: seq<Entry>, i: nat)
    requires i < |entries| && DistinctIds(entries[..i])
    ensures if HasId(entries[..i], entries[i].id) then !DistinctIds(entries) else DistinctIds(entries[..i + 1])
  {
    assert forall j | 0 <= j < i :: entries[..i][j] == entries[j];
    if !HasId(entries[..i], entries[i].id) {
      forall j | 0 <= j < i ensures entries[j].id != entries[i].id {
        assert entries[..i][j].id == entries[j].id;
      }
    }
  }

  /** Coalesces each protected lane into a group of its own; fails exactly on inputs that do not fit together. */
  method CoalesceGuardLanes(entries: seq<Entry>, refined: seq<Refined>, protected: set<nat>)
    returns (result: Coalescing, ghost native: map<nat, int>, ghost top: int)
    ensures result.Coalesced? <==> Coalescible(entries, refined, protected)
    ensures result.Coalesced? ==>
              && AgreesWith(refined, native) && (forall id :: id in native <==> HasId(entries, id))
              && RightCoalescing(entries, protected, native, top, result.groups, result.bundles)
  {
    var groups, valid := ReadRefinement(refined);
    var ids, distinct := EntryIds(entries);
    native, top, result := groups, -1, Rejected;
    if !valid || !distinct {
      return;
    }
    CoverageChecked(entries, refined, groups);
    if groups.Keys != ids || !(protected <= ids) {
      return;
    }
    var lanes := set e | e in entries && e.id in protected :: e.lane;
    var greatest := TopGroup(groups);
    var effective, bundles := BundleLanes(entries, groups, greatest, lanes);
    top, result := greatest, Coalesced(effective, bundles);
  }

  /** Lanes are ordered by link, then by source, by sink and by number. */
  lemma LaneOrder(a: Lane, b: Lane)
    ensures LexLeq(a.Order(), b.Order()) <==>
              || a.link < b.link
              || (a.link == b.link && a.source < b.source)
              || (a.link == b.link && a.source == b.source && a.sink < b.sink)
              || (a.link == b.link && a.source == b.source && a.sink == b.sink && a.lane <= b.lane)
  {
    LexStep(a.link, [a.source, a.sink, a.lane], b.link, [b.source, b.sink, b.lane]);
    LexStep(a.source, [a.sink, a.lane], b.source, [b.sink, b.lane]);
    LexStep(a.sink, [a.lane], b.sink, [b.lane]);
    LexStep(a.lane, [], b.lane, []);
    assert [a.lane] + [] == [a.lane] && [b.lane] + [] == [b.lane];
    assert [a.sink] + [a.lane] == [a.sink, a.lane] && [b.sink] + [b.lane] == [b.sink, b.lane];
    assert [a.source] + [a.sink, a.lane] == [a.source, a.sink, a.lane];
    assert [b.source] + [b.sink, b.lane] == [b.source, b.sink, b.lane];
    assert a.Order() == [a.link] + [a.source, a.sink, a.lane] && b.Order() == [b.link] + [b.source, b.sink, b.lane];
  }

  // ---------------------------------------------------------------------------
  // What coalescing guarantees
  // ---------------------------------------------------------------------------

  /** A guarded entry shares its group with exactly the entries of its lane. */
  lemma GroupIsLane(entries: seq<Entry>, protected: set<nat>, native: map<nat, int>, top: int, groups: map<nat, int>,
                    bundles: seq<Bundle>, a: Entry, b: Entry)
    requires RightCoalescing(entries, protected, native, top, groups, bundles)
    requires a in entries && b in entries && a.lane in ProtectedLanes(entries, protected)
    ensures a.id in groups && b.id in groups && (groups[a.id] == groups[b.id] <==> a.lane == b.lane)
  {
    assert HasBundle(bundles, a.lane);
    var k :| 0 <= k < |bundles| && bundles[k].lane == a.lane;
    assert RightBundle(entries, native, bundles[k], top + 1 + k);
    if HasBundle(bundles, b.lane) {
      var l :| 0 <= l < |bundles| && bundles[l].lane == b.lane;
      assert RightBundle(entries, native, bundles[l], top + 1 + l);
    }
  }

  /** The entries of a group agree on their lane, if one of them is on a protected lane: the lane to
      which the group will be fixed. */
  ghost predicate ExactLane(entries: seq<Entry>, protected: set<nat>, group: set<nat>) {
    forall a, b | a in entries && b in entries && a.id in group && b.id in group
                  && a.lane in ProtectedLanes(entries, protected) :: a.lane == b.lane
  }

  /** Whatever else groups are split by, a group never mixes a protected lane with another one. */
  lemma ExactLaneNeverFails(entries: seq<Entry>, protected: set<nat>, native: map<nat, int>, top: int,
                            groups: map<nat, int>, bundles: seq<Bundle>, group: set<nat>)
    requires RightCoalescing(entries, protected, native, top, groups, bundles)
    requires forall i, j | i in group && j in group && i in groups && j in groups :: groups[i] == groups[j]
    ensures ExactLane(entries, protected, group)
  {
    forall a, b | a in entries && b in entries && a.id in group && b.id in group
                  && a.lane in ProtectedLanes(entries, protected)
      ensures a.lane == b.lane
    {
      GroupIsLane(entries, protected, native, top, groups, bundles, a, b);
    }
  }

  /** The schedule has the lanes' occupancies as ratios. */
  ghost predicate Timed(entries: seq<Entry>, schedule: LaneGroups.Schedule) {
    forall i | 0 <= i < |entries| ::
      entries[i].id in schedule
        && schedule[entries[i].id] == LaneGroups.Entry(|Members(entries, entries[i].lane)|, entries[i].slot)
  }

  lemma {:induction false} MembersDistinct(entries: seq<Entry>, lane: Lane)
    requires DistinctIds(entries)
    ensures forall p, q | 0 <= p < q < |Members(entries, lane)| ::
              Members(entries, lane)[p] != Members(entries, lane)[q]
  {
    if entries != [] {
      var last := |entries| - 1;
      MembersDistinct(entries[..last], lane);
      if entries[last].id in Members(entries[..last], lane) {
        MemberIsEntry(entries[..last], lane, entries[last].id);
        var i :| 0 <= i < last && entries[..last][i].id == entries[last].id;
        assert entries[i].id == entries[last].id;
      }
    }
  }

  lemma EntryOfMember(entries: seq<Entry>, lane: Lane, schedule: LaneGroups.Schedule, p: nat) returns (i: nat)
    requires Timed(entries, schedule) && p < |Members(entries, lane)|
    ensures i < |entries| && entries[i].id == Members(entries, lane)[p] && entries[i].lane == lane
    ensures entries[i].id in schedule
            && schedule[entries[i].id] == LaneGroups.Entry(|Members(entries, lane)|, entries[i].slot)
  {
    MemberIsEntry(entries, lane, Members(entries, lane)[p]);
    i :| 0 <= i < |entries| && entries[i].id == Members(entries, lane)[p] && entries[i].lane == lane;
  }

  /** With occupancies as ratios, the bundle of every protected lane passes the ratio and slot checks. */
  lemma BundlePassesChecks(entries: seq<Entry>, lane: Lane, schedule: LaneGroups.Schedule,
                           members: seq<LaneGroups.Member>)
    requires DistinctIds(entries) && NoCollision(entries) && Timed(entries, schedule)
    requires |members| == |Members(entries, lane)| > 0
             && forall p | 0 <= p < |members| :: members[p].id == Members(entries, lane)[p]
    ensures LaneGroups.ValidGroup(members, schedule)
  {
    MembersDistinct(entries, lane);
    forall p | 0 <= p < |members|
      ensures members[p].id in schedule && schedule[members[p].id].slot >= 0
              && schedule[members[p].id].ratio == |members|
    {
      var i := EntryOfMember(entries, lane, schedule, p);
    }
    forall p, q | 0 <= p < q < |members| ensures schedule[members[p].id].slot != schedule[members[q].id].slot {
      var i := EntryOfMember(entries, lane, schedule, p);
      var j := EntryOfMember(entries, lane, schedule, q);
      assert i != j;
    }
  }
}
