// Directional TDM groups: keys, members, their ratio and slots, and the cost of joining
// two of them on one lane.
module LaneGroups {
  import opened Numbers

  datatype Direction = AToB | BToA | Bidirectional

  /** The identity of a group: its link, its direction and its number. */
  datatype Key = Key(link: string, direction: Direction, group: int)

  /** A signal with the vertical positions of its driver and of its loads. */
  datatype Member = Member(id: nat, fanoutY: real, faninsY: seq<real>)

  /** A member of a materialized group keeps the direction of the group it came from. */
  datatype Placed = Placed(member: Member, direction: Direction)

  datatype Entry = Entry(ratio: int, slot: int)

  type Schedule = map<nat, Entry>

  datatype GroupError = UnknownEntry | InvalidCoordinates | SlotCollision | OverCapacity

  datatype TdmResult = Tdm(ratio: int, slots: set<int>) | GroupFailure(error: GroupError)

  ghost predicate Scheduled(members: seq<Member>, schedule: Schedule) {
    forall i :: 0 <= i < |members| ==> members[i].id in schedule
  }

  ghost function RatiosOf(members: seq<Member>, schedule: Schedule): set<int> {
    set m | m in members && m.id in schedule :: schedule[m.id].ratio
  }

  /** All members are scheduled with one positive ratio on pairwise distinct slots, and the
      ratio is no smaller than the number of members. */
  ghost predicate ValidGroup(members: seq<Member>, schedule: Schedule) {
    && members != []
    && Scheduled(members, schedule)
    && (forall i :: 0 <= i < |members| ==> schedule[members[i].id].slot >= 0)
    && (forall i :: 0 <= i < |members| ==> schedule[members[i].id].ratio == schedule[members[0].id].ratio)
    && schedule[members[0].id].ratio >= |members|
    && (forall i, j :: 0 <= i < j < |members| ==> schedule[members[i].id].slot != schedule[members[j].id].slot)
  }

  ghost function SlotsOf(members: seq<Member>, schedule: Schedule): set<int> {
    set m | m in members && m.id in schedule :: schedule[m.id].slot
  }

  /** The first `k` members are scheduled at valid coordinates without a collision. */
  ghost predicate Sound(members: seq<Member>, schedule: Schedule, k: nat)
    requires k <= |members|
  {
    && (forall i :: 0 <= i < k ==> members[i].id in schedule
                                   && schedule[members[i].id].ratio > 0 && schedule[members[i].id].slot >= 0)
    && (forall i, j :: 0 <= i < j < k ==> schedule[members[i].id].slot != schedule[members[j].id].slot)
  }

  method GroupRatioSlots(members: seq<Member>, schedule: Schedule) returns (r: TdmResult)
    ensures r.Tdm? <==> ValidGroup(members, schedule)
    ensures r.Tdm? ==> r.ratio == schedule[members[0].id].ratio && r.slots == SlotsOf(members, schedule)
  {
    var ratios: set<int> := {};
    var slots: set<int> := {};
    for k := 0 to |members|
      invariant Sound(members, schedule, k)
      invariant ratios == RatiosOf(members[..k], schedule) && slots == SlotsOf(members[..k], schedule)
    {
      if members[k].id !in schedule {
        return GroupFailure(UnknownEntry);
      }
      var entry := schedule[members[k].id];
      if entry.ratio <= 0 || entry.slot < 0 {
        return GroupFailure(InvalidCoordinates);
      }
      CollectNext(members, schedule, k);
      ratios := ratios + {entry.ratio};
      if entry.slot in slots {
        SlotTwice(members, schedule, k);
        return GroupFailure(SlotCollision);
      }
      slots := slots + {entry.slot};
    }
    assert members[..|members|] == members;
    r := CheckCapacity(members, schedule, ratios, slots);
  }

  method CheckCapacity(members: seq<Member>, ghost schedule: Schedule, ratios: set<int>, slots: set<int>)
    returns (r: TdmResult)
    requires Sound(members, schedule, |members|) && ratios == RatiosOf(members, schedule)
    ensures r.Tdm? <==> ValidGroup(members, schedule)
    ensures r.Tdm? ==> r.ratio == schedule[members[0].id].ratio && r.slots == slots
  {
    OneRatio(members, schedule, ratios);
    if |ratios| != 1 {
      return GroupFailure(OverCapacity);
    }
    var ratio :| ratio in ratios;
    if |members| > ratio {
      return GroupFailure(OverCapacity);
    }
    r := Tdm(ratio, slots);
  }

  lemma CollectNext(members: seq<Member>, schedule: Schedule, k: nat)
    requires k < |members| && members[k].id in schedule
    ensures RatiosOf(members[..k + 1], schedule) == RatiosOf(members[..k], schedule) + {schedule[members[k].id].ratio}
    ensures SlotsOf(members[..k + 1], schedule) == SlotsOf(members[..k], schedule) + {schedule[members[k].id].slot}
    ensures (Sound(members, schedule, k) && schedule[members[k].id].ratio > 0 && schedule[members[k].id].slot >= 0
             && schedule[members[k].id].slot !in SlotsOf(members[..k], schedule)) ==> Sound(members, schedule, k + 1)
  {
    assert members[..k + 1] == members[..k] + [members[k]];
    forall i | 0 <= i < k && members[i].id in schedule
      ensures schedule[members[i].id].slot in SlotsOf(members[..k], schedule)
    {
      assert members[..k][i] in members[..k];
    }
  }

  lemma SlotTwice(members: seq<Member>, schedule: Schedule, k: nat)
    requires k < |members| && members[k].id in schedule
    requires schedule[members[k].id].slot in SlotsOf(members[..k], schedule)
    ensures !ValidGroup(members, schedule)
  {
    var m :| m in members[..k] && m.id in schedule && schedule[m.id].slot == schedule[members[k].id].slot;
    var i :| 0 <= i < k && members[i] == m;
    assert members[..k][i] == members[i];
  }

  /** The members share a ratio exactly when one ratio was collected. */
  lemma OneRatio(members: seq<Member>, schedule: Schedule, ratios: set<int>)
    requires Scheduled(members, schedule) && ratios == RatiosOf(members, schedule)
    ensures |ratios| == 1 <==>
            members != [] && ratios == {schedule[members[0].id].ratio}
            && forall i :: 0 <= i < |members| ==> schedule[members[i].id].ratio == schedule[members[0].id].ratio
  {
    if members != [] {
      var x := schedule[members[0].id].ratio;
      assert members[0] in members;
      assert x in ratios;
      if |ratios| == 1 {
        assert |ratios - {x}| == 0;
        assert ratios == {x};
      }
      forall i | 0 <= i < |members| ensures schedule[members[i].id].ratio in ratios {
        assert members[i] in members;
      }
      if forall i :: 0 <= i < |members| ==> schedule[members[i].id].ratio == x {
        assert ratios == {x};
      }
    } else {
      assert ratios == {};
    }
  }

  // ---------------------------------------------------------------------------
  // The cost of sharing a lane
  // ---------------------------------------------------------------------------

  function Total(s: seq<real>): real {
    if s == [] then 0.0 else s[0] + Total(s[1..])
  }

  function Average(s: seq<real>): real
    requires s != []
  {
    Total(s) / |s| as real
  }

  predicate Loaded(members: seq<Member>) {
    members != [] && forall m :: m in members ==> m.faninsY != []
  }

  /** Mean positions at the two ends of the link. */
  function EndpointY(members: seq<Member>, direction: Direction): (real, real)
    requires Loaded(members)
  {
    var fanouts := seq(|members|, i requires 0 <= i < |members| => members[i].fanoutY);
    var fanins := seq(|members|, i requires 0 <= i < |members| => Average(members[i].faninsY));
    if direction == AToB then (Average(fanouts), Average(fanins)) else (Average(fanins), Average(fanouts))
  }

  /** The distance of the two groups' end points, in thousandths, rounded to the nearest integer. */
  function SharingCost(lhs: (real, real), rhs: (real, real)): (cost: int)
    ensures cost >= 0
    ensures cost as real - 0.5 <= 1000.0 * (Abs(lhs.0 - rhs.0) + Abs(lhs.1 - rhs.1)) < cost as real + 0.5
  {
    ((Abs(lhs.0 - rhs.0) + Abs(lhs.1 - rhs.1)) * 1000.0 + 0.5).Floor
  }

  // ---------------------------------------------------------------------------
  // What the positions of a group mean
  // ---------------------------------------------------------------------------

  lemma {:induction false} TotalMoved(s: seq<real>, i: nat, delta: real)
    requires i < |s|
    ensures Total(s[i := s[i] + delta]) == Total(s) + delta
  {
    var moved := s[i := s[i] + delta];
    if i == 0 {
      assert moved[1..] == s[1..];
    } else {
      assert moved[1..] == s[1..][i - 1 := s[1..][i - 1] + delta];
      TotalMoved(s[1..], i - 1, delta);
    }
  }

  lemma {:induction false} TotalOfEqual(s: seq<real>, y: real)
    requires forall i | 0 <= i < |s| :: s[i] == y
    ensures Total(s) == |s| as real * y
  {
    if s != [] {
      TotalOfEqual(s[1..], y);
      OneMore(|s| - 1, y);
    }
  }

  lemma OneMore(n: nat, y: real)
    ensures (n + 1) as real * y == n as real * y + y
  {
  }

  lemma Divided(n: nat, y: real)
    requires n > 0
    ensures (n as real * y) / n as real == y
  {
  }

  lemma DividedSum(total: real, delta: real, n: nat)
    requires n > 0
    ensures (total + delta) / n as real == total / n as real + delta / n as real
  {
  }

  /** Equal values have that value as their mean. */
  lemma MeanOfEqual(s: seq<real>, y: real)
    requires s != [] && forall i | 0 <= i < |s| :: s[i] == y
    ensures Average(s) == y
  {
    TotalOfEqual(s, y);
    Divided(|s|, y);
  }

  /** Moving one of n values moves their mean by an n-th of that. */
  lemma MeanMoved(s: seq<real>, i: nat, delta: real)
    requires i < |s|
    ensures Average(s[i := s[i] + delta]) == Average(s) + delta / |s| as real
  {
    TotalMoved(s, i, delta);
    DividedSum(Total(s), delta, |s|);
  }

  /** The end a group drives from has the drivers' position, the other end the loads'. */
  lemma EndpointsOfEqual(members: seq<Member>, direction: Direction, driver: real, load: real)
    requires Loaded(members)
    requires forall i | 0 <= i < |members| :: members[i].fanoutY == driver
    requires forall i, j | 0 <= i < |members| && 0 <= j < |members[i].faninsY| :: members[i].faninsY[j] == load
    ensures EndpointY(members, direction) == if direction == AToB then (driver, load) else (load, driver)
  {
    var fanouts := seq(|members|, i requires 0 <= i < |members| => members[i].fanoutY);
    var fanins := seq(|members|, i requires 0 <= i < |members| => Average(members[i].faninsY));
    forall i | 0 <= i < |members| ensures fanins[i] == load {
      assert members[i] in members;
      MeanOfEqual(members[i].faninsY, load);
    }
    MeanOfEqual(fanouts, driver);
    MeanOfEqual(fanins, load);
  }

  /** Moving the driver of one of n members moves the end the group drives from by an n-th of that. */
  lemma DriverMoved(members: seq<Member>, direction: Direction, i: nat, delta: real)
    requires Loaded(members) && i < |members|
    ensures var moved := members[i := members[i].(fanoutY := members[i].fanoutY + delta)];
            var step := delta / |members| as real;
            && Loaded(moved)
            && EndpointY(moved, direction) ==
               if direction == AToB then (EndpointY(members, direction).0 + step, EndpointY(members, direction).1)
               else (EndpointY(members, direction).0, EndpointY(members, direction).1 + step)
  {
    var moved := members[i := members[i].(fanoutY := members[i].fanoutY + delta)];
    MovedLoaded(members, i, moved[i]);
    var fanouts := seq(|members|, k requires 0 <= k < |members| => members[k].fanoutY);
    MeanMoved(fanouts, i, delta);
    assert seq(|moved|, k requires 0 <= k < |moved| => moved[k].fanoutY) == fanouts[i := fanouts[i] + delta];
    assert seq(|moved|, k requires 0 <= k < |moved| => Average(moved[k].faninsY)) ==
           seq(|members|, k requires 0 <= k < |members| => Average(members[k].faninsY));
  }

  lemma MovedLoaded(members: seq<Member>, i: nat, m: Member)
    requires Loaded(members) && i < |members| && m.faninsY != []
    ensures Loaded(members[i := m])
  {
    var moved := members[i := m];
    forall x | x in moved ensures x.faninsY != [] {
      var k :| 0 <= k < |moved| && moved[k] == x;
      assert members[k] in members;
    }
  }

  /** Moving one load of a member moves the other end by the load's share of the member's share. */
  lemma LoadMoved(members: seq<Member>, direction: Direction, i: nat, j: nat, delta: real)
    requires Loaded(members) && i < |members| && j < |members[i].faninsY|
    ensures var loads := members[i].faninsY;
            var moved := members[i := members[i].(faninsY := loads[j := loads[j] + delta])];
            var step := delta / |loads| as real / |members| as real;
            && Loaded(moved)
            && EndpointY(moved, direction) ==
               if direction == AToB then (EndpointY(members, direction).0, EndpointY(members, direction).1 + step)
               else (EndpointY(members, direction).0 + step, EndpointY(members, direction).1)
  {
    var loads := members[i].faninsY;
    var moved := members[i := members[i].(faninsY := loads[j := loads[j] + delta])];
    MovedLoaded(members, i, moved[i]);
    assert members[i] in members;
    MeanMoved(loads, j, delta);
    var fanins := seq(|members|, k requires 0 <= k < |members| => Average(members[k].faninsY));
    MeanMoved(fanins, i, delta / |loads| as real);
    assert seq(|moved|, k requires 0 <= k < |moved| => Average(moved[k].faninsY)) ==
           fanins[i := fanins[i] + delta / |loads| as real];
    assert seq(|moved|, k requires 0 <= k < |moved| => moved[k].fanoutY) ==
           seq(|members|, k requires 0 <= k < |members| => members[k].fanoutY);
  }
}
