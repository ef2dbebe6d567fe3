// The oracle of Chimew's grouping algorithm: greedy packing of schedule entries into TDM groups
// that cross the same super logic regions.
module Grouping {
  import opened Lexicographic
  import opened Sequences
  import opened Wrappers

  /** The one bits of a crossing mask: the super long lines crossed at the source and at the sink. */
  type Encoding = set<nat>

  /** Twice the 31 lines an FPGA may have. */
  const WIDTH: nat := 62

  /** A schedule entry at position `index`; `domain` and `guard` stand for the sort order of the
      link direction and of the guarded lane. */
  datatype Signal = Signal(index: nat, id: nat, domain: nat, ratio: nat, slot: Option<nat>, encoding: Encoding,
                           guard: Option<nat>) {
    /** The frozen slot, or one of its own. */
    function Slot(): nat { if slot.Some? then slot.value else index }

    function Key(): Key { Bucket(domain, ratio, guard) }
  }

  datatype Key = Bucket(domain: nat, ratio: nat, guard: Option<nat>) {
    /** Direction first, then unguarded before guarded lanes, then the ratio. */
    function Order(): seq<int> {
      [domain, if guard.Some? then 1 else 0, if guard.Some? then guard.value else -1, ratio]
    }
  }

  function Popcount(e: Encoding): nat { |e| }

  function Power(bit: nat): nat { if bit == 0 then 1 else 2 * Power(bit - 1) }

  /** The mask as a number. */
  function Mask(e: Encoding, width: nat): nat {
    if width == 0 then 0 else Mask(e, width - 1) + if width - 1 in e then Power(width - 1) else 0
  }

  function Difference(a: Encoding, b: Encoding): Encoding { (a - b) + (b - a) }

  // ---------------------------------------------------------------------------
  // The greedy rule, on sets of signals
  // ---------------------------------------------------------------------------

  ghost function SlotsOf(members: seq<Signal>): set<nat> { set s | s in members :: s.Slot() }

  /** The union of the members' crossings. */
  ghost function Union(members: seq<Signal>): Encoding {
    if members == [] then {} else Union(members[..|members| - 1]) + members[|members| - 1].encoding
  }

  ghost function Alike(r: set<Signal>, e: Encoding): set<Signal> { set s | s in r && s.encoding == e }

  /** The most crossings, and the greatest encoding among those. */
  function SeedKey(e: Encoding): seq<int> { [-(Popcount(e) as int), -(Mask(e, WIDTH) as int)] }

  ghost predicate IsSeed(r: set<Signal>, e: Encoding) {
    (exists s :: s in r && s.encoding == e) && forall s :: s in r ==> LexLeq(SeedKey(e), SeedKey(s.encoding))
  }

  /** Equal to the target first, then subsets of it, then the rest by Hamming distance. */
  function NearestKey(e: Encoding, target: Encoding, multiplicity: nat, index: nat): seq<int> {
    var category := if e == target then 0 else if e <= target then 1 else 2;
    [category, if category == 2 then Popcount(Difference(e, target)) else 0,
     -(Popcount(e) as int), multiplicity, -(Mask(e, WIDTH) as int), index]
  }

  /** The first remaining signal of its encoding with a free slot. */
  ghost predicate Compatible(r: set<Signal>, used: set<nat>, s: Signal) {
    && s in r && s.Slot() !in used
    && forall t :: t in r && t.encoding == s.encoding && t.Slot() !in used ==> s.index <= t.index
  }

  ghost function KeyIn(r: set<Signal>, target: Encoding, s: Signal): seq<int> {
    NearestKey(s.encoding, target, |Alike(r, s.encoding)|, s.index)
  }

  ghost predicate Nearest(r: set<Signal>, used: set<nat>, target: Encoding, s: Signal) {
    Compatible(r, used, s) && forall t :: Compatible(r, used, t) ==> LexLeq(KeyIn(r, target, s), KeyIn(r, target, t))
  }

  /** Every member was nearest to the target when it was taken. */
  ghost predicate Greedy(r: set<Signal>, seed: Encoding, members: seq<Signal>) {
    forall p | 0 <= p < |members| :: Follows(r, seed, members[..p], members[p])
  }

  ghost predicate Follows(r: set<Signal>, seed: Encoding, members: seq<Signal>, s: Signal) {
    Nearest(r - Elements(members), SlotsOf(members), seed + Union(members), s)
  }

  /** No signal can be added: the group is full or every one left collides on its slot. */
  ghost predicate Closed(r: set<Signal>, ratio: nat, members: seq<Signal>) {
    |members| == ratio || forall s :: s in r && s !in members ==> s.Slot() in SlotsOf(members)
  }

  ghost predicate DistinctSlots(members: seq<Signal>) {
    forall p, q | 0 <= p < q < |members| :: members[p].Slot() != members[q].Slot()
  }

  /** A group packed from the signals that remain. */
  ghost predicate Packed(r: set<Signal>, ratio: nat, members: seq<Signal>) {
    && members != [] && |members| <= ratio && Elements(members) <= r
    && IsSeed(r, members[0].encoding) && Greedy(r, members[0].encoding, members) && Closed(r, ratio, members)
  }

  lemma GreedyDistinct(r: set<Signal>, seed: Encoding, members: seq<Signal>)
    requires Greedy(r, seed, members)
    ensures DistinctSlots(members)
  {
    forall p, q | 0 <= p < q < |members| ensures members[p].Slot() != members[q].Slot() {
      assert members[p] in members[..q];
      assert Follows(r, seed, members[..q], members[q]);
    }
  }

  /** The seed's encoding is picked first. */
  lemma SeedFirst(r: set<Signal>, seed: Encoding, members: seq<Signal>)
    requires IsSeed(r, seed) && Greedy(r, seed, members) && members != []
    ensures members[0].encoding == seed
  {
    var any :| any in r && any.encoding == seed;
    var s := FirstAlike(r, any);
    assert Compatible(r, {}, s);
    FirstPick(r, seed, members);
    assert LexLeq(KeyIn(r, seed, members[0]), KeyIn(r, seed, s));
  }

  lemma FirstPick(r: set<Signal>, seed: Encoding, members: seq<Signal>)
    requires Greedy(r, seed, members) && members != []
    ensures Nearest(r, {}, seed, members[0])
  {
    assert Follows(r, seed, members[..0], members[0]);
    assert r - Elements(members[..0]) == r && SlotsOf(members[..0]) == {} && Union(members[..0]) == {};
    assert seed + {} == seed;
  }

  lemma {:induction false} FirstAlike(r: set<Signal>, from: Signal) returns (s: Signal)
    requires from in r
    ensures s in r && s.encoding == from.encoding
            && forall t :: t in r && t.encoding == from.encoding ==> s.index <= t.index
    decreases from.index
  {
    s := from;
    if t :| t in r && t.encoding == from.encoding && t.index < from.index {
      s := FirstAlike(r, t);
    }
  }

  /** Once the seed's encoding has been picked, the target is the union of the members. */
  lemma {:induction false} TargetIsUnion(members: seq<Signal>)
    requires members != []
    ensures members[0].encoding + Union(members) == Union(members)
  {
    var last := |members| - 1;
    if last > 0 {
      TargetIsUnion(members[..last]);
    }
  }

  // ---------------------------------------------------------------------------
  // Queues of signals with the same encoding
  // ---------------------------------------------------------------------------

  ghost predicate Ascending(queue: seq<Signal>) {
    forall p, q | 0 <= p < q < |queue| :: queue[p].index < queue[q].index
  }

  /** The queues hold exactly the remaining signals, in order, and the counters their lengths. */
  ghost predicate Queued(r: set<Signal>, queues: map<Encoding, seq<Signal>>, multiplicity: map<Encoding, nat>) {
    && multiplicity.Keys == queues.Keys
    && (forall e ::
        e in queues ==> multiplicity[e] == |queues[e]| && Ascending(queues[e]) && Elements(queues[e]) == Alike(r, e))
    && (forall s :: s in r ==> s.encoding in queues)
  }

  lemma {:induction false} AscendingSize(queue: seq<Signal>)
    requires Ascending(queue)
    ensures |Elements(queue)| == |queue|
  {
    if queue != [] {
      var last := |queue| - 1;
      AscendingSize(queue[..last]);
      assert queue[last] !in queue[..last];
      assert Elements(queue) == Elements(queue[..last]) + {queue[last]};
    }
  }

  /** The first signal of a queue with a free slot. */
  method FirstFree(queue: seq<Signal>, used: set<nat>) returns (first: Option<Signal>)
    requires Ascending(queue)
    ensures first.None? ==> forall s :: s in queue ==> s.Slot() in used
    ensures first.Some? ==> first.value in queue && first.value.Slot() !in used
    ensures first.Some? ==> forall s :: s in queue && s.Slot() !in used ==> first.value.index <= s.index
  {
    for p := 0 to |queue|
      invariant forall q :: 0 <= q < p ==> queue[q].Slot() in used
    {
      if queue[p].Slot() !in used {
        return Some(queue[p]);
      }
    }
    first := None;
  }

  ghost predicate AllCompatible(r: set<Signal>, used: set<nat>, compatible: map<Encoding, Signal>) {
    && (forall e :: e in compatible ==> compatible[e].encoding == e && Compatible(r, used, compatible[e]))
    && (forall s :: s in r && s.Slot() !in used ==> s.encoding in compatible)
  }

  /** For every encoding with one, the first signal with a free slot. */
  method CompatibleSignals(ghost r: set<Signal>, queues: map<Encoding, seq<Signal>>,
                           ghost multiplicity: map<Encoding, nat>, used: set<nat>)
    returns (compatible: map<Encoding, Signal>)
    requires Queued(r, queues, multiplicity)
    ensures AllCompatible(r, used, compatible)
  {
    compatible := map[];
    var rest := queues.Keys;
    while rest != {}
      invariant rest <= queues.Keys
      invariant forall e :: e in compatible ==> compatible[e].encoding == e && Compatible(r, used, compatible[e])
      invariant forall s :: s in r && s.encoding !in rest && s.Slot() !in used ==> s.encoding in compatible
    {
      var e :| e in rest;
      rest := rest - {e};
      QueueMembers(r, queues, multiplicity, e);
      var first := FirstFree(queues[e], used);
      if first.Some? {
        compatible := compatible[e := first.value];
      }
    }
  }

  lemma QueueMembers(r: set<Signal>, queues: map<Encoding, seq<Signal>>, multiplicity: map<Encoding, nat>, e: Encoding)
    requires Queued(r, queues, multiplicity) && e in queues
    ensures forall s :: s in queues[e] <==> s in r && s.encoding == e
  {
    forall s ensures s in queues[e] <==> s in r && s.encoding == e {
      assert s in queues[e] <==> s in Elements(queues[e]);
    }
  }

  function PickKey(compatible: map<Encoding, Signal>, multiplicity: map<Encoding, nat>, target: Encoding,
                   e: Encoding): seq<int> {
    if e in compatible && e in multiplicity then NearestKey(e, target, multiplicity[e], compatible[e].index) else []
  }

  /** The first signal of the encoding nearest to the target. */
  method PickNearest(ghost r: set<Signal>, ghost queues: map<Encoding, seq<Signal>>, multiplicity: map<Encoding, nat>,
                     ghost used: set<nat>, target: Encoding,
                     compatible: map<Encoding, Signal>) returns (selected: Signal)
    requires Queued(r, queues, multiplicity) && AllCompatible(r, used, compatible) && compatible != map[]
    ensures Nearest(r, used, target, selected) && selected.encoding in compatible
            && compatible[selected.encoding] == selected
  {
    assert compatible.Keys != {};
    var e := LeastBy(compatible.Keys, e => PickKey(compatible, multiplicity, target, e));
    selected := compatible[e];
    forall t | Compatible(r, used, t) ensures LexLeq(KeyIn(r, target, selected), KeyIn(r, target, t)) {
      assert t.encoding in compatible;
      KeyPicked(r, queues, multiplicity, used, target, compatible, t);
      KeyPicked(r, queues, multiplicity, used, target, compatible, selected);
    }
  }

  lemma KeyPicked(r: set<Signal>, queues: map<Encoding, seq<Signal>>, multiplicity: map<Encoding, nat>, used: set<nat>,
                  target: Encoding, compatible: map<Encoding, Signal>, t: Signal)
    requires Queued(r, queues, multiplicity) && AllCompatible(r, used, compatible) && Compatible(r, used, t)
             && t.encoding in compatible
    ensures KeyIn(r, target, t) == PickKey(compatible, multiplicity, target, t.encoding)
  {
    AscendingSize(queues[t.encoding]);
    assert compatible[t.encoding].index == t.index;
  }

  function Without(queue: seq<Signal>, s: Signal): seq<Signal> {
    if queue == [] then [] else if queue[0] == s then queue[1..] else [queue[0]] + Without(queue[1..], s)
  }

  lemma {:induction false} WithoutSignal(queue: seq<Signal>, s: Signal)
    requires Ascending(queue) && s in queue
    ensures Ascending(Without(queue, s)) && |Without(queue, s)| == |queue| - 1
    ensures forall t :: t in Without(queue, s) <==> t in queue && t != s
  {
    var rest := queue[1..];
    assert queue == [queue[0]] + rest;
    if queue[0] == s {
      assert s !in rest;
    } else {
      WithoutSignal(rest, s);
      AscendingHead(queue[0], rest, Without(rest, s));
    }
  }

  lemma AscendingHead(head: Signal, rest: seq<Signal>, fewer: seq<Signal>)
    requires Ascending([head] + rest) && Ascending(fewer) && forall t :: t in fewer ==> t in rest
    ensures Ascending([head] + fewer)
  {
    forall t | t in fewer ensures head.index < t.index {
      var p :| 0 <= p < |rest| && rest[p] == t;
      assert ([head] + rest)[0] == head && ([head] + rest)[p + 1] == t;
    }
  }

  /** Taking a signal out of its queue. */
  lemma TakeSignal(r: set<Signal>, queues: map<Encoding, seq<Signal>>, multiplicity: map<Encoding, nat>, s: Signal)
    requires Queued(r, queues, multiplicity) && s in r
    ensures s.encoding in queues && multiplicity[s.encoding] > 0
    ensures Queued(r - {s}, queues[s.encoding := Without(queues[s.encoding], s)],
                   multiplicity[s.encoding := multiplicity[s.encoding] - 1])
  {
    QueueMembers(r, queues, multiplicity, s.encoding);
    WithoutSignal(queues[s.encoding], s);
    forall e | e in queues && e != s.encoding ensures Alike(r - {s}, e) == Alike(r, e) {
    }
    assert Elements(Without(queues[s.encoding], s)) == Alike(r - {s}, s.encoding);
  }

  lemma AddMember(members: seq<Signal>, s: Signal)
    ensures Elements(members + [s]) == Elements(members) + {s}
            && SlotsOf(members + [s]) == SlotsOf(members) + {s.Slot()}
    ensures Union(members + [s]) == Union(members) + s.encoding
  {
    var longer := members + [s];
    assert longer[..|members|] == members;
    forall n | n in SlotsOf(members) + {s.Slot()} ensures n in SlotsOf(longer) {
      if n == s.Slot() {
        assert s in longer;
      } else {
        var t :| t in members && t.Slot() == n;
        assert t in longer;
      }
    }
  }

  /** The bookkeeping of a group: what is left, the slots used and the target. */
  ghost predicate Booked(r: set<Signal>, seed: Encoding, members: seq<Signal>, left: set<Signal>, used: set<nat>,
                         target: Encoding, count: int) {
    count == |left| && left == r - Elements(members) && Elements(members) <= r
      && used == SlotsOf(members) && target == seed + Union(members)
  }

  lemma BookMember(r: set<Signal>, seed: Encoding, members: seq<Signal>, left: set<Signal>, used: set<nat>,
                   target: Encoding, count: int, s: Signal)
    requires Booked(r, seed, members, left, used, target, count) && s in left
    ensures Booked(r, seed, members + [s], left - {s}, used + {s.Slot()}, target + s.encoding, count - 1)
    ensures count > 0
  {
    AddMember(members, s);
  }

  lemma GreedyGrows(r: set<Signal>, seed: Encoding, members: seq<Signal>, s: Signal)
    requires Greedy(r, seed, members)
    requires Follows(r, seed, members, s)
    ensures Greedy(r, seed, members + [s])
  {
    var longer := members + [s];
    assert longer[..|members|] == members;
    forall p | 0 <= p < |longer| ensures Follows(r, seed, longer[..p], longer[p]) {
      if p < |members| {
        AppendPrefix(members, s, p);
        assert Follows(r, seed, members[..p], members[p]);
      }
    }
  }

  lemma PackedGroup(r: set<Signal>, ratio: nat, seed: Encoding, members: seq<Signal>)
    requires IsSeed(r, seed) && Greedy(r, seed, members) && Elements(members) <= r && |members| <= ratio && ratio > 0
    requires Closed(r, ratio, members)
    ensures Packed(r, ratio, members) && seed + Union(members) == Union(members)
  {
    var s :| s in r && s.encoding == seed;
    if s !in members && |members| != ratio {
      assert s.Slot() in SlotsOf(members);
    }
    SeedFirst(r, seed, members);
    TargetIsUnion(members);
  }

  /** Packs one group around a seed: members are added until the group is full or none fits. */
  method FillGroup(ghost r: set<Signal>, queues: map<Encoding, seq<Signal>>, multiplicity: map<Encoding, nat>,
                   count: nat, ratio: nat, seed: Encoding)
    returns (members: seq<Signal>, target: Encoding, queues': map<Encoding, seq<Signal>>,
             multiplicity': map<Encoding, nat>, count': nat)
    requires Queued(r, queues, multiplicity) && count == |r| && ratio > 0 && IsSeed(r, seed)
    ensures Packed(r, ratio, members) && target == Union(members) && Elements(members) <= r
    ensures Queued(r - Elements(members), queues', multiplicity') && count' == |r - Elements(members)| < count
  {
    members, target, queues', multiplicity', count' := [], seed, queues, multiplicity, count;
    var used: set<nat> := {};
    ghost var left := r;
    var stuck := false;
    while count' > 0 && |members| < ratio && !stuck
      invariant Booked(r, seed, members, left, used, target, count') && |members| <= ratio
      invariant Queued(left, queues', multiplicity') && count == count' + |members|
      invariant Greedy(r, seed, members)
      invariant stuck ==> forall s :: s in left ==> s.Slot() in used
      decreases count', !stuck
    {
      var compatible := CompatibleSignals(left, queues', multiplicity', used);
      if compatible == map[] {
        stuck := true;
      } else {
        var selected := PickNearest(left, queues', multiplicity', used, target, compatible);
        TakeSignal(left, queues', multiplicity', selected);
        GreedyGrows(r, seed, members, selected);
        BookMember(r, seed, members, left, used, target, count', selected);
        queues' := queues'[selected.encoding := Without(queues'[selected.encoding], selected)];
        members := members + [selected];
        used := used + {selected.Slot()};
        target := target + selected.encoding;
        multiplicity' := multiplicity'[selected.encoding := multiplicity'[selected.encoding] - 1];
        count' := count' - 1;
        left := left - {selected};
      }
    }
    assert Closed(r, ratio, members);
    PackedGroup(r, ratio, seed, members);
  }

  // ---------------------------------------------------------------------------
  // Whole groupings
  // ---------------------------------------------------------------------------

  ghost predicate Taken(groups: seq<seq<Signal>>, s: Signal) { exists g :: 0 <= g < |groups| && s in groups[g] }

  /** The signals of a bucket that are in no group yet. */
  ghost function Unassigned(signals: seq<Signal>, groups: seq<seq<Signal>>, key: Key): set<Signal> {
    set s | s in signals && s.Key() == key && !Taken(groups, s)
  }

  /** Every group is packed from what its bucket has left after the groups before it. */
  ghost predicate Grouped(signals: seq<Signal>, groups: seq<seq<Signal>>) {
    forall g | 0 <= g < |groups| :: GroupedAt(signals, groups[..g], groups[g])
  }

  ghost predicate GroupedAt(signals: seq<Signal>, before: seq<seq<Signal>>, group: seq<Signal>) {
    group != [] && Packed(Unassigned(signals, before, group[0].Key()), group[0].ratio, group)
  }

  /** Buckets are finished one after the other, in the order of their keys. */
  ghost predicate InKeyOrder(groups: seq<seq<Signal>>) {
    forall g, h | 0 <= g < h < |groups| && groups[g] != [] && groups[h] != [] ::
      LexLeq(groups[g][0].Key().Order(), groups[h][0].Key().Order())
  }

  ghost function CrossingBits(groups: seq<seq<Signal>>): nat {
    if groups == [] then 0 else CrossingBits(groups[..|groups| - 1]) + Popcount(Union(groups[|groups| - 1]))
  }

  lemma PackedMembers(signals: seq<Signal>, groups: seq<seq<Signal>>, key: Key, group: seq<Signal>)
    requires Packed(Unassigned(signals, groups, key), key.ratio, group)
    ensures group[0].Key() == key && forall s :: s in group ==> s in signals && s.Key() == key && !Taken(groups, s)
  {
    forall s | s in group ensures s in signals && s.Key() == key && !Taken(groups, s) {
      assert s in Elements(group);
    }
    assert group[0] in group;
  }

  lemma AddGroup(signals: seq<Signal>, groups: seq<seq<Signal>>, key: Key, group: seq<Signal>)
    requires Grouped(signals, groups) && Packed(Unassigned(signals, groups, key), key.ratio, group)
    ensures Grouped(signals, groups + [group])
            && CrossingBits(groups + [group]) == CrossingBits(groups) + Popcount(Union(group))
  {
    var longer := groups + [group];
    PackedMembers(signals, groups, key, group);
    assert longer[..|groups|] == groups;
    forall g | 0 <= g < |longer| ensures GroupedAt(signals, longer[..g], longer[g]) {
      if g < |groups| {
        assert longer[..g] == groups[..g];
      }
    }
  }

  lemma UnassignedShrinks(signals: seq<Signal>, groups: seq<seq<Signal>>, key: Key, group: seq<Signal>)
    ensures Unassigned(signals, groups + [group], key) == Unassigned(signals, groups, key) - Elements(group)
  {
    forall s ensures Taken(groups + [group], s) <==> Taken(groups, s) || s in group {
      TakenGrows(groups, group, s);
    }
  }

  lemma TakenGrows(groups: seq<seq<Signal>>, group: seq<Signal>, s: Signal)
    ensures Taken(groups + [group], s) <==> Taken(groups, s) || s in group
  {
    var longer := groups + [group];
    if Taken(groups, s) {
      var g :| 0 <= g < |groups| && s in groups[g];
      assert longer[g] == groups[g];
    }
    if s in group {
      assert longer[|groups|] == group;
    }
  }

  /** The assignment names the group of every grouped signal, and nothing else. */
  ghost predicate Assigns(signals: seq<Signal>, groups: seq<seq<Signal>>, assignment: map<nat, nat>) {
    && (forall g, s | 0 <= g < |groups| && s in groups[g] ::
        s in signals && s.id in assignment && assignment[s.id] == g)
    && (forall id :: id in assignment ==> exists s :: s in signals && s.id == id && Taken(groups, s))
  }

  ghost predicate DistinctIds(signals: seq<Signal>) {
    && (forall i | 0 <= i < |signals| :: signals[i].index == i)
    && (forall s, t :: s in signals && t in signals && s.id == t.id ==> s == t)
  }

  /** The group's signals are in no earlier group. */
  ghost predicate Fresh(signals: seq<Signal>, groups: seq<seq<Signal>>, group: seq<Signal>) {
    forall s :: s in group ==> s in signals && !Taken(groups, s)
  }

  method AssignGroup(ghost signals: seq<Signal>, ghost groups: seq<seq<Signal>>, assignment: map<nat, nat>,
                     group: seq<Signal>, number: nat)
    returns (assignment': map<nat, nat>)
    requires DistinctIds(signals) && Assigns(signals, groups, assignment) && number == |groups|
    requires Fresh(signals, groups, group)
    ensures Assigns(signals, groups + [group], assignment')
  {
    assignment' := assignment;
    for p := 0 to |group|
      invariant forall s :: s in group[..p] ==> s.id in assignment' && assignment'[s.id] == number
      invariant forall g, s | 0 <= g < |groups| && s in groups[g] ::
                  s in signals && s.id in assignment' && assignment'[s.id] == g
      invariant forall id :: id in assignment' ==>
                  exists s :: s in signals && s.id == id && (Taken(groups, s) || s in group)
    {
      TakeNext(group, p);
      forall g, s | 0 <= g < |groups| && s in groups[g] ensures s.id != group[p].id {
        assert Taken(groups, s) && group[p] in group;
      }
      assignment' := assignment'[group[p].id := number];
    }
    assert group[..|group|] == group;
    ghost var longer := groups + [group];
    forall g, s | 0 <= g < |longer| && s in longer[g]
      ensures s in signals && s.id in assignment' && assignment'[s.id] == g
    {
    }
    forall id | id in assignment' ensures exists s :: s in signals && s.id == id && Taken(longer, s) {
      var s :| s in signals && s.id == id && (Taken(groups, s) || s in group);
      TakenGrows(groups, group, s);
    }
  }

  /** The encoding that seeds the next group. */
  method PickSeed(ghost r: set<Signal>, queues: map<Encoding, seq<Signal>>, ghost multiplicity: map<Encoding, nat>)
    returns (seed: Encoding)
    requires Queued(r, queues, multiplicity) && r != {}
    ensures IsSeed(r, seed)
  {
    var candidates := set e | e in queues && queues[e] != [];
    forall s | s in r ensures s.encoding in candidates {
      QueueMembers(r, queues, multiplicity, s.encoding);
    }
    ghost var some :| some in r;
    assert some.encoding in candidates;
    seed := LeastBy(candidates, SeedKey);
    QueueMembers(r, queues, multiplicity, seed);
    assert queues[seed][0] in r;
  }

  /** Queues the signals of a bucket by encoding. */
  method QueueBucket(bucket: seq<Signal>) returns (queues: map<Encoding, seq<Signal>>, multiplicity: map<Encoding, nat>)
    requires Ascending(bucket)
    ensures Queued(Elements(bucket), queues, multiplicity)
  {
    queues, multiplicity := map[], map[];
    for i := 0 to |bucket|
      invariant Queued(Elements(bucket[..i]), queues, multiplicity)
    {
      TakeNext(bucket, i);
      var e := bucket[i].encoding;
      ghost var r := Elements(bucket[..i]);
      assert Elements(bucket[..i + 1]) == r + {bucket[i]};
      EnqueueSignal(r, queues, multiplicity, bucket[i]);
      queues := queues[e := (if e in queues then queues[e] else []) + [bucket[i]]];
      multiplicity := multiplicity[e := |queues[e]|];
    }
    assert bucket[..|bucket|] == bucket;
  }

  lemma EnqueueSignal(r: set<Signal>, queues: map<Encoding, seq<Signal>>, multiplicity: map<Encoding, nat>, s: Signal)
    requires Queued(r, queues, multiplicity) && forall t :: t in r ==> t.index < s.index
    ensures var queue := (if s.encoding in queues then queues[s.encoding] else []) + [s];
            Queued(r + {s}, queues[s.encoding := queue], multiplicity[s.encoding := |queue|])
  {
    var before := if s.encoding in queues then queues[s.encoding] else [];
    forall t ensures t in before <==> t in r && t.encoding == s.encoding {
      if s.encoding in queues {
        QueueMembers(r, queues, multiplicity, s.encoding);
      }
    }
    assert Elements(before + [s]) == Alike(r + {s}, s.encoding);
    forall e | e in queues && e != s.encoding ensures Alike(r + {s}, e) == Alike(r, e) {
    }
  }

  // ---------------------------------------------------------------------------
  // The oracle
  // ---------------------------------------------------------------------------

  ghost function OfKey(signals: seq<Signal>, key: Key): set<Signal> { set s | s in signals && s.Key() == key }

  /** The signals by key, in order. */
  ghost predicate Bucketed(signals: seq<Signal>, buckets: map<Key, seq<Signal>>) {
    && (forall key :: key in buckets ==>
        buckets[key] != [] && Ascending(buckets[key]) && Elements(buckets[key]) == OfKey(signals, key))
    && (forall s :: s in signals ==> s.Key() in buckets)
  }

  /** Sorts the signals into buckets; fails on a ratio below one. */
  method BuildBuckets(signals: seq<Signal>) returns (buckets: map<Key, seq<Signal>>, valid: bool)
    requires forall i | 0 <= i < |signals| :: signals[i].index == i
    ensures valid <==> forall s :: s in signals ==> s.ratio >= 1
    ensures valid ==> Bucketed(signals, buckets)
  {
    buckets, valid := map[], true;
    for i := 0 to |signals|
      invariant forall s :: s in signals[..i] ==> s.ratio >= 1
      invariant Bucketed(signals[..i], buckets)
      invariant forall s :: s in signals[..i] ==> s.index < i
    {
      TakeNext(signals, i);
      var s := signals[i];
      if s.ratio < 1 {
        assert s in signals;
        return buckets, false;
      }
      AddToBucket(signals[..i], buckets, s);
      buckets := buckets[s.Key() := (if s.Key() in buckets then buckets[s.Key()] else []) + [s]];
    }
    assert signals[..|signals|] == signals;
  }

  lemma AddToBucket(before: seq<Signal>, buckets: map<Key, seq<Signal>>, s: Signal)
    requires Bucketed(before, buckets) && forall t :: t in before ==> t.index < s.index
    ensures Bucketed(before + [s], buckets[s.Key() := (if s.Key() in buckets then buckets[s.Key()] else []) + [s]])
  {
    var bucket := if s.Key() in buckets then buckets[s.Key()] else [];
    forall t ensures t in bucket <==> t in before && t.Key() == s.Key() {
      assert s.Key() in buckets ==> (t in bucket <==> t in Elements(buckets[s.Key()]));
    }
    assert Elements(bucket + [s]) == OfKey(before + [s], s.Key());
    forall key | key in buckets && key != s.Key() ensures OfKey(before + [s], key) == OfKey(before, key) {
    }
  }

  /** What is maintained from group to group. */
  ghost predicate Progress(signals: seq<Signal>, groups: seq<seq<Signal>>, assignment: map<nat, nat>, bits: nat) {
    Grouped(signals, groups) && Assigns(signals, groups, assignment) && bits == CrossingBits(groups)
  }

  /** The later groups come after the earlier ones and all belong to one bucket. */
  ghost predicate Extends(groups: seq<seq<Signal>>, groups': seq<seq<Signal>>, key: Key) {
    groups <= groups' && forall g | |groups| <= g < |groups'| :: groups'[g] != [] && groups'[g][0].Key() == key
  }

  lemma PackedFresh(signals: seq<Signal>, groups: seq<seq<Signal>>, key: Key, group: seq<Signal>)
    requires Packed(Unassigned(signals, groups, key), key.ratio, group)
    ensures group[0].Key() == key && Fresh(signals, groups, group)
  {
    PackedMembers(signals, groups, key, group);
  }

  lemma ExtendsMore(first: seq<seq<Signal>>, groups: seq<seq<Signal>>, group: seq<Signal>, key: Key)
    requires Extends(first, groups, key) && group != [] && group[0].Key() == key
    ensures Extends(first, groups + [group], key)
  {
    assert first <= groups <= groups + [group];
  }

  lemma NextGroup(signals: seq<Signal>, key: Key, first: seq<seq<Signal>>, groups: seq<seq<Signal>>, group: seq<Signal>)
    requires Grouped(signals, groups) && Extends(first, groups, key)
             && Packed(Unassigned(signals, groups, key), key.ratio, group)
    ensures Fresh(signals, groups, group) && Grouped(signals, groups + [group]) && Extends(first, groups + [group], key)
    ensures CrossingBits(groups + [group]) == CrossingBits(groups) + Popcount(Union(group))
    ensures Unassigned(signals, groups + [group], key) == Unassigned(signals, groups, key) - Elements(group)
  {
    PackedFresh(signals, groups, key, group);
    AddGroup(signals, groups, key, group);
    UnassignedShrinks(signals, groups, key, group);
    ExtendsMore(first, groups, group, key);
  }

  /** Packs the next group of a bucket. */
  method PackNext(signals: seq<Signal>, key: Key, ghost r: set<Signal>, queues: map<Encoding, seq<Signal>>,
                  multiplicity: map<Encoding, nat>, count: nat, ghost first: seq<seq<Signal>>, groups: seq<seq<Signal>>,
                  assignment: map<nat, nat>, bits: nat)
    returns (ghost r': set<Signal>, queues': map<Encoding, seq<Signal>>, multiplicity': map<Encoding, nat>, count': nat,
             groups': seq<seq<Signal>>, assignment': map<nat, nat>, bits': nat)
    requires DistinctIds(signals) && key.ratio >= 1 && Progress(signals, groups, assignment, bits)
             && Extends(first, groups, key)
    requires r == Unassigned(signals, groups, key) && r != {} && count == |r| && Queued(r, queues, multiplicity)
    ensures Progress(signals, groups', assignment', bits') && Extends(first, groups', key)
    ensures r' == Unassigned(signals, groups', key) && count' == |r'| < count && Queued(r', queues', multiplicity')
  {
    var seed := PickSeed(r, queues, multiplicity);
    var members, target;
    members, target, queues', multiplicity', count' := FillGroup(r, queues, multiplicity, count, key.ratio, seed);
    r' := r - Elements(members);
    NextGroup(signals, key, first, groups, members);
    assignment' := AssignGroup(signals, groups, assignment, members, |groups|);
    bits' := bits + Popcount(target);
    groups' := groups + [members];
  }

  /** Packs a bucket into groups until every signal of its key has one. */
  method GroupBucket(signals: seq<Signal>, key: Key, bucket: seq<Signal>, groups: seq<seq<Signal>>,
                     assignment: map<nat, nat>, bits: nat)
    returns (groups': seq<seq<Signal>>, assignment': map<nat, nat>, bits': nat)
    requires DistinctIds(signals) && key.ratio >= 1 && Ascending(bucket)
             && Elements(bucket) == Unassigned(signals, groups, key)
    requires Progress(signals, groups, assignment, bits)
    ensures Progress(signals, groups', assignment', bits') && Extends(groups, groups', key)
            && Unassigned(signals, groups', key) == {}
  {
    groups', assignment', bits' := groups, assignment, bits;
    var queues, multiplicity := QueueBucket(bucket);
    var count: nat := |bucket|;
    AscendingSize(bucket);
    ghost var r := Elements(bucket);
    while count > 0
      invariant r == Unassigned(signals, groups', key) && count == |r| && Queued(r, queues, multiplicity)
      invariant Progress(signals, groups', assignment', bits') && Extends(groups, groups', key)
      decreases count
    {
      r, queues, multiplicity, count, groups', assignment', bits' :=
        PackNext(signals, key, r, queues, multiplicity, count, groups, groups', assignment', bits');
    }
  }

  ghost predicate KeysFrom(groups: seq<seq<Signal>>, done: set<Key>) {
    forall g | 0 <= g < |groups| :: groups[g] != [] && groups[g][0].Key() in done
  }

  ghost predicate Ordered(done: set<Key>, pending: set<Key>) {
    forall k, l :: k in done && l in pending ==> LexLeq(k.Order(), l.Order())
  }

  /** Everything but the pending buckets is grouped, in key order. */
  ghost predicate DoneUpTo(signals: seq<Signal>, groups: seq<seq<Signal>>, keys: set<Key>, pending: set<Key>) {
    && pending <= keys && KeysFrom(groups, keys - pending) && Ordered(keys - pending, pending) && InKeyOrder(groups)
    && forall s :: s in signals && s.Key() !in pending ==> Taken(groups, s)
  }

  /** The bucket that comes next is untouched. */
  lemma Untouched(signals: seq<Signal>, groups: seq<seq<Signal>>, keys: set<Key>, pending: set<Key>, key: Key)
    requires Grouped(signals, groups) && KeysFrom(groups, keys - pending) && key in pending
    ensures OfKey(signals, key) == Unassigned(signals, groups, key)
  {
    forall s | Taken(groups, s) ensures s.Key() != key {
      var g :| 0 <= g < |groups| && s in groups[g];
      assert GroupedAt(signals, groups[..g], groups[g]);
      PackedMembers(signals, groups[..g], groups[g][0].Key(), groups[g]);
    }
  }

  lemma KeysExtended(groups: seq<seq<Signal>>, groups': seq<seq<Signal>>, keys: set<Key>, pending: set<Key>, key: Key)
    requires pending <= keys && KeysFrom(groups, keys - pending) && Ordered(keys - pending, pending)
             && InKeyOrder(groups)
    requires Least(pending, (k: Key) => k.Order(), key) && Extends(groups, groups', key)
    ensures KeysFrom(groups', keys - (pending - {key})) && Ordered(keys - (pending - {key}), pending - {key})
            && InKeyOrder(groups')
  {
    assert keys - (pending - {key}) == (keys - pending) + {key};
    forall g | 0 <= g < |groups'| ensures groups'[g] != [] && groups'[g][0].Key() in (keys - pending) + {key} {
      assert g < |groups| ==> groups'[g] == groups[g];
    }
    forall g, h | 0 <= g < h < |groups'| ensures LexLeq(groups'[g][0].Key().Order(), groups'[h][0].Key().Order()) {
      if h < |groups| {
        assert groups'[g] == groups[g] && groups'[h] == groups[h];
      } else if g < |groups| {
        assert groups'[g] == groups[g];
      } else {
        LexTotal(key.Order(), key.Order());
      }
    }
  }

  lemma BucketDone(signals: seq<Signal>, groups: seq<seq<Signal>>, groups': seq<seq<Signal>>, keys: set<Key>,
                   pending: set<Key>, key: Key)
    requires DoneUpTo(signals, groups, keys, pending) && Least(pending, (k: Key) => k.Order(), key)
    requires Extends(groups, groups', key) && Unassigned(signals, groups', key) == {}
    ensures DoneUpTo(signals, groups', keys, pending - {key})
  {
    KeysExtended(groups, groups', keys, pending, key);
    forall s | s in signals && s.Key() !in pending - {key} ensures Taken(groups', s) {
      if s.Key() == key {
        assert s !in Unassigned(signals, groups', key);
      } else {
        var g :| 0 <= g < |groups| && s in groups[g];
        assert groups'[g] == groups[g];
      }
    }
  }

  /** The grouping of all signals, bucket by bucket, with its group numbers and crossing bits. */
  ghost predicate OracleResult(signals: seq<Signal>, groups: seq<seq<Signal>>, assignment: map<nat, nat>, count: nat,
                               bits: nat) {
    && Grouped(signals, groups) && InKeyOrder(groups) && (forall s :: s in signals ==> Taken(groups, s))
    && Assigns(signals, groups, assignment) && count == |groups| && bits == CrossingBits(groups)
  }

  method GroupLeastBucket(signals: seq<Signal>, buckets: map<Key, seq<Signal>>, pending: set<Key>,
                          groups: seq<seq<Signal>>, assignment: map<nat, nat>, bits: nat)
    returns (key: Key, groups': seq<seq<Signal>>, assignment': map<nat, nat>, bits': nat)
    requires DistinctIds(signals) && Bucketed(signals, buckets) && (forall s :: s in signals ==> s.ratio >= 1)
    requires Progress(signals, groups, assignment, bits) && DoneUpTo(signals, groups, buckets.Keys, pending)
             && pending != {}
    ensures Progress(signals, groups', assignment', bits') && key in pending
            && DoneUpTo(signals, groups', buckets.Keys, pending - {key})
  {
    key := LeastBy(pending, (k: Key) => k.Order());
    RatioOfBucket(signals, buckets, key);
    Untouched(signals, groups, buckets.Keys, pending, key);
    groups', assignment', bits' := GroupBucket(signals, key, buckets[key], groups, assignment, bits);
    BucketDone(signals, groups, groups', buckets.Keys, pending, key);
  }

  lemma RatioOfBucket(signals: seq<Signal>, buckets: map<Key, seq<Signal>>, key: Key)
    requires Bucketed(signals, buckets) && key in buckets && forall s :: s in signals ==> s.ratio >= 1
    ensures key.ratio >= 1
  {
    assert buckets[key] != [];
    assert buckets[key][0] in Elements(buckets[key]);
  }

  method GroupBuckets(signals: seq<Signal>, buckets: map<Key, seq<Signal>>)
    returns (groups: seq<seq<Signal>>, assignment: map<nat, nat>, bits: nat)
    requires DistinctIds(signals) && Bucketed(signals, buckets) && (forall s :: s in signals ==> s.ratio >= 1)
    ensures Progress(signals, groups, assignment, bits) && DoneUpTo(signals, groups, buckets.Keys, {})
  {
    groups, assignment, bits := [], map[], 0;
    var pending := buckets.Keys;
    while pending != {}
      invariant Progress(signals, groups, assignment, bits) && DoneUpTo(signals, groups, buckets.Keys, pending)
      decreases pending
    {
      var key;
      key, groups, assignment, bits := GroupLeastBucket(signals, buckets, pending, groups, assignment, bits);
      pending := pending - {key};
    }
  }

  /** Groups the signals; fails exactly on a ratio below one. */
  method OracleGroups(signals: seq<Signal>)
    returns (valid: bool, assignment: map<nat, nat>, count: nat, bits: nat, ghost groups: seq<seq<Signal>>)
    requires DistinctIds(signals)
    ensures valid <==> forall s :: s in signals ==> s.ratio >= 1
    ensures valid ==> OracleResult(signals, groups, assignment, count, bits)
  {
    assignment, count, bits, groups := map[], 0, 0, [];
    var buckets;
    buckets, valid := BuildBuckets(signals);
    if valid {
      var packed;
      packed, assignment, bits := GroupBuckets(signals, buckets);
      count, groups := |packed|, packed;
    }
  }

  // ---------------------------------------------------------------------------
  // What the groups are like
  // ---------------------------------------------------------------------------

  ghost function Flatten(groups: seq<seq<Signal>>): multiset<Signal> {
    if groups == [] then multiset{} else Flatten(groups[..|groups| - 1]) + multiset(groups[|groups| - 1])
  }

  lemma {:induction false} SlotsCount(members: seq<Signal>, s: Signal)
    requires DistinctSlots(members)
    ensures multiset(members)[s] == if s in members then 1 else 0
  {
    if members != [] {
      var last := |members| - 1;
      SlotsCount(members[..last], s);
      assert members == members[..last] + [members[last]];
      assert s in members[..last] ==> s.Slot() != members[last].Slot();
    }
  }

  lemma GroupMembers(signals: seq<Signal>, before: seq<seq<Signal>>, group: seq<Signal>, s: Signal)
    requires GroupedAt(signals, before, group)
    ensures DistinctSlots(group)
    ensures s in group ==> s in signals && s.Key() == group[0].Key() && !Taken(before, s)
  {
    PackedMembers(signals, before, group[0].Key(), group);
    GreedyDistinct(Unassigned(signals, before, group[0].Key()), group[0].encoding, group);
  }

  lemma PrefixGrouped(signals: seq<Signal>, groups: seq<seq<Signal>>, n: nat)
    requires Grouped(signals, groups) && n <= |groups|
    ensures Grouped(signals, groups[..n])
  {
    forall g | 0 <= g < n ensures GroupedAt(signals, groups[..n][..g], groups[..n][g]) {
      assert groups[..n][..g] == groups[..g];
    }
  }

  lemma {:induction false} TakenOnce(signals: seq<Signal>, groups: seq<seq<Signal>>, s: Signal)
    requires Grouped(signals, groups)
    ensures Flatten(groups)[s] == if Taken(groups, s) then 1 else 0
    ensures Taken(groups, s) ==> s in signals
  {
    if groups != [] {
      var last := |groups| - 1;
      PrefixGrouped(signals, groups, last);
      TakenOnce(signals, groups[..last], s);
      assert GroupedAt(signals, groups[..last], groups[last]);
      GroupMembers(signals, groups[..last], groups[last], s);
      SlotsCount(groups[last], s);
      TakenGrows(groups[..last], groups[last], s);
      SplitLast(groups);
    }
  }

  /** One bucket's signals, no more than the ratio allows, on different slots. */
  ghost predicate Fits(group: seq<Signal>) {
    group != [] && |group| <= group[0].ratio && DistinctSlots(group)
    && forall s :: s in group ==> s.Key() == group[0].Key()
  }

  /** The group is full, or every signal of its bucket that comes later collides with a member. */
  ghost predicate CannotTakeMore(signals: seq<Signal>, groups: seq<seq<Signal>>, g: nat)
    requires g < |groups| && groups[g] != []
  {
    || |groups[g]| == groups[g][0].ratio
    || forall s ::
         s in signals && s.Key() == groups[g][0].Key() && !Taken(groups[..g + 1], s) ==> s.Slot() in SlotsOf(groups[g])
  }

  lemma CountsAgree(signals: seq<Signal>, groups: seq<seq<Signal>>, s: Signal)
    requires DistinctIds(signals) && Grouped(signals, groups) && forall t :: t in signals ==> Taken(groups, t)
    ensures Flatten(groups)[s] == multiset(signals)[s]
  {
    TakenOnce(signals, groups, s);
    IndexedOnce(signals, s);
  }

  lemma AllTakenOnce(signals: seq<Signal>, groups: seq<seq<Signal>>)
    requires DistinctIds(signals) && Grouped(signals, groups) && forall s :: s in signals ==> Taken(groups, s)
    ensures Flatten(groups) == multiset(signals)
  {
    var a, b := Flatten(groups), multiset(signals);
    forall s ensures a[s] == b[s] {
      CountsAgree(signals, groups, s);
    }
    EqualCounts(a, b);
  }

  /** Every signal is in exactly one group, exactly once. */
  lemma GroupsPartition(signals: seq<Signal>, groups: seq<seq<Signal>>, assignment: map<nat, nat>, count: nat,
                        bits: nat)
    requires DistinctIds(signals) && OracleResult(signals, groups, assignment, count, bits)
    ensures Flatten(groups) == multiset(signals)
  {
    AllTakenOnce(signals, groups);
  }

  /** Each group fits, and none was closed early. */
  lemma GroupsFit(signals: seq<Signal>, groups: seq<seq<Signal>>, assignment: map<nat, nat>, count: nat, bits: nat)
    requires OracleResult(signals, groups, assignment, count, bits)
    ensures forall g | 0 <= g < |groups| :: Fits(groups[g]) && CannotTakeMore(signals, groups, g)
  {
    forall g | 0 <= g < |groups| ensures Fits(groups[g]) && CannotTakeMore(signals, groups, g) {
      GroupFits(signals, groups, g);
    }
  }

  lemma GroupFits(signals: seq<Signal>, groups: seq<seq<Signal>>, g: nat)
    requires Grouped(signals, groups) && g < |groups|
    ensures Fits(groups[g]) && CannotTakeMore(signals, groups, g)
  {
    var before, group := groups[..g], groups[g];
    assert GroupedAt(signals, before, group);
    MembersFit(signals, before, group);
    TakeNext(groups, g);
    forall s | s in signals && s.Key() == group[0].Key() && !Taken(groups[..g + 1], s) && |group| != group[0].ratio
      ensures s.Slot() in SlotsOf(group)
    {
      LeftCollides(signals, before, group, s);
    }
  }

  lemma MembersFit(signals: seq<Signal>, before: seq<seq<Signal>>, group: seq<Signal>)
    requires GroupedAt(signals, before, group)
    ensures Fits(group)
  {
    PackedMembers(signals, before, group[0].Key(), group);
    GreedyDistinct(Unassigned(signals, before, group[0].Key()), group[0].encoding, group);
  }

  lemma LeftCollides(signals: seq<Signal>, before: seq<seq<Signal>>, group: seq<Signal>, s: Signal)
    requires GroupedAt(signals, before, group) && |group| != group[0].ratio
    requires s in signals && s.Key() == group[0].Key() && !Taken(before + [group], s)
    ensures s.Slot() in SlotsOf(group)
  {
    TakenGrows(before, group, s);
    assert s in Unassigned(signals, before, group[0].Key());
  }

  lemma {:induction false} IndexedOnce(signals: seq<Signal>, s: Signal)
    requires forall i | 0 <= i < |signals| :: signals[i].index == i
    ensures multiset(signals)[s] == if s in signals then 1 else 0
  {
    if signals != [] {
      var last := |signals| - 1;
      IndexedOnce(signals[..last], s);
      assert signals == signals[..last] + [signals[last]];
    }
  }
}
