// Splitting the materialized groups of a link into those with a fixed lane and the rest,
// and why the lanes always suffice after bundling.
module LaneAssignment {
  import opened LaneGroups
  import opened SharedLanes
  import opened LaneBundles
  import opened Sequences

  datatype SplitResult =
    | Split(unguarded: set<Key>, available: set<nat>, guarded: map<nat, Key>)
    | TwoGroupsOneLane
    | TooFewLanes

  function Guarded(keys: set<Key>, fixed: map<Key, nat>): set<Key> { set k | k in keys && k in fixed }

  function Unguarded(keys: set<Key>, fixed: map<Key, nat>): set<Key> { set k | k in keys && k !in fixed }

  function Taken(keys: set<Key>, fixed: map<Key, nat>): set<nat> { set k | k in keys && k in fixed :: fixed[k] }

  function Available(laneCount: nat, keys: set<Key>, fixed: map<Key, nat>): set<nat> {
    set lane | lane in Below(laneCount) && lane !in Taken(keys, fixed)
  }

  ghost predicate InjectiveLanes(keys: set<Key>, fixed: map<Key, nat>) {
    forall k, k' :: k in keys && k' in keys && k in fixed && k' in fixed && fixed[k] == fixed[k'] ==> k == k'
  }

  ghost predicate IndexedByLane(keys: set<Key>, fixed: map<Key, nat>, guarded: map<nat, Key>) {
    && guarded.Keys == Taken(keys, fixed)
    && forall lane ::
         lane in guarded ==> guarded[lane] in keys && guarded[lane] in fixed && fixed[guarded[lane]] == lane
  }

  /** Separates the groups with a fixed lane from those that may take any other lane. */
  method SplitLanes(laneCount: nat, keys: set<Key>, fixed: map<Key, nat>) returns (r: SplitResult)
    ensures r.TwoGroupsOneLane? <==> !InjectiveLanes(keys, fixed)
    ensures r.TooFewLanes? <==>
            InjectiveLanes(keys, fixed) && |Unguarded(keys, fixed)| > |Available(laneCount, keys, fixed)|
    ensures r.Split? ==> r.unguarded == Unguarded(keys, fixed) && r.available == Available(laneCount, keys, fixed)
    ensures r.Split? ==> IndexedByLane(keys, fixed, r.guarded)
  {
    var guarded := IndexByLane(keys, fixed);
    TakenCard(keys, fixed);
    assert |guarded| == |guarded.Keys|;
    if |guarded| != |Guarded(keys, fixed)| {
      return TwoGroupsOneLane;
    }
    if |Unguarded(keys, fixed)| > |Available(laneCount, keys, fixed)| {
      return TooFewLanes;
    }
    r := Split(Unguarded(keys, fixed), Available(laneCount, keys, fixed), guarded);
  }

  /** What the parts of a split are: groups without a fixed lane, lanes of the link that none of its groups is fixed to,
      and for each of the other lanes that are fixed its group. */
  lemma SplitMeans(laneCount: nat, keys: set<Key>, fixed: map<Key, nat>, guarded: map<nat, Key>, k: Key, lane: nat)
    requires IndexedByLane(keys, fixed, guarded)
    ensures k in Unguarded(keys, fixed) <==> k in keys && k !in fixed
    ensures lane in Available(laneCount, keys, fixed) <==>
              lane < laneCount && forall other :: other in keys && other in fixed ==> fixed[other] != lane
    ensures lane in guarded <==> exists other :: other in keys && other in fixed && fixed[other] == lane
    ensures lane in guarded ==> guarded[lane] in keys && guarded[lane] in fixed && fixed[guarded[lane]] == lane
  {
  }

  method IndexByLane(keys: set<Key>, fixed: map<Key, nat>) returns (guarded: map<nat, Key>)
    ensures IndexedByLane(keys, fixed, guarded)
  {
    guarded := map[];
    var rest := keys;
    while rest != {}
      invariant rest <= keys && guarded.Keys == Taken(keys - rest, fixed)
      invariant forall lane ::
                  lane in guarded ==> guarded[lane] in keys && guarded[lane] in fixed && fixed[guarded[lane]] == lane
      decreases rest
    {
      var k :| k in rest;
      TakenStep(keys - rest, k, fixed);
      assert keys - (rest - {k}) == keys - rest + {k};
      if k in fixed {
        guarded := guarded[fixed[k] := k];
      }
      rest := rest - {k};
    }
    assert keys - rest == keys;
  }

  lemma TakenStep(keys: set<Key>, k: Key, fixed: map<Key, nat>)
    ensures Taken(keys + {k}, fixed) == Taken(keys, fixed) + if k in fixed then {fixed[k]} else {}
    ensures Guarded(keys + {k}, fixed) == Guarded(keys, fixed) + if k in fixed then {k} else {}
  {
  }

  /** Guarded groups and taken lanes are equally many exactly when no lane is fixed twice. */
  lemma {:induction false} TakenCard(keys: set<Key>, fixed: map<Key, nat>)
    ensures |Taken(keys, fixed)| <= |Guarded(keys, fixed)|
    ensures |Taken(keys, fixed)| == |Guarded(keys, fixed)| <==> InjectiveLanes(keys, fixed)
    decreases keys
  {
    if keys == {} {
      assert Taken(keys, fixed) == {} && Guarded(keys, fixed) == {};
    } else {
      var k :| k in keys;
      var rest := keys - {k};
      TakenCard(rest, fixed);
      TakenStep(rest, k, fixed);
      assert keys == rest + {k};
      InjectiveStep(rest, k, fixed);
    }
  }

  lemma InjectiveStep(rest: set<Key>, k: Key, fixed: map<Key, nat>)
    requires k !in rest
    ensures InjectiveLanes(rest + {k}, fixed) <==>
              InjectiveLanes(rest, fixed) && !(k in fixed && fixed[k] in Taken(rest, fixed))
  {
    if k in fixed && fixed[k] in Taken(rest, fixed) {
      var k' :| k' in rest && k' in fixed && fixed[k'] == fixed[k];
      assert k' in rest + {k} && k in rest + {k};
    }
  }

  // ---------------------------------------------------------------------------
  // After bundling
  // ---------------------------------------------------------------------------

  lemma SameLaneJoined(inst: Instance, laneCount: int, bundle: Bundle, pairs: set<KeyPair>, s: Key, s': Key)
    returns (m: Key)
    requires inst.Valid() && inst.Guarded() && inst.Admissible(pairs) && Conserves(inst, laneCount, bundle, pairs)
    requires s in Elements(inst.forward) + Elements(inst.reverse)
             && s' in Elements(inst.forward) + Elements(inst.reverse)
    requires s in inst.fixed && s' in inst.fixed && inst.fixed[s] == inst.fixed[s'] && s != s'
    ensures m in bundle.sources && s in bundle.sources[m] && s' in bundle.sources[m]
  {
    var p := if s in inst.forward then (s, s') else (s', s);
    assert p in inst.Forced();
    m :| m in bundle.sources && bundle.sources[m] == [p.0, p.1];
  }

  /** Materialized groups never share a fixed lane: opposite groups on one lane were joined. */
  lemma BundledLanesInjective(inst: Instance, grouped: Groups, laneCount: int, bundle: Bundle, pairs: set<KeyPair>,
                              k: Key, k': Key)
    requires inst.Valid() && inst.Guarded() && inst.Admissible(pairs) && Conserves(inst, laneCount, bundle, pairs)
    requires Packed(bundle, grouped, inst.fixed, k) && Packed(bundle, grouped, inst.fixed, k')
    requires k in bundle.fixed && k' in bundle.fixed && bundle.fixed[k] == bundle.fixed[k']
    ensures k == k'
  {
    var s :| s in bundle.sources[k] && s in inst.fixed;
    var s' :| s' in bundle.sources[k'] && s' in inst.fixed;
    if s != s' {
      var m := SameLaneJoined(inst, laneCount, bundle, pairs, s, s');
    }
  }

  lemma EnoughLanes(laneCount: nat, keys: set<Key>, fixed: map<Key, nat>)
    requires |keys| <= laneCount && InjectiveLanes(keys, fixed)
    requires forall k :: k in keys && k in fixed ==> fixed[k] < laneCount
    ensures |Unguarded(keys, fixed)| <= |Available(laneCount, keys, fixed)|
  {
    TakenCard(keys, fixed);
    assert keys == Guarded(keys, fixed) + Unguarded(keys, fixed);
    assert Below(laneCount) == Taken(keys, fixed) + Available(laneCount, keys, fixed);
  }

  lemma BundledInjective(inst: Instance, grouped: Groups, laneCount: int, bundle: Bundle, pairs: set<KeyPair>)
    requires inst.Valid() && BundleMeets(inst, grouped, laneCount, bundle, pairs)
    ensures InjectiveLanes(bundle.materialized.Keys, bundle.fixed)
  {
    forall k, k' | k in bundle.fixed && k' in bundle.fixed && bundle.fixed[k] == bundle.fixed[k'] ensures k == k' {
      assert Packed(bundle, grouped, inst.fixed, k) && Packed(bundle, grouped, inst.fixed, k');
      BundledLanesInjective(inst, grouped, laneCount, bundle, pairs, k, k');
    }
  }

  /** The link's own fixed lanes exist on it. */
  ghost predicate OwnLanesExist(inst: Instance, laneCount: nat) {
    forall k :: (k in inst.forward || k in inst.reverse) && k in inst.fixed ==> inst.fixed[k] < laneCount
  }

  lemma BundledLaneExists(inst: Instance, grouped: Groups, laneCount: nat, bundle: Bundle, k: Key)
    requires OwnLanesExist(inst, laneCount)
               && Partitions(Elements(inst.forward) + Elements(inst.reverse), bundle.sources)
    requires Packed(bundle, grouped, inst.fixed, k) && k in bundle.fixed
    ensures bundle.fixed[k] < laneCount
  {
    var s :| s in bundle.sources[k] && s in inst.fixed;
    assert s in Elements(inst.forward) + Elements(inst.reverse);
  }

  lemma BundledLanesExist(inst: Instance, grouped: Groups, laneCount: nat, bundle: Bundle, pairs: set<KeyPair>)
    requires OwnLanesExist(inst, laneCount) && Packs(bundle, grouped, inst.fixed)
    requires Conserves(inst, laneCount, bundle, pairs)
    ensures forall k :: k in bundle.materialized.Keys && k in bundle.fixed ==> bundle.fixed[k] < laneCount
  {
    forall k | k in bundle.fixed ensures bundle.fixed[k] < laneCount {
      BundledLaneExists(inst, grouped, laneCount, bundle, k);
    }
  }

  /** With the link's own fixed lanes in range, neither lane error can occur on it once bundled. */
  lemma LanesSuffice(inst: Instance, grouped: Groups, laneCount: nat, bundle: Bundle, pairs: set<KeyPair>)
    requires inst.Valid() && BundleMeets(inst, grouped, laneCount, bundle, pairs) && OwnLanesExist(inst, laneCount)
    ensures InjectiveLanes(bundle.materialized.Keys, bundle.fixed)
    ensures |Unguarded(bundle.materialized.Keys, bundle.fixed)| <=
              |Available(laneCount, bundle.materialized.Keys, bundle.fixed)|
  {
    BundledInjective(inst, grouped, laneCount, bundle, pairs);
    BundledLanesExist(inst, grouped, laneCount, bundle, pairs);
    assert |bundle.materialized| == |bundle.materialized.Keys|;
    EnoughLanes(laneCount, bundle.materialized.Keys, bundle.fixed);
  }
}
