// Materializing shared lanes: which group ends up in which bundle, with which members and
// which fixed lane, and what the later lane assignment can rely on.
module LaneBundles {
  import opened Matchings
  import opened LaneGroups
  import opened SharedLanes
  import opened Wrappers
  import opened Sequences
  import opened Numbers
  import MinCostPairs

  // ---------------------------------------------------------------------------
  // Sorting
  // ---------------------------------------------------------------------------

  ghost predicate AscendingKeys(keys: seq<Key>) {
    forall i, j | 0 <= i < j < |keys| :: keys[i].group < keys[j].group
  }

  /** All keys belong to one link and one direction, so their numbers order them. */
  ghost predicate OneDirection(keys: set<Key>) {
    forall k, k' :: k in keys && k' in keys ==> k.link == k'.link && k.direction == k'.direction
  }

  lemma {:induction false} FirstKey(keys: set<Key>) returns (first: Key)
    requires keys != {} && OneDirection(keys)
    ensures first in keys && forall k :: k in keys ==> k == first || first.group < k.group
    decreases keys
  {
    first :| first in keys;
    if keys != {first} {
      var other := FirstKey(keys - {first});
      assert forall k :: k in keys ==> k == first || k in keys - {first};
      first := if first.group < other.group then first else other;
    }
  }

  method SortedKeys(keys: set<Key>) returns (sorted: seq<Key>)
    requires OneDirection(keys)
    ensures AscendingKeys(sorted) && |sorted| == |keys| && forall k :: k in sorted <==> k in keys
  {
    sorted := [];
    var rest := keys;
    while rest != {}
      invariant rest <= keys && AscendingKeys(sorted) && |sorted| + |rest| == |keys|
      invariant forall k :: k in sorted <==> k in keys && k !in rest
      invariant forall k, k' :: k in sorted && k' in rest ==> k.group < k'.group
      decreases rest
    {
      ghost var least := FirstKey(rest);
      var first :| first in rest && forall k :: k in rest ==> k == first || first.group < k.group;
      sorted := sorted + [first];
      rest := rest - {first};
    }
  }

  ghost predicate AscendingPairs(pairs: seq<KeyPair>) {
    forall i, j | 0 <= i < j < |pairs| :: pairs[i].0.group < pairs[j].0.group
  }

  lemma {:induction false} FirstPair(pairs: set<KeyPair>) returns (first: KeyPair)
    requires pairs != {}
    requires forall p, q :: p in pairs && q in pairs && p != q ==> p.0.group != q.0.group
    ensures first in pairs && forall p :: p in pairs ==> p == first || first.0.group < p.0.group
    decreases pairs
  {
    first :| first in pairs;
    if pairs != {first} {
      var other := FirstPair(pairs - {first});
      assert forall p :: p in pairs ==> p == first || p in pairs - {first};
      first := if first.0.group < other.0.group then first else other;
    }
  }

  method SortedKeyPairs(pairs: set<KeyPair>) returns (sorted: seq<KeyPair>)
    requires forall p, q :: p in pairs && q in pairs && p != q ==> p.0.group != q.0.group
    ensures AscendingPairs(sorted) && |sorted| == |pairs| && forall p :: p in sorted <==> p in pairs
  {
    sorted := [];
    var rest := pairs;
    while rest != {}
      invariant rest <= pairs && AscendingPairs(sorted) && |sorted| + |rest| == |pairs|
      invariant forall p :: p in sorted <==> p in pairs && p !in rest
      invariant forall p, q :: p in sorted && q in rest ==> p.0.group < q.0.group
      decreases rest
    {
      ghost var least := FirstPair(rest);
      var first :| first in rest && forall p :: p in rest ==> p == first || first.0.group < p.0.group;
      sorted := sorted + [first];
      rest := rest - {first};
    }
  }

  // ---------------------------------------------------------------------------
  // Materialized groups
  // ---------------------------------------------------------------------------

  type Groups = map<Key, seq<Member>>

  /** The materialized groups with the lanes fixed for them and the groups they came from. */
  datatype Bundle = Bundle(materialized: map<Key, seq<Placed>>, fixed: map<Key, nat>, sources: map<Key, seq<Key>>)

  function Tagged(members: seq<Member>, direction: Direction): seq<Placed> {
    seq(|members|, i requires 0 <= i < |members| => Placed(members[i], direction))
  }

  /** All members of the listed groups, each with the direction of its group. */
  ghost function MembersOf(grouped: Groups, keys: seq<Key>): multiset<Placed> {
    if keys == [] then multiset{}
    else (if keys[0] in grouped then multiset(Tagged(grouped[keys[0]], keys[0].direction)) else multiset{})
         + MembersOf(grouped, keys[1..])
  }

  ghost predicate OrderedById(members: seq<Placed>) {
    forall i, j | 0 <= i < j < |members| :: members[i].member.id <= members[j].member.id
  }

  /** A single group keeps the order of its members, two joined groups are ordered by id. */
  ghost predicate Arranged(members: seq<Placed>, grouped: Groups, source: seq<Key>) {
    if |source| == 1 then source[0] in grouped && members == Tagged(grouped[source[0]], source[0].direction)
    else OrderedById(members)
  }

  /** Materialized group `k` holds exactly the members of its sources, in order, and has a fixed lane
      exactly when one of them has, which is then the lane of every fixed source. */
  ghost predicate Packed(bundle: Bundle, grouped: Groups, fixed: map<Key, nat>, k: Key) {
    && k in bundle.sources && k in bundle.materialized
    && multiset(bundle.materialized[k]) == MembersOf(grouped, bundle.sources[k])
    && Arranged(bundle.materialized[k], grouped, bundle.sources[k])
    && (k in bundle.fixed ==> exists s :: s in bundle.sources[k] && s in fixed)
    && (forall s :: s in bundle.sources[k] && s in fixed ==> k in bundle.fixed && bundle.fixed[k] == fixed[s])
  }

  ghost predicate Packs(bundle: Bundle, grouped: Groups, fixed: map<Key, nat>) {
    && bundle.materialized.Keys == bundle.sources.Keys && bundle.fixed.Keys <= bundle.sources.Keys
    && forall k :: k in bundle.sources ==> Packed(bundle, grouped, fixed, k)
  }

  ghost function BundleKeys(link: string, n: nat): (keys: set<Key>)
    ensures |keys| == n
    ensures forall k :: k in keys <==> k.link == link && k.direction == Bidirectional && 0 <= k.group < n
  {
    if n == 0 then {} else BundleKeys(link, n - 1) + {Key(link, Bidirectional, n - 1)}
  }

  /** Single groups keep their key; pair number i becomes bundle i of the link. */
  ghost function SourcesFor(link: string, single: set<Key>, pairs: seq<KeyPair>): map<Key, seq<Key>> {
    map k | k in single + BundleKeys(link, |pairs|) :: SourceOf(single, pairs, k)
  }

  ghost function SourceOf(single: set<Key>, pairs: seq<KeyPair>, k: Key): seq<Key> {
    if k in single then [k]
    else if 0 <= k.group < |pairs| then [pairs[k.group].0, pairs[k.group].1] else []
  }

  ghost function With(bundle: Bundle, k: Key, members: seq<Placed>, source: seq<Key>, lanes: set<nat>,
                      lane: nat): Bundle {
    Bundle(bundle.materialized[k := members], if lanes == {} then bundle.fixed else bundle.fixed[k := lane],
           bundle.sources[k := source])
  }

  /** The lanes fixed for the listed groups. */
  ghost function LanesOf(fixed: map<Key, nat>, keys: seq<Key>): set<nat> {
    set s | s in keys && s in fixed :: fixed[s]
  }

  lemma PackOne(bundle: Bundle, grouped: Groups, fixed: map<Key, nat>, k: Key, members: seq<Placed>, source: seq<Key>,
                lane: nat)
    requires Packs(bundle, grouped, fixed) && k !in bundle.sources
    requires multiset(members) == MembersOf(grouped, source) && Arranged(members, grouped, source)
    requires LanesOf(fixed, source) == {} || LanesOf(fixed, source) == {lane}
    ensures Packs(With(bundle, k, members, source, LanesOf(fixed, source), lane), grouped, fixed)
  {
    var after := With(bundle, k, members, source, LanesOf(fixed, source), lane);
    WithSplits(bundle, k, members, source, LanesOf(fixed, source), lane);
    PackedNew(after, grouped, fixed, k, source, lane);
    PackedOthers(bundle, after, grouped, fixed, k);
  }

  lemma WithSplits(bundle: Bundle, k: Key, members: seq<Placed>, source: seq<Key>, lanes: set<nat>, lane: nat)
    requires bundle.materialized.Keys == bundle.sources.Keys && bundle.fixed.Keys <= bundle.sources.Keys
    requires k !in bundle.sources
    ensures var after := With(bundle, k, members, source, lanes, lane);
            && after.sources - {k} == bundle.sources && after.materialized - {k} == bundle.materialized
            && after.fixed - {k} == bundle.fixed
            && after.sources.Keys == bundle.sources.Keys + {k} == after.materialized.Keys
            && after.fixed.Keys <= after.sources.Keys
            && after.sources[k] == source && after.materialized[k] == members
            && (k in after.fixed <==> lanes != {}) && (k in after.fixed ==> after.fixed[k] == lane)
  {
  }

  lemma PackedOthers(bundle: Bundle, after: Bundle, grouped: Groups, fixed: map<Key, nat>, k: Key)
    requires Packs(bundle, grouped, fixed) && k !in bundle.sources
    requires after.sources - {k} == bundle.sources && after.materialized - {k} == bundle.materialized
    requires after.fixed - {k} == bundle.fixed
    ensures forall x :: x in bundle.sources ==> Packed(after, grouped, fixed, x)
  {
    forall x | x in bundle.sources ensures Packed(after, grouped, fixed, x) {
      assert x in after.sources - {k} && x in after.materialized - {k};
      assert x in after.fixed - {k} <==> x in bundle.fixed;
      PackedSame(bundle, after, grouped, fixed, x);
    }
  }

  lemma PackedNew(after: Bundle, grouped: Groups, fixed: map<Key, nat>, k: Key, source: seq<Key>, lane: nat)
    requires k in after.sources && k in after.materialized && after.sources[k] == source
    requires multiset(after.materialized[k]) == MembersOf(grouped, source)
    requires Arranged(after.materialized[k], grouped, source)
    requires LanesOf(fixed, source) == {} || LanesOf(fixed, source) == {lane}
    requires LanesOf(fixed, source) == {} ==> k !in after.fixed
    requires LanesOf(fixed, source) != {} ==> k in after.fixed && after.fixed[k] == lane
    ensures Packed(after, grouped, fixed, k)
  {
    assert forall s :: s in source && s in fixed ==> fixed[s] in LanesOf(fixed, source);
    if k in after.fixed {
      assert lane in LanesOf(fixed, source);
    }
  }

  lemma PackedSame(bundle: Bundle, after: Bundle, grouped: Groups, fixed: map<Key, nat>, x: Key)
    requires Packed(bundle, grouped, fixed, x)
    requires x in after.sources && after.sources[x] == bundle.sources[x]
    requires x in after.materialized && after.materialized[x] == bundle.materialized[x]
    requires x in after.fixed <==> x in bundle.fixed
    requires x in bundle.fixed ==> after.fixed[x] == bundle.fixed[x]
    ensures Packed(after, grouped, fixed, x)
  {
  }

  // ---------------------------------------------------------------------------
  // Building the materialized groups
  // ---------------------------------------------------------------------------

  ghost predicate NoBundle(keys: set<Key>) { forall k :: k in keys ==> k.direction != Bidirectional }

  lemma SingleStep(link: string, single: set<Key>, k: Key)
    requires k !in single
    ensures SourcesFor(link, single + {k}, []) == SourcesFor(link, single, [])[k := [k]]
    ensures k !in SourcesFor(link, single, [])
  {
  }

  lemma BundleStep(link: string, single: set<Key>, pairs: seq<KeyPair>, p: KeyPair)
    requires NoBundle(single)
    ensures SourcesFor(link, single, pairs + [p]) ==
            SourcesFor(link, single, pairs)[Key(link, Bidirectional, |pairs|) := [p.0, p.1]]
    ensures Key(link, Bidirectional, |pairs|) !in SourcesFor(link, single, pairs)
  {
    var before, after := SourcesFor(link, single, pairs), SourcesFor(link, single, pairs + [p]);
    var added := Key(link, Bidirectional, |pairs|);
    NextBundle(link, single, |pairs|);
    assert after.Keys == before.Keys + {added};
    forall k | k in before ensures after[k] == before[k] {
      SourceNext(single, pairs, p, k);
    }
    SourceNext(single, pairs, p, added);
    MapNext(before, after, added, [p.0, p.1]);
  }

  lemma MapNext<K, V>(before: map<K, V>, after: map<K, V>, k: K, v: V)
    requires k !in before && after.Keys == before.Keys + {k} && after[k] == v
    requires forall x :: x in before ==> after[x] == before[x]
    ensures after == before[k := v]
  {
  }

  lemma SourceNext(single: set<Key>, pairs: seq<KeyPair>, p: KeyPair, k: Key)
    ensures SourceOf(single, pairs + [p], k) ==
            if k !in single && k.group == |pairs| then [p.0, p.1] else SourceOf(single, pairs, k)
  {
  }

  lemma NextBundle(link: string, single: set<Key>, n: nat)
    requires NoBundle(single)
    ensures var added := Key(link, Bidirectional, n);
            && single + BundleKeys(link, n + 1) == single + BundleKeys(link, n) + {added}
            && added !in single + BundleKeys(link, n)
            && forall k :: k in BundleKeys(link, n) ==> k.group != n
  {
  }

  lemma OneSource(grouped: Groups, fixed: map<Key, nat>, k: Key)
    requires k in grouped
    ensures MembersOf(grouped, [k]) == multiset(Tagged(grouped[k], k.direction))
    ensures LanesOf(fixed, [k]) == if k in fixed then {fixed[k]} else {}
  {
    assert [k][1..] == [];
    assert k in [k];
  }

  lemma TwoSources(grouped: Groups, fixed: map<Key, nat>, l: Key, r: Key)
    requires l in grouped && r in grouped
    ensures MembersOf(grouped, [l, r]) == multiset(Tagged(grouped[l], l.direction) + Tagged(grouped[r], r.direction))
    ensures LanesOf(fixed, [l, r]) == (if l in fixed then {fixed[l]} else {}) + (if r in fixed then {fixed[r]} else {})
  {
    OneSource(grouped, fixed, r);
    assert [l, r][1..] == [r];
    assert l in [l, r] && r in [l, r];
  }

  method MaterializeSingles(ghost link: string, keys: seq<Key>, grouped: Groups, fixed: map<Key, nat>, paired: set<Key>)
    returns (bundle: Bundle)
    requires Distinct(keys) && forall k :: k in keys ==> k in grouped
    ensures Packs(bundle, grouped, fixed)
    ensures bundle.sources == SourcesFor(link, Elements(keys) - paired, [])
  {
    bundle := Bundle(map[], map[], map[]);
    assert SourcesFor(link, SinglesOf(keys[..0], paired), []) == map[];
    for i := 0 to |keys|
      invariant Packs(bundle, grouped, fixed) && bundle.sources == SourcesFor(link, SinglesOf(keys[..i], paired), [])
    {
      NextSingle(keys, i, paired);
      if keys[i] !in paired {
        bundle := MaterializeSingle(link, keys[i], grouped, fixed, bundle, SinglesOf(keys[..i], paired));
      }
    }
    assert keys[..|keys|] == keys;
  }

  ghost function SinglesOf(keys: seq<Key>, paired: set<Key>): set<Key> { Elements(keys) - paired }

  lemma NextSingle(keys: seq<Key>, i: nat, paired: set<Key>)
    requires Distinct(keys) && i < |keys|
    ensures keys[i] !in SinglesOf(keys[..i], paired)
    ensures SinglesOf(keys[..i + 1], paired) ==
            SinglesOf(keys[..i], paired) + if keys[i] in paired then {} else {keys[i]}
  {
    TakeNext(keys, i);
  }

  method MaterializeSingle(ghost link: string, k: Key, grouped: Groups, fixed: map<Key, nat>, bundle0: Bundle,
                           ghost single: set<Key>)
    returns (bundle: Bundle)
    requires k in grouped && k !in single && Packs(bundle0, grouped, fixed)
             && bundle0.sources == SourcesFor(link, single, [])
    ensures Packs(bundle, grouped, fixed) && bundle.sources == SourcesFor(link, single + {k}, [])
  {
    OneSource(grouped, fixed, k);
    SingleStep(link, single, k);
    var members := Tagged(grouped[k], k.direction);
    PackOne(bundle0, grouped, fixed, k, members, [k], if k in fixed then fixed[k] else 0);
    bundle := Bundle(bundle0.materialized[k := members],
                     if k in fixed then bundle0.fixed[k := fixed[k]] else bundle0.fixed,
                     bundle0.sources[k := [k]]);
  }

  ghost predicate Joinable(grouped: Groups, fixed: map<Key, nat>, p: KeyPair) {
    && p.0 in grouped && p.1 in grouped
    && (p.0 in fixed && p.1 in fixed ==> fixed[p.0] == fixed[p.1])
  }

  /** Joins every pair; two different fixed lanes in one pair would be an error. */
  method MaterializePairs(link: string, pairs: seq<KeyPair>, grouped: Groups, fixed: map<Key, nat>, bundle0: Bundle,
                          ghost single: set<Key>)
    returns (ok: bool, bundle: Bundle)
    requires NoBundle(single) && Packs(bundle0, grouped, fixed) && bundle0.sources == SourcesFor(link, single, [])
    requires forall i | 0 <= i < |pairs| :: Joinable(grouped, fixed, pairs[i])
    ensures ok && Packs(bundle, grouped, fixed) && bundle.sources == SourcesFor(link, single, pairs)
  {
    bundle := bundle0;
    for i := 0 to |pairs|
      invariant Packs(bundle, grouped, fixed) && bundle.sources == SourcesFor(link, single, pairs[..i])
    {
      TakeNext(pairs, i);
      ok, bundle := MaterializePair(link, i, pairs[i], grouped, fixed, bundle, single, pairs[..i]);
      if !ok {
        return;
      }
    }
    assert pairs[..|pairs|] == pairs;
    ok := true;
  }

  method MaterializePair(link: string, id: nat, p: KeyPair, grouped: Groups, fixed: map<Key, nat>, bundle0: Bundle,
                         ghost single: set<Key>, ghost done: seq<KeyPair>)
    returns (ok: bool, bundle: Bundle)
    requires NoBundle(single) && Packs(bundle0, grouped, fixed) && bundle0.sources == SourcesFor(link, single, done)
    requires id == |done| && Joinable(grouped, fixed, p)
    ensures ok && Packs(bundle, grouped, fixed) && bundle.sources == SourcesFor(link, single, done + [p])
  {
    var (lhs, rhs) := p;
    var k := Key(link, Bidirectional, id);
    var members := ById(Tagged(grouped[lhs], lhs.direction) + Tagged(grouped[rhs], rhs.direction));
    var lanes: set<nat> := (if lhs in fixed then {fixed[lhs]} else {}) + (if rhs in fixed then {fixed[rhs]} else {});
    var lane := if lhs in fixed then fixed[lhs] else if rhs in fixed then fixed[rhs] else 0;
    assert lanes == {} || lanes == {lane};
    if |lanes| > 1 {
      return false, bundle0;
    }
    TwoSources(grouped, fixed, lhs, rhs);
    BundleStep(link, single, done, p);
    PackOne(bundle0, grouped, fixed, k, members, [lhs, rhs], lane);
    bundle := Bundle(bundle0.materialized[k := members],
                     if lanes == {} then bundle0.fixed else bundle0.fixed[k := lane],
                     bundle0.sources[k := [lhs, rhs]]);
    ok := true;
  }

  method ById(members: seq<Placed>) returns (sorted: seq<Placed>)
    ensures multiset(sorted) == multiset(members) && OrderedById(sorted)
  {
    var id := (m: Placed) => m.member.id;
    sorted := SortBy(members, id);
    forall i, j | 0 <= i < j < |sorted| ensures sorted[i].member.id <= sorted[j].member.id {
      assert id(sorted[i]) <= id(sorted[j]);
    }
  }

  // ---------------------------------------------------------------------------
  // Conservation
  // ---------------------------------------------------------------------------

  ghost function PairedKeys(pairs: set<KeyPair>): set<Key> { Lefts(pairs) + Rights(pairs) }

  /** `all` is split into the single groups and the groups of the pairs. */
  ghost predicate Splits(all: set<Key>, single: set<Key>, pairs: seq<KeyPair>) {
    && NoBundle(all) && single == all - PairedKeys(Elements(pairs)) && PairedKeys(Elements(pairs)) <= all
    && (forall i, j | 0 <= i < j < |pairs| :: pairs[i].0 != pairs[j].0 && pairs[i].1 != pairs[j].1)
    && (forall i, j | 0 <= i < |pairs| && 0 <= j < |pairs| :: pairs[i].0 != pairs[j].1)
  }

  /** Every directional group is a source of exactly one materialized group, once. */
  ghost predicate Partitions(all: set<Key>, sources: map<Key, seq<Key>>) {
    && (forall k :: k in all ==> exists m :: m in sources && k in sources[m])
    && (forall k, m, m' :: m in sources && m' in sources && k in sources[m] && k in sources[m'] ==> m == m')
    && (forall m :: m in sources ==> Distinct(sources[m]))
    && SourcesWithin(all, sources)
  }

  ghost predicate SourcesWithin(all: set<Key>, sources: map<Key, seq<Key>>) {
    forall k, m :: m in sources && k in sources[m] ==> k in all
  }

  ghost predicate InPair(pairs: seq<KeyPair>, i: int, k: Key) {
    0 <= i < |pairs| && (k == pairs[i].0 || k == pairs[i].1)
  }

  /** `k` is a source of materialized group `m`. */
  ghost predicate OwnedBy(link: string, single: set<Key>, pairs: seq<KeyPair>, k: Key, m: Key) {
    if m in single then m == k
    else m.link == link && m.direction == Bidirectional && InPair(pairs, m.group, k)
  }

  lemma SourceMeans(link: string, single: set<Key>, pairs: seq<KeyPair>, k: Key, m: Key)
    ensures var sources := SourcesFor(link, single, pairs);
            m in sources && k in sources[m] <==> OwnedBy(link, single, pairs, k, m)
  {
  }

  lemma PairedMember(pairs: seq<KeyPair>, i: int, k: Key)
    requires InPair(pairs, i, k)
    ensures k in PairedKeys(Elements(pairs))
  {
    assert pairs[i] in Elements(pairs);
  }

  lemma OwnerIsUnique(link: string, all: set<Key>, single: set<Key>, pairs: seq<KeyPair>, k: Key, m: Key, m': Key)
    requires Splits(all, single, pairs)
    requires OwnedBy(link, single, pairs, k, m) && OwnedBy(link, single, pairs, k, m')
    ensures m == m' && k in all
  {
    if m !in single {
      PairedMember(pairs, m.group, k);
    }
    if m' !in single {
      PairedMember(pairs, m'.group, k);
    }
  }

  lemma OwnerExists(link: string, all: set<Key>, single: set<Key>, pairs: seq<KeyPair>, k: Key) returns (m: Key)
    requires Splits(all, single, pairs) && k in all
    ensures OwnedBy(link, single, pairs, k, m)
  {
    if k in single {
      m := k;
    } else {
      var p :| p in Elements(pairs) && (p.0 == k || p.1 == k);
      var i :| 0 <= i < |pairs| && pairs[i] == p;
      m := Key(link, Bidirectional, i);
    }
  }

  lemma SourcesCover(link: string, all: set<Key>, single: set<Key>, pairs: seq<KeyPair>)
    requires Splits(all, single, pairs)
    ensures var sources := SourcesFor(link, single, pairs);
            forall k :: k in all ==> exists m :: m in sources && k in sources[m]
  {
    var sources := SourcesFor(link, single, pairs);
    forall k | k in all ensures exists m :: m in sources && k in sources[m] {
      var m := OwnerExists(link, all, single, pairs, k);
      SourceMeans(link, single, pairs, k, m);
    }
  }

  lemma SourcesUnique(link: string, all: set<Key>, single: set<Key>, pairs: seq<KeyPair>, k: Key, m: Key, m': Key)
    requires Splits(all, single, pairs)
    requires var sources := SourcesFor(link, single, pairs);
             m in sources && m' in sources && k in sources[m] && k in sources[m']
    ensures m == m' && k in all && Distinct(SourcesFor(link, single, pairs)[m])
  {
    SourceMeans(link, single, pairs, k, m);
    SourceMeans(link, single, pairs, k, m');
    OwnerIsUnique(link, all, single, pairs, k, m, m');
    SourcesDistinct(link, all, single, pairs, m);
  }

  lemma SourcesDistinct(link: string, all: set<Key>, single: set<Key>, pairs: seq<KeyPair>, m: Key)
    requires Splits(all, single, pairs) && m in SourcesFor(link, single, pairs)
    ensures Distinct(SourcesFor(link, single, pairs)[m])
  {
    if m !in single && 0 <= m.group < |pairs| {
      EndsDiffer(all, single, pairs, m.group);
      DistinctPair(pairs[m.group].0, pairs[m.group].1);
    }
  }

  lemma EndsDiffer(all: set<Key>, single: set<Key>, pairs: seq<KeyPair>, i: nat)
    requires Splits(all, single, pairs) && i < |pairs|
    ensures pairs[i].0 != pairs[i].1
  {
  }

  lemma DistinctPair(a: Key, b: Key)
    requires a != b
    ensures Distinct([a, b])
  {
  }

  lemma SourcesPartition(link: string, all: set<Key>, single: set<Key>, pairs: seq<KeyPair>)
    requires Splits(all, single, pairs)
    ensures Partitions(all, SourcesFor(link, single, pairs))
  {
    var sources := SourcesFor(link, single, pairs);
    SourcesCover(link, all, single, pairs);
    forall k, m, m' | m in sources && m' in sources && k in sources[m] && k in sources[m'] ensures m == m' {
      SourcesUnique(link, all, single, pairs, k, m, m');
    }
    forall k, m | m in sources && k in sources[m] ensures k in all {
      SourcesUnique(link, all, single, pairs, k, m, m);
    }
    forall m | m in sources ensures Distinct(sources[m]) {
      if sources[m] != [] {
        SourcesUnique(link, all, single, pairs, sources[m][0], m, m);
      }
    }
  }

  lemma DistinctConcat<T>(a: seq<T>, b: seq<T>)
    requires Distinct(a) && Distinct(b) && forall x :: x in a ==> x !in b
    ensures Distinct(a + b)
  {
    forall i, j | 0 <= i < j < |a + b| ensures (a + b)[i] != (a + b)[j] {
      if i < |a| <= j {
        assert a[i] in a && b[j - |a|] in b;
      }
    }
  }

  lemma PairedCount(pairs: seq<KeyPair>)
    requires forall i, j | 0 <= i < j < |pairs| :: pairs[i].0 != pairs[j].0 && pairs[i].1 != pairs[j].1
    requires forall i, j | 0 <= i < |pairs| && 0 <= j < |pairs| :: pairs[i].0 != pairs[j].1
    ensures |PairedKeys(Elements(pairs))| == 2 * |pairs|
  {
    var lefts := seq(|pairs|, i requires 0 <= i < |pairs| => pairs[i].0);
    var rights := seq(|pairs|, i requires 0 <= i < |pairs| => pairs[i].1);
    DistinctSize(lefts);
    DistinctSize(rights);
    SideElements(pairs, lefts, rights);
    assert Lefts(Elements(pairs)) !! Rights(Elements(pairs)) by {
      forall k | k in Lefts(Elements(pairs)) ensures k !in Rights(Elements(pairs)) {
        var i :| 0 <= i < |lefts| && lefts[i] == k;
        assert forall j :: 0 <= j < |rights| ==> rights[j] != k;
      }
    }
  }

  lemma SideElements(pairs: seq<KeyPair>, lefts: seq<Key>, rights: seq<Key>)
    requires |lefts| == |rights| == |pairs|
    requires forall i :: 0 <= i < |pairs| ==> lefts[i] == pairs[i].0 && rights[i] == pairs[i].1
    ensures Lefts(Elements(pairs)) == Elements(lefts) && Rights(Elements(pairs)) == Elements(rights)
  {
    forall i | 0 <= i < |pairs| ensures lefts[i] in Lefts(Elements(pairs)) && rights[i] in Rights(Elements(pairs)) {
      assert pairs[i] in Elements(pairs);
    }
  }

  /** One materialized group per pair and per single group. */
  lemma SourcesCount(link: string, all: set<Key>, single: set<Key>, pairs: seq<KeyPair>)
    requires Splits(all, single, pairs)
    ensures |SourcesFor(link, single, pairs)| + |pairs| == |all|
  {
    PairedCount(pairs);
    var paired := PairedKeys(Elements(pairs));
    assert all == single + paired && single !! paired;
    SourceKeys(link, all, single, pairs);
    assert |SourcesFor(link, single, pairs)| == |SourcesFor(link, single, pairs).Keys|;
  }

  lemma SourceKeys(link: string, all: set<Key>, single: set<Key>, pairs: seq<KeyPair>)
    requires NoBundle(all) && single <= all
    ensures SourcesFor(link, single, pairs).Keys == single + BundleKeys(link, |pairs|)
    ensures |single + BundleKeys(link, |pairs|)| == |single| + |pairs|
  {
    assert single !! BundleKeys(link, |pairs|);
  }

  // ---------------------------------------------------------------------------
  // Bundling one link
  // ---------------------------------------------------------------------------

  datatype BundleResult =
    | Bundled(bundle: Bundle, required: nat, maximum: nat, selected: nat, forced: nat)
    | InvalidGroup(error: GroupError)
    | Unfit(choice: Choice)
    | ConflictingFixedLanes

  ghost function KeysOf(grouped: Groups, link: string, direction: Direction): set<Key> {
    set k | k in grouped && k.link == link && k.direction == direction
  }

  /** The tables hold the slots and the end points of a valid group. */
  ghost predicate Tabled(k: Key, grouped: Groups, schedule: Schedule, slots: map<Key, set<int>>,
                         ends: map<Key, (real, real)>) {
    && k in grouped && ValidGroup(grouped[k], schedule) && Loaded(grouped[k])
    && k in slots && slots[k] == SlotsOf(grouped[k], schedule)
    && k in ends && ends[k] == EndpointY(grouped[k], k.direction)
  }

  /** The instance lists the groups of the link in order, with their slots and end points. */
  ghost predicate Describes(inst: Instance, grouped: Groups, link: string, fixed: map<Key, nat>, schedule: Schedule) {
    && AscendingKeys(inst.forward) && AscendingKeys(inst.reverse)
    && Elements(inst.forward) == KeysOf(grouped, link, AToB) && Elements(inst.reverse) == KeysOf(grouped, link, BToA)
    && inst.fixed == fixed
    && (forall k :: k in inst.forward ==> Tabled(k, grouped, schedule, inst.slots, inst.ends))
    && (forall k :: k in inst.reverse ==> Tabled(k, grouped, schedule, inst.slots, inst.ends))
  }

  ghost predicate AllLoaded(grouped: Groups) {
    forall k, m :: k in grouped && m in grouped[k] ==> m.faninsY != []
  }

  /** The sharing costs between the groups of the link are small enough for the flow. */
  ghost predicate GroupCostsFit(grouped: Groups, link: string, limit: nat) {
    var n, m := |KeysOf(grouped, link, AToB)|, |KeysOf(grouped, link, BToA)|;
    && MinCostPairs.BelowMarker(limit, n)
    && forall l, r :: l in KeysOf(grouped, link, AToB) && r in KeysOf(grouped, link, BToA)
                      && Loaded(grouped[l]) && Loaded(grouped[r]) ==>
         SharingCost(EndpointY(grouped[l], AToB), EndpointY(grouped[r], BToA)) * (n * (n * m + 1) + 1) + n * m <= limit
  }

  /** Ratio and slots of every listed group, or the first error. */
  method GroupTables(keys: seq<Key>, grouped: Groups, schedule: Schedule)
    returns (failure: Option<GroupError>, slots: map<Key, set<int>>, ends: map<Key, (real, real)>)
    requires AllLoaded(grouped) && forall k :: k in keys ==> k in grouped
    ensures failure.Some? ==> exists k :: k in keys && !ValidGroup(grouped[k], schedule)
    ensures failure.None? ==> forall k :: k in keys ==> Tabled(k, grouped, schedule, slots, ends)
  {
    slots, ends, failure := map[], map[], None;
    for i := 0 to |keys|
      invariant forall k :: k in keys[..i] ==> Tabled(k, grouped, schedule, slots, ends)
    {
      var k := keys[i];
      assert keys[..i + 1] == keys[..i] + [k];
      var tdm := GroupRatioSlots(grouped[k], schedule);
      if tdm.GroupFailure? {
        return Some(tdm.error), slots, ends;
      }
      slots := slots[k := tdm.slots];
      ends := ends[k := EndpointY(grouped[k], k.direction)];
    }
    assert keys[..|keys|] == keys;
  }

  ghost predicate JoinedArePairs(sources: map<Key, seq<Key>>, pairs: set<KeyPair>) {
    forall k :: k in sources && |sources[k]| != 1 ==> |sources[k]| == 2 && (sources[k][0], sources[k][1]) in pairs
  }

  /** Every group of the link is in exactly one materialized group, joined groups are a chosen
      pair, and the materialized groups fit the lanes. */
  ghost predicate Conserves(inst: Instance, laneCount: int, bundle: Bundle, pairs: set<KeyPair>) {
    && Partitions(Elements(inst.forward) + Elements(inst.reverse), bundle.sources)
    && JoinedArePairs(bundle.sources, pairs)
    && (forall p :: p in pairs ==> exists m :: m in bundle.sources && bundle.sources[m] == [p.0, p.1])
    && |bundle.materialized| + |pairs| == |inst.forward| + |inst.reverse|
    && |bundle.materialized| <= laneCount
  }

  /** Single groups keep their key; joined groups are numbered below `n` in the order of their forward groups. */
  ghost predicate Numbered(link: string, sources: map<Key, seq<Key>>, n: nat) {
    && (forall k :: k in sources ==>
          if k.direction == Bidirectional then k.link == link && 0 <= k.group < n && |sources[k]| == 2
          else sources[k] == [k])
    && (forall k, k' | k in sources && k' in sources
        && k.direction == k'.direction == Bidirectional && k.group < k'.group ::
          |sources[k]| == |sources[k']| == 2 ==> sources[k][0].group < sources[k'][0].group)
  }

  /** What a finished bundling guarantees. */
  ghost predicate BundleMeets(inst: Instance, grouped: Groups, laneCount: int, bundle: Bundle, pairs: set<KeyPair>)
    requires inst.Valid()
  {
    && inst.Guarded() && CheapestFit(inst, laneCount, pairs)
    && Packs(bundle, grouped, inst.fixed)
    && Conserves(inst, laneCount, bundle, pairs)
  }

  /** A materialized group lists a member with a direction exactly if a source of that direction has the member. */
  lemma PlacedMeans(bundle: Bundle, grouped: Groups, fixed: map<Key, nat>, k: Key, p: Placed)
    requires Packed(bundle, grouped, fixed, k)
    ensures p in bundle.materialized[k] <==>
              exists s :: s in bundle.sources[k] && s in grouped && p.member in grouped[s] && p.direction == s.direction
  {
    MembersMean(grouped, bundle.sources[k], p);
    assert p in bundle.materialized[k] <==> p in multiset(bundle.materialized[k]);
  }

  lemma {:induction false} MembersMean(grouped: Groups, keys: seq<Key>, p: Placed)
    ensures p in MembersOf(grouped, keys) <==>
              exists s :: s in keys && s in grouped && p.member in grouped[s] && p.direction == s.direction
  {
    if keys != [] {
      MembersMean(grouped, keys[1..], p);
      assert keys == [keys[0]] + keys[1..];
      if keys[0] in grouped {
        TaggedMeans(grouped[keys[0]], keys[0].direction, p);
      }
    }
  }

  lemma TaggedMeans(members: seq<Member>, direction: Direction, p: Placed)
    ensures p in multiset(Tagged(members, direction)) <==> p.member in members && p.direction == direction
  {
    var tagged := Tagged(members, direction);
    assert p in multiset(tagged) <==> p in tagged;
    if p.member in members && p.direction == direction {
      var i :| 0 <= i < |members| && members[i] == p.member;
      assert tagged[i] == p;
    }
  }

  /** What the result says about the described instance. */
  ghost predicate ResultMeets(link: string, inst: Instance, grouped: Groups, laneCount: int, r: BundleResult,
                              pairs: set<KeyPair>)
    requires inst.Valid()
  {
    match r
    case InvalidGroup(_) => false
    case ConflictingFixedLanes => false
    case Unfit(choice) => !choice.Chosen? && ChoiceMeets(inst, laneCount, choice)
    case Bundled(bundle, required, maximum, selected, forced) =>
      && BundleMeets(inst, grouped, laneCount, bundle, pairs) && Numbered(link, bundle.sources, |pairs|)
      && LargestAdmissible(inst, maximum) && required == Required(inst, laneCount)
      && selected == |pairs| && forced == |inst.Forced()|
  }

  /** Packs the two directions of a shared link into at most `laneCount` groups.  The conflict
      between fixed lanes and the failure of the flow cannot happen. */
  method BundleSharedBidirectionalGroups(link: string, laneCount: int, grouped: Groups, fixed: map<Key, nat>,
                                         schedule: Schedule, ghost limit: nat)
    returns (r: BundleResult, ghost inst: Instance, ghost pairs: set<KeyPair>)
    requires AllLoaded(grouped) && GroupCostsFit(grouped, link, limit)
    ensures r.InvalidGroup? ==> exists k :: k in grouped && k.link == link && !ValidGroup(grouped[k], schedule)
    ensures !r.InvalidGroup? ==> Describes(inst, grouped, link, fixed, schedule) && inst.Valid()
    ensures !r.InvalidGroup? ==> ResultMeets(link, inst, grouped, laneCount, r, pairs)
    ensures r.Bundled? ==> SlotsExclusive(r.bundle, schedule)
  {
    var failure, table := DescribeLink(link, grouped, fixed, schedule);
    inst, pairs := table, {};
    if failure.Some? {
      return InvalidGroup(failure.value), inst, pairs;
    }
    DescribesInstance(table, grouped, link, fixed, schedule, limit);
    r, pairs := BundleInstance(link, table, laneCount, grouped, limit);
    if r.Bundled? {
      BundlesExclusive(table, grouped, link, fixed, schedule, r.bundle, pairs);
    }
  }

  /** Lists the groups of the link with their tables, or reports the first invalid one. */
  method DescribeLink(link: string, grouped: Groups, fixed: map<Key, nat>, schedule: Schedule)
    returns (failure: Option<GroupError>, inst: Instance)
    requires AllLoaded(grouped)
    ensures failure.Some? ==> exists k :: k in grouped && k.link == link && !ValidGroup(grouped[k], schedule)
    ensures failure.None? ==> Describes(inst, grouped, link, fixed, schedule)
  {
    var forward := SortedKeys(set k | k in grouped && k.link == link && k.direction == AToB);
    var reverse := SortedKeys(set k | k in grouped && k.link == link && k.direction == BToA);
    var slots, ends;
    failure, slots, ends := GroupTables(forward + reverse, grouped, schedule);
    inst := Instance(forward, reverse, slots, ends, fixed);
  }

  lemma DescribesInstance(inst: Instance, grouped: Groups, link: string, fixed: map<Key, nat>, schedule: Schedule,
                          limit: nat)
    requires GroupCostsFit(grouped, link, limit) && Describes(inst, grouped, link, fixed, schedule)
    ensures inst.Valid() && CostsFit(inst, limit) && Directional(inst, grouped)
  {
    SideListed(inst.forward, grouped, link, AToB);
    SideListed(inst.reverse, grouped, link, BToA);
    DescribedCosts(inst, grouped, link, fixed, schedule, limit);
  }

  lemma SideListed(keys: seq<Key>, grouped: Groups, link: string, direction: Direction)
    requires AscendingKeys(keys) && Elements(keys) == KeysOf(grouped, link, direction)
    ensures Distinct(keys) && |keys| == |KeysOf(grouped, link, direction)|
    ensures forall k :: k in keys <==> k in grouped && k.link == link && k.direction == direction
  {
    DistinctSize(keys);
    forall k ensures k in keys <==> k in KeysOf(grouped, link, direction) {
      assert k in keys <==> k in Elements(keys);
    }
  }

  lemma DescribedCosts(inst: Instance, grouped: Groups, link: string, fixed: map<Key, nat>, schedule: Schedule,
                       limit: nat)
    requires GroupCostsFit(grouped, link, limit) && Describes(inst, grouped, link, fixed, schedule) && inst.Valid()
    requires |inst.forward| == |KeysOf(grouped, link, AToB)| && |inst.reverse| == |KeysOf(grouped, link, BToA)|
    ensures CostsFit(inst, limit)
  {
    forall l, r | l in inst.forward && r in inst.reverse
      ensures l in KeysOf(grouped, link, AToB) && r in KeysOf(grouped, link, BToA)
      ensures inst.Cost(l, r) == SharingCost(EndpointY(grouped[l], AToB), EndpointY(grouped[r], BToA))
    {
      assert l in Elements(inst.forward) && r in Elements(inst.reverse);
    }
  }

  ghost predicate Directional(inst: Instance, grouped: Groups) {
    && AscendingKeys(inst.forward) && AscendingKeys(inst.reverse)
    && forall k :: k in inst.forward || k in inst.reverse ==> k in grouped && k.direction != Bidirectional
  }

  method BundleInstance(link: string, inst: Instance, laneCount: int, grouped: Groups, ghost limit: nat)
    returns (r: BundleResult, ghost pairs: set<KeyPair>)
    requires inst.Valid() && CostsFit(inst, limit) && Directional(inst, grouped)
    ensures ResultMeets(link, inst, grouped, laneCount, r, pairs)
  {
    var choice := ChoosePairs(inst, laneCount, limit);
    if !choice.Chosen? {
      return Unfit(choice), {};
    }
    pairs := choice.pairs;
    var ok, bundle := Materialize(link, inst, laneCount, grouped, choice.pairs);
    var forced := set l, r | l in inst.forward && r in inst.reverse && l in inst.fixed && r in inst.fixed
                             && inst.fixed[l] == inst.fixed[r] :: (l, r);
    assert forced == inst.Forced();
    r := if ok then Bundled(bundle, Required(inst, laneCount), choice.maximum, |choice.pairs|, |forced|)
         else ConflictingFixedLanes;
  }

  // ---------------------------------------------------------------------------
  // Slots on a shared lane
  // ---------------------------------------------------------------------------

  ghost predicate SlotsApart(schedule: Schedule, a: seq<Member>, b: seq<Member>) {
    forall m, n | m in a && n in b && m.id in schedule && n.id in schedule :: schedule[m.id].slot != schedule[n.id].slot
  }

  /** Groups of the two directions may be joined exactly if no two of their members are scheduled in one slot
      and they are not fixed to two different lanes. */
  lemma JoinedIffApart(inst: Instance, grouped: Groups, link: string, fixed: map<Key, nat>, schedule: Schedule,
                       l: Key, r: Key)
    requires Describes(inst, grouped, link, fixed, schedule) && inst.Valid()
    ensures (l, r) in inst.Edges() <==>
              && l in grouped && l.link == link && l.direction == AToB
              && r in grouped && r.link == link && r.direction == BToA
              && SlotsApart(schedule, grouped[l], grouped[r])
              && (l in fixed && r in fixed ==> fixed[l] == fixed[r])
  {
    SideListed(inst.forward, grouped, link, AToB);
    SideListed(inst.reverse, grouped, link, BToA);
    if l in inst.forward && r in inst.reverse {
      assert Tabled(l, grouped, schedule, inst.slots, inst.ends) && Tabled(r, grouped, schedule, inst.slots, inst.ends);
      SlotSetsApart(schedule, grouped[l], grouped[r]);
    }
  }

  /** The cost of joining two groups is a thousand times the distance of their positions at the two ends,
      to the nearest integer. */
  lemma JoinedCost(inst: Instance, grouped: Groups, link: string, fixed: map<Key, nat>, schedule: Schedule,
                   l: Key, r: Key)
    requires Describes(inst, grouped, link, fixed, schedule) && inst.Valid() && (l, r) in inst.Edges()
    ensures l in grouped && r in grouped && Loaded(grouped[l]) && Loaded(grouped[r])
    ensures var forward, reverse := EndpointY(grouped[l], AToB), EndpointY(grouped[r], BToA);
            var cost := inst.CostOf()((l, r)) as real;
            cost - 0.5 <= 1000.0 * (Abs(forward.0 - reverse.0) + Abs(forward.1 - reverse.1)) < cost + 0.5
  {
    JoinedIffApart(inst, grouped, link, fixed, schedule, l, r);
    assert Tabled(l, grouped, schedule, inst.slots, inst.ends) && Tabled(r, grouped, schedule, inst.slots, inst.ends);
  }

  lemma SlotSetsApart(schedule: Schedule, a: seq<Member>, b: seq<Member>)
    ensures SlotsOf(a, schedule) !! SlotsOf(b, schedule) <==> SlotsApart(schedule, a, b)
  {
    if SlotsOf(a, schedule) !! SlotsOf(b, schedule) {
      forall m, n | m in a && n in b && m.id in schedule && n.id in schedule
        ensures schedule[m.id].slot != schedule[n.id].slot
      {
        assert schedule[m.id].slot in SlotsOf(a, schedule) && schedule[n.id].slot in SlotsOf(b, schedule);
      }
    }
  }

  /** No two members are scheduled in one slot. */
  ghost predicate OneMemberPerSlot(members: seq<Placed>, schedule: Schedule) {
    && (forall i | 0 <= i < |members| :: members[i].member.id in schedule)
    && (forall i, j | 0 <= i < j < |members| ::
          schedule[members[i].member.id].slot != schedule[members[j].member.id].slot)
  }

  lemma OneMemberPermuted(a: seq<Placed>, b: seq<Placed>, schedule: Schedule)
    requires multiset(a) == multiset(b) && OneMemberPerSlot(b, schedule)
    ensures OneMemberPerSlot(a, schedule)
  {
    forall i | 0 <= i < |a| ensures a[i] in b {
      assert a[i] in multiset(b);
    }
    DistinctPermuted(a, b);
    forall i, j | 0 <= i < j < |a| ensures schedule[a[i].member.id].slot != schedule[a[j].member.id].slot {
      var p :| 0 <= p < |b| && b[p] == a[i];
      var q :| 0 <= q < |b| && b[q] == a[j];
      assert p != q;
    }
  }

  lemma DistinctPermuted<T>(a: seq<T>, b: seq<T>)
    requires multiset(a) == multiset(b) && Distinct(b)
    ensures Distinct(a)
  {
    DistinctSize(a);
    DistinctSize(b);
    assert |a| == |multiset(a)| && |b| == |multiset(b)|;
    forall x ensures x in Elements(a) <==> x in Elements(b) {
      assert x in a <==> x in multiset(a);
      assert x in b <==> x in multiset(b);
    }
    assert Elements(a) == Elements(b);
  }

  lemma GroupSlots(members: seq<Member>, direction: Direction, schedule: Schedule)
    requires ValidGroup(members, schedule)
    ensures OneMemberPerSlot(Tagged(members, direction), schedule)
  {
  }

  lemma JoinedSlots(a: seq<Member>, b: seq<Member>, schedule: Schedule)
    requires ValidGroup(a, schedule) && ValidGroup(b, schedule) && SlotsApart(schedule, a, b)
    ensures OneMemberPerSlot(Tagged(a, AToB) + Tagged(b, BToA), schedule)
  {
    var joined := Tagged(a, AToB) + Tagged(b, BToA);
    forall i, j | 0 <= i < j < |joined|
      ensures schedule[joined[i].member.id].slot != schedule[joined[j].member.id].slot
    {
      if i < |a| <= j {
        assert a[i] in a && b[j - |a|] in b;
      }
    }
  }

  lemma JoinedMembers(grouped: Groups, schedule: Schedule, l: Key, r: Key, members: seq<Placed>)
    requires l in grouped && r in grouped && l.direction == AToB && r.direction == BToA
    requires ValidGroup(grouped[l], schedule) && ValidGroup(grouped[r], schedule)
    requires SlotsApart(schedule, grouped[l], grouped[r]) && multiset(members) == MembersOf(grouped, [l, r])
    ensures OneMemberPerSlot(members, schedule)
  {
    TwoSources(grouped, map[], l, r);
    JoinedSlots(grouped[l], grouped[r], schedule);
    OneMemberPermuted(members, Tagged(grouped[l], AToB) + Tagged(grouped[r], BToA), schedule);
  }

  /** The sources of a joined group are a pair. */
  lemma JoinedPair(link: string, sources: map<Key, seq<Key>>, pairs: set<KeyPair>, k: Key) returns (p: KeyPair)
    requires JoinedArePairs(sources, pairs) && Numbered(link, sources, |pairs|)
    requires k in sources && k.direction == Bidirectional
    ensures p in pairs && sources[k] == [p.0, p.1]
  {
    p := (sources[k][0], sources[k][1]);
  }

  /** A group that is not joined is its own source. */
  lemma SingleSource(link: string, all: set<Key>, sources: map<Key, seq<Key>>, n: nat, k: Key)
    requires SourcesWithin(all, sources) && Numbered(link, sources, n) && k in sources && k.direction != Bidirectional
    ensures sources[k] == [k] && k in all
  {
    assert k in sources[k];
  }

  /** The groups of every pair are valid groups of the two directions that share no slot. */
  ghost predicate PairsApartInSlots(grouped: Groups, schedule: Schedule, pairs: set<KeyPair>) {
    forall p :: p in pairs ==>
      && p.0 in grouped && p.1 in grouped && p.0.direction == AToB && p.1.direction == BToA
      && ValidGroup(grouped[p.0], schedule) && ValidGroup(grouped[p.1], schedule)
      && SlotsApart(schedule, grouped[p.0], grouped[p.1])
  }

  lemma AdmissibleApart(inst: Instance, grouped: Groups, link: string, fixed: map<Key, nat>, schedule: Schedule,
                        pairs: set<KeyPair>)
    requires Describes(inst, grouped, link, fixed, schedule) && inst.Valid() && inst.Admissible(pairs)
    ensures PairsApartInSlots(grouped, schedule, pairs)
  {
    forall p | p in pairs
      ensures p.0 in grouped && p.1 in grouped && p.0.direction == AToB && p.1.direction == BToA
      ensures ValidGroup(grouped[p.0], schedule) && ValidGroup(grouped[p.1], schedule)
      ensures SlotsApart(schedule, grouped[p.0], grouped[p.1])
    {
      assert (p.0, p.1) in inst.Edges();
      JoinedIffApart(inst, grouped, link, fixed, schedule, p.0, p.1);
      SourceValid(inst, grouped, link, fixed, schedule, p.0);
      SourceValid(inst, grouped, link, fixed, schedule, p.1);
    }
  }

  lemma SourceValid(inst: Instance, grouped: Groups, link: string, fixed: map<Key, nat>, schedule: Schedule, k: Key)
    requires Describes(inst, grouped, link, fixed, schedule) && k in Elements(inst.forward) + Elements(inst.reverse)
    ensures k in grouped && ValidGroup(grouped[k], schedule)
  {
    assert Tabled(k, grouped, schedule, inst.slots, inst.ends);
  }

  ghost predicate AllValid(keys: set<Key>, grouped: Groups, schedule: Schedule) {
    forall k :: k in keys ==> k in grouped && ValidGroup(grouped[k], schedule)
  }

  lemma PairMembers(grouped: Groups, schedule: Schedule, pairs: set<KeyPair>, p: KeyPair, members: seq<Placed>)
    requires PairsApartInSlots(grouped, schedule, pairs) && p in pairs
    requires multiset(members) == MembersOf(grouped, [p.0, p.1])
    ensures OneMemberPerSlot(members, schedule)
  {
    JoinedMembers(grouped, schedule, p.0, p.1, members);
  }

  lemma SingleMembers(grouped: Groups, schedule: Schedule, all: set<Key>, k: Key, members: seq<Placed>)
    requires AllValid(all, grouped, schedule) && k in all && Arranged(members, grouped, [k])
    ensures OneMemberPerSlot(members, schedule)
  {
    GroupSlots(grouped[k], k.direction, schedule);
  }

  lemma BundledPair(grouped: Groups, link: string, schedule: Schedule, bundle: Bundle, pairs: set<KeyPair>, k: Key)
    requires PairsApartInSlots(grouped, schedule, pairs) && k in bundle.sources && k in bundle.materialized
    requires multiset(bundle.materialized[k]) == MembersOf(grouped, bundle.sources[k])
    requires JoinedArePairs(bundle.sources, pairs) && Numbered(link, bundle.sources, |pairs|)
               && k.direction == Bidirectional
    ensures OneMemberPerSlot(bundle.materialized[k], schedule)
  {
    var p := JoinedPair(link, bundle.sources, pairs, k);
    PairMembers(grouped, schedule, pairs, p, bundle.materialized[k]);
  }

  lemma BundledSingle(all: set<Key>, grouped: Groups, link: string, schedule: Schedule, bundle: Bundle, n: nat, k: Key)
    requires AllValid(all, grouped, schedule) && k in bundle.sources && k in bundle.materialized
    requires Arranged(bundle.materialized[k], grouped, bundle.sources[k])
    requires SourcesWithin(all, bundle.sources) && Numbered(link, bundle.sources, n) && k.direction != Bidirectional
    ensures OneMemberPerSlot(bundle.materialized[k], schedule)
  {
    SingleSource(link, all, bundle.sources, n, k);
    SingleMembers(grouped, schedule, all, k, bundle.materialized[k]);
  }

  /** No wire carries two members in one slot. */
  ghost predicate SlotsExclusive(bundle: Bundle, schedule: Schedule) {
    forall k :: k in bundle.materialized ==> OneMemberPerSlot(bundle.materialized[k], schedule)
  }

  ghost predicate JoinedOncePerSlot(bundle: Bundle, schedule: Schedule) {
    forall k :: k in bundle.materialized && k.direction == Bidirectional ==>
      OneMemberPerSlot(bundle.materialized[k], schedule)
  }

  ghost predicate SinglesOncePerSlot(bundle: Bundle, schedule: Schedule) {
    forall k :: k in bundle.materialized && k.direction != Bidirectional ==>
      OneMemberPerSlot(bundle.materialized[k], schedule)
  }

  lemma JoinedExclusive(grouped: Groups, link: string, fixed: map<Key, nat>, schedule: Schedule, bundle: Bundle,
                        pairs: set<KeyPair>)
    requires PairsApartInSlots(grouped, schedule, pairs) && Packs(bundle, grouped, fixed)
    requires JoinedArePairs(bundle.sources, pairs) && Numbered(link, bundle.sources, |pairs|)
    ensures JoinedOncePerSlot(bundle, schedule)
  {
    forall k | k in bundle.materialized && k.direction == Bidirectional
      ensures OneMemberPerSlot(bundle.materialized[k], schedule)
    {
      assert Packed(bundle, grouped, fixed, k);
      BundledPair(grouped, link, schedule, bundle, pairs, k);
    }
  }

  lemma SinglesExclusive(all: set<Key>, grouped: Groups, link: string, fixed: map<Key, nat>, schedule: Schedule,
                         bundle: Bundle, n: nat)
    requires AllValid(all, grouped, schedule) && Packs(bundle, grouped, fixed)
    requires SourcesWithin(all, bundle.sources) && Numbered(link, bundle.sources, n)
    ensures SinglesOncePerSlot(bundle, schedule)
  {
    forall k | k in bundle.materialized && k.direction != Bidirectional
      ensures OneMemberPerSlot(bundle.materialized[k], schedule)
    {
      assert Packed(bundle, grouped, fixed, k);
      BundledSingle(all, grouped, link, schedule, bundle, n, k);
    }
  }

  lemma SourcesValid(inst: Instance, grouped: Groups, link: string, fixed: map<Key, nat>, schedule: Schedule)
    requires Describes(inst, grouped, link, fixed, schedule)
    ensures AllValid(Elements(inst.forward) + Elements(inst.reverse), grouped, schedule)
  {
    forall k | k in Elements(inst.forward) + Elements(inst.reverse)
      ensures k in grouped && ValidGroup(grouped[k], schedule)
    {
      SourceValid(inst, grouped, link, fixed, schedule, k);
    }
  }

  lemma JoinedDiffer(inst: Instance, grouped: Groups, link: string, fixed: map<Key, nat>, schedule: Schedule,
                     bundle: Bundle, pairs: set<KeyPair>)
    requires Describes(inst, grouped, link, fixed, schedule) && inst.Valid() && inst.Admissible(pairs)
    requires Packs(bundle, grouped, fixed) && JoinedArePairs(bundle.sources, pairs)
    requires Numbered(link, bundle.sources, |pairs|)
    ensures JoinedOncePerSlot(bundle, schedule)
  {
    AdmissibleApart(inst, grouped, link, fixed, schedule, pairs);
    JoinedExclusive(grouped, link, fixed, schedule, bundle, pairs);
  }

  lemma SinglesDiffer(inst: Instance, grouped: Groups, link: string, fixed: map<Key, nat>, schedule: Schedule,
                      bundle: Bundle, n: nat)
    requires Describes(inst, grouped, link, fixed, schedule) && Packs(bundle, grouped, fixed)
    requires SourcesWithin(Elements(inst.forward) + Elements(inst.reverse), bundle.sources)
    requires Numbered(link, bundle.sources, n)
    ensures SinglesOncePerSlot(bundle, schedule)
  {
    SourcesValid(inst, grouped, link, fixed, schedule);
    SinglesExclusive(Elements(inst.forward) + Elements(inst.reverse), grouped, link, fixed, schedule, bundle, n);
  }

  lemma HalvesExclusive(bundle: Bundle, schedule: Schedule)
    requires JoinedOncePerSlot(bundle, schedule) && SinglesOncePerSlot(bundle, schedule)
    ensures SlotsExclusive(bundle, schedule)
  {
  }

  /** In a finished bundling, no two members of a materialized group are scheduled in one slot. */
  lemma BundlesExclusive(inst: Instance, grouped: Groups, link: string, fixed: map<Key, nat>, schedule: Schedule,
                         bundle: Bundle, pairs: set<KeyPair>)
    requires Describes(inst, grouped, link, fixed, schedule) && inst.Valid() && inst.Admissible(pairs)
    requires Packs(bundle, grouped, fixed) && Numbered(link, bundle.sources, |pairs|)
    requires JoinedArePairs(bundle.sources, pairs)
    requires SourcesWithin(Elements(inst.forward) + Elements(inst.reverse), bundle.sources)
    ensures SlotsExclusive(bundle, schedule)
  {
    JoinedDiffer(inst, grouped, link, fixed, schedule, bundle, pairs);
    SinglesDiffer(inst, grouped, link, fixed, schedule, bundle, |pairs|);
    HalvesExclusive(bundle, schedule);
  }

  method Materialize(link: string, inst: Instance, ghost laneCount: int, grouped: Groups, pairs: set<KeyPair>)
    returns (ok: bool, bundle: Bundle)
    requires inst.Valid() && inst.Guarded() && CheapestFit(inst, laneCount, pairs) && Directional(inst, grouped)
    ensures ok && BundleMeets(inst, grouped, laneCount, bundle, pairs) && Numbered(link, bundle.sources, |pairs|)
  {
    PairsApart(inst, pairs);
    var sorted := SortedKeyPairs(pairs);
    var all := inst.forward + inst.reverse;
    var paired := (set p | p in pairs :: p.0) + (set p | p in pairs :: p.1);
    assert paired == PairedKeys(pairs);
    DistinctConcat(inst.forward, inst.reverse);
    bundle := MaterializeSingles(link, all, grouped, inst.fixed, paired);
    ghost var single := Elements(all) - PairedKeys(pairs);
    assert NoBundle(single);
    forall i | 0 <= i < |sorted| ensures Joinable(grouped, inst.fixed, sorted[i]) {
      assert sorted[i] in pairs;
    }
    ok, bundle := MaterializePairs(link, sorted, grouped, inst.fixed, bundle, single);
    PairsSplit(inst, grouped, pairs, sorted);
    BundleComplete(link, inst, laneCount, pairs, sorted, bundle);
    SourcesNumbered(link, single, sorted);
  }

  lemma SourcesNumbered(link: string, single: set<Key>, sorted: seq<KeyPair>)
    requires NoBundle(single) && AscendingPairs(sorted)
    ensures Numbered(link, SourcesFor(link, single, sorted), |sorted|)
  {
  }

  /** Listing a matching between the two directions splits the groups. */
  lemma PairsSplit(inst: Instance, grouped: Groups, pairs: set<KeyPair>, sorted: seq<KeyPair>)
    requires inst.Valid() && inst.Admissible(pairs) && Directional(inst, grouped)
    requires AscendingPairs(sorted) && forall p :: p in sorted <==> p in pairs
    ensures var all := Elements(inst.forward + inst.reverse); Splits(all, all - PairedKeys(pairs), sorted)
    ensures Elements(sorted) == pairs
  {
    PairsApart(inst, pairs);
    assert Elements(sorted) == pairs;
    forall i, j | 0 <= i < j < |sorted| ensures sorted[i].0 != sorted[j].0 && sorted[i].1 != sorted[j].1 {
      assert sorted[i] in pairs && sorted[j] in pairs && sorted[i] != sorted[j];
    }
    forall i, j | 0 <= i < |sorted| && 0 <= j < |sorted| ensures sorted[i].0 != sorted[j].1 {
      assert sorted[i] in pairs && sorted[j] in pairs;
    }
  }

  lemma BundleComplete(link: string, inst: Instance, laneCount: int, pairs: set<KeyPair>,
                       sorted: seq<KeyPair>, bundle: Bundle)
    requires inst.Valid() && |pairs| >= Required(inst, laneCount)
    requires Elements(sorted) == pairs && |sorted| == |pairs| && bundle.materialized.Keys == bundle.sources.Keys
    requires var all := Elements(inst.forward + inst.reverse);
             && Splits(all, all - PairedKeys(pairs), sorted)
             && bundle.sources == SourcesFor(link, all - PairedKeys(pairs), sorted)
    ensures Conserves(inst, laneCount, bundle, pairs)
  {
    var all := Elements(inst.forward + inst.reverse);
    assert all == Elements(inst.forward) + Elements(inst.reverse);
    SourcesPartition(link, all, all - PairedKeys(pairs), sorted);
    BundleCount(link, inst, pairs, sorted, bundle);
    JoinedSources(link, all - PairedKeys(pairs), sorted);
  }

  lemma JoinedSources(link: string, single: set<Key>, sorted: seq<KeyPair>)
    ensures var sources := SourcesFor(link, single, sorted);
            forall k :: k in sources && |sources[k]| != 1 ==>
              |sources[k]| == 2 && (sources[k][0], sources[k][1]) in Elements(sorted)
    ensures NoBundle(single) ==>
              var sources := SourcesFor(link, single, sorted);
              forall p :: p in Elements(sorted) ==> exists m :: m in sources && sources[m] == [p.0, p.1]
  {
    var sources := SourcesFor(link, single, sorted);
    if NoBundle(single) {
      forall p | p in Elements(sorted) ensures exists m :: m in sources && sources[m] == [p.0, p.1] {
        var i :| 0 <= i < |sorted| && sorted[i] == p;
        assert sources[Key(link, Bidirectional, i)] == [p.0, p.1];
      }
    }
    forall k | k in sources && |sources[k]| != 1
      ensures |sources[k]| == 2 && (sources[k][0], sources[k][1]) in Elements(sorted)
    {
      assert sorted[k.group] in sorted;
    }
  }

  lemma BundleCount(link: string, inst: Instance, pairs: set<KeyPair>, sorted: seq<KeyPair>, bundle: Bundle)
    requires inst.Valid() && |sorted| == |pairs| && bundle.materialized.Keys == bundle.sources.Keys
    requires var all := Elements(inst.forward + inst.reverse);
             && Splits(all, all - PairedKeys(pairs), sorted)
             && bundle.sources == SourcesFor(link, all - PairedKeys(pairs), sorted)
    ensures |bundle.materialized| + |pairs| == |inst.forward| + |inst.reverse|
  {
    var all := Elements(inst.forward + inst.reverse);
    SourcesCount(link, all, all - PairedKeys(pairs), sorted);
    DistinctConcat(inst.forward, inst.reverse);
    DistinctSize(inst.forward + inst.reverse);
    assert |bundle.materialized| == |bundle.materialized.Keys|;
    assert |bundle.sources| == |bundle.sources.Keys|;
  }

  lemma PairsApart(inst: Instance, pairs: set<KeyPair>)
    requires inst.Valid() && inst.Admissible(pairs) && AscendingKeys(inst.forward)
    ensures forall p, q :: p in pairs && q in pairs && p != q ==> p.0.group != q.0.group
    ensures forall p :: p in pairs ==> p.0 in inst.forward && p.1 in inst.reverse && inst.Compatible(p.0, p.1)
  {
    forall p, q | p in pairs && q in pairs && p != q ensures p.0.group != q.0.group {
      assert p in inst.Edges() && q in inst.Edges();
      var i, j :| 0 <= i < |inst.forward| && 0 <= j < |inst.forward|
            && inst.forward[i] == p.0 && inst.forward[j] == q.0;
      assert i != j;
    }
    forall p | p in pairs ensures p.0 in inst.forward && p.1 in inst.reverse && inst.Compatible(p.0, p.1) {
      assert p in inst.Edges();
    }
  }
}
