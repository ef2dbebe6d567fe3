// What the grouping oracle's answer says about the signals themselves: slots, lanes, the order of the
// groups and which signal is taken next.
module GroupingRule {
  import opened Lexicographic
  import opened Sequences
  import opened Grouping

  // ---------------------------------------------------------------------------
  // Slots and buckets
  // ---------------------------------------------------------------------------

  /** Two signals need one slot: the same frozen one, or one that is frozen at the other's own position. */
  ghost predicate OnOneSlot(s: Signal, t: Signal) {
    && (s.slot.Some? && t.slot.Some? ==> s.slot.value == t.slot.value)
    && (s.slot.Some? && t.slot.None? ==> s.slot.value == t.index)
    && (s.slot.None? && t.slot.Some? ==> s.index == t.slot.value)
    && (s.slot.None? && t.slot.None? ==> s.index == t.index)
  }

  ghost predicate InOneBucket(s: Signal, t: Signal) {
    s.domain == t.domain && s.ratio == t.ratio && s.guard == t.guard
  }

  /** The members go together: one direction, ratio and guarded lane, no more than the ratio, no two on one slot. */
  ghost predicate GoesTogether(group: seq<Signal>) {
    && group != [] && |group| <= group[0].ratio
    && (forall s :: s in group ==> InOneBucket(s, group[0]))
    && (forall p, q | 0 <= p < q < |group| :: !OnOneSlot(group[p], group[q]))
  }

  /** The group is full, or every signal of its bucket that is in no group so far needs a member's slot. */
  ghost predicate ClosedInTime(signals: seq<Signal>, groups: seq<seq<Signal>>, g: nat)
    requires g < |groups| && groups[g] != []
  {
    || |groups[g]| == groups[g][0].ratio
    || forall s :: s in signals && InOneBucket(s, groups[g][0]) && !Taken(groups[..g + 1], s) ==>
         NeedsSlotIn(groups[g], s)
  }

  ghost predicate NeedsSlotIn(group: seq<Signal>, s: Signal) { exists m :: m in group && OnOneSlot(s, m) }

  lemma SlotMeans(s: Signal, t: Signal)
    ensures s.Slot() == t.Slot() <==> OnOneSlot(s, t)
    ensures s.Key() == t.Key() <==> InOneBucket(s, t)
  {
  }

  lemma GroupGoesTogether(group: seq<Signal>)
    requires Fits(group)
    ensures GoesTogether(group)
  {
    forall s | s in group ensures InOneBucket(s, group[0]) {
      SlotMeans(s, group[0]);
    }
    forall p, q | 0 <= p < q < |group| ensures !OnOneSlot(group[p], group[q]) {
      SlotMeans(group[p], group[q]);
    }
  }

  lemma GroupClosedInTime(signals: seq<Signal>, groups: seq<seq<Signal>>, g: nat)
    requires g < |groups| && groups[g] != [] && CannotTakeMore(signals, groups, g)
    ensures ClosedInTime(signals, groups, g)
  {
    if |groups[g]| != groups[g][0].ratio {
      forall s | s in signals && InOneBucket(s, groups[g][0]) && !Taken(groups[..g + 1], s)
        ensures NeedsSlotIn(groups[g], s)
      {
        SlotMeans(s, groups[g][0]);
        var m :| m in groups[g] && m.Slot() == s.Slot();
        SlotMeans(s, m);
      }
    }
  }

  /** Every group of the oracle goes together and was not closed before its time. */
  lemma GroupsGoTogether(signals: seq<Signal>, groups: seq<seq<Signal>>, assignment: map<nat, nat>, count: nat,
                         bits: nat)
    requires OracleResult(signals, groups, assignment, count, bits)
    ensures forall g | 0 <= g < |groups| :: GoesTogether(groups[g]) && ClosedInTime(signals, groups, g)
  {
    GroupsFit(signals, groups, assignment, count, bits);
    forall g | 0 <= g < |groups| ensures GoesTogether(groups[g]) && ClosedInTime(signals, groups, g) {
      assert Fits(groups[g]) && CannotTakeMore(signals, groups, g);
      GroupGoesTogether(groups[g]);
      GroupClosedInTime(signals, groups, g);
    }
  }

  // ---------------------------------------------------------------------------
  // The order of the groups
  // ---------------------------------------------------------------------------

  /** Buckets come by direction, unguarded before guarded, then by guarded lane and by ratio. */
  ghost predicate NoLater(s: Signal, t: Signal) {
    || s.domain < t.domain
    || (s.domain == t.domain && s.guard.None? && t.guard.Some?)
    || (s.domain == t.domain && s.guard.None? && t.guard.None? && s.ratio <= t.ratio)
    || (s.domain == t.domain && s.guard.Some? && t.guard.Some?
        && (s.guard.value < t.guard.value || (s.guard.value == t.guard.value && s.ratio <= t.ratio)))
  }

  lemma KeyOrderMeans(s: Signal, t: Signal)
    ensures LexLeq(s.Key().Order(), t.Key().Order()) <==> NoLater(s, t)
  {
    var a, b := s.Key().Order(), t.Key().Order();
    FourSteps(a[0], a[1], a[2], a[3], b[0], b[1], b[2], b[3]);
    assert a == [a[0], a[1], a[2], a[3]] && b == [b[0], b[1], b[2], b[3]];
  }

  lemma FourSteps(a: int, b: int, c: int, d: int, p: int, q: int, r: int, s: int)
    ensures LexLeq([a, b, c, d], [p, q, r, s]) <==>
              a < p || (a == p && (b < q || (b == q && (c < r || (c == r && d <= s)))))
  {
    LexStep(a, [b, c, d], p, [q, r, s]);
    LexStep(b, [c, d], q, [r, s]);
    LexStep(c, [d], r, [s]);
    LexStep(d, [], s, []);
    assert [a] + [b, c, d] == [a, b, c, d] && [p] + [q, r, s] == [p, q, r, s];
    assert [b] + [c, d] == [b, c, d] && [q] + [r, s] == [q, r, s];
    assert [c] + [d] == [c, d] && [r] + [s] == [r, s];
    assert [d] + [] == [d] && [s] + [] == [s];
  }

  /** The oracle's groups are in the order of their buckets. */
  lemma GroupsInOrder(groups: seq<seq<Signal>>)
    requires InKeyOrder(groups)
    ensures forall g, h | 0 <= g < h < |groups| && groups[g] != [] && groups[h] != [] ::
              NoLater(groups[g][0], groups[h][0])
  {
    forall g, h | 0 <= g < h < |groups| && groups[g] != [] && groups[h] != []
      ensures NoLater(groups[g][0], groups[h][0])
    {
      KeyOrderMeans(groups[g][0], groups[h][0]);
    }
  }

  // ---------------------------------------------------------------------------
  // Encodings as numbers
  // ---------------------------------------------------------------------------

  /** The highest line that only one of the two encodings crosses is crossed by `f`. */
  ghost predicate Greater(f: Encoding, e: Encoding, width: nat) { exists bit :: DecidesAt(f, e, width, bit) }

  ghost predicate DecidesAt(f: Encoding, e: Encoding, width: nat, bit: nat) {
    bit < width && bit in f && bit !in e && forall k :: bit < k < width ==> (k in e <==> k in f)
  }

  ghost predicate SameLines(e: Encoding, f: Encoding, width: nat) {
    forall k :: 0 <= k < width ==> (k in e <==> k in f)
  }

  lemma {:induction false} MaskBounded(e: Encoding, width: nat)
    ensures Mask(e, width) < Power(width)
  {
    if width > 0 {
      MaskBounded(e, width - 1);
    }
  }

  /** The mask is ordered by the highest line in which two encodings differ. */
  lemma {:induction false} MaskOrder(e: Encoding, f: Encoding, width: nat)
    ensures Mask(e, width) < Mask(f, width) <==> Greater(f, e, width)
    ensures Mask(e, width) == Mask(f, width) <==> SameLines(e, f, width)
  {
    if width > 0 {
      var last := width - 1;
      MaskOrder(e, f, last);
      MaskBounded(e, last);
      MaskBounded(f, last);
      if last in e <==> last in f {
        SameTop(f, e, last);
      } else if last in f {
        assert DecidesAt(f, e, width, last);
      } else {
        forall bit ensures !DecidesAt(f, e, width, bit) {
        }
      }
    }
  }

  lemma SameTop(f: Encoding, e: Encoding, last: nat)
    requires last in e <==> last in f
    ensures Greater(f, e, last + 1) <==> Greater(f, e, last)
  {
    if Greater(f, e, last + 1) {
      var bit :| DecidesAt(f, e, last + 1, bit);
      assert DecidesAt(f, e, last, bit);
    }
    if Greater(f, e, last) {
      var bit :| DecidesAt(f, e, last, bit);
      assert DecidesAt(f, e, last + 1, bit);
    }
  }

  // ---------------------------------------------------------------------------
  // The seed
  // ---------------------------------------------------------------------------

  lemma TwoSteps(a: int, b: int, p: int, q: int)
    ensures LexLeq([a, b], [p, q]) <==> a < p || (a == p && b <= q)
  {
    LexStep(a, [b], p, [q]);
    LexStep(b, [], q, []);
    assert [a] + [b] == [a, b] && [p] + [q] == [p, q] && [b] + [] == [b] && [q] + [] == [q];
  }

  /** The seed crosses the most lines, and among the encodings with as many it is the greatest. */
  lemma SeedMeans(r: set<Signal>, e: Encoding)
    ensures IsSeed(r, e) <==>
              && (exists s :: s in r && s.encoding == e)
              && forall s :: s in r ==>
                   |s.encoding| < |e| || (|s.encoding| == |e| && !Greater(s.encoding, e, WIDTH))
  {
    forall s | s in r
      ensures LexLeq(SeedKey(e), SeedKey(s.encoding)) <==>
                |s.encoding| < |e| || (|s.encoding| == |e| && !Greater(s.encoding, e, WIDTH))
    {
      TwoSteps(-(|e| as int), -(Mask(e, WIDTH) as int), -(|s.encoding| as int), -(Mask(s.encoding, WIDTH) as int));
      MaskOrder(e, s.encoding, WIDTH);
    }
  }

  // ---------------------------------------------------------------------------
  // The next member
  // ---------------------------------------------------------------------------

  /** In how many lines the encodings differ. */
  ghost function Distance(e: Encoding, f: Encoding): nat { |e - f| + |f - e| }

  lemma DistanceMeans(e: Encoding, f: Encoding)
    ensures |Difference(e, f)| == Distance(e, f)
  {
    assert (e - f) !! (f - e);
  }

  /** The more lines, the rarer and then the greater encoding comes first, then the earlier signal. */
  ghost predicate MoreLines(e: Encoding, m: nat, i: nat, f: Encoding, n: nat, j: nat) {
    || |f| < |e|
    || (|f| == |e| && m < n)
    || (|f| == |e| && m == n && Greater(e, f, WIDTH))
    || (|f| == |e| && m == n && SameLines(e, f, WIDTH) && i <= j)
  }

  /** An encoding equal to the target comes first, then those that add no line to it, then those that differ least. */
  ghost predicate Closer(target: Encoding, e: Encoding, m: nat, i: nat, f: Encoding, n: nat, j: nat) {
    if e == target then f != target || MoreLines(e, m, i, f, n, j)
    else if e <= target then f != target && (!(f <= target) || MoreLines(e, m, i, f, n, j))
    else
      && !(f <= target)
      && (Distance(e, target) < Distance(f, target)
          || (Distance(e, target) == Distance(f, target) && MoreLines(e, m, i, f, n, j)))
  }

  lemma SixSteps(a: int, b: int, xs: seq<int>, p: int, q: int, ys: seq<int>)
    requires |xs| == |ys| == 4
    ensures LexLeq([a, b] + xs, [p, q] + ys) <==> a < p || (a == p && (b < q || (b == q && LexLeq(xs, ys))))
  {
    LexStep(a, [b] + xs, p, [q] + ys);
    LexStep(b, xs, q, ys);
    assert [a] + ([b] + xs) == [a, b] + xs && [p] + ([q] + ys) == [p, q] + ys;
  }

  lemma NearestKeyMeans(target: Encoding, e: Encoding, m: nat, i: nat, f: Encoding, n: nat, j: nat)
    ensures LexLeq(NearestKey(e, target, m, i), NearestKey(f, target, n, j)) <==> Closer(target, e, m, i, f, n, j)
  {
    var a, b := NearestKey(e, target, m, i), NearestKey(f, target, n, j);
    DistanceMeans(e, target);
    DistanceMeans(f, target);
    MaskOrder(e, f, WIDTH);
    MaskOrder(f, e, WIDTH);
    assert a == [a[0], a[1]] + [a[2], a[3], a[4], a[5]] && b == [b[0], b[1]] + [b[2], b[3], b[4], b[5]];
    SixSteps(a[0], a[1], [a[2], a[3], a[4], a[5]], b[0], b[1], [b[2], b[3], b[4], b[5]]);
    FourSteps(a[2], a[3], a[4], a[5], b[2], b[3], b[4], b[5]);
  }

  /** Of the signals whose slot is free, the next member is the first of its encoding, and no other encoding's first
      signal is closer to the target. */
  lemma NextMember(r: set<Signal>, used: set<nat>, target: Encoding, s: Signal, t: Signal)
    requires Nearest(r, used, target, s) && t in r && t.Slot() !in used
    ensures s in r && s.Slot() !in used && (t.encoding == s.encoding ==> s.index <= t.index)
    ensures exists u :: FirstOf(r, used, t.encoding, u)
                     && Closer(target, s.encoding, |Alike(r, s.encoding)|, s.index,
                               t.encoding, |Alike(r, t.encoding)|, u.index)
  {
    var u := FirstFreeAlike(r, used, t);
    assert Compatible(r, used, u);
    NearestKeyMeans(target, s.encoding, |Alike(r, s.encoding)|, s.index, u.encoding, |Alike(r, u.encoding)|, u.index);
  }

  ghost predicate FirstOf(r: set<Signal>, used: set<nat>, e: Encoding, u: Signal) {
    && u in r && u.encoding == e && u.Slot() !in used
    && forall t :: t in r && t.encoding == e && t.Slot() !in used ==> u.index <= t.index
  }

  lemma {:induction false} FirstFreeAlike(r: set<Signal>, used: set<nat>, from: Signal) returns (u: Signal)
    requires from in r && from.Slot() !in used
    ensures FirstOf(r, used, from.encoding, u)
    decreases from.index
  {
    u := from;
    if t :| t in r && t.encoding == from.encoding && t.Slot() !in used && t.index < from.index {
      u := FirstFreeAlike(r, used, t);
    }
  }

  // ---------------------------------------------------------------------------
  // Crossing bits
  // ---------------------------------------------------------------------------

  lemma {:induction false} UnionMeans(members: seq<Signal>, line: nat)
    ensures line in Union(members) <==> exists s :: s in members && line in s.encoding
  {
    if members != [] {
      UnionMeans(members[..|members| - 1], line);
      SplitLast(members);
    }
  }

  /** The lines every group crosses, tagged with the number of the group. */
  ghost function Crossings(groups: seq<seq<Signal>>): set<(nat, nat)> {
    set g: nat, s, line | g < |groups| && s in groups[g] && line in s.encoding :: (g, line)
  }

  /** The bits count every line once for each group that crosses it. */
  lemma {:induction false} BitsCountCrossings(groups: seq<seq<Signal>>)
    ensures CrossingBits(groups) == |Crossings(groups)|
  {
    if groups != [] {
      var last := |groups| - 1;
      BitsCountCrossings(groups[..last]);
      NextCrossings(groups, last);
    } else {
      assert Crossings(groups) == {};
    }
  }

  ghost function Tag(g: nat, lines: Encoding): set<(nat, nat)> { set line | line in lines :: (g, line) }

  lemma {:induction false} TagSize(g: nat, lines: Encoding)
    ensures |Tag(g, lines)| == |lines|
  {
    if lines != {} {
      var line :| line in lines;
      TagSize(g, lines - {line});
      assert Tag(g, lines) == Tag(g, lines - {line}) + {(g, line)};
    }
  }

  lemma NextCrossings(groups: seq<seq<Signal>>, last: nat)
    requires last + 1 == |groups|
    ensures |Crossings(groups)| == |Crossings(groups[..last])| + |Union(groups[last])|
  {
    var before, tagged := Crossings(groups[..last]), Tag(last, Union(groups[last]));
    forall g: nat, line: nat ensures (g, line) in Crossings(groups) <==> (g, line) in before || (g, line) in tagged {
      UnionMeans(groups[last], line);
      CrossingOf(groups, last, g, line);
    }
    assert Crossings(groups) == before + tagged && before !! tagged;
    TagSize(last, Union(groups[last]));
  }

  lemma CrossingOf(groups: seq<seq<Signal>>, last: nat, g: nat, line: nat)
    requires last + 1 == |groups|
    ensures (g, line) in Crossings(groups) <==> g < |groups| && exists s :: s in groups[g] && line in s.encoding
    ensures (g, line) in Crossings(groups[..last]) <==> g < last && exists s :: s in groups[g] && line in s.encoding
  {
  }
}
