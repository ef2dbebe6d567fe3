// The compressed certificate of one bank's channel assignment: groups with one signature and
// one potential are checked through a representative row.
module ChannelCertificates {
  import opened Sequences
  import opened Wrappers
  import opened ChannelCosts
  import Certificates

  type Claims = map<nat, Certificates.Claim>

  datatype Channel = Channel(index: int, pinA: Point, pinB: Point)

  /** The channels of a bank, the groups assigned to it and the direction that goes first. */
  datatype Bank = Bank(channels: seq<Channel>, groups: seq<Group>, priority: nat, scale: int)
  {
    ghost predicate Valid() {
      priority <= 1 && forall g :: g in groups ==> ValidGroup(g)
    }

    function Cost(l: nat, r: nat): int
      requires l < |groups| && r < |channels| && ValidGroup(groups[l])
    {
      CandidateCost(groups[l], channels[r].pinA, channels[r].pinB, scale)
    }
  }

  // ---------------------------------------------------------------------------
  // Which channels a group may take
  // ---------------------------------------------------------------------------

  /** TDM groups of a direction, and groups that are not TDM groups. */
  function Directed(groups: seq<Group>, direction: nat): nat {
    if groups == [] then 0
    else Directed(groups[..|groups| - 1], direction)
         + if groups[|groups| - 1].kind == 0 && groups[|groups| - 1].direction == direction then 1 else 0
  }

  function Common(groups: seq<Group>): nat {
    if groups == [] then 0
    else Common(groups[..|groups| - 1]) + if groups[|groups| - 1].kind == 0 then 0 else 1
  }

  /** The only direction present, when there are no common signals. */
  function Dedicated(counts: (nat, nat, nat), common: nat): Option<nat> {
    if common != 0 then None
    else if counts.0 > 0 && counts.1 == 0 && counts.2 == 0 then Some(0)
    else if counts.0 == 0 && counts.1 > 0 && counts.2 == 0 then Some(1)
    else if counts.0 == 0 && counts.1 == 0 && counts.2 > 0 then Some(2)
    else None
  }

  function CountOf(counts: (nat, nat, nat), direction: nat): nat {
    if direction == 0 then counts.0 else if direction == 1 then counts.1 else counts.2
  }

  function Counts(bank: Bank): (nat, nat, nat) {
    (Directed(bank.groups, 0), Directed(bank.groups, 1), Directed(bank.groups, 2))
  }

  /** In a dedicated bank every channel serves its direction; otherwise the channels are
      divided into blocks: priority direction, other direction, both, common signals. */
  predicate EligibleUnder(counts: (nat, nat, nat), dedicated: Option<nat>, priority: nat, g: Group, right: nat)
    requires priority <= 1
  {
    match dedicated
    case Some(direction) => g.kind == 0 && g.direction == direction
    case None =>
      var first, second := CountOf(counts, priority), CountOf(counts, 1 - priority);
      if right < first then g.kind == 0 && g.direction == priority
      else if right < first + second then g.kind == 0 && g.direction == 1 - priority
      else if right < first + second + counts.2 then g.kind == 0 && g.direction == 2
      else g.kind == 1
  }

  ghost predicate Eligible(bank: Bank, g: Group, right: nat)
    requires bank.Valid()
  {
    EligibleUnder(Counts(bank), Dedicated(Counts(bank), Common(bank.groups)), bank.priority, g, right)
  }

  method CountDirections(groups: seq<Group>) returns (counts: (nat, nat, nat), common: nat)
    requires forall g :: g in groups ==> ValidGroup(g)
    ensures counts == (Directed(groups, 0), Directed(groups, 1), Directed(groups, 2)) && common == Common(groups)
  {
    counts, common := (0, 0, 0), 0;
    for i := 0 to |groups|
      invariant counts == (Directed(groups[..i], 0), Directed(groups[..i], 1), Directed(groups[..i], 2))
      invariant common == Common(groups[..i])
    {
      TakeNext(groups, i);
      assert groups[..i + 1][..i] == groups[..i];
      var g := groups[i];
      assert g in groups;
      if g.kind == 0 {
        counts := if g.direction == 0 then (counts.0 + 1, counts.1, counts.2)
                  else if g.direction == 1 then (counts.0, counts.1 + 1, counts.2)
                  else (counts.0, counts.1, counts.2 + 1);
      } else {
        common := common + 1;
      }
    }
    assert groups[..|groups|] == groups;
  }

  // ---------------------------------------------------------------------------
  // The expanded problem
  // ---------------------------------------------------------------------------

  /** Unit capacities and one candidate per eligible channel of every group. */
  ghost predicate Expands(bank: Bank, p: Certificates.Problem)
    requires bank.Valid()
  {
    && |p.capacities| == |bank.channels| && p.lefts == |bank.groups|
    && (forall r :: 0 <= r < |p.capacities| ==> p.capacities[r] == 1)
    && p.NoDuplicates()
    && forall c: Certificates.Candidate :: c in p.candidates <==>
         && c.right < |bank.channels| && c.left < |bank.groups|
         && Eligible(bank, bank.groups[c.left], c.right) && c.cost == bank.Cost(c.left, c.right)
  }

  /** Groups in one class behave alike on every channel. */
  lemma SameRow(bank: Bank, l: nat, l': nat, r: nat)
    requires bank.Valid() && l < |bank.groups| && l' < |bank.groups| && r < |bank.channels|
    requires GroupSignature(bank.groups[l]) == GroupSignature(bank.groups[l'])
    ensures Eligible(bank, bank.groups[l], r) == Eligible(bank, bank.groups[l'], r)
    ensures bank.Cost(l, r) == bank.Cost(l', r)
  {
    SameSignatureSameCost(bank.groups[l], bank.groups[l'], bank.channels[r].pinA, bank.channels[r].pinB, bank.scale);
  }

  // ---------------------------------------------------------------------------
  // Row classes
  // ---------------------------------------------------------------------------

  type ClassKey = (Signature, int)

  ghost predicate Sized(bank: Bank, potentials: seq<int>) { |potentials| == 2 + |bank.channels| + |bank.groups| }

  function ClassOf(bank: Bank, potentials: seq<int>, l: nat): ClassKey
    requires l < |bank.groups| && |potentials| == 2 + |bank.channels| + |bank.groups|
  {
    (GroupSignature(bank.groups[l]), potentials[1 + |bank.channels| + l])
  }

  ghost function ClassKeys(bank: Bank, potentials: seq<int>): (keys: seq<ClassKey>)
    requires Sized(bank, potentials)
    ensures |keys| == |bank.groups| && forall l :: 0 <= l < |keys| ==> keys[l] == ClassOf(bank, potentials, l)
  {
    seq(|bank.groups|, l requires 0 <= l < |bank.groups| => ClassOf(bank, potentials, l))
  }

  /** The first `n` positions, filed in order under their keys. */
  ghost predicate Filed<K>(keys: seq<K>, n: nat, classes: map<K, seq<nat>>)
    requires n <= |keys|
  {
    && (forall l: nat :: l < n ==> keys[l] in classes && l in classes[keys[l]])
    && (forall k :: k in classes ==> classes[k] != [])
    && (forall k, l {:trigger l in classes[k]} :: k in classes && l in classes[k] ==> l < n && keys[l] == k)
    && (forall k :: k in classes ==> Ascending(classes[k]))
  }

  ghost predicate Ascending(s: seq<nat>) { forall i, j | 0 <= i < j < |s| :: s[i] < s[j] }

  lemma FileNext<K>(keys: seq<K>, n: nat, classes: map<K, seq<nat>>)
    requires n < |keys| && Filed(keys, n, classes)
    ensures Filed(keys, n + 1, classes[keys[n] := (if keys[n] in classes then classes[keys[n]] else []) + [n]])
  {
    var k := keys[n];
    var before := if k in classes then classes[k] else [];
    var after := classes[k := before + [n]];
    Appended(before, n);
    forall x, l | x in after && l in after[x] ensures l < n + 1 && keys[l] == x {
      if x == k && l != n {
        assert l in before;
      }
    }
    forall x | x in after ensures Ascending(after[x]) {
      if x == k {
        forall i | 0 <= i < |before| ensures before[i] < n {
          assert before[i] in before;
        }
      }
    }
  }

  lemma Appended(s: seq<nat>, x: nat)
    ensures forall y :: y in s + [x] <==> y in s || y == x
  {
    assert (s + [x])[|s|] == x;
    forall y | y in s ensures y in s + [x] {
      var i :| 0 <= i < |s| && s[i] == y;
      assert (s + [x])[i] == y;
    }
  }

  /** The reduced cost of group `l` on channel `r` when it is not selected there. */
  ghost predicate RowHolds(bank: Bank, potentials: seq<int>, l: nat, r: nat)
    requires bank.Valid() && Sized(bank, potentials) && l < |bank.groups| && r < |bank.channels|
  {
    bank.Cost(l, r) + potentials[1 + r] - potentials[1 + |bank.channels| + l] >= 0
  }

  /** Every unselected eligible channel of every listed group holds. */
  ghost predicate UnselectedHold(bank: Bank, claims: Claims, potentials: seq<int>, members: set<nat>)
    requires bank.Valid() && Sized(bank, potentials)
  {
    forall l, r: nat | l in members && l in claims && l < |bank.groups| && r < |bank.channels| ::
      Eligible(bank, bank.groups[l], r) && claims[l].right != r ==> RowHolds(bank, potentials, l, r)
  }

  /** What is checked for one class: the first member's row, without its channel if it is alone. */
  ghost predicate ClassHolds(bank: Bank, claims: Claims, potentials: seq<int>, members: seq<nat>)
    requires bank.Valid() && Sized(bank, potentials) && members != []
    requires members[0] in claims && members[0] < |bank.groups|
  {
    forall r: nat | r < |bank.channels| && Eligible(bank, bank.groups[members[0]], r) ::
      !(|members| == 1 && claims[members[0]].right == r) ==> RowHolds(bank, potentials, members[0], r)
  }

  ghost predicate Injective(claims: Claims) {
    forall l, l' :: l in claims && l' in claims && claims[l].right == claims[l'].right ==> l == l'
  }

  /** Checking the representative is checking every member. */
  lemma ClassIsRows(bank: Bank, claims: Claims, potentials: seq<int>, k: ClassKey, members: seq<nat>)
    requires bank.Valid() && Sized(bank, potentials) && members != [] && Injective(claims)
    requires forall l :: l in members ==> l < |bank.groups| && l in claims && ClassOf(bank, potentials, l) == k
    requires Ascending(members)
    ensures ClassHolds(bank, claims, potentials, members) <==>
            UnselectedHold(bank, claims, potentials, set l | l in members)
  {
    var first := members[0];
    if ClassHolds(bank, claims, potentials, members) {
      forall l, r: nat | l in members && r < |bank.channels|
        && Eligible(bank, bank.groups[l], r) && claims[l].right != r
        ensures RowHolds(bank, potentials, l, r)
      {
        SameRow(bank, l, first, r);
        assert |members| == 1 ==> l == first;
      }
    }
    if UnselectedHold(bank, claims, potentials, set l | l in members) {
      forall r: nat | r < |bank.channels| && Eligible(bank, bank.groups[first], r)
                      && !(|members| == 1 && claims[first].right == r)
        ensures RowHolds(bank, potentials, first, r)
      {
        var l := if claims[first].right == r then members[1] else first;
        assert l in members && claims[l].right != r;
        SameRow(bank, l, first, r);
        assert RowHolds(bank, potentials, l, r);
      }
    }
  }

  // ---------------------------------------------------------------------------
  // What the compressed check accepts
  // ---------------------------------------------------------------------------

  /** The claim of group `l` is an eligible channel at its cost whose reverse edge holds. */
  ghost predicate ClaimHolds(bank: Bank, claims: Claims, potentials: seq<int>, l: nat)
    requires bank.Valid() && Sized(bank, potentials) && l < |bank.groups| && l in claims
  {
    var c := claims[l];
    && 0 <= c.right < |bank.channels| && Eligible(bank, bank.groups[l], c.right) && c.cost == bank.Cost(l, c.right)
    && -c.cost + potentials[1 + |bank.channels| + l] - potentials[1 + c.right] >= 0
  }

  ghost predicate ChannelHolds(bank: Bank, claims: Claims, potentials: seq<int>, r: nat)
    requires Sized(bank, potentials) && r < |bank.channels|
  {
    var uses := Certificates.Uses(claims, |bank.groups|, r);
    uses <= 1 && if uses == 1 then potentials[1 + r] - potentials[0] >= 0 else potentials[0] - potentials[1 + r] >= 0
  }

  ghost predicate GroupHolds(bank: Bank, potentials: seq<int>, l: nat)
    requires Sized(bank, potentials) && l < |bank.groups|
  {
    potentials[1 + |bank.channels| + |bank.groups|] - potentials[1 + |bank.channels| + l] >= 0
  }

  ghost predicate Complete(bank: Bank, claims: Claims) {
    forall l :: l in claims <==> 0 <= l < |bank.groups|
  }

  ghost predicate Compressed(bank: Bank, claims: Claims, potentials: seq<int>, total: int)
    requires bank.Valid()
  {
    && Sized(bank, potentials) && Complete(bank, claims)
    && (forall l: nat :: l < |bank.groups| ==> ClaimHolds(bank, claims, potentials, l))
    && Certificates.ClaimedCost(claims, |bank.groups|) == total
    && (forall r: nat :: r < |bank.channels| ==> ChannelHolds(bank, claims, potentials, r))
    && (forall l: nat :: l < |bank.groups| ==> GroupHolds(bank, potentials, l))
    && UnselectedHold(bank, claims, potentials, claims.Keys)
  }

  /** The compressed check and the expanded certificate are the same condition. */
  lemma CompressedIsCertified(bank: Bank, p: Certificates.Problem, claims: Claims, potentials: seq<int>, total: int)
    requires bank.Valid() && Expands(bank, p)
    ensures Compressed(bank, claims, potentials, total) <==> Certificates.Certified(p, claims, potentials, total)
  {
    if Compressed(bank, claims, potentials, total) {
      CompressedGivesCertificate(bank, p, claims, potentials, total);
    }
    if Certificates.Certified(p, claims, potentials, total) {
      CertificateGivesCompressed(bank, p, claims, potentials, total);
    }
  }

  lemma CompressedGivesPrimal(bank: Bank, p: Certificates.Problem, claims: Claims, potentials: seq<int>, total: int)
    requires bank.Valid() && Expands(bank, p) && Compressed(bank, claims, potentials, total)
    ensures Certificates.Covers(p, claims) && Certificates.Primal(p, claims, total)
  {
    forall l: nat | l < p.lefts
      ensures claims[l].right >= 0 && Certificates.Candidate(claims[l].right, l, claims[l].cost) in p.candidates
    {
      assert ClaimHolds(bank, claims, potentials, l);
    }
    forall r: nat | r < |p.capacities| ensures Certificates.Uses(claims, p.lefts, r) <= p.capacities[r] {
      assert ChannelHolds(bank, claims, potentials, r);
    }
  }

  lemma CompressedGivesDual(bank: Bank, p: Certificates.Problem, claims: Claims, potentials: seq<int>, total: int)
    requires bank.Valid() && Expands(bank, p) && Compressed(bank, claims, potentials, total)
    ensures |potentials| == p.Sink() + 1 && Certificates.Covers(p, claims) && Certificates.Dual(p, claims, potentials)
  {
    forall c | c in p.candidates && c.right < |p.capacities| && c.left < p.lefts
      ensures Certificates.CandidateDual(p, claims, potentials, c)
    {
      assert ClaimHolds(bank, claims, potentials, c.left);
      assert claims[c.left].right != c.right ==> RowHolds(bank, potentials, c.left, c.right);
    }
    CompressedGivesRights(bank, p, claims, potentials, total);
    forall l: nat | l < p.lefts ensures potentials[p.Sink()] - potentials[p.Left(l)] >= 0 {
      assert GroupHolds(bank, potentials, l);
    }
  }

  lemma CompressedGivesRights(bank: Bank, p: Certificates.Problem, claims: Claims, potentials: seq<int>, total: int)
    requires bank.Valid() && Expands(bank, p) && Compressed(bank, claims, potentials, total)
    ensures |potentials| == p.Sink() + 1 && Certificates.RightsDual(p, claims, potentials)
  {
    forall r: nat | r < |p.capacities|
      ensures Certificates.Uses(claims, p.lefts, r) < p.capacities[r] ==> potentials[0] - potentials[p.Right(r)] >= 0
      ensures Certificates.Uses(claims, p.lefts, r) > 0 ==> potentials[p.Right(r)] - potentials[0] >= 0
    {
      assert ChannelHolds(bank, claims, potentials, r);
    }
  }

  lemma CompressedGivesCertificate(bank: Bank, p: Certificates.Problem, claims: Claims, potentials: seq<int>,
                                   total: int)
    requires bank.Valid() && Expands(bank, p) && Compressed(bank, claims, potentials, total)
    ensures Certificates.Certified(p, claims, potentials, total)
  {
    CompressedGivesPrimal(bank, p, claims, potentials, total);
    CompressedGivesDual(bank, p, claims, potentials, total);
  }

  lemma CertificateGivesClaims(bank: Bank, p: Certificates.Problem, claims: Claims, potentials: seq<int>, total: int,
                               l: nat)
    requires bank.Valid() && Expands(bank, p) && Certificates.Certified(p, claims, potentials, total)
             && l < |bank.groups|
    ensures Sized(bank, potentials) && l in claims && ClaimHolds(bank, claims, potentials, l)
            && GroupHolds(bank, potentials, l)
  {
    var c := Certificates.Candidate(claims[l].right, l, claims[l].cost);
    assert c in p.candidates && Certificates.CandidateDual(p, claims, potentials, c);
  }

  lemma CertificateGivesRow(bank: Bank, p: Certificates.Problem, claims: Claims, potentials: seq<int>, total: int,
                            l: nat, r: nat)
    requires bank.Valid() && Expands(bank, p) && Certificates.Certified(p, claims, potentials, total)
    requires l < |bank.groups| && l in claims && r < |bank.channels| && Eligible(bank, bank.groups[l], r)
             && claims[l].right != r
    ensures Sized(bank, potentials) && RowHolds(bank, potentials, l, r)
  {
    var c := Certificates.Candidate(r, l, bank.Cost(l, r));
    assert c in p.candidates && Certificates.CandidateDual(p, claims, potentials, c);
  }

  lemma CertificateGivesCompressed(bank: Bank, p: Certificates.Problem, claims: Claims, potentials: seq<int>,
                                   total: int)
    requires bank.Valid() && Expands(bank, p) && Certificates.Certified(p, claims, potentials, total)
    ensures Compressed(bank, claims, potentials, total)
  {
    forall l: nat | l < |bank.groups|
      ensures l in claims && ClaimHolds(bank, claims, potentials, l) && GroupHolds(bank, potentials, l)
    {
      CertificateGivesClaims(bank, p, claims, potentials, total, l);
    }
    forall r: nat | r < |bank.channels| ensures ChannelHolds(bank, claims, potentials, r) {
    }
    forall l, r: nat | l in claims.Keys && l < |bank.groups| && r < |bank.channels|
                       && Eligible(bank, bank.groups[l], r) && claims[l].right != r
      ensures RowHolds(bank, potentials, l, r)
    {
      CertificateGivesRow(bank, p, claims, potentials, total, l, r);
    }
  }

  // ---------------------------------------------------------------------------
  // The expansion exists
  // ---------------------------------------------------------------------------

  ghost function RowCandidates(bank: Bank, l: nat, n: nat): seq<Certificates.Candidate>
    requires bank.Valid() && l < |bank.groups| && n <= |bank.channels|
  {
    if n == 0 then []
    else RowCandidates(bank, l, n - 1)
         + if Eligible(bank, bank.groups[l], n - 1) then [Certificates.Candidate(n - 1, l, bank.Cost(l, n - 1))] else []
  }

  ghost function AllCandidates(bank: Bank, m: nat): seq<Certificates.Candidate>
    requires bank.Valid() && m <= |bank.groups|
  {
    if m == 0 then [] else AllCandidates(bank, m - 1) + RowCandidates(bank, m - 1, |bank.channels|)
  }

  ghost function Expansion(bank: Bank): Certificates.Problem
    requires bank.Valid()
  {
    Certificates.Problem(seq(|bank.channels|, _ => 1), |bank.groups|, AllCandidates(bank, |bank.groups|))
  }

  lemma {:induction false} RowListed(bank: Bank, l: nat, n: nat)
    requires bank.Valid() && l < |bank.groups| && n <= |bank.channels|
    ensures forall c :: c in RowCandidates(bank, l, n) <==>
              c.left == l && c.right < n && Eligible(bank, bank.groups[l], c.right) && c.cost == bank.Cost(l, c.right)
    ensures Certificates.NoRepeats(RowCandidates(bank, l, n))
    decreases n
  {
    if n > 0 {
      RowListed(bank, l, n - 1);
      var last := Certificates.Candidate(n - 1, l, bank.Cost(l, n - 1));
      Certificates.RepeatedLast(RowCandidates(bank, l, n - 1), last);
    }
  }

  lemma NoRepeatsConcat(a: seq<Certificates.Candidate>, b: seq<Certificates.Candidate>)
    requires Certificates.NoRepeats(a) && Certificates.NoRepeats(b)
    requires forall c, d :: c in a && d in b ==> c.left != d.left
    ensures Certificates.NoRepeats(a + b)
  {
    forall i, j | 0 <= i < j < |a + b|
      ensures (a + b)[i].right != (a + b)[j].right || (a + b)[i].left != (a + b)[j].left
    {
      if i < |a| <= j {
        assert a[i] in a && b[j - |a|] in b;
      }
    }
  }

  lemma {:induction false} AllListed(bank: Bank, m: nat)
    requires bank.Valid() && m <= |bank.groups|
    ensures forall c :: c in AllCandidates(bank, m) <==>
              c.left < m && c.right < |bank.channels| && Eligible(bank, bank.groups[c.left], c.right)
              && c.cost == bank.Cost(c.left, c.right)
    ensures Certificates.NoRepeats(AllCandidates(bank, m))
    decreases m
  {
    if m > 0 {
      AllListed(bank, m - 1);
      RowListed(bank, m - 1, |bank.channels|);
      NoRepeatsConcat(AllCandidates(bank, m - 1), RowCandidates(bank, m - 1, |bank.channels|));
    }
  }

  lemma ExpansionExpands(bank: Bank)
    requires bank.Valid()
    ensures Expands(bank, Expansion(bank)) && Expansion(bank).Valid()
  {
    AllListed(bank, |bank.groups|);
  }

  // ---------------------------------------------------------------------------
  // The check
  // ---------------------------------------------------------------------------

  /** Checks every claim, counts channel use and files the groups by class. */
  method CheckClaims(bank: Bank, counts: (nat, nat, nat), dedicated: Option<nat>, claims: Claims, potentials: seq<int>)
    returns (failure: Option<Certificates.Verdict>, used: seq<nat>, total: int, classes: map<ClassKey, seq<nat>>)
    requires bank.Valid() && Sized(bank, potentials) && Complete(bank, claims)
    requires counts == Counts(bank) && dedicated == Dedicated(counts, Common(bank.groups))
    ensures failure.Some? ==> !failure.value.Accepted?
    ensures failure.Some? <==> exists l: nat :: l < |bank.groups| && !ClaimHolds(bank, claims, potentials, l)
    ensures failure.None? ==>
              && UsesCounted(bank, claims, |bank.groups|, used)
              && total == Certificates.ClaimedCost(claims, |bank.groups|)
              && Filed(ClassKeys(bank, potentials), |bank.groups|, classes)
  {
    used, total, classes, failure := seq(|bank.channels|, _ => 0), 0, map[], None;
    for left := 0 to |bank.groups|
      invariant failure.None?
      invariant forall l: nat :: l < left ==> ClaimHolds(bank, claims, potentials, l)
      invariant UsesCounted(bank, claims, left, used) && total == Certificates.ClaimedCost(claims, left)
      invariant Filed(ClassKeys(bank, potentials), left, classes)
    {
      var claim := claims[left];
      var ok := CheckClaim(bank, counts, dedicated, claims, potentials, left);
      if !ok {
        return Some(Certificates.MissingOrWrongCost), used, total, classes;
      }
      used := used[claim.right := used[claim.right] + 1];
      total := total + claim.cost;
      FileNext(ClassKeys(bank, potentials), left, classes);
      var key := ClassOf(bank, potentials, left);
      classes := classes[key := (if key in classes then classes[key] else []) + [left]];
    }
  }

  ghost predicate UsesCounted(bank: Bank, claims: Claims, n: nat, used: seq<nat>) {
    |used| == |bank.channels| && forall r :: 0 <= r < |used| ==> used[r] == Certificates.Uses(claims, n, r)
  }

  method CheckClaim(bank: Bank, counts: (nat, nat, nat), dedicated: Option<nat>, claims: Claims, potentials: seq<int>,
                    left: nat)
    returns (ok: bool)
    requires bank.Valid() && Sized(bank, potentials) && left < |bank.groups| && left in claims
    requires counts == Counts(bank) && dedicated == Dedicated(counts, Common(bank.groups))
    ensures ok <==> ClaimHolds(bank, claims, potentials, left)
  {
    var right, cost := claims[left].right, claims[left].cost;
    if right < 0 || right >= |bank.channels| {
      return false;
    }
    if !EligibleUnder(counts, dedicated, bank.priority, bank.groups[left], right) {
      return false;
    }
    if cost != bank.Cost(left, right) {
      return false;
    }
    ok := -cost + potentials[1 + |bank.channels| + left] - potentials[1 + right] >= 0;
  }

  lemma {:induction false} UsedTwice(claims: Claims, n: nat, l: nat, l': nat)
    requires l < l' < n && l in claims && l' in claims && claims[l].right == claims[l'].right
    ensures Certificates.Uses(claims, n, claims[l].right) >= 2
    decreases n
  {
    if l' < n - 1 {
      UsedTwice(claims, n - 1, l, l');
    } else {
      UsedOnce(claims, n - 1, l);
    }
  }

  lemma {:induction false} UsedOnce(claims: Claims, n: nat, l: nat)
    requires l < n && l in claims
    ensures Certificates.Uses(claims, n, claims[l].right) >= 1
    decreases n
  {
    if l < n - 1 {
      UsedOnce(claims, n - 1, l);
    }
  }

  /** Channels used at most once are used by different groups. */
  lemma SingleUse(bank: Bank, claims: Claims)
    requires Complete(bank, claims)
    requires forall l :: l in claims ==> 0 <= claims[l].right < |bank.channels|
    requires forall r :: 0 <= r < |bank.channels| ==> Certificates.Uses(claims, |bank.groups|, r) <= 1
    ensures Injective(claims)
  {
    forall l, l' | l in claims && l' in claims && claims[l].right == claims[l'].right ensures l == l' {
      if l < l' {
        UsedTwice(claims, |bank.groups|, l, l');
      } else if l' < l {
        UsedTwice(claims, |bank.groups|, l', l);
      }
    }
  }

  method CheckClass(bank: Bank, counts: (nat, nat, nat), dedicated: Option<nat>, claims: Claims, potentials: seq<int>,
                    members: seq<nat>)
    returns (ok: bool)
    requires bank.Valid() && Sized(bank, potentials) && members != []
    requires members[0] in claims && members[0] < |bank.groups|
    requires counts == Counts(bank) && dedicated == Dedicated(counts, Common(bank.groups))
    ensures ok <==> ClassHolds(bank, claims, potentials, members)
  {
    var first := members[0];
    var selected := if |members| == 1 then claims[first].right else -1;
    for right := 0 to |bank.channels|
      invariant forall r: nat | r < right && Eligible(bank, bank.groups[first], r) ::
                  !(|members| == 1 && claims[first].right == r) ==> RowHolds(bank, potentials, first, r)
    {
      if EligibleUnder(counts, dedicated, bank.priority, bank.groups[first], right) && right != selected {
        if bank.Cost(first, right) + potentials[1 + right] - potentials[1 + |bank.channels| + first] < 0 {
          assert !RowHolds(bank, potentials, first, right);
          return false;
        }
      }
    }
    ok := true;
  }

  method CheckClasses(bank: Bank, counts: (nat, nat, nat), dedicated: Option<nat>, claims: Claims, potentials: seq<int>,
                      classes: map<ClassKey, seq<nat>>)
    returns (ok: bool)
    requires bank.Valid() && Sized(bank, potentials) && Complete(bank, claims) && Injective(claims)
    requires counts == Counts(bank) && dedicated == Dedicated(counts, Common(bank.groups))
    requires Filed(ClassKeys(bank, potentials), |bank.groups|, classes)
    ensures ok <==> UnselectedHold(bank, claims, potentials, claims.Keys)
  {
    var rest := classes.Keys;
    ghost var checked: set<nat> := {};
    while rest != {}
      invariant rest <= classes.Keys
      invariant checked == set l | l in claims.Keys && l < |bank.groups| && ClassOf(bank, potentials, l) !in rest
      invariant UnselectedHold(bank, claims, potentials, checked)
      decreases rest
    {
      var key :| key in rest;
      var members := classes[key];
      ClassMembers(bank, claims, potentials, classes, key);
      var holds := CheckClass(bank, counts, dedicated, claims, potentials, members);
      ClassIsRows(bank, claims, potentials, key, members);
      UnselectedShrinks(bank, claims, potentials, (set l | l in members), claims.Keys);
      if !holds {
        return false;
      }
      rest := rest - {key};
      checked := checked + set l | l in members;
    }
    ok := true;
    assert checked == claims.Keys;
  }

  lemma UnselectedShrinks(bank: Bank, claims: Claims, potentials: seq<int>, members: set<nat>, all: set<nat>)
    requires bank.Valid() && Sized(bank, potentials) && members <= all
    ensures UnselectedHold(bank, claims, potentials, all) ==> UnselectedHold(bank, claims, potentials, members)
  {
  }

  lemma ClassMembers(bank: Bank, claims: Claims, potentials: seq<int>, classes: map<ClassKey, seq<nat>>, key: ClassKey)
    requires Sized(bank, potentials) && Complete(bank, claims) && key in classes
    requires Filed(ClassKeys(bank, potentials), |bank.groups|, classes)
    ensures classes[key] != [] && Ascending(classes[key])
    ensures forall l: nat :: l in classes[key] <==> l < |bank.groups| && ClassOf(bank, potentials, l) == key
    ensures forall l :: l in classes[key] ==> l < |bank.groups| && l in claims && ClassOf(bank, potentials, l) == key
  {
  }

  method WithinOneUse(bank: Bank, ghost claims: Claims, used: seq<nat>) returns (ok: bool)
    requires UsesCounted(bank, claims, |bank.groups|, used)
    ensures ok <==> forall r :: 0 <= r < |bank.channels| ==> Certificates.Uses(claims, |bank.groups|, r) <= 1
  {
    for r := 0 to |used|
      invariant forall k :: 0 <= k < r ==> Certificates.Uses(claims, |bank.groups|, k) <= 1
    {
      if used[r] > 1 {
        assert Certificates.Uses(claims, |bank.groups|, r) > 1;
        return false;
      }
    }
    ok := true;
  }

  method CheckChannels(bank: Bank, ghost claims: Claims, potentials: seq<int>, used: seq<nat>) returns (ok: bool)
    requires Sized(bank, potentials) && UsesCounted(bank, claims, |bank.groups|, used)
    requires forall r :: 0 <= r < |bank.channels| ==> Certificates.Uses(claims, |bank.groups|, r) <= 1
    ensures ok <==> forall r: nat :: r < |bank.channels| ==> ChannelHolds(bank, claims, potentials, r)
  {
    for r := 0 to |used|
      invariant forall k: nat :: k < r ==> ChannelHolds(bank, claims, potentials, k)
    {
      var (start, end) := if used[r] > 0 then (1 + r, 0) else (0, 1 + r);
      if potentials[start] - potentials[end] < 0 {
        assert !ChannelHolds(bank, claims, potentials, r);
        return false;
      }
    }
    ok := true;
  }

  method CheckGroups(bank: Bank, potentials: seq<int>) returns (ok: bool)
    requires Sized(bank, potentials)
    ensures ok <==> forall l: nat :: l < |bank.groups| ==> GroupHolds(bank, potentials, l)
  {
    for l := 0 to |bank.groups|
      invariant forall k: nat :: k < l ==> GroupHolds(bank, potentials, k)
    {
      if potentials[1 + |bank.channels| + |bank.groups|] - potentials[1 + |bank.channels| + l] < 0 {
        assert !GroupHolds(bank, potentials, l);
        return false;
      }
    }
    ok := true;
  }

  /** Accepts exactly what the check of the expanded problem accepts. */
  method VerifyStage2Certificate(bank: Bank, claims: Claims, potentials: seq<int>, expectedTotal: int)
    returns (verdict: Certificates.Verdict)
    requires bank.Valid()
    ensures verdict.Accepted? <==> Certificates.Certified(Expansion(bank), claims, potentials, expectedTotal)
  {
    ExpansionExpands(bank);
    CompressedIsCertified(bank, Expansion(bank), claims, potentials, expectedTotal);
    Certificates.CoversRange(Expansion(bank), claims);
    if |potentials| != 2 + |bank.channels| + |bank.groups| || claims.Keys != Below(|bank.groups|) {
      return Certificates.InvalidDimensions;
    }
    verdict := CheckSized(bank, claims, potentials, expectedTotal);
  }

  method CheckSized(bank: Bank, claims: Claims, potentials: seq<int>, expectedTotal: int)
    returns (verdict: Certificates.Verdict)
    requires bank.Valid() && Sized(bank, potentials) && Complete(bank, claims)
    ensures verdict.Accepted? <==> Compressed(bank, claims, potentials, expectedTotal)
  {
    var counts, common := CountDirections(bank.groups);
    var dedicated := Dedicated(counts, common);
    var failure, used, total, classes := CheckClaims(bank, counts, dedicated, claims, potentials);
    if failure.Some? {
      return failure.value;
    }
    var single := WithinOneUse(bank, claims, used);
    if total != expectedTotal || !single {
      if !single {
        ghost var r :| 0 <= r < |bank.channels| && Certificates.Uses(claims, |bank.groups|, r) > 1;
        assert !ChannelHolds(bank, claims, potentials, r);
      }
      return Certificates.InvalidPrimal;
    }
    SingleUse(bank, claims) by {
      forall l | l in claims ensures 0 <= claims[l].right < |bank.channels| {
        assert ClaimHolds(bank, claims, potentials, l);
      }
    }
    var channels := CheckChannels(bank, claims, potentials, used);
    var lefts := CheckGroups(bank, potentials);
    var rows := CheckClasses(bank, counts, dedicated, claims, potentials, classes);
    verdict := if channels && lefts && rows then Certificates.Accepted else Certificates.NegativeReducedCost;
  }
}
