// What an accepted bank and channel assignment says about the design itself: which channels carry
// which groups at which cost, and that no other assignment is cheaper.
module BankOutcome {
  import opened FiniteSums
  import opened Sequences
  import opened Wrappers
  import opened ChannelCosts
  import opened ChannelCertificates
  import opened BankChannels
  import Certificates

  /** The groups an answer puts on a bank. */
  ghost function OfBank(design: Design, answer: Answer, b: nat): set<nat> {
    set g: nat | g < |design.groups| && g in answer.bankClaims && answer.bankClaims[g].right == b
  }

  ghost predicate InDesign(design: Design, members: set<nat>) { forall g :: g in members ==> g < |design.groups| }

  /** The TDM groups of a direction. */
  ghost function Ways(design: Design, members: set<nat>, direction: nat): set<nat>
    requires InDesign(design, members)
  {
    set g | g in members && design.groups[g].kind == 0 && design.groups[g].direction == direction
  }

  ghost predicate OneWay(design: Design, members: set<nat>, direction: nat)
    requires InDesign(design, members)
  {
    forall g :: g in members ==> design.groups[g].kind == 0 && design.groups[g].direction == direction
  }

  /** Channel `r` of a bank with these groups may carry group `g`: any channel if all are TDM groups of one
      direction, otherwise a channel of the block of its direction, and common signals take the rest. */
  ghost predicate Serves(design: Design, members: set<nat>, priority: nat, r: nat, g: nat)
    requires InDesign(design, members) && g in members && priority <= 1
  {
    HasOneWay(design, members) || InBlock(design, members, priority, r, g)
  }

  ghost predicate HasOneWay(design: Design, members: set<nat>)
    requires InDesign(design, members)
  {
    OneWay(design, members, 0) || OneWay(design, members, 1) || OneWay(design, members, 2)
  }

  ghost predicate InBlock(design: Design, members: set<nat>, priority: nat, r: nat, g: nat)
    requires InDesign(design, members) && g in members && priority <= 1
  {
    var first, second := |Ways(design, members, priority)|, |Ways(design, members, 1 - priority)|;
    var both := |Ways(design, members, 2)|;
    if design.groups[g].kind != 0 then first + second + both <= r
    else if design.groups[g].direction == priority then r < first
    else if design.groups[g].direction == 1 - priority then first <= r < first + second
    else first + second <= r < first + second + both
  }

  // ---------------------------------------------------------------------------
  // Eligible channels
  // ---------------------------------------------------------------------------

  ghost predicate Listing(design: Design, groups: seq<nat>) {
    Distinct(groups) && forall g :: g in groups ==> g < |design.groups|
  }

  ghost function Selection(design: Design, groups: seq<nat>): seq<Group>
    requires forall g :: g in groups ==> g < |design.groups|
  {
    seq(|groups|, l requires 0 <= l < |groups| => (assert groups[l] in groups; design.groups[groups[l]]))
  }

  lemma ListingInit(design: Design, groups: seq<nat>)
    requires Listing(design, groups) && groups != []
    ensures var last := |groups| - 1;
            && Listing(design, groups[..last]) && groups[last] < |design.groups| && groups[last] !in groups[..last]
            && Elements(groups) == Elements(groups[..last]) + {groups[last]}
            && |Selection(design, groups)| == |groups|
            && Selection(design, groups)[..last] == Selection(design, groups[..last])
            && Selection(design, groups)[last] == design.groups[groups[last]]
  {
    var last := |groups| - 1;
    SplitLast(groups);
    assert groups[last] in groups;
    forall g | g in groups[..last] ensures g < |design.groups| {
      assert g in groups;
    }
  }

  lemma NextWay(design: Design, before: set<nat>, g: nat, direction: nat)
    requires InDesign(design, before) && g < |design.groups| && g !in before
    ensures InDesign(design, before + {g})
    ensures |Ways(design, before + {g}, direction)| ==
            |Ways(design, before, direction)|
            + if design.groups[g].kind == 0 && design.groups[g].direction == direction then 1 else 0
  {
    if design.groups[g].kind == 0 && design.groups[g].direction == direction {
      assert Ways(design, before + {g}, direction) == Ways(design, before, direction) + {g};
    } else {
      assert Ways(design, before + {g}, direction) == Ways(design, before, direction);
    }
  }

  lemma {:induction false} WaysCounted(design: Design, groups: seq<nat>, direction: nat)
    requires Listing(design, groups)
    ensures InDesign(design, Elements(groups))
    ensures Directed(Selection(design, groups), direction) == |Ways(design, Elements(groups), direction)|
  {
    if groups != [] {
      var last := |groups| - 1;
      ListingInit(design, groups);
      WaysCounted(design, groups[..last], direction);
      NextWay(design, Elements(groups[..last]), groups[last], direction);
    } else {
      assert Ways(design, Elements(groups), direction) == {};
    }
  }

  lemma {:induction false} CommonCounted(design: Design, groups: seq<nat>)
    requires Listing(design, groups)
    ensures Common(Selection(design, groups)) == 0 <==> forall g :: g in groups ==> design.groups[g].kind == 0
  {
    if groups != [] {
      var last := |groups| - 1;
      ListingInit(design, groups);
      CommonCounted(design, groups[..last]);
      SplitLast(groups);
    }
  }

  lemma DedicatedIff(design: Design, groups: seq<nat>)
    requires design.Valid() && Listing(design, groups) && groups != []
    ensures InDesign(design, Elements(groups))
    ensures var listed := Selection(design, groups);
            var counts := (Directed(listed, 0), Directed(listed, 1), Directed(listed, 2));
            Dedicated(counts, Common(listed)) ==
            if OneWay(design, Elements(groups), 0) then Some(0)
            else if OneWay(design, Elements(groups), 1) then Some(1)
            else if OneWay(design, Elements(groups), 2) then Some(2) else None
  {
    var members := Elements(groups);
    assert groups[0] in members;
    forall direction: nat | direction <= 2
      ensures InDesign(design, members)
      ensures Directed(Selection(design, groups), direction) == |Ways(design, members, direction)|
      ensures OneWay(design, members, direction) ==> groups[0] in Ways(design, members, direction)
    {
      WaysCounted(design, groups, direction);
    }
    CommonCounted(design, groups);
    OneWayIff(design, members, groups[0]);
  }

  /** The groups are of one direction exactly if no common signal and no other direction is among them. */
  lemma OneWayIff(design: Design, members: set<nat>, some: nat)
    requires design.Valid() && InDesign(design, members) && some in members
    ensures var plain := forall g :: g in members ==> design.groups[g].kind == 0;
            var n, m, k := |Ways(design, members, 0)|, |Ways(design, members, 1)|, |Ways(design, members, 2)|;
            && (OneWay(design, members, 0) <==> plain && n > 0 && m == 0 && k == 0)
            && (OneWay(design, members, 1) <==> plain && n == 0 && m > 0 && k == 0)
            && (OneWay(design, members, 2) <==> plain && n == 0 && m == 0 && k > 0)
  {
    forall g | g in members && design.groups[g].kind == 0
      ensures g in Ways(design, members, 0) || g in Ways(design, members, 1) || g in Ways(design, members, 2)
    {
      assert design.groups[g] in design.groups;
    }
    OneWayEmpty(design, members, 0, some);
    OneWayEmpty(design, members, 1, some);
    OneWayEmpty(design, members, 2, some);
  }

  lemma OneWayEmpty(design: Design, members: set<nat>, direction: nat, some: nat)
    requires InDesign(design, members) && some in members && direction <= 2
    ensures OneWay(design, members, direction) ==>
              some in Ways(design, members, direction)
              && forall other: nat :: other != direction ==> Ways(design, members, other) == {}
  {
  }

  /** The eligible channels of a bank, in terms of the groups on it. */
  lemma EligibleIffServes(design: Design, groups: seq<nat>, bank: Bank, l: nat, r: nat)
    requires design.Valid() && Listing(design, groups) && l < |groups| && groups[l] < |design.groups|
    requires bank.Valid() && bank.groups == Selection(design, groups)
    ensures InDesign(design, Elements(groups)) && groups[l] in Elements(groups)
    ensures Eligible(bank, bank.groups[l], r) <==> Serves(design, Elements(groups), bank.priority, r, groups[l])
  {
    WaysCounted(design, groups, 0);
    WaysCounted(design, groups, 1);
    WaysCounted(design, groups, 2);
    DedicatedIff(design, groups);
    assert groups[l] in Elements(groups) && bank.groups[l] == design.groups[groups[l]];
    assert design.groups[groups[l]] in design.groups;
  }

  // ---------------------------------------------------------------------------
  // What is claimed
  // ---------------------------------------------------------------------------

  /** A cost is the group's cost at the two ends on the design's scale, to the nearest. */
  ghost predicate CostsAt(design: Design, g: nat, a: Point, b: Point, cost: int)
    requires design.Valid() && g < |design.groups|
  {
    assert design.groups[g] in design.groups;
    cost as real - 0.5 <= design.scale as real * RawCost(design.groups[g].members, a, b) < cost as real + 0.5
  }

  lemma CostIsNearest(design: Design, g: nat, a: Point, b: Point, cost: int)
    requires design.Valid() && g < |design.groups| && ValidGroup(design.groups[g])
    ensures CostsAt(design, g, a, b, cost) <==> cost == CandidateCost(design.groups[g], a, b, design.scale)
  {
    assert design.groups[g] in design.groups;
    CostToTheNearest(design.groups[g], a, b, design.scale);
    OneNearest(design.scale as real * RawCost(design.groups[g].members, a, b), cost,
               CandidateCost(design.groups[g], a, b, design.scale));
  }

  lemma OneNearest(x: real, m: int, n: int)
    requires n as real - 0.5 <= x < n as real + 0.5
    ensures m as real - 0.5 <= x < m as real + 0.5 <==> m == n
  {
  }

  /** Every group is on a bank of its domain at its cost there. */
  lemma AcceptedBank(design: Design, answer: Answer, g: nat) returns (b: nat)
    requires design.Valid() && Acceptable(design, answer) && g < |design.groups|
    ensures g in answer.bankClaims && answer.bankClaims[g].right == b < |design.banks| && g in OfBank(design, answer, b)
    ensures design.banks[b].domain == design.groups[g].domain
    ensures CostsAt(design, g, design.banks[b].a, design.banks[b].b, answer.bankClaims[g].cost)
  {
    Stage1ProblemFits(design);
    b := BankOf(design, answer, g);
    var p := Stage1Problem(design);
    assert Certificates.Candidate(b, g, answer.bankClaims[g].cost) in p.candidates;
    assert design.groups[g] in design.groups;
    CostIsNearest(design, g, design.banks[b].a, design.banks[b].b, answer.bankClaims[g].cost);
  }

  lemma BankListing(design: Design, answer: Answer, b: nat)
    ensures Listing(design, BankGroups(design, answer, b))
    ensures Elements(BankGroups(design, answer, b)) == OfBank(design, answer, b)
    ensures BankGroups(design, answer, b) == [] <==> OfBank(design, answer, b) == {}
  {
    GroupsOfMeans(answer.bankClaims, |design.groups|, b);
    var groups := BankGroups(design, answer, b);
    assert forall g :: g in groups <==> g in OfBank(design, answer, b);
    if groups != [] {
      assert groups[0] in OfBank(design, answer, b);
    }
  }

  /** The priorities of a bank in use are both answered, and its certificate comes with the answer's own potentials. */
  lemma BothAnswered(design: Design, answer: Answer, b: nat, priority: nat)
    requires design.Valid() && Acceptable(design, answer) && b < |design.banks| && OfBank(design, answer, b) != {}
    requires priority <= 1
    ensures AlternativeHolds(design, answer, b, BankGroups(design, answer, b), priority)
    ensures (b, priority) in answer.alternatives && (b, priority) in answer.potentials
    ensures answer.alternatives[(b, priority)].claims.Keys == OfBank(design, answer, b)
  {
    BankListing(design, answer, b);
    assert BankHolds(design, answer, b);
    var groups := BankGroups(design, answer, b);
    BothHold(design, answer, b, groups, priority);
    AlternativeAnswered(design, answer, b, groups, priority);
  }

  lemma AlternativeAnswered(design: Design, answer: Answer, b: nat, groups: seq<nat>, priority: nat)
    requires design.Valid() && b < |design.banks| && priority <= 1
    requires AlternativeHolds(design, answer, b, groups, priority)
    ensures (b, priority) in answer.alternatives && (b, priority) in answer.potentials
    ensures answer.alternatives[(b, priority)].claims.Keys == Elements(groups)
  {
    assert forall g :: g in answer.alternatives[(b, priority)].claims.Keys <==> g in Elements(groups);
  }

  /** The certificate behind one priority's answer, with the potentials the answer gives for it. */
  lemma CertifiedByAnswer(design: Design, answer: Answer, b: nat, priority: nat)
    requires design.Valid() && Acceptable(design, answer) && b < |design.banks| && OfBank(design, answer, b) != {}
    requires priority <= 1
    ensures (b, priority) in answer.alternatives && (b, priority) in answer.potentials
    ensures var groups := BankGroups(design, answer, b);
            && (forall g :: g in groups ==> g < |design.groups| && g in answer.alternatives[(b, priority)].claims)
            && var bank := LocalBank(design, b, groups, priority);
               && bank.Valid()
               && Certificates.Certified(Expansion(bank),
                                         LocalClaims(bank.channels, groups, answer.alternatives[(b, priority)].claims),
                                         answer.potentials[(b, priority)], answer.alternatives[(b, priority)].cost)
  {
    BothAnswered(design, answer, b, priority);
  }

  /** Under either priority, every group of a bank is claimed for one of its channels that serves it, at its cost. */
  lemma AcceptedChannel(design: Design, answer: Answer, b: nat, priority: nat, g: nat) returns (r: nat)
    requires design.Valid() && Acceptable(design, answer) && b < |design.banks| && g in OfBank(design, answer, b)
    requires priority <= 1
    ensures (b, priority) in answer.alternatives && g in answer.alternatives[(b, priority)].claims
    ensures var claim := answer.alternatives[(b, priority)].claims[g];
            && r < |design.banks[b].channels| && design.banks[b].channels[r].index == claim.right
            && Serves(design, OfBank(design, answer, b), priority, r, g)
            && CostsAt(design, g, design.banks[b].channels[r].pinA, design.banks[b].channels[r].pinB, claim.cost)
  {
    BankListing(design, answer, b);
    BothAnswered(design, answer, b, priority);
    assert g in BankGroups(design, answer, b);
    r := AlternativeChannel(design, answer, b, BankGroups(design, answer, b), priority, g);
  }

  lemma AlternativeChannel(design: Design, answer: Answer, b: nat, groups: seq<nat>, priority: nat, g: nat)
    returns (r: nat)
    requires design.Valid() && b < |design.banks| && Listing(design, groups) && g in groups && priority <= 1
    requires AlternativeHolds(design, answer, b, groups, priority)
    ensures InDesign(design, Elements(groups)) && g in Elements(groups)
    ensures (b, priority) in answer.alternatives && g in answer.alternatives[(b, priority)].claims
    ensures var claim := answer.alternatives[(b, priority)].claims[g];
            && r < |design.banks[b].channels| && design.banks[b].channels[r].index == claim.right
            && Serves(design, Elements(groups), priority, r, g)
            && CostsAt(design, g, design.banks[b].channels[r].pinA, design.banks[b].channels[r].pinB, claim.cost)
  {
    var l: nat :| l < |groups| && groups[l] == g;
    r := ClaimedChannel(design, answer, b, groups, priority, l);
    var bank := LocalBank(design, b, groups, priority);
    assert bank.groups == Selection(design, groups);
    EligibleIffServes(design, groups, bank, l, r);
    assert design.groups[g] in design.groups;
    CostIsNearest(design, g, bank.channels[r].pinA, bank.channels[r].pinB,
                  answer.alternatives[(b, priority)].claims[g].cost);
  }

  lemma ClaimedChannel(design: Design, answer: Answer, b: nat, groups: seq<nat>, priority: nat, l: nat) returns (r: nat)
    requires design.Valid() && b < |design.banks| && priority <= 1 && l < |groups|
    requires AlternativeHolds(design, answer, b, groups, priority)
    ensures groups[l] in groups && groups[l] < |design.groups|
    ensures groups[l] in answer.alternatives[(b, priority)].claims
    ensures r < |design.banks[b].channels|
    ensures var claim := answer.alternatives[(b, priority)].claims[groups[l]];
            var bank := LocalBank(design, b, groups, priority);
            && design.banks[b].channels[r].index == claim.right
            && bank.Valid() && Eligible(bank, bank.groups[l], r) && claim.cost == bank.Cost(l, r)
  {
    var bank := LocalBank(design, b, groups, priority);
    var claims := LocalClaims(bank.channels, groups, answer.alternatives[(b, priority)].claims);
    assert groups[l] in groups;
    ExpansionExpands(bank);
    assert l in claims && Certificates.Candidate(claims[l].right, l, claims[l].cost) in Expansion(bank).candidates;
    r := claims[l].right;
  }

  // ---------------------------------------------------------------------------
  // What is chosen
  // ---------------------------------------------------------------------------

  /** The chosen priority of a bank in use is the cheaper one, and the first if they cost the same. */
  lemma ChosenPriority(design: Design, answer: Answer, b: nat)
    requires design.Valid() && Acceptable(design, answer) && b < |design.banks| && OfBank(design, answer, b) != {}
    ensures (b, 0) in answer.alternatives && (b, 1) in answer.alternatives
    ensures b in answer.chosen
    ensures answer.chosen[b] == if answer.alternatives[(b, 1)].cost < answer.alternatives[(b, 0)].cost then 1 else 0
  {
    BankListing(design, answer, b);
    BothAnswered(design, answer, b, 0);
    BothAnswered(design, answer, b, 1);
    assert BankHolds(design, answer, b);
  }

  /** The outcome puts every group on the channel that the chosen priority of its bank claims. */
  lemma OutcomeChannel(design: Design, answer: Answer, channels: map<nat, int>, b: nat, g: nat)
    requires design.Valid() && Acceptable(design, answer) && Selected(design, answer, |design.banks|, channels)
    requires b < |design.banks| && g in OfBank(design, answer, b)
    ensures g in channels && b in answer.chosen && answer.chosen[b] >= 0 && (b, answer.chosen[b]) in answer.alternatives
    ensures g in answer.alternatives[(b, answer.chosen[b])].claims
    ensures channels[g] == answer.alternatives[(b, answer.chosen[b])].claims[g].right
  {
    ChosenPriority(design, answer, b);
    var priority := CheaperPriority(answer, b);
    BothAnswered(design, answer, b, priority);
    SelectedChannel(design, answer, channels, b, g, priority);
  }

  lemma SelectedChannel(design: Design, answer: Answer, channels: map<nat, int>, b: nat, g: nat, priority: nat)
    requires Selected(design, answer, |design.banks|, channels) && b < |design.banks| && g in OfBank(design, answer, b)
    requires priority == CheaperPriority(answer, b) && (b, priority) in answer.alternatives
    requires g in answer.alternatives[(b, priority)].claims
    ensures g in channels && channels[g] == answer.alternatives[(b, priority)].claims[g].right
  {
  }

  ghost function UsedBanks(design: Design, answer: Answer): set<nat> {
    set b: nat | b < |design.banks| && OfBank(design, answer, b) != {}
  }

  ghost function UsedBelow(design: Design, answer: Answer, n: nat): set<nat> {
    set b | b in UsedBanks(design, answer) && b < n
  }

  ghost function CheaperCost(answer: Answer): nat -> int {
    (b: nat) =>
      if (b, 0) in answer.alternatives && (b, 1) in answer.alternatives then
        if answer.alternatives[(b, 1)].cost < answer.alternatives[(b, 0)].cost then answer.alternatives[(b, 1)].cost
        else answer.alternatives[(b, 0)].cost
      else 0
  }

  ghost predicate AllAnswered(design: Design, answer: Answer) {
    forall b: nat :: b < |design.banks| && OfBank(design, answer, b) != {} ==>
      (b, 0) in answer.alternatives && (b, 1) in answer.alternatives
  }

  /** The reported cost of the second stage adds up the cheaper costs of the banks in use. */
  lemma Stage2AddsUp(design: Design, answer: Answer)
    requires design.Valid() && Acceptable(design, answer)
    ensures answer.stage2Cost == Sum<nat>(UsedBanks(design, answer), CheaperCost(answer))
  {
    forall b: nat | b < |design.banks| && OfBank(design, answer, b) != {}
      ensures (b, 0) in answer.alternatives && (b, 1) in answer.alternatives
    {
      ChosenPriority(design, answer, b);
    }
    Stage2UpTo(design, answer, |design.banks|);
    assert UsedBanks(design, answer) == UsedBelow(design, answer, |design.banks|);
  }

  lemma UsedNext(design: Design, answer: Answer, n: nat)
    requires 0 < n <= |design.banks|
    ensures if OfBank(design, answer, n - 1) == {} then UsedBelow(design, answer, n) == UsedBelow(design, answer, n - 1)
            else n - 1 in UsedBelow(design, answer, n)
                 && UsedBelow(design, answer, n) - {n - 1} == UsedBelow(design, answer, n - 1)
  {
  }

  lemma UsedSum(design: Design, answer: Answer, n: nat, cost: nat -> int)
    requires 0 < n <= |design.banks|
    ensures Sum<nat>(UsedBelow(design, answer, n), cost) ==
            Sum<nat>(UsedBelow(design, answer, n - 1), cost)
            + if OfBank(design, answer, n - 1) == {} then 0 else cost(n - 1)
  {
    UsedNext(design, answer, n);
    if OfBank(design, answer, n - 1) != {} {
      SumRemove<nat>(UsedBelow(design, answer, n), cost, n - 1);
    }
  }

  lemma Stage2Next(design: Design, answer: Answer, n: nat)
    requires AllAnswered(design, answer) && 0 < n <= |design.banks|
    ensures Stage2Total(design, answer, n) ==
            Stage2Total(design, answer, n - 1)
            + if OfBank(design, answer, n - 1) == {} then 0 else CheaperCost(answer)(n - 1)
  {
    BankListing(design, answer, n - 1);
  }

  lemma {:induction false} Stage2UpTo(design: Design, answer: Answer, n: nat)
    requires AllAnswered(design, answer) && n <= |design.banks|
    ensures Stage2Total(design, answer, n) == Sum<nat>(UsedBelow(design, answer, n), CheaperCost(answer))
  {
    if n > 0 {
      Stage2UpTo(design, answer, n - 1);
      Stage2Next(design, answer, n);
      UsedSum(design, answer, n, CheaperCost(answer));
    } else {
      assert UsedBelow(design, answer, 0) == {};
    }
  }

  // ---------------------------------------------------------------------------
  // Why nothing is cheaper
  // ---------------------------------------------------------------------------

  /** Claims listed one by one cost as much as the groups they stand for. */
  lemma {:induction false} ClaimsAddUp(groups: seq<nat>, claims: Claims, n: nat, cost: nat -> int)
    requires Distinct(groups) && n <= |groups|
    requires forall l: nat :: l < n ==> l in claims && claims[l].cost == cost(groups[l])
    ensures Certificates.ClaimedCost(claims, n) == Sum<nat>(Elements(groups[..n]), cost)
  {
    if n > 0 {
      ClaimsAddUp(groups, claims, n - 1, cost);
      TakeNext(groups, n - 1);
      assert groups[n - 1] !in groups[..n - 1];
      assert Elements(groups[..n]) - {groups[n - 1]} == Elements(groups[..n - 1]);
      SumRemove<nat>(Elements(groups[..n]), cost, groups[n - 1]);
    } else {
      assert Elements(groups[..0]) == {};
    }
  }

  lemma AllClaimsAddUp(groups: seq<nat>, claims: Claims, cost: nat -> int)
    requires Distinct(groups)
    requires forall l: nat :: l < |groups| ==> l in claims && claims[l].cost == cost(groups[l])
    ensures Certificates.ClaimedCost(claims, |groups|) == Sum<nat>(Elements(groups), cost)
  {
    ClaimsAddUp(groups, claims, |groups|, cost);
    assert groups[..|groups|] == groups;
  }

  ghost function Claimants(claims: Claims, n: nat, r: int): set<nat> {
    set l: nat | l < n && l in claims && claims[l].right == r
  }

  lemma {:induction false} UsesCounted(claims: Claims, n: nat, r: int)
    ensures Certificates.Uses(claims, n, r) == |Claimants(claims, n, r)|
  {
    if n > 0 {
      UsesCounted(claims, n - 1, r);
      if n - 1 in claims && claims[n - 1].right == r {
        assert Claimants(claims, n, r) == Claimants(claims, n - 1, r) + {n - 1};
      } else {
        assert Claimants(claims, n, r) == Claimants(claims, n - 1, r);
      }
    } else {
      assert Claimants(claims, 0, r) == {};
    }
  }

  lemma AtMostOne(s: set<nat>)
    requires forall x, y :: x in s && y in s ==> x == y
    ensures |s| <= 1
  {
    if s != {} {
      var x :| x in s;
      assert s == {x};
    }
  }

  /** The claims of one priority add up to the cost reported for it. */
  lemma AlternativeAddsUp(design: Design, answer: Answer, b: nat, priority: nat)
    requires design.Valid() && Acceptable(design, answer) && b < |design.banks| && OfBank(design, answer, b) != {}
    requires priority <= 1
    ensures (b, priority) in answer.alternatives
    ensures answer.alternatives[(b, priority)].cost ==
            Sum<nat>(OfBank(design, answer, b), ClaimCost(answer.alternatives[(b, priority)].claims))
  {
    var groups := BankGroups(design, answer, b);
    BankListing(design, answer, b);
    CertifiedByAnswer(design, answer, b, priority);
    var claims := answer.alternatives[(b, priority)].claims;
    LocalAddsUp(design.banks[b].channels, groups, claims);
  }

  ghost function ClaimCost(claims: Claims): nat -> int { (g: nat) => if g in claims then claims[g].cost else 0 }

  lemma LocalAddsUp(channels: seq<Channel>, groups: seq<nat>, claims: Claims)
    requires Distinct(groups) && forall g :: g in groups ==> g in claims
    ensures Certificates.ClaimedCost(LocalClaims(channels, groups, claims), |groups|) ==
            Sum<nat>(Elements(groups), ClaimCost(claims))
  {
    var local := LocalClaims(channels, groups, claims);
    forall l: nat | l < |groups| ensures l in local && local[l].cost == ClaimCost(claims)(groups[l]) {
      assert groups[l] in groups;
    }
    AllClaimsAddUp(groups, local, ClaimCost(claims));
  }

  /** Different channels of the bank for its groups, each serving its group. */
  ghost predicate Assigns(design: Design, b: nat, members: set<nat>, priority: nat, place: map<nat, nat>)
    requires b < |design.banks| && InDesign(design, members) && priority <= 1
  {
    && place.Keys == members
    && (forall g ::
        g in place ==> place[g] < |design.banks[b].channels| && Serves(design, members, priority, place[g], g))
    && (forall g, h :: g in place && h in place && place[g] == place[h] ==> g == h)
  }

  ghost function PlacedCost(design: Design, b: nat, place: map<nat, nat>): nat -> int
    requires design.Valid() && b < |design.banks|
  {
    (g: nat) =>
      if g < |design.groups| && g in place && place[g] < |design.banks[b].channels| then
        assert design.groups[g] in design.groups;
        CandidateCost(design.groups[g], design.banks[b].channels[place[g]].pinA,
                      design.banks[b].channels[place[g]].pinB,
                      design.scale)
      else 0
  }

  ghost function ClaimsOf(design: Design, b: nat, groups: seq<nat>, place: map<nat, nat>): Claims
    requires design.Valid() && b < |design.banks| && Elements(groups) <= place.Keys
  {
    map l: nat | l < |groups| ::
      (assert groups[l] in Elements(groups);
       Certificates.Claim(place[groups[l]], PlacedCost(design, b, place)(groups[l])))
  }

  lemma ClaimsOfAddUp(design: Design, b: nat, groups: seq<nat>, place: map<nat, nat>)
    requires design.Valid() && b < |design.banks| && Elements(groups) <= place.Keys && Distinct(groups)
    ensures Certificates.ClaimedCost(ClaimsOf(design, b, groups, place), |groups|) ==
            Sum<nat>(Elements(groups), PlacedCost(design, b, place))
  {
    AllClaimsAddUp(groups, ClaimsOf(design, b, groups, place), PlacedCost(design, b, place));
  }

  lemma LocalIsValid(design: Design, b: nat, groups: seq<nat>, priority: nat)
    requires design.Valid() && b < |design.banks| && Listing(design, groups) && priority <= 1
    ensures LocalBank(design, b, groups, priority).Valid()
    ensures LocalBank(design, b, groups, priority).groups == Selection(design, groups)
  {
    var bank := LocalBank(design, b, groups, priority);
    forall l | 0 <= l < |bank.groups| ensures ValidGroup(bank.groups[l]) {
      assert groups[l] in groups && design.groups[groups[l]] in design.groups;
    }
  }

  lemma ClaimsOnce(design: Design, b: nat, groups: seq<nat>, place: map<nat, nat>, r: int)
    requires design.Valid() && b < |design.banks| && Elements(groups) <= place.Keys && Distinct(groups)
    requires forall g, h :: g in place && h in place && place[g] == place[h] ==> g == h
    ensures Certificates.Uses(ClaimsOf(design, b, groups, place), |groups|, r) <= 1
  {
    var claims := ClaimsOf(design, b, groups, place);
    UsesCounted(claims, |groups|, r);
    forall l, m | l in Claimants(claims, |groups|, r) && m in Claimants(claims, |groups|, r) ensures l == m {
      assert groups[l] in Elements(groups) && groups[m] in Elements(groups);
    }
    AtMostOne(Claimants(claims, |groups|, r));
  }

  lemma FeasibleOnBank(bank: Bank, claims: Claims)
    requires bank.Valid() && Complete(bank, claims)
    requires forall l: nat :: l < |bank.groups| ==> ClaimServes(bank, claims, l)
    requires forall r :: Certificates.Uses(claims, |bank.groups|, r) <= 1
    ensures Certificates.Feasible(Expansion(bank), claims)
  {
    var p := Expansion(bank);
    ExpansionExpands(bank);
    forall l: nat | l < |bank.groups|
      ensures claims[l].right >= 0 && Certificates.Candidate(claims[l].right, l, claims[l].cost) in p.candidates
    {
      assert ClaimServes(bank, claims, l);
    }
  }

  ghost predicate ClaimServes(bank: Bank, claims: Claims, l: nat)
    requires bank.Valid() && l < |bank.groups|
  {
    && l in claims && 0 <= claims[l].right < |bank.channels|
    && Eligible(bank, bank.groups[l], claims[l].right) && claims[l].cost == bank.Cost(l, claims[l].right)
  }

  lemma ClaimsFeasible(design: Design, b: nat, groups: seq<nat>, priority: nat, place: map<nat, nat>)
    requires design.Valid() && b < |design.banks| && Listing(design, groups) && priority <= 1
    requires InDesign(design, Elements(groups)) && Assigns(design, b, Elements(groups), priority, place)
    requires LocalBank(design, b, groups, priority).Valid()
    ensures Certificates.Feasible(Expansion(LocalBank(design, b, groups, priority)), ClaimsOf(design, b, groups, place))
  {
    var bank, claims := LocalBank(design, b, groups, priority), ClaimsOf(design, b, groups, place);
    forall l: nat | l < |bank.groups| ensures ClaimServes(bank, claims, l) {
      ListedClaim(design, b, groups, priority, place, l);
    }
    forall r ensures Certificates.Uses(claims, |bank.groups|, r) <= 1 {
      ClaimsOnce(design, b, groups, place, r);
    }
    FeasibleOnBank(bank, claims);
  }

  lemma ListedClaim(design: Design, b: nat, groups: seq<nat>, priority: nat, place: map<nat, nat>, l: nat)
    requires design.Valid() && b < |design.banks| && Listing(design, groups) && priority <= 1 && l < |groups|
    requires InDesign(design, Elements(groups)) && Assigns(design, b, Elements(groups), priority, place)
    requires LocalBank(design, b, groups, priority).Valid()
    ensures l < |LocalBank(design, b, groups, priority).groups|
    ensures ClaimServes(LocalBank(design, b, groups, priority), ClaimsOf(design, b, groups, place), l)
  {
    var bank := LocalBank(design, b, groups, priority);
    assert groups[l] in groups && groups[l] in Elements(groups);
    LocalIsValid(design, b, groups, priority);
    EligibleIffServes(design, groups, bank, l, place[groups[l]]);
  }

  /** In every bank in use, no assignment of its groups to channels that serve them, under either priority, costs
      less than the chosen one. */
  lemma ChosenIsCheapest(design: Design, answer: Answer, b: nat, priority: nat, place: map<nat, nat>)
    requires design.Valid() && Acceptable(design, answer) && b < |design.banks| && OfBank(design, answer, b) != {}
    requires priority <= 1 && Assigns(design, b, OfBank(design, answer, b), priority, place)
    ensures CheaperCost(answer)(b) <= Sum<nat>(OfBank(design, answer, b), PlacedCost(design, b, place))
  {
    var groups := BankGroups(design, answer, b);
    BankListing(design, answer, b);
    LocalIsValid(design, b, groups, priority);
    ClaimsFeasible(design, b, groups, priority, place);
    ClaimsOfAddUp(design, b, groups, place);
    ChosenPriority(design, answer, b);
    CheaperCostOf(answer, b);
    ChannelsOptimal(design, answer, b, groups, priority, ClaimsOf(design, b, groups, place));
  }

  lemma CheaperCostOf(answer: Answer, b: nat)
    requires (b, 0) in answer.alternatives && (b, 1) in answer.alternatives
    ensures CheaperCost(answer)(b) == CostOf(answer, b, CheaperPriority(answer, b))
  {
  }

  // ---------------------------------------------------------------------------
  // The first stage
  // ---------------------------------------------------------------------------

  /** A bank of its domain for every group, no bank with more groups than channels. */
  ghost predicate Spreads(design: Design, place: map<nat, nat>) {
    && (forall g: nat :: g in place <==> g < |design.groups|)
    && (forall g ::
        g in place ==> place[g] < |design.banks| && design.banks[place[g]].domain == design.groups[g].domain)
    && (forall b: nat :: b < |design.banks| ==> |set g | g in place && place[g] == b| <= |design.banks[b].channels|)
  }

  ghost function SpreadCost(design: Design, place: map<nat, nat>): nat -> int
    requires design.Valid()
  {
    (g: nat) =>
      if g < |design.groups| && g in place && place[g] < |design.banks| then
        assert design.groups[g] in design.groups;
        CandidateCost(design.groups[g], design.banks[place[g]].a, design.banks[place[g]].b, design.scale)
      else 0
  }

  /** No way to spread the groups over the banks of their domains costs less than the reported one. */
  lemma SpreadIsCheapest(design: Design, answer: Answer, place: map<nat, nat>)
    requires design.Valid() && Acceptable(design, answer) && Spreads(design, place)
    ensures answer.stage1Cost <= Sum<nat>(Below(|design.groups|), SpreadCost(design, place))
  {
    SpreadFeasible(design, place);
    BanksOptimal(design, answer, SpreadClaims(design, place));
    SpreadAddsUp(design, place);
  }

  ghost function SpreadClaims(design: Design, place: map<nat, nat>): Claims
    requires design.Valid()
  {
    map g | g in place :: Certificates.Claim(place[g], SpreadCost(design, place)(g))
  }

  ghost function Numbers(n: nat): (numbers: seq<nat>)
    ensures |numbers| == n && forall k | 0 <= k < n :: numbers[k] == k
  {
    seq(n, k requires 0 <= k < n => k as nat)
  }

  lemma NumbersBelow(n: nat)
    ensures Distinct(Numbers(n)) && Elements(Numbers(n)) == Below(n)
  {
    forall k: nat ensures k in Elements(Numbers(n)) <==> k in Below(n) {
      assert k < n ==> Numbers(n)[k] == k;
    }
  }

  lemma SpreadAddsUp(design: Design, place: map<nat, nat>)
    requires design.Valid() && Spreads(design, place)
    ensures Certificates.ClaimedCost(SpreadClaims(design, place), |design.groups|) ==
            Sum<nat>(Below(|design.groups|), SpreadCost(design, place))
  {
    NumbersBelow(|design.groups|);
    AllClaimsAddUp(Numbers(|design.groups|), SpreadClaims(design, place), SpreadCost(design, place));
  }

  lemma SpreadListed(design: Design, place: map<nat, nat>, l: nat)
    requires design.Valid() && Spreads(design, place) && l < |design.groups|
    ensures l in SpreadClaims(design, place)
    ensures var claim := SpreadClaims(design, place)[l];
            claim.right >= 0 && Certificates.Candidate(claim.right, l, claim.cost) in Stage1Problem(design).candidates
  {
    Stage1ProblemFits(design);
    assert l in place && design.groups[l] in design.groups;
  }

  lemma SpreadUses(design: Design, place: map<nat, nat>, r: nat)
    requires design.Valid() && Spreads(design, place) && r < |design.banks|
    ensures Certificates.Uses(SpreadClaims(design, place), |design.groups|, r) <= |design.banks[r].channels|
  {
    UsesCounted(SpreadClaims(design, place), |design.groups|, r);
    assert Claimants(SpreadClaims(design, place), |design.groups|, r) == set g | g in place && place[g] == r;
  }

  lemma SpreadFeasible(design: Design, place: map<nat, nat>)
    requires design.Valid() && Spreads(design, place)
    ensures Certificates.Feasible(Stage1Problem(design), SpreadClaims(design, place))
  {
    Stage1ProblemFits(design);
    forall l: nat | l < |design.groups|
      ensures l in SpreadClaims(design, place)
      ensures var claim := SpreadClaims(design, place)[l];
              claim.right >= 0 && Certificates.Candidate(claim.right, l, claim.cost) in Stage1Problem(design).candidates
    {
      SpreadListed(design, place, l);
    }
    forall r: nat | r < |design.banks|
      ensures Certificates.Uses(SpreadClaims(design, place), |design.groups|, r) <= |design.banks[r].channels|
    {
      SpreadUses(design, place, r);
    }
  }
}
