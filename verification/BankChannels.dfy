// The two-stage bank and channel assignment: the acceptance of a kernel's answer, and what an
// accepted answer guarantees.
module BankChannels {
  import opened Sequences
  import opened ChannelCosts
  import opened ChannelCertificates
  import Certificates

  datatype BankPair = BankPair(domain: nat, a: Point, b: Point, channels: seq<Channel>)

  datatype Design = Design(banks: seq<BankPair>, groups: seq<Group>, scale: int)
  {
    /** Groups are well formed and no channel index occurs twice. */
    ghost predicate Valid() {
      && (forall g :: g in groups ==> ValidGroup(g))
      && forall b, i, b', i' | 0 <= b < |banks| && 0 <= i < |banks[b].channels|
                            && 0 <= b' < |banks| && 0 <= i' < |banks[b'].channels| ::
           banks[b].channels[i].index == banks[b'].channels[i'].index ==> b == b' && i == i'
    }
  }

  /** One priority's answer for a bank: its cost and the channel index claimed by each group. */
  datatype Alternative = Alternative(cost: int, claims: Claims)

  /** Everything the kernel reports. */
  datatype Answer = Answer(groupCount: int, stage1Cost: int, stage2Cost: int, bankClaims: Claims,
                           bankPotentials: seq<int>, alternatives: map<(nat, nat), Alternative>,
                           potentials: map<(nat, nat), seq<int>>, chosen: map<nat, int>)

  datatype Outcome = Accepted(channels: map<nat, int>) | Rejected

  // ---------------------------------------------------------------------------
  // Stage 1
  // ---------------------------------------------------------------------------

  function BankCost(design: Design, b: nat, g: nat): int
    requires b < |design.banks| && g < |design.groups| && ValidGroup(design.groups[g])
  {
    CandidateCost(design.groups[g], design.banks[b].a, design.banks[b].b, design.scale)
  }

  /** Groups may go to the banks of their domain, at most one per channel. */
  ghost predicate Stage1(design: Design, p: Certificates.Problem)
    requires design.Valid()
  {
    && |p.capacities| == |design.banks| && p.lefts == |design.groups|
    && (forall b :: 0 <= b < |p.capacities| ==> p.capacities[b] == |design.banks[b].channels|)
    && p.NoDuplicates()
    && forall c: Certificates.Candidate :: c in p.candidates <==>
         && c.right < |design.banks| && c.left < |design.groups|
         && design.banks[c.right].domain == design.groups[c.left].domain && c.cost == BankCost(design, c.right, c.left)
  }

  /** `cs` are the candidates of the banks before `b` and of the first `g` groups for bank `b`. */
  ghost predicate Collected(design: Design, b: nat, g: nat, cs: seq<Certificates.Candidate>)
    requires design.Valid()
  {
    && Certificates.NoRepeats(cs)
    && forall c: Certificates.Candidate :: c in cs <==>
         && c.right < |design.banks| && c.left < |design.groups| && (c.right < b || (c.right == b && c.left < g))
         && design.banks[c.right].domain == design.groups[c.left].domain && c.cost == BankCost(design, c.right, c.left)
  }

  lemma CollectNext(design: Design, b: nat, g: nat, cs: seq<Certificates.Candidate>)
    requires design.Valid() && b < |design.banks| && g < |design.groups| && Collected(design, b, g, cs)
    ensures var c := Certificates.Candidate(b, g, BankCost(design, b, g));
            Collected(design, b, g + 1, if design.banks[b].domain == design.groups[g].domain then cs + [c] else cs)
  {
    Certificates.RepeatedLast(cs, Certificates.Candidate(b, g, BankCost(design, b, g)));
  }

  /** The candidates in the order they are collected. */
  ghost function Collection(design: Design, b: nat, g: nat): seq<Certificates.Candidate>
    requires design.Valid() && b <= |design.banks| && g <= |design.groups| && (b == |design.banks| ==> g == 0)
    decreases b, g
  {
    if g > 0 then
      var before := Collection(design, b, g - 1);
      if design.banks[b].domain == design.groups[g - 1].domain
      then before + [Certificates.Candidate(b, g - 1, BankCost(design, b, g - 1))] else before
    else if b > 0 then Collection(design, b - 1, |design.groups|)
    else []
  }

  lemma {:induction false} CollectionCollects(design: Design, b: nat, g: nat)
    requires design.Valid() && b <= |design.banks| && g <= |design.groups| && (b == |design.banks| ==> g == 0)
    ensures Collected(design, b, g, Collection(design, b, g))
    decreases b, g
  {
    if g > 0 {
      CollectionCollects(design, b, g - 1);
      CollectNext(design, b, g - 1, Collection(design, b, g - 1));
    } else if b > 0 {
      CollectionCollects(design, b - 1, |design.groups|);
      CollectedRow(design, b - 1, Collection(design, b - 1, |design.groups|));
    } else {
      assert Collection(design, b, g) == [];
    }
  }

  lemma CollectedRow(design: Design, b: nat, cs: seq<Certificates.Candidate>)
    requires design.Valid() && Collected(design, b, |design.groups|, cs)
    ensures Collected(design, b + 1, 0, cs)
  {
  }

  ghost function Stage1Problem(design: Design): (p: Certificates.Problem)
    requires design.Valid()
  {
    Certificates.Problem(seq(|design.banks|, b requires 0 <= b < |design.banks| => |design.banks[b].channels|),
                         |design.groups|, Collection(design, |design.banks|, 0))
  }

  lemma Stage1ProblemFits(design: Design)
    requires design.Valid()
    ensures Stage1(design, Stage1Problem(design)) && Stage1Problem(design).Valid()
  {
    CollectionCollects(design, |design.banks|, 0);
  }

  method BankCandidates(design: Design) returns (p: Certificates.Problem)
    requires design.Valid()
    ensures p == Stage1Problem(design)
  {
    var candidates: seq<Certificates.Candidate> := [];
    for b := 0 to |design.banks|
      invariant candidates == Collection(design, b, 0)
    {
      for g := 0 to |design.groups|
        invariant candidates == Collection(design, b, g)
      {
        if design.banks[b].domain == design.groups[g].domain {
          candidates := candidates + [Certificates.Candidate(b, g, BankCost(design, b, g))];
        }
      }
    }
    p := Certificates.Problem(seq(|design.banks|, b requires 0 <= b < |design.banks| => |design.banks[b].channels|),
                              |design.groups|, candidates);
  }

  // ---------------------------------------------------------------------------
  // Stage 2
  // ---------------------------------------------------------------------------

  /** The groups below `n` claimed for bank `b`, in order. */
  function GroupsOf(claims: Claims, n: nat, b: nat): (groups: seq<nat>)
    ensures forall g :: g in groups ==> g < n
  {
    if n == 0 then []
    else GroupsOf(claims, n - 1, b) + if n - 1 in claims && claims[n - 1].right == b then [n - 1] else []
  }

  lemma {:induction false} GroupsOfMeans(claims: Claims, n: nat, b: nat)
    ensures forall g :: g in GroupsOf(claims, n, b) <==> g < n && g in claims && claims[g].right == b
    ensures forall i, j | 0 <= i < j < |GroupsOf(claims, n, b)| :: GroupsOf(claims, n, b)[i] < GroupsOf(claims, n, b)[j]
    decreases n
  {
    if n > 0 {
      GroupsOfMeans(claims, n - 1, b);
      var before := GroupsOf(claims, n - 1, b);
      forall i | 0 <= i < |before| ensures before[i] < n - 1 {
        assert before[i] in before;
      }
    }
  }

  /** Where the channel with this index is in the list, or -1. */
  function Position(channels: seq<Channel>, index: int): (i: int)
    ensures -1 <= i < |channels|
    ensures i >= 0 ==> channels[i].index == index
    ensures i < 0 ==> forall k :: 0 <= k < |channels| ==> channels[k].index != index
  {
    if channels == [] then -1
    else if channels[|channels| - 1].index == index then |channels| - 1
    else Position(channels[..|channels| - 1], index)
  }

  function LocalBank(design: Design, b: nat, groups: seq<nat>, priority: nat): Bank
    requires b < |design.banks| && forall g :: g in groups ==> g < |design.groups|
  {
    Bank(design.banks[b].channels,
         seq(|groups|, l requires 0 <= l < |groups| => (assert groups[l] in groups; design.groups[groups[l]])),
           priority, design.scale)
  }

  function LocalClaims(channels: seq<Channel>, groups: seq<nat>, claims: Claims): Claims
    requires forall g :: g in groups ==> g in claims
  {
    map l: nat | 0 <= l < |groups| ::
      Certificates.Claim(Position(channels, claims[groups[l]].right), claims[groups[l]].cost)
  }

  function PotentialsOf(answer: Answer, b: nat, priority: nat): seq<int> {
    if (b, priority) in answer.potentials then answer.potentials[(b, priority)] else []
  }

  /** The answer for one priority of a bank is certified optimal. */
  ghost predicate AlternativeHolds(design: Design, answer: Answer, b: nat, groups: seq<nat>, priority: nat)
    requires design.Valid() && b < |design.banks| && priority <= 1
  {
    && (forall g :: g in groups ==> g < |design.groups|)
    && (b, priority) in answer.alternatives
    && var alternative := answer.alternatives[(b, priority)];
       && (forall g :: g in alternative.claims <==> g in groups)
       && (forall g :: g in groups ==> Position(design.banks[b].channels, alternative.claims[g].right) >= 0)
       && var bank := LocalBank(design, b, groups, priority);
          && bank.Valid()
          && Certificates.Certified(Expansion(bank), LocalClaims(design.banks[b].channels, groups, alternative.claims),
                                    PotentialsOf(answer, b, priority), alternative.cost)
  }

  method CheckAlternative(design: Design, answer: Answer, b: nat, groups: seq<nat>, priority: nat) returns (ok: bool)
    requires design.Valid() && b < |design.banks| && priority <= 1
    requires forall g :: g in groups ==> g < |design.groups|
    ensures ok <==> AlternativeHolds(design, answer, b, groups, priority)
  {
    if (b, priority) !in answer.alternatives {
      return false;
    }
    var alternative := answer.alternatives[(b, priority)];
    if alternative.claims.Keys != set g | g in groups {
      assert !(forall g :: g in alternative.claims <==> g in groups);
      return false;
    }
    assert forall g :: g in alternative.claims.Keys <==> g in groups;
    for l := 0 to |groups|
      invariant forall k :: 0 <= k < l ==> Position(design.banks[b].channels, alternative.claims[groups[k]].right) >= 0
    {
      if Position(design.banks[b].channels, alternative.claims[groups[l]].right) < 0 {
        assert groups[l] in groups;
        return false;
      }
    }
    var bank := LocalBank(design, b, groups, priority);
    assert bank.Valid();
    var verdict := VerifyStage2Certificate(bank, LocalClaims(design.banks[b].channels, groups, alternative.claims),
                                           PotentialsOf(answer, b, priority), alternative.cost);
    ok := verdict.Accepted?;
  }

  // ---------------------------------------------------------------------------
  // Acceptance
  // ---------------------------------------------------------------------------

  function BankGroups(design: Design, answer: Answer, b: nat): seq<nat> {
    GroupsOf(answer.bankClaims, |design.groups|, b)
  }

  function CostOf(answer: Answer, b: nat, priority: nat): int {
    if (b, priority) in answer.alternatives then answer.alternatives[(b, priority)].cost else 0
  }

  /** The cheaper priority; a tie goes to the first. */
  function CheaperPriority(answer: Answer, b: nat): nat {
    if CostOf(answer, b, 1) < CostOf(answer, b, 0) then 1 else 0
  }

  /** A bank with groups has both priorities certified and the cheaper one chosen. */
  ghost predicate BankHolds(design: Design, answer: Answer, b: nat)
    requires design.Valid() && b < |design.banks|
  {
    BankGroups(design, answer, b) != [] ==>
      && AlternativeHolds(design, answer, b, BankGroups(design, answer, b), 0)
      && AlternativeHolds(design, answer, b, BankGroups(design, answer, b), 1)
      && b in answer.chosen && answer.chosen[b] == CheaperPriority(answer, b)
  }

  /** The cost of the chosen priorities of the first `n` banks. */
  ghost function Stage2Total(design: Design, answer: Answer, n: nat): int {
    if n == 0 then 0
    else Stage2Total(design, answer, n - 1)
         + if BankGroups(design, answer, n - 1) == [] then 0 else CostOf(answer, n - 1, CheaperPriority(answer, n - 1))
  }

  ghost predicate Acceptable(design: Design, answer: Answer)
    requires design.Valid()
  {
    && answer.groupCount == |design.groups|
    && Certificates.Certified(Stage1Problem(design), answer.bankClaims, answer.bankPotentials, answer.stage1Cost)
    && AllBanksHold(design, answer)
  }

  ghost predicate AllBanksHold(design: Design, answer: Answer)
    requires design.Valid()
  {
    && (forall b: nat :: b < |design.banks| ==> BankHolds(design, answer, b))
    && Stage2Total(design, answer, |design.banks|) == answer.stage2Cost
  }

  /** The channel index of group `g`: what the chosen priority of its bank claims. */
  ghost function ChannelOf(answer: Answer, g: nat): int {
    if g !in answer.bankClaims || answer.bankClaims[g].right < 0 then -1
    else
      var b := answer.bankClaims[g].right as nat;
      var key := (b, CheaperPriority(answer, b));
      if key in answer.alternatives && g in answer.alternatives[key].claims
      then answer.alternatives[key].claims[g].right else -1
  }

  ghost predicate Selected(design: Design, answer: Answer, n: nat, channels: map<nat, int>) {
    && (forall g: nat ::
        g in channels <==> g < |design.groups| && g in answer.bankClaims && 0 <= answer.bankClaims[g].right < n)
    && (forall g :: g in channels ==> channels[g] == ChannelOf(answer, g))
  }

  method Evaluate(design: Design, answer: Answer) returns (outcome: Outcome)
    requires design.Valid()
    ensures outcome.Accepted? <==> Acceptable(design, answer)
    ensures outcome.Accepted? ==> Selected(design, answer, |design.banks|, outcome.channels)
  {
    if answer.groupCount != |design.groups| {
      return Rejected;
    }
    var problem := BankCandidates(design);
    Stage1ProblemFits(design);
    var verdict := Certificates.VerifyCertificate(problem, answer.bankClaims, answer.bankPotentials, answer.stage1Cost);
    if !verdict.Accepted? {
      return Rejected;
    }
    var ok, channels := CheckBanks(design, answer);
    outcome := if ok then Accepted(channels) else Rejected;
  }

  method CheckBanks(design: Design, answer: Answer) returns (ok: bool, channels: map<nat, int>)
    requires design.Valid()
    ensures ok <==> AllBanksHold(design, answer)
    ensures ok ==> Selected(design, answer, |design.banks|, channels)
  {
    channels := map[];
    var total := 0;
    for b := 0 to |design.banks|
      invariant forall k: nat :: k < b ==> BankHolds(design, answer, k)
      invariant total == Stage2Total(design, answer, b)
      invariant Selected(design, answer, b, channels)
    {
      var cost;
      ok, cost, channels := CheckBank(design, answer, b, channels);
      if !ok {
        return;
      }
      total := total + cost;
    }
    ok := total == answer.stage2Cost;
  }

  method CheckBank(design: Design, answer: Answer, b: nat, channels0: map<nat, int>)
    returns (ok: bool, cost: int, channels: map<nat, int>)
    requires design.Valid() && b < |design.banks| && Selected(design, answer, b, channels0)
    ensures ok <==> BankHolds(design, answer, b)
    ensures ok ==> Stage2Total(design, answer, b + 1) == Stage2Total(design, answer, b) + cost
    ensures ok ==> Selected(design, answer, b + 1, channels)
  {
    var groups := BankGroups(design, answer, b);
    GroupsOfMeans(answer.bankClaims, |design.groups|, b);
    channels := channels0;
    if groups == [] {
      NoGroups(design, answer, b, channels);
      return true, 0, channels;
    }
    var first := CheckAlternative(design, answer, b, groups, 0);
    if !first {
      return false, 0, channels;
    }
    var second := CheckAlternative(design, answer, b, groups, 1);
    if !second {
      return false, 0, channels;
    }
    var expected := CheaperPriority(answer, b);
    if b !in answer.chosen || answer.chosen[b] != expected {
      return false, 0, channels;
    }
    ok, cost := true, CostOf(answer, b, expected);
    channels := SelectChannels(design, answer, b, groups, answer.alternatives[(b, expected)].claims, channels0);
  }

  lemma NoGroups(design: Design, answer: Answer, b: nat, channels: map<nat, int>)
    requires Selected(design, answer, b, channels) && BankGroups(design, answer, b) == []
    ensures Selected(design, answer, b + 1, channels)
  {
    GroupsOfMeans(answer.bankClaims, |design.groups|, b);
    forall g: nat | g < |design.groups| && g in answer.bankClaims ensures answer.bankClaims[g].right != b {
      assert g !in GroupsOf(answer.bankClaims, |design.groups|, b);
    }
  }

  /** Records the channels of the bank's groups. */
  method SelectChannels(design: Design, answer: Answer, b: nat, groups: seq<nat>, claims: Claims,
                        channels0: map<nat, int>)
    returns (channels: map<nat, int>)
    requires Selected(design, answer, b, channels0)
    requires forall g ::
               g in groups <==> g < |design.groups| && g in answer.bankClaims && answer.bankClaims[g].right == b
    requires (b, CheaperPriority(answer, b)) in answer.alternatives
    requires claims == answer.alternatives[(b, CheaperPriority(answer, b))].claims
             && forall g :: g in groups ==> g in claims
    ensures Selected(design, answer, b + 1, channels)
  {
    channels := channels0;
    for l := 0 to |groups|
      invariant forall g: nat :: g in channels <==> g in channels0 || g in groups[..l]
      invariant forall g :: g in channels ==> channels[g] == ChannelOf(answer, g)
    {
      TakeNext(groups, l);
      assert groups[l] in groups;
      channels := channels[groups[l] := claims[groups[l]].right];
    }
    assert groups[..|groups|] == groups;
  }

  // ---------------------------------------------------------------------------
  // What acceptance guarantees
  // ---------------------------------------------------------------------------

  /** No assignment of the groups to banks of their domains within the channel counts is cheaper. */
  lemma BanksOptimal(design: Design, answer: Answer, other: Claims)
    requires design.Valid() && Acceptable(design, answer) && Certificates.Feasible(Stage1Problem(design), other)
    ensures answer.stage1Cost <= Certificates.ClaimedCost(other, |design.groups|)
  {
    Stage1ProblemFits(design);
    Certificates.CertifiedIsOptimal(Stage1Problem(design), answer.bankClaims,
                                    answer.bankPotentials, answer.stage1Cost, other);
  }

  lemma AlternativeOptimal(design: Design, answer: Answer, b: nat, groups: seq<nat>, priority: nat, other: Claims)
    requires design.Valid() && b < |design.banks| && priority <= 1
    requires AlternativeHolds(design, answer, b, groups, priority)
    requires Certificates.Feasible(Expansion(LocalBank(design, b, groups, priority)), other)
    ensures CostOf(answer, b, priority) <= Certificates.ClaimedCost(other, |groups|)
  {
    var bank := LocalBank(design, b, groups, priority);
    ExpansionExpands(bank);
    var alternative := answer.alternatives[(b, priority)];
    Certificates.CertifiedIsOptimal(Expansion(bank), LocalClaims(design.banks[b].channels, groups, alternative.claims),
                                    PotentialsOf(answer, b, priority), alternative.cost, other);
  }

  /** In every bank the chosen cost is at most the cost of any eligible channel assignment under
      either priority. */
  lemma ChannelsOptimal(design: Design, answer: Answer, b: nat, groups: seq<nat>, priority: nat, other: Claims)
    requires design.Valid() && AllBanksHold(design, answer) && b < |design.banks| && priority <= 1
    requires groups == BankGroups(design, answer, b) && groups != []
    requires var bank := LocalBank(design, b, groups, priority);
             bank.Valid() && Certificates.Feasible(Expansion(bank), other)
    ensures b in answer.chosen && answer.chosen[b] == CheaperPriority(answer, b)
    ensures CostOf(answer, b, CheaperPriority(answer, b)) <= Certificates.ClaimedCost(other, |groups|)
  {
    assert BankHolds(design, answer, b);
    ChosenIsCheaper(design, answer, b, priority);
    BothHold(design, answer, b, groups, priority);
    AlternativeOptimal(design, answer, b, groups, priority, other);
  }

  lemma ChosenIsCheaper(design: Design, answer: Answer, b: nat, priority: nat)
    requires design.Valid() && b < |design.banks| && priority <= 1
    requires BankHolds(design, answer, b) && BankGroups(design, answer, b) != []
    ensures b in answer.chosen && answer.chosen[b] == CheaperPriority(answer, b)
    ensures CostOf(answer, b, CheaperPriority(answer, b)) <= CostOf(answer, b, priority)
  {
    CheaperIsLeast(answer, b, priority);
  }

  lemma CheaperIsLeast(answer: Answer, b: nat, priority: nat)
    requires priority <= 1
    ensures CostOf(answer, b, CheaperPriority(answer, b)) <= CostOf(answer, b, priority)
  {
    if priority == 0 {
    } else {
      assert priority == 1;
    }
  }

  lemma BothHold(design: Design, answer: Answer, b: nat, groups: seq<nat>, priority: nat)
    requires design.Valid() && b < |design.banks| && priority <= 1 && BankHolds(design, answer, b)
    requires groups == BankGroups(design, answer, b) && groups != []
    ensures AlternativeHolds(design, answer, b, groups, priority)
  {
    if priority == 0 {
      assert AlternativeHolds(design, answer, b, groups, 0);
    } else {
      assert priority == 1 && AlternativeHolds(design, answer, b, groups, 1);
    }
  }

  /** Distinct groups are on distinct channels of the banks they were assigned to. */
  lemma ChannelsInjective(design: Design, answer: Answer, channels: map<nat, int>, g: nat, h: nat)
    requires design.Valid() && Acceptable(design, answer) && Selected(design, answer, |design.banks|, channels)
    requires g < |design.groups| && h < |design.groups| && g != h
    ensures g in channels && h in channels && channels[g] != channels[h]
  {
    var b, i := ChannelPlace(design, answer, channels, g);
    var c, j := ChannelPlace(design, answer, channels, h);
    if b == c {
      PlacesDiffer(design, answer, b, g, h);
    }
  }

  lemma ClaimPlaced(design: Design, answer: Answer, b: nat, groups: seq<nat>, priority: nat, g: nat)
    requires design.Valid() && b < |design.banks| && priority <= 1
    requires AlternativeHolds(design, answer, b, groups, priority) && g in groups
    ensures (b, priority) in answer.alternatives && g in answer.alternatives[(b, priority)].claims
    ensures Position(design.banks[b].channels, answer.alternatives[(b, priority)].claims[g].right) >= 0
  {
  }

  lemma BankOf(design: Design, answer: Answer, g: nat) returns (b: nat)
    requires design.Valid() && Acceptable(design, answer) && g < |design.groups|
    ensures g in answer.bankClaims && answer.bankClaims[g].right == b < |design.banks|
  {
    Stage1ProblemFits(design);
    Certificates.ListedInRange(Stage1Problem(design), answer.bankClaims);
    b := answer.bankClaims[g].right;
  }

  /** The selected channel of a group is one of its bank. */
  lemma ChannelPlace(design: Design, answer: Answer, channels: map<nat, int>, g: nat) returns (b: nat, i: nat)
    requires design.Valid() && Acceptable(design, answer) && Selected(design, answer, |design.banks|, channels)
    requires g < |design.groups|
    ensures g in channels && g in answer.bankClaims && answer.bankClaims[g].right == b < |design.banks|
    ensures i < |design.banks[b].channels| && design.banks[b].channels[i].index == channels[g]
    ensures g in BankGroups(design, answer, b) && BankHolds(design, answer, b)
  {
    b := BankOf(design, answer, g);
    GroupsOfMeans(answer.bankClaims, |design.groups|, b);
    var groups := BankGroups(design, answer, b);
    assert g in groups;
    assert BankHolds(design, answer, b);
    BothHold(design, answer, b, groups, CheaperPriority(answer, b));
    ClaimPlaced(design, answer, b, groups, CheaperPriority(answer, b), g);
    i := Position(design.banks[b].channels, channels[g]);
  }

  lemma PlacesDiffer(design: Design, answer: Answer, b: nat, g: nat, h: nat)
    requires design.Valid() && b < |design.banks| && BankHolds(design, answer, b) && g != h
    requires g in BankGroups(design, answer, b) && h in BankGroups(design, answer, b)
    requires g in answer.bankClaims && h in answer.bankClaims
             && answer.bankClaims[g].right == answer.bankClaims[h].right == b
    ensures ChannelOf(answer, g) != ChannelOf(answer, h)
  {
    var groups, priority := BankGroups(design, answer, b), CheaperPriority(answer, b);
    BothHold(design, answer, b, groups, priority);
    AlternativeDiffers(design, answer, b, groups, priority, g, h);
  }

  lemma AlternativeDiffers(design: Design, answer: Answer, b: nat, groups: seq<nat>, priority: nat, g: nat, h: nat)
    requires design.Valid() && b < |design.banks| && priority <= 1
    requires AlternativeHolds(design, answer, b, groups, priority) && g in groups && h in groups && g != h
    ensures (b, priority) in answer.alternatives
    ensures var claims := answer.alternatives[(b, priority)].claims;
            g in claims && h in claims && claims[g].right != claims[h].right
  {
    var alternative := answer.alternatives[(b, priority)];
    var local := LocalClaims(design.banks[b].channels, groups, alternative.claims);
    LocalInjective(LocalBank(design, b, groups, priority), local, PotentialsOf(answer, b, priority), alternative.cost);
    var l: nat :| l < |groups| && groups[l] == g;
    var m: nat :| m < |groups| && groups[m] == h;
    LocalDiffers(design.banks[b].channels, groups, alternative.claims, l, m);
  }

  lemma LocalDiffers(channels: seq<Channel>, groups: seq<nat>, claims: Claims, l: nat, m: nat)
    requires (forall g :: g in groups ==> g in claims) && Injective(LocalClaims(channels, groups, claims))
    requires l < |groups| && m < |groups| && l != m
    ensures groups[l] in claims && groups[m] in claims && claims[groups[l]].right != claims[groups[m]].right
  {
    var local := LocalClaims(channels, groups, claims);
    assert local[l].right != local[m].right;
  }

  lemma LocalInjective(bank: Bank, claims: Claims, potentials: seq<int>, total: int)
    requires bank.Valid() && Certificates.Certified(Expansion(bank), claims, potentials, total)
    ensures Injective(claims)
  {
    ExpansionExpands(bank);
    Certificates.ListedInRange(Expansion(bank), claims);
    SingleUse(bank, claims);
  }
}
