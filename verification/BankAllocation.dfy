// Splitting the banks of a shared link between its two directions.
module BankAllocation {
  import opened Wrappers

  /** The arguments of an allocation; without `maxRatio` no ratio is too large. */
  datatype Request = Request(forwardSignals: int, reverseSignals: int, bankCount: int, wiresPerBank: int,
                             minRatio: int, ratioQuantum: int, maxRatio: Option<int>) {
    predicate Valid() {
      && forwardSignals >= 0 && reverseSignals >= 0 && bankCount >= 1
      && wiresPerBank >= 1 && minRatio >= 1 && ratioQuantum >= 1
      && (maxRatio.Some? ==> maxRatio.value >= minRatio)
    }
  }

  datatype Allocation = Allocation(forwardBanks: int, reverseBanks: int, forwardLanes: int, reverseLanes: int,
                                   forwardRatio: int, reverseRatio: int)

  datatype Outcome = InvalidArgument | NoSplit | Allocated(allocation: Allocation)

  // ---------------------------------------------------------------------------
  // Ratios
  // ---------------------------------------------------------------------------

  /** One, or a positive multiple of the quantum. */
  ghost predicate Quantized(q: Request, v: int) { v == 1 || exists k :: k >= 1 && v == k * q.ratioQuantum }

  /** The lanes carry the signals at this ratio. */
  ghost predicate Carries(q: Request, signals: int, banks: int, v: int) {
    v >= q.minRatio && v * (banks * q.wiresPerBank) >= signals
  }

  /** The least ratio that can be configured and is enough. */
  ghost predicate LeastRatio(q: Request, signals: int, banks: int, v: int) {
    && Quantized(q, v) && Carries(q, signals, banks, v)
    && forall u :: u >= 1 && Quantized(q, u) && Carries(q, signals, banks, u) ==> v <= u
  }

  function CeilDiv(a: int, b: int): int
    requires b >= 1
  {
    (a + b - 1) / b
  }

  lemma CeilDivIsLeast(a: int, b: int, v: int)
    requires b >= 1
    ensures v >= CeilDiv(a, b) <==> v * b >= a
  {
    var c := CeilDiv(a, b);
    assert c * b >= a > (c - 1) * b;
    if v >= c {
      Multiply(c, v, b);
    } else {
      Multiply(v, c - 1, b);
    }
  }

  lemma Multiply(a: int, b: int, c: int)
    requires a <= b && c >= 0
    ensures a * c <= b * c
  {
  }

  /** The ratio of one direction, if its banks are enough; an idle direction has ratio one. */
  function Ratio(q: Request, signals: int, banks: int): (ratio: Option<int>)
    requires q.Valid() && signals >= 0 && banks >= 0
  {
    if signals == 0 then Some(1)
    else if banks == 0 then None
    else
      var value := Unlimited(q, signals, banks);
      if q.maxRatio.None? || value <= q.maxRatio.value then Some(value) else None
  }

  function Unlimited(q: Request, signals: int, banks: int): int
    requires q.Valid() && signals >= 1 && banks >= 1
  {
    LanesPositive(banks, q.wiresPerBank);
    var need := CeilDiv(signals, banks * q.wiresPerBank);
    var raw := if q.minRatio > need then q.minRatio else need;
    if raw == 1 then 1 else CeilDiv(raw, q.ratioQuantum) * q.ratioQuantum
  }

  lemma LanesPositive(banks: int, wires: int)
    requires banks >= 1 && wires >= 1
    ensures banks * wires >= 1
  {
  }

  lemma UnlimitedIsLeast(q: Request, signals: int, banks: int)
    requires q.Valid() && signals >= 1 && banks >= 1
    ensures LeastRatio(q, signals, banks, Unlimited(q, signals, banks)) && Unlimited(q, signals, banks) >= 1
  {
    LanesPositive(banks, q.wiresPerBank);
    var lanes := banks * q.wiresPerBank;
    var need := CeilDiv(signals, lanes);
    var raw := if q.minRatio > need then q.minRatio else need;
    forall u ensures Carries(q, signals, banks, u) <==> u >= raw {
      CeilDivIsLeast(signals, lanes, u);
    }
    var steps := CeilDiv(raw, q.ratioQuantum);
    forall k ensures k >= steps <==> k * q.ratioQuantum >= raw {
      CeilDivIsLeast(raw, q.ratioQuantum, k);
    }
    CeilDivIsLeast(raw, q.ratioQuantum, 0);
    forall u | u >= 1 && Quantized(q, u) && Carries(q, signals, banks, u) ensures Unlimited(q, signals, banks) <= u {
      if raw != 1 {
        var k :| k >= 1 && u == k * q.ratioQuantum;
        Multiply(steps, k, q.ratioQuantum);
      }
    }
    assert raw != 1 ==> Quantized(q, steps * q.ratioQuantum);
  }

  /** An active direction gets the least sufficient ratio, and none exactly if that is too large. */
  lemma RatioIsLeast(q: Request, signals: int, banks: int)
    requires q.Valid() && signals >= 1 && banks >= 1
    ensures match Ratio(q, signals, banks)
            case Some(v) => LeastRatio(q, signals, banks, v) && (q.maxRatio.Some? ==> v <= q.maxRatio.value)
            case None =>
              && q.maxRatio.Some?
              && forall v :: v >= 1 && LeastRatio(q, signals, banks, v) ==> v > q.maxRatio.value
  {
    UnlimitedIsLeast(q, signals, banks);
  }

  /** More banks never need a greater ratio. */
  lemma MoreBanks(q: Request, signals: int, fewer: int, more: int)
    requires q.Valid() && signals >= 1 && 1 <= fewer <= more
    ensures Unlimited(q, signals, more) <= Unlimited(q, signals, fewer)
  {
    UnlimitedIsLeast(q, signals, fewer);
    UnlimitedIsLeast(q, signals, more);
    var v := Unlimited(q, signals, fewer);
    Multiply(fewer, more, q.wiresPerBank);
    ScaleUp(v, fewer * q.wiresPerBank, more * q.wiresPerBank);
    assert Carries(q, signals, more, v);
  }

  lemma ScaleUp(v: int, a: int, b: int)
    requires a <= b && v >= 0
    ensures v * a <= v * b
  {
  }

  // ---------------------------------------------------------------------------
  // Splits
  // ---------------------------------------------------------------------------

  ghost predicate Fits(q: Request, signals: int, banks: int)
    requires q.Valid() && signals >= 0
  {
    banks >= 0 && Ratio(q, signals, banks).Some?
  }

  ghost predicate Feasible(q: Request, forward: int)
    requires q.Valid()
  {
    Fits(q, q.forwardSignals, forward) && Fits(q, q.reverseSignals, q.bankCount - forward)
  }

  /** Worst and total ratio, worst and total pressure on the wires, and the forward banks. */
  datatype Objective = Objective(worst: int, total: int, worstPressure: real, totalPressure: real, forward: int) {
    predicate Less(than: Objective) {
      || worst < than.worst
      || (worst == than.worst
          && (|| total < than.total
              || (total == than.total
                  && (|| worstPressure < than.worstPressure
                      || (worstPressure == than.worstPressure
                          && (|| totalPressure < than.totalPressure
                              || (totalPressure == than.totalPressure && forward < than.forward)))))))
    }
  }

  function Pressure(q: Request, signals: int, banks: int): real
    requires q.Valid() && banks >= 0
  {
    if banks == 0 then 0.0
    else
      LanesPositive(banks, q.wiresPerBank);
      signals as real / (banks * q.wiresPerBank) as real
  }

  function ObjectiveOf(q: Request, forward: int): Objective
    requires q.Valid() && Feasible(q, forward)
  {
    var reverse := q.bankCount - forward;
    var f, r := Ratio(q, q.forwardSignals, forward).value, Ratio(q, q.reverseSignals, reverse).value;
    var p, s := Pressure(q, q.forwardSignals, forward), Pressure(q, q.reverseSignals, reverse);
    Objective(if f > r then f else r, f + r, if p > s then p else s, p + s, forward)
  }

  function AllocationOf(q: Request, forward: int): Allocation
    requires q.Valid() && Feasible(q, forward)
  {
    var reverse := q.bankCount - forward;
    Allocation(forward, reverse, forward * q.wiresPerBank, reverse * q.wiresPerBank,
               Ratio(q, q.forwardSignals, forward).value, Ratio(q, q.reverseSignals, reverse).value)
  }

  /** The split is better than every other one up to `upTo` forward banks. */
  ghost predicate BestSplit(q: Request, forward: int, upTo: int)
    requires q.Valid()
  {
    && 0 <= forward <= upTo && Feasible(q, forward)
    && forall other :: 0 <= other <= upTo && other != forward && Feasible(q, other) ==>
         ObjectiveOf(q, forward).Less(ObjectiveOf(q, other))
  }

  lemma BestReplaced(q: Request, best: int, forward: int)
    requires q.Valid() && Feasible(q, forward) && BestSplit(q, best, forward - 1)
    ensures ObjectiveOf(q, forward).Less(ObjectiveOf(q, best)) ==> BestSplit(q, forward, forward)
    ensures !ObjectiveOf(q, forward).Less(ObjectiveOf(q, best)) ==> BestSplit(q, best, forward)
  {
  }

  /** The unique best split; fails exactly on invalid arguments or if no split fits. */
  method AllocateSharedBanks(q: Request) returns (outcome: Outcome)
    ensures outcome.InvalidArgument? <==> !q.Valid()
    ensures outcome.NoSplit? <==> q.Valid() && forall forward :: !Feasible(q, forward)
    ensures outcome.Allocated? ==>
              var forward := outcome.allocation.forwardBanks;
              BestSplit(q, forward, q.bankCount) && outcome.allocation == AllocationOf(q, forward)
  {
    if !q.Valid() {
      return InvalidArgument;
    }
    var best: Option<(Objective, Allocation)> := None;
    for forward := 0 to q.bankCount + 1
      invariant best.None? ==> forall other | 0 <= other < forward :: !Feasible(q, other)
      invariant best.Some? ==>
                  var chosen := best.value.0.forward;
                  BestSplit(q, chosen, forward - 1) && best.value == (ObjectiveOf(q, chosen), AllocationOf(q, chosen))
    {
      var reverse := q.bankCount - forward;
      if Ratio(q, q.forwardSignals, forward).Some? && Ratio(q, q.reverseSignals, reverse).Some? {
        var objective := ObjectiveOf(q, forward);
        if best.Some? {
          BestReplaced(q, best.value.0.forward, forward);
        }
        if best.None? || objective.Less(best.value.0) {
          best := Some((objective, AllocationOf(q, forward)));
        }
      }
    }
    outcome := if best.None? then NoSplit else Allocated(best.value.1);
  }

  // ---------------------------------------------------------------------------
  // When a split exists
  // ---------------------------------------------------------------------------

  lemma FitsMore(q: Request, signals: int, fewer: int, more: int)
    requires q.Valid() && signals >= 0 && fewer <= more && Fits(q, signals, fewer)
    ensures Fits(q, signals, more)
  {
    if signals > 0 {
      MoreBanks(q, signals, fewer, more);
    }
  }

  /** Some split fits exactly if the banks are enough for what the two directions need on their own. */
  lemma SplitExists(q: Request)
    requires q.Valid()
    ensures (exists forward :: Feasible(q, forward))
            <==> exists f, r :: f + r <= q.bankCount && Fits(q, q.forwardSignals, f) && Fits(q, q.reverseSignals, r)
  {
    if forward :| Feasible(q, forward) {
      assert forward + (q.bankCount - forward) <= q.bankCount;
    }
    if f, r :| f + r <= q.bankCount && Fits(q, q.forwardSignals, f) && Fits(q, q.reverseSignals, r) {
      FitsMore(q, q.reverseSignals, r, q.bankCount - f);
      assert Feasible(q, f);
    }
  }

  /** Without a maximum only two active directions on one bank cannot be split. */
  lemma UnlimitedSplit(q: Request)
    requires q.Valid() && q.maxRatio.None?
    ensures (forall forward :: !Feasible(q, forward)) <==>
              q.forwardSignals > 0 && q.reverseSignals > 0 && q.bankCount == 1
  {
    if q.forwardSignals == 0 {
      assert Feasible(q, 0);
    } else if q.reverseSignals == 0 {
      assert Feasible(q, q.bankCount);
    } else if q.bankCount > 1 {
      assert Feasible(q, 1);
    }
  }

  // ---------------------------------------------------------------------------
  // Applying the allocations
  // ---------------------------------------------------------------------------

  /** A link direction; the two directions that share a bank group name each other. */
  datatype Capacity = Capacity(banked: bool, opposite: nat, bankCount: int, wiresPerBank: int)

  datatype Constraints = Constraints(minRatio: int, ratioQuantum: int, frameSlots: int)

  ghost predicate PairsBack(c: Capacity, key: nat) { c.banked && c.opposite == key }

  ghost predicate Paired(capacities: map<nat, Capacity>, loads: map<nat, int>) {
    forall key :: key in capacities && capacities[key].banked ==>
      && key in loads && capacities[key].opposite in loads
      && capacities[key].opposite in capacities && PairsBack(capacities[capacities[key].opposite], key)
  }

  /** The lower key of a pair decides for both. */
  predicate Leads(capacities: map<nat, Capacity>, key: nat) {
    key in capacities && capacities[key].banked && key < capacities[key].opposite
  }

  function RequestOf(capacities: map<nat, Capacity>, loads: map<nat, int>, constraints: Constraints, key: nat): Request
    requires Paired(capacities, loads) && Leads(capacities, key)
  {
    var c := capacities[key];
    Request(loads[key], loads[c.opposite], c.bankCount, c.wiresPerBank,
            constraints.minRatio, constraints.ratioQuantum, None)
  }

  /** The pair has the ratios of its best split, or an over-budget ratio where there is none. */
  ghost predicate PairApplied(capacities: map<nat, Capacity>, loads: map<nat, int>, constraints: Constraints,
                              result: map<nat, int>, key: nat)
    requires Paired(capacities, loads) && Leads(capacities, key)
  {
    var q, opposite := RequestOf(capacities, loads, constraints, key), capacities[key].opposite;
    && q.Valid() && key in result && opposite in result
    && if q.forwardSignals > 0 && q.reverseSignals > 0 && q.bankCount == 1
       then result[key] == result[opposite] == constraints.frameSlots + 1
       else exists forward :: BestSplit(q, forward, q.bankCount)
                              && result[key] == AllocationOf(q, forward).forwardRatio
                              && result[opposite] == AllocationOf(q, forward).reverseRatio
  }

  ghost predicate Member(capacities: map<nat, Capacity>, done: set<nat>, key: nat) {
    || (Leads(capacities, key) && key in done)
    || (key in capacities && Leads(capacities, capacities[key].opposite)
        && capacities[capacities[key].opposite].opposite == key
        && capacities[key].opposite in done)
  }

  /** The pairs that are done have their ratios; every other key keeps its own. */
  ghost predicate Applied(capacities: map<nat, Capacity>, loads: map<nat, int>, constraints: Constraints,
                          ratios: map<nat, int>, result: map<nat, int>, done: set<nat>)
    requires Paired(capacities, loads)
  {
    && (forall key ::
        key in done && Leads(capacities, key) ==> PairApplied(capacities, loads, constraints, result, key))
    && (forall key :: !Member(capacities, done, key) ==>
        (key in result <==> key in ratios) && (key in ratios && key in result ==> result[key] == ratios[key]))
  }

  lemma ApplyPair(capacities: map<nat, Capacity>, loads: map<nat, int>, constraints: Constraints,
                  ratios: map<nat, int>, result: map<nat, int>, done: set<nat>, key: nat, after: map<nat, int>)
    requires Paired(capacities, loads) && Applied(capacities, loads, constraints, ratios, result, done) && key !in done
    requires if Leads(capacities, key)
             then PairApplied(capacities, loads, constraints, after, key)
                  && after.Keys == result.Keys + {key, capacities[key].opposite}
                  && forall k :: k in result && k != key && k != capacities[key].opposite ==> after[k] == result[k]
             else after == result
    ensures Applied(capacities, loads, constraints, ratios, after, done + {key})
  {
    forall k | k in done && Leads(capacities, k) ensures PairApplied(capacities, loads, constraints, after, k) {
      assert PairApplied(capacities, loads, constraints, result, k);
      if Leads(capacities, key) {
        assert {k, capacities[k].opposite} !! {key, capacities[key].opposite};
      }
    }
  }

  /** Replaces the ratios of every pair that shares banks; fails on arguments no allocation accepts. */
  method ApplyBankDomainRatios(capacities: map<nat, Capacity>, loads: map<nat, int>, ratios: map<nat, int>,
                               constraints: Constraints)
    returns (result: map<nat, int>, valid: bool)
    requires Paired(capacities, loads)
    ensures valid <==> forall key :: Leads(capacities, key) ==> RequestOf(capacities, loads, constraints, key).Valid()
    ensures valid ==> Applied(capacities, loads, constraints, ratios, result, capacities.Keys)
  {
    result, valid := ratios, true;
    var rest := capacities.Keys;
    while rest != {}
      invariant rest <= capacities.Keys
                && Applied(capacities, loads, constraints, ratios, result, capacities.Keys - rest)
    {
      var key :| key in rest;
      ghost var before, done := result, capacities.Keys - rest;
      rest := rest - {key};
      if Leads(capacities, key) {
        var q := RequestOf(capacities, loads, constraints, key);
        var outcome := AllocateSharedBanks(q);
        if outcome.InvalidArgument? {
          return result, false;
        }
        UnlimitedSplit(q);
        var opposite := capacities[key].opposite;
        if outcome.NoSplit? {
          result := result[key := constraints.frameSlots + 1][opposite := constraints.frameSlots + 1];
        } else {
          result := result[key := outcome.allocation.forwardRatio][opposite := outcome.allocation.reverseRatio];
        }
      }
      ApplyPair(capacities, loads, constraints, ratios, before, done, key, result);
      assert done + {key} == capacities.Keys - rest;
    }
    assert capacities.Keys - {} == capacities.Keys;
  }
}
