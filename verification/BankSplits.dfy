// What a split of the banks is worth, in whole numbers: ratios as least multiples, and the pressure on the
// wires by cross-multiplication.
module BankSplits {
  import opened Numbers
  import opened Wrappers
  import opened BankAllocation

  // ---------------------------------------------------------------------------
  // Ratios
  // ---------------------------------------------------------------------------

  /** One, or a multiple of the quantum; no less than the minimum and enough for the signals on the lanes. */
  ghost predicate Enough(minRatio: int, quantum: int, lanes: int, signals: int, v: int)
    requires quantum >= 1
  {
    v >= 1 && (v == 1 || v % quantum == 0) && v >= minRatio && v * lanes >= signals
  }

  ghost predicate LeastEnough(minRatio: int, quantum: int, lanes: int, signals: int, v: int)
    requires quantum >= 1
  {
    Enough(minRatio, quantum, lanes, signals, v) && forall u :: Enough(minRatio, quantum, lanes, signals, u) ==> v <= u
  }

  lemma MultipleIff(v: int, quantum: int)
    requires quantum >= 1 && v >= 1
    ensures (exists k :: k >= 1 && v == k * quantum) <==> v % quantum == 0
  {
    if v % quantum == 0 {
      var k := v / quantum;
      assert v == k * quantum;
      assert k >= 1;
    }
    if k :| k >= 1 && v == k * quantum {
      MultipleRemainder(k, quantum);
    }
  }

  lemma MultipleRemainder(k: int, quantum: int)
    requires quantum >= 1
    ensures (k * quantum) % quantum == 0
  {
    var x := k * quantum;
    NoSmallMultiple(k - x / quantum, quantum, x % quantum);
  }

  lemma NoSmallMultiple(k: int, quantum: int, product: int)
    requires product == k * quantum && 0 <= product < quantum
    ensures product == 0
  {
    if k >= 1 {
      Multiply(1, k, quantum);
    } else if k <= -1 {
      Multiply(k, -1, quantum);
    }
  }

  /** The ratio of a direction with this many signals on this many banks. */
  ghost predicate RatioFits(q: Request, signals: int, banks: int, v: int)
    requires q.Valid()
  {
    && (signals == 0 ==> v == 1)
    && (signals > 0 ==> banks >= 1 && LeastEnough(q.minRatio, q.ratioQuantum, banks * q.wiresPerBank, signals, v)
                        && (q.maxRatio.Some? ==> v <= q.maxRatio.value))
  }

  lemma LeastIff(q: Request, signals: int, banks: int, v: int)
    requires q.Valid() && v >= 1
    ensures LeastRatio(q, signals, banks, v) <==>
              LeastEnough(q.minRatio, q.ratioQuantum, banks * q.wiresPerBank, signals, v)
  {
    forall u | u >= 1
      ensures Quantized(q, u) && Carries(q, signals, banks, u) <==>
                Enough(q.minRatio, q.ratioQuantum, banks * q.wiresPerBank, signals, u)
    {
      MultipleIff(u, q.ratioQuantum);
    }
  }

  lemma RatioMeans(q: Request, signals: int, banks: int)
    requires q.Valid() && signals >= 0 && Fits(q, signals, banks)
    ensures RatioFits(q, signals, banks, Ratio(q, signals, banks).value)
  {
    if signals > 0 {
      RatioIsLeast(q, signals, banks);
      UnlimitedIsLeast(q, signals, banks);
      LeastIff(q, signals, banks, Ratio(q, signals, banks).value);
    }
  }

  // ---------------------------------------------------------------------------
  // Pressure
  // ---------------------------------------------------------------------------

  /** The wires of some banks; an idle direction without a bank counts as one wire without signals. */
  ghost function Wires(q: Request, banks: int): int { if banks == 0 then 1 else banks * q.wiresPerBank }

  /** Signals on a direction's banks, which are not idle only if there is a bank. */
  ghost predicate Placed(q: Request, signals: int, banks: int) {
    signals >= 0 && banks >= 0 && (banks == 0 ==> signals == 0)
  }

  lemma PressureIs(q: Request, signals: int, banks: int)
    requires q.Valid() && Placed(q, signals, banks)
    ensures Wires(q, banks) >= 1 && Pressure(q, signals, banks) == signals as real / Wires(q, banks) as real
  {
    if banks > 0 {
      LanesPositive(banks, q.wiresPerBank);
    }
  }

  /** Fewer signals per wire, or as many. */
  lemma PressureOrder(q: Request, n: int, b: int, m: int, c: int)
    requires q.Valid() && Placed(q, n, b) && Placed(q, m, c)
    ensures Pressure(q, n, b) <= Pressure(q, m, c) <==> n * Wires(q, c) <= m * Wires(q, b)
  {
    PressureIs(q, n, b);
    PressureIs(q, m, c);
    Fractions(n, Wires(q, b), m, Wires(q, c));
  }

  lemma AddFractions(n: int, d: int, m: int, e: int)
    requires d >= 1 && e >= 1
    ensures d * e >= 1
    ensures n as real / d as real + m as real / e as real == (n * e + m * d) as real / (d * e) as real
  {
    Multiply(1, e, d);
    var x, y, k := n as real / d as real, m as real / e as real, (d * e) as real;
    assert x * d as real == n as real && y * e as real == m as real;
    Regroup(x, d as real, e as real);
    Regroup(y, e as real, d as real);
    SumOver(x, y, k, (n * e + m * d) as real);
  }

  lemma SumOver(x: real, y: real, k: real, total: real)
    requires k > 0.0 && x * k + y * k == total
    ensures x + y == total / k
  {
    assert (x + y) * k == total;
  }

  // ---------------------------------------------------------------------------
  // Which split is better
  // ---------------------------------------------------------------------------

  /** The greatest number of signals per wire is no greater in the first split. */
  ghost predicate NoWorsePressure(q: Request, a: int, b: int)
    requires q.Valid()
  {
    var f, r := q.forwardSignals, q.reverseSignals;
    var fa, ra := Wires(q, a), Wires(q, q.bankCount - a);
    var fb, rb := Wires(q, b), Wires(q, q.bankCount - b);
    (f * fb <= f * fa || f * rb <= r * fa) && (r * fb <= f * ra || r * rb <= r * ra)
  }

  /** The signals per wire of both directions together are no more in the first split. */
  ghost predicate NoMorePressure(q: Request, a: int, b: int)
    requires q.Valid()
  {
    var f, r := q.forwardSignals, q.reverseSignals;
    var fa, ra := Wires(q, a), Wires(q, q.bankCount - a);
    var fb, rb := Wires(q, b), Wires(q, q.bankCount - b);
    (f * ra + r * fa) * (fb * rb) <= (f * rb + r * fb) * (fa * ra)
  }

  lemma FeasiblePlaced(q: Request, a: int)
    requires q.Valid() && Feasible(q, a)
    ensures Placed(q, q.forwardSignals, a) && Placed(q, q.reverseSignals, q.bankCount - a)
  {
  }

  lemma WorstPressureOrder(q: Request, a: int, b: int)
    requires q.Valid() && Feasible(q, a) && Feasible(q, b)
    ensures ObjectiveOf(q, a).worstPressure <= ObjectiveOf(q, b).worstPressure <==> NoWorsePressure(q, a, b)
  {
    FeasiblePlaced(q, a);
    FeasiblePlaced(q, b);
    PressureOrder(q, q.forwardSignals, a, q.forwardSignals, b);
    PressureOrder(q, q.forwardSignals, a, q.reverseSignals, q.bankCount - b);
    PressureOrder(q, q.reverseSignals, q.bankCount - a, q.forwardSignals, b);
    PressureOrder(q, q.reverseSignals, q.bankCount - a, q.reverseSignals, q.bankCount - b);
  }

  lemma TotalPressureIs(q: Request, a: int)
    requires q.Valid() && Feasible(q, a)
    ensures var f, r := Wires(q, a), Wires(q, q.bankCount - a);
            && f * r >= 1
            && ObjectiveOf(q, a).totalPressure ==
                 (q.forwardSignals * r + q.reverseSignals * f) as real / (f * r) as real
  {
    FeasiblePlaced(q, a);
    PressureIs(q, q.forwardSignals, a);
    PressureIs(q, q.reverseSignals, q.bankCount - a);
    AddFractions(q.forwardSignals, Wires(q, a), q.reverseSignals, Wires(q, q.bankCount - a));
  }

  lemma TotalPressureOrder(q: Request, a: int, b: int)
    requires q.Valid() && Feasible(q, a) && Feasible(q, b)
    ensures ObjectiveOf(q, a).totalPressure <= ObjectiveOf(q, b).totalPressure <==> NoMorePressure(q, a, b)
  {
    TotalPressureIs(q, a);
    TotalPressureIs(q, b);
    FeasiblePlaced(q, a);
    FeasiblePlaced(q, b);
    SumIsNatural(q.forwardSignals, Wires(q, q.bankCount - a), q.reverseSignals, Wires(q, a));
    SumIsNatural(q.forwardSignals, Wires(q, q.bankCount - b), q.reverseSignals, Wires(q, b));
    Fractions(q.forwardSignals * Wires(q, q.bankCount - a) + q.reverseSignals * Wires(q, a),
              Wires(q, a) * Wires(q, q.bankCount - a),
              q.forwardSignals * Wires(q, q.bankCount - b) + q.reverseSignals * Wires(q, b),
              Wires(q, b) * Wires(q, q.bankCount - b));
  }

  lemma SumIsNatural(f: int, r: int, g: int, s: int)
    requires f >= 0 && r >= 0 && g >= 0 && s >= 0
    ensures f * r + g * s >= 0
  {
    Multiply(0, f, r);
    Multiply(0, g, s);
  }

  /** The ratios of a split. */
  ghost predicate Ratios(q: Request, forward: int, f: int, r: int)
    requires q.Valid()
  {
    && 0 <= forward <= q.bankCount
    && RatioFits(q, q.forwardSignals, forward, f) && RatioFits(q, q.reverseSignals, q.bankCount - forward, r)
  }

  lemma OneRatio(q: Request, signals: int, banks: int, v: int)
    requires q.Valid() && signals >= 0 && banks >= 0 && RatioFits(q, signals, banks, v)
    ensures Fits(q, signals, banks) && Ratio(q, signals, banks).value == v
  {
    if signals > 0 {
      LeastIff(q, signals, banks, v);
      UnlimitedIsLeast(q, signals, banks);
      assert v == Unlimited(q, signals, banks);
    }
  }

  /** The first split is preferred: by its greater ratio, the sum of the ratios, the greatest and the total number of
      signals per wire, and the number of forward banks. */
  ghost predicate Better(q: Request, a: int, fa: int, ra: int, b: int, fb: int, rb: int)
    requires q.Valid()
  {
    var worst, other := if fa > ra then fa else ra, if fb > rb then fb else rb;
    || worst < other
    || (worst == other && fa + ra < fb + rb)
    || (worst == other && fa + ra == fb + rb && !NoWorsePressure(q, b, a))
    || (worst == other && fa + ra == fb + rb && NoWorsePressure(q, a, b) && NoWorsePressure(q, b, a)
        && (!NoMorePressure(q, b, a) || (NoMorePressure(q, a, b) && NoMorePressure(q, b, a) && a < b)))
  }

  lemma BetterMeans(q: Request, a: int, b: int)
    requires q.Valid() && Feasible(q, a) && Feasible(q, b)
    ensures ObjectiveOf(q, a).Less(ObjectiveOf(q, b)) <==>
              Better(q, a, Ratio(q, q.forwardSignals, a).value, Ratio(q, q.reverseSignals, q.bankCount - a).value,
                     b, Ratio(q, q.forwardSignals, b).value, Ratio(q, q.reverseSignals, q.bankCount - b).value)
  {
    WorstPressureOrder(q, a, b);
    WorstPressureOrder(q, b, a);
    TotalPressureOrder(q, a, b);
    TotalPressureOrder(q, b, a);
  }

  /** A returned allocation divides the banks and their lanes, has the least sufficient ratios, and is better than
      every other division that has sufficient ratios. */
  lemma AllocationIsBest(q: Request, allocation: Allocation, other: int, f: int, r: int)
    requires q.Valid() && BestSplit(q, allocation.forwardBanks, q.bankCount)
    requires allocation == AllocationOf(q, allocation.forwardBanks)
    ensures allocation.forwardBanks + allocation.reverseBanks == q.bankCount
    ensures allocation.forwardLanes == allocation.forwardBanks * q.wiresPerBank
    ensures allocation.reverseLanes == allocation.reverseBanks * q.wiresPerBank
    ensures Ratios(q, allocation.forwardBanks, allocation.forwardRatio, allocation.reverseRatio)
    ensures Ratios(q, other, f, r) && other != allocation.forwardBanks ==>
              Better(q, allocation.forwardBanks, allocation.forwardRatio, allocation.reverseRatio, other, f, r)
  {
    var forward := allocation.forwardBanks;
    RatioMeans(q, q.forwardSignals, forward);
    RatioMeans(q, q.reverseSignals, q.bankCount - forward);
    if Ratios(q, other, f, r) && other != forward {
      OneRatio(q, q.forwardSignals, other, f);
      OneRatio(q, q.reverseSignals, q.bankCount - other, r);
      BetterMeans(q, forward, other);
    }
  }

  /** No allocation exactly if no division of the banks has sufficient ratios. */
  lemma NoAllocationIff(q: Request)
    requires q.Valid()
    ensures (forall forward :: !Feasible(q, forward)) <==> forall forward, f, r :: !Ratios(q, forward, f, r)
  {
    forall forward | Feasible(q, forward)
      ensures Ratios(q, forward, Ratio(q, q.forwardSignals, forward).value,
                     Ratio(q, q.reverseSignals, q.bankCount - forward).value)
    {
      RatioMeans(q, q.forwardSignals, forward);
      RatioMeans(q, q.reverseSignals, q.bankCount - forward);
    }
    forall forward, f, r | Ratios(q, forward, f, r) ensures Feasible(q, forward) {
      OneRatio(q, q.forwardSignals, forward, f);
      OneRatio(q, q.reverseSignals, q.bankCount - forward, r);
    }
  }

  // ---------------------------------------------------------------------------
  // Pairs that share banks
  // ---------------------------------------------------------------------------

  /** The lower of two directions that share banks, with its opposite. */
  ghost predicate SharesBanks(capacities: map<nat, Capacity>, key: nat, opposite: nat) {
    key in capacities && capacities[key].banked && capacities[key].opposite == opposite && key < opposite
  }

  /** Each of a pair carries its own load on its own banks at the least sufficient ratio, or both are over budget. */
  lemma PairRatios(capacities: map<nat, Capacity>, loads: map<nat, int>, constraints: Constraints,
                   ratios: map<nat, int>, result: map<nat, int>, key: nat, opposite: nat)
    requires Paired(capacities, loads) && Applied(capacities, loads, constraints, ratios, result, capacities.Keys)
    requires SharesBanks(capacities, key, opposite)
    ensures key in loads && opposite in loads && key in result && opposite in result
    ensures var c := capacities[key];
            var q := Request(loads[key], loads[opposite], c.bankCount, c.wiresPerBank, constraints.minRatio,
                             constraints.ratioQuantum, None);
            && q.Valid()
            && if loads[key] > 0 && loads[opposite] > 0 && c.bankCount == 1
               then result[key] == result[opposite] == constraints.frameSlots + 1
               else exists forward :: Ratios(q, forward, result[key], result[opposite])
  {
    assert Leads(capacities, key) && PairApplied(capacities, loads, constraints, result, key);
    var q := RequestOf(capacities, loads, constraints, key);
    if !(q.forwardSignals > 0 && q.reverseSignals > 0 && q.bankCount == 1) {
      var forward :| BestSplit(q, forward, q.bankCount) && result[key] == AllocationOf(q, forward).forwardRatio
                     && result[opposite] == AllocationOf(q, forward).reverseRatio;
      RatioMeans(q, q.forwardSignals, forward);
      RatioMeans(q, q.reverseSignals, q.bankCount - forward);
      assert Ratios(q, forward, result[key], result[opposite]);
    }
  }

  /** Directions that share no banks keep their ratios. */
  lemma OthersKeepRatios(capacities: map<nat, Capacity>, loads: map<nat, int>, constraints: Constraints,
                         ratios: map<nat, int>, result: map<nat, int>, key: nat)
    requires Paired(capacities, loads) && Applied(capacities, loads, constraints, ratios, result, capacities.Keys)
    requires key !in capacities || !capacities[key].banked
    ensures key in result <==> key in ratios
    ensures key in ratios ==> result[key] == ratios[key]
  {
    assert !Member(capacities, capacities.Keys, key);
  }
}
