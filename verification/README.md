# EmuFlow lane allocation, certificates and routing kernels

EmuFlow partitions a design over several FPGAs and has to carry many signals over few wires.
This project models the parts of it that decide who shares what: the packing of time-division
multiplexed (TDM) groups onto lanes, the checkers that accept or reject the answers of external
optimizers, the grouping oracle, the binding of groups to wires and pins, the integer split of
banks, and three graph kernels of the RapidWright adapters. `dafny verify dfyconfig.toml` checks
all of it.

The files, by the part of the program they follow:

| files | part |
|---|---|
| `HopcroftKarp`, `Matchings` | the in-place Hopcroft-Karp matcher, and why a failed layering proves its matching maximum |
| `ShortestPaths`, `ResidualNetwork`, `ResidualGraph`, `MinCostPairs` | successive shortest paths with potentials over residual edge lists: Dijkstra, the flow and its duals, the graph construction, the rounds |
| `LaneGroups`, `SharedLanes`, `LaneBundles`, `LaneAssignment` | packing opposite directions onto shared lanes, what it costs and materializes, and why slots never collide and the lanes then suffice |
| `TimingGuards`, `FixedLanes` | explicit ratios, one group per protected lane, the lane fixed for it, and why bundling never objects to it |
| `Certificates`, `ChannelCosts`, `ChannelCertificates`, `ChannelBlocks`, `BankChannels`, `BankOutcome` | the optimality certificates of the two bank and channel stages, plain and compressed, and what an accepted answer says about the design |
| `Grouping`, `GroupingRule`, `Lexicographic` | the greedy grouping oracle, and what its rule means for the signals |
| `WireBinding`, `WireRecords`, `WireSharing` | validation of the electrical binding; which entries may share a wire, and the pin plan's collision check |
| `BankAllocation`, `BankSplits`, `Ranking` | bank splits and what they are worth; tie-averaged ranks and their correlation |
| `RecoveryCuts`, `RecoveryTree`, `RecoveryBoxes`, `RecoverySchedule` | the ternary partition tree of recovery routing and every interleaving of its parallel visit |
| `ClockSearch` | the bounded search for leaf clock buffers |
| `Chains` | decomposing cascade edges into chains |
| `FiniteSums`, `Numbers`, `Sequences`, `Wrappers` | shared helpers |

Idealizations that hold throughout: floating-point numbers are exact reals; names are naturals in
their sort order; a heap, a hash set or a dictionary whose order the program does not rely on is a
set or a map from which an arbitrary (or the least) element is taken; errors are results. Where a
method has a ghost parameter `limit`, it bounds path costs below the marker `1 << 120` that the
flow uses for unreached nodes.

One property is weaker than one might expect. Validation of an electrical binding compares
directions by the labels `a_to_b` and `b_to_a`, which are relative to the ends a record names. Two
records on one wire may name the ends in different orders, and then their groups drive the wire the
same way; nothing in this validator compares their slots. `WireSharing.MisalignedCollision` is an
accepted binding in which two entries take one wire, one slot and one direction.
`WireSharing.SlotsExclusiveIffApart` says exactly when that is excluded: if and only if records that
name the ends of a wire differently have members on disjoint slots, and if and only if no two
entries of the schedule have the same link, direction, lane and slot in the pin plan. The gap is in
this validator alone: every caller in the repository validates the pin plan first
(src/emuflow/phase6.py:249-268 and 627-647, src/emuflow/chimew_pipeline.py:439-444,
src/emuflow/chimew_phase6.py:590-642), whose collision set (src/emuflow/pin_planning.py:552-557) is
that last condition, and which rejects the misaligned binding's plan. `WireSharing.CheckCollisions`
models it.

Some checks of the program can never fire, and the contracts say so: the repeated-edge and cycle
checks inside the chain walk (`Chains.DecomposeChains`), the empty-side fallback of the partition
tree (`RecoveryTree.Deal`), the "conflicting fixed lanes" and "unexpectedly infeasible" errors of
lane bundling (`LaneBundles.BundleSharedBidirectionalGroups`), and, on schedules that tdm.py has
validated, the errors about guarded lanes that mix, repeat or collide (`FixedLanes.CoalescedIsExact`,
`FixedLanes.DirectionFixedOnce`, `FixedLanes.CoalescedChoice`).

## Model

| member | source | states |
|---|---|---|
| HopcroftKarp.MaximumBipartiteMatching | src/emuflow/academic_chimew.py:749-795 | the partner arrays are mutually inverse, use adjacency edges only and pair as many vertices as any matching can |
| HopcroftKarp.Matcher.Bfs | src/emuflow/academic_chimew.py:759-777 | the layers enter every matched vertex from the layer before; without a free vertex in reach the reached set is closed under alternating paths |
| HopcroftKarp.Matcher.Dfs | src/emuflow/academic_chimew.py:779-788 | success makes the root's side consistent with one right entry stale until the caller overwrites it; failure changes no partner and removes vertices from the layers only |
| HopcroftKarp.Matcher.Phase | src/emuflow/academic_chimew.py:790-795 | a phase after a successful layering adds at least one pair and keeps the arrays mutually inverse |
| HopcroftKarp.SomeSearchSucceeds | src/emuflow/academic_chimew.py:759-795 | if the layering met a free vertex, not every search from a free left vertex can fail |
| Matchings.ClosedIsMaximum | src/emuflow/academic_chimew.py:749-795 | a set closed under alternating paths gives a vertex cover of the matching's size, so no matching is larger |
| ShortestPaths.ShortestPathsFrom | src/emuflow/academic_chimew.py:838-857 | Dijkstra over reduced costs ends with distances no residual edge improves and a tree of tight edges ordered by settling time |
| ShortestPaths.Relax | src/emuflow/academic_chimew.py:846-857 | relaxing all edges of the settled node keeps the search invariant |
| ResidualNetwork.FeasibleIsOptimal | src/emuflow/academic_chimew.py:798-876 | a flow with potentials that leave no residual edge negative is a matching no dearer than any other of its size |
| ResidualNetwork.CutIsMaximum | src/emuflow/academic_chimew.py:858-861 | when the sink is not reachable in the residual network, no matching is larger |
| ResidualGraph.PushKeepsEncoding | src/emuflow/academic_chimew.py:871-873 | moving one unit of capacity to the reverse edge keeps the edge lists the encoding of the changed flow |
| ResidualGraph.AddPairEdges | src/emuflow/academic_chimew.py:813-836 | the constructed edge lists hold exactly the network's arcs, and the remembered positions point at the pair edges |
| MinCostPairs.Advance | src/emuflow/academic_chimew.py:862-864 | adding distances to the potentials of reached nodes only keeps reduced costs nonnegative from every reached node, and unreached nodes stay unreached |
| MinCostPairs.Walk | src/emuflow/academic_chimew.py:866-874 | following one predecessor edge back and pushing a unit over it keeps the flow one unit short at the new node and later rows untouched |
| MinCostPairs.Augment | src/emuflow/academic_chimew.py:865-875 | a whole augmentation sends exactly one unit more and keeps the flow conserved and feasible |
| MinCostPairs.CheapestIsLexicographic | src/emuflow/academic_chimew.py:820-836 | a least combined cost is a least primary cost and, among those, a least sum of reading-order ranks |
| MinCostPairs.MinimumCostPairs | src/emuflow/academic_chimew.py:798-876 | returns a matching of exactly the target size that no other one beats on primary cost and then rank sum; fails only if none of that size exists; the incomplete-selection error cannot happen |
| LaneGroups.GroupRatioSlots | src/emuflow/academic_chimew.py:699-727 | accepts exactly the groups with one positive ratio, distinct slots and no more members than the ratio |
| LaneGroups.EndpointsOfEqual | src/emuflow/academic_chimew.py:730-746 | the end a group drives from has its drivers' position and the other end its loads', in either direction |
| LaneGroups.DriverMoved | src/emuflow/academic_chimew.py:730-746 | moving one of n drivers moves the driving end by an n-th of that and the other end not at all |
| LaneGroups.LoadMoved | src/emuflow/academic_chimew.py:730-746 | moving one load moves the other end by the load's share of its member's share |
| SharedLanes.IndexLanes | src/emuflow/academic_chimew.py:918-935 | indexes the fixed groups of a direction by lane and fails exactly if two share one |
| SharedLanes.ForcedPairs | src/emuflow/academic_chimew.py:936-944 | the forced pairs are exactly the opposite groups fixed to one lane, and it fails exactly if such a pair collides on a slot |
| SharedLanes.MaximumAdmissible | src/emuflow/academic_chimew.py:946-984 | a maximum matching of the unforced groups together with the forced pairs is a largest admissible set of pairs |
| SharedLanes.ChoosePairs | src/emuflow/academic_chimew.py:908-1002 | the budget error is raised exactly if no admissible set containing the forced pairs reaches the required size; otherwise the chosen set has the least size that fits, the least cost of that size and, among those, the least sum of reading-order ranks of the added pairs; the flow never fails |
| SharedLanes.ChosenIsFewest | src/emuflow/academic_chimew.py:916-984 | a choice is made exactly if some admissible set leaves no more groups than lanes, and it is a smallest such set |
| SharedLanes.RankFollowsOrder | src/emuflow/academic_chimew.py:820-836 | reading-order ranks grow with the forward group and then with the reverse group of a pair |
| LaneBundles.BundleSharedBidirectionalGroups | src/emuflow/academic_chimew.py:879-1041 | every directional group lands in exactly one materialized group with its members, in their order or, when two are joined, by id; joined groups are numbered in the order of their forward groups; no two members of a materialized group share a scheduled slot; at most the lane count remains; fixed lanes are kept and distinct |
| LaneBundles.SourcesPartition | src/emuflow/academic_chimew.py:1003-1041 | the sources of the materialized groups partition the directional groups |
| LaneBundles.JoinedIffApart | src/emuflow/academic_chimew.py:959-967 | two groups may be joined exactly if they are a link's two directions, no two of their members are scheduled in one slot, and they are not fixed to two lanes |
| LaneBundles.JoinedCost | src/emuflow/academic_chimew.py:968-977 | the cost of joining two groups is a thousand times the distance of their positions at the two ends, to the nearest integer, halves up |
| LaneBundles.BundlesExclusive | src/emuflow/academic_chimew.py:1003-1041 | in a finished bundling no two members of a materialized group are scheduled in one slot |
| LaneBundles.PlacedMeans | src/emuflow/academic_chimew.py:1003-1021 | a materialized group lists a member with a direction exactly if a source of that direction has it |
| LaneAssignment.SplitLanes | src/emuflow/academic_chimew.py:1460-1482 | reports two groups on one lane or too few lanes exactly in those cases, and otherwise splits the groups and lanes |
| LaneAssignment.SplitMeans | src/emuflow/academic_chimew.py:1462-1479 | the assignable lanes are those of the link that none of its groups is fixed to, and every fixed lane is indexed with its group |
| LaneAssignment.LanesSuffice | src/emuflow/academic_chimew.py:1460-1482 | after bundling, with the link's own fixed lanes in range, neither lane error can occur, whatever is fixed on other links |
| TimingGuards.MaterializeRatios | src/emuflow/chimew_grouping.py:169-225 | the ratio of every entry is the occupancy of its lane; fails exactly on explicit ratios, repeated ids or slot collisions |
| TimingGuards.CoalesceGuardLanes | src/emuflow/academic_chimew.py:527-647 | the protected lanes get, in lane order, the group numbers from one above the greatest refined one, each for exactly the lane's entries; all other entries keep their group; fails exactly on inputs that do not fit together |
| TimingGuards.LaneOrder | src/emuflow/academic_chimew.py:629-633 | lanes are coalesced by link, then by source, by sink and by lane number |
| TimingGuards.GroupIsLane | src/emuflow/academic_chimew.py:614-647 | a guarded entry shares its group with exactly the entries of its lane |
| TimingGuards.ExactLaneNeverFails | src/emuflow/academic_chimew.py:1348-1365 | no part of a coalesced group mixes a protected lane with another, so the exact-lane error cannot occur |
| TimingGuards.BundlePassesChecks | src/emuflow/academic_chimew.py:699-727 | with occupancies as ratios the bundle of a lane passes the ratio and slot checks |
| FixedLanes.GroupEntries | src/emuflow/academic_chimew.py:1309-1336 | the members of every link, direction and number are exactly the entries with that key, in schedule order; no other group exists |
| FixedLanes.GroupedMeans | src/emuflow/academic_chimew.py:1309-1336 | a member is in a group exactly for an entry of that link, number and way between the ends, with the entry's driver and load positions |
| FixedLanes.FixLanes | src/emuflow/academic_chimew.py:1338-1365 | a group is fixed exactly if it has an entry on a protected lane, to the lane of all its entries; fails exactly if such a group mixes lanes |
| FixedLanes.CoalescedIsExact | src/emuflow/academic_chimew.py:1358-1364 | coalesced groups, split by link and direction, never mix a protected lane with another one, so fixing cannot fail |
| FixedLanes.DirectionFixedOnce | src/emuflow/academic_chimew.py:1462-1472 | coalesced groups of one link and direction are never fixed to one lane |
| FixedLanes.CoalescedChoice | src/emuflow/academic_chimew.py:918-944 | on a shared link neither error about guarded lanes can occur, only the lane budget can be exceeded |
| FixedLanes.FixedLanesExist | src/emuflow/academic_chimew.py:1460-1482 | scheduled lanes in range put the link's own fixed lanes in range, as the lane assignment needs |
| Certificates.VerifyCertificate | src/emuflow/chimew_bank_channel.py:430-475 | accepts exactly if the claims cover the groups with listed candidates in capacity and total, and no residual edge has a negative reduced cost |
| Certificates.CertifiedIsOptimal | src/emuflow/chimew_bank_channel.py:430-475 | whatever the potentials, an accepted assignment costs no more than any assignment within the capacities |
| ChannelCosts.SameSignatureSameCost | src/emuflow/chimew_bank_channel.py:478-491 | groups with equal signatures, that is with members and fan-ins reordered, cost the same on every channel |
| ChannelCosts.FreeIffOnTheEnds | src/emuflow/chimew_bank_channel.py:317-336 | with positive weights a group costs nothing exactly if every driver is on its signal's sending end and every load on the other |
| ChannelCosts.DriverAway | src/emuflow/chimew_bank_channel.py:317-336 | a driver off its end costs its weight for every unit along either axis |
| ChannelCosts.LoadAway | src/emuflow/chimew_bank_channel.py:317-336 | one of n loads off its end costs an n-th of the weight for every unit along either axis |
| ChannelCosts.CostToTheNearest | src/emuflow/chimew_bank_channel.py:339-344 | candidate costs are scaled costs to the nearest integer, halves up |
| ChannelCertificates.ClassIsRows | src/emuflow/chimew_bank_channel.py:608-625 | checking a class's first member, skipping its channel only if it is alone, is checking every unselected edge of every member |
| ChannelCertificates.CompressedIsCertified | src/emuflow/chimew_bank_channel.py:494-625 | the compressed conditions hold exactly if the expanded certificate does |
| ChannelCertificates.VerifyStage2Certificate | src/emuflow/chimew_bank_channel.py:494-625 | accepts exactly what the plain check accepts on the graph of eligible edges with unit capacities |
| ChannelBlocks.BlockExactlyFilled | src/emuflow/chimew_bank_channel.py:540-559 | unless the bank is dedicated to one direction, the groups of each direction take every channel of its block and no other |
| BankChannels.Evaluate | src/emuflow/chimew_bank_channel.py:628-713 | accepts exactly if stage 1 is certified and every bank in use has both priorities certified, the cheaper one chosen and the totals right; returns the channels of the chosen ones |
| BankChannels.BanksOptimal | src/emuflow/chimew_bank_channel.py:639-666 | no assignment of groups to banks of their domains within the channel counts is cheaper than an accepted one |
| BankChannels.ChannelsOptimal | src/emuflow/chimew_bank_channel.py:667-705 | in every bank the chosen cost is at most that of any eligible assignment under either priority |
| BankChannels.ChannelsInjective | src/emuflow/chimew_bank_channel.py:671-711 | distinct groups of an accepted report are on distinct channels |
| BankOutcome.AcceptedBank | src/emuflow/chimew_bank_channel.py:639-664 | every group of an accepted answer is claimed for a bank of its domain at its cost between the bank's two points |
| BankOutcome.EligibleIffServes | src/emuflow/chimew_bank_channel.py:514-559 | a channel is eligible for a group exactly if all groups on the bank are TDM groups of one direction, or it lies in the block of the group's direction, sized by counting the groups, with common signals on the rest |
| BankOutcome.AcceptedChannel | src/emuflow/chimew_bank_channel.py:671-702 | under either priority every group is claimed for a channel of its bank that serves it, at its cost between the channel's pins |
| BankOutcome.CertifiedByAnswer | src/emuflow/chimew_bank_channel.py:689-699 | each priority is certified with the potentials and the cost the answer gives for that very bank and priority |
| BankOutcome.AlternativeAddsUp | src/emuflow/chimew_bank_channel.py:561-596 | the cost of a priority is the sum of its claims' costs |
| BankOutcome.ChosenPriority | src/emuflow/chimew_bank_channel.py:704-706 | the chosen priority is the second exactly if it is strictly cheaper |
| BankOutcome.OutcomeChannel | src/emuflow/chimew_bank_channel.py:709-711 | the outcome takes every group's channel from the chosen priority of its bank |
| BankOutcome.Stage2AddsUp | src/emuflow/chimew_bank_channel.py:670-713 | the second stage's cost is the sum of the cheaper costs over the banks in use |
| BankOutcome.ChosenIsCheapest | src/emuflow/chimew_bank_channel.py:667-705 | no assignment of a bank's groups to different channels that serve them, under either priority, costs less than the chosen one |
| BankOutcome.SpreadIsCheapest | src/emuflow/chimew_bank_channel.py:639-666 | no placement of the groups on banks of their domains within the channel counts costs less than the first stage |
| Grouping.FillGroup | src/emuflow/chimew_grouping.py:351-412 | the queue-based loop packs a group by the greedy rule stated on sets: a seed, then always a nearest compatible signal, until full or every signal left collides; the target is the union of the members; `GroupingRule` says what seed, nearest and colliding are |
| Grouping.SeedFirst | src/emuflow/chimew_grouping.py:237-248 | the seed's own encoding is always picked first |
| Grouping.OracleGroups | src/emuflow/chimew_grouping.py:314-413 | every group is packed greedily from what its bucket has left, in bucket order; the assignment names each signal's group, and the crossing bits add up the sizes of the groups' unions; fails exactly on a ratio below one |
| Grouping.GroupsPartition | src/emuflow/chimew_grouping.py:314-413 | the groups hold every signal exactly once |
| Grouping.GroupsFit | src/emuflow/chimew_grouping.py:362-408 | each group has one direction, ratio and guard lane, no more members than the ratio, distinct slots, and was closed only when full or when every signal of its bucket left over collides |
| GroupingRule.GroupsGoTogether | src/emuflow/chimew_grouping.py:163-166 | members of a group have one direction, ratio and guarded lane and no two of them one frozen slot; a group is full, or every signal of its bucket left over has a member's slot |
| GroupingRule.GroupsInOrder | src/emuflow/chimew_grouping.py:342-350 | groups come by direction, unguarded before guarded, then by guarded lane and by ratio |
| GroupingRule.MaskOrder | src/emuflow/chimew_grouping.py:237-248 | encodings compare as numbers: by the highest line in which they differ |
| GroupingRule.SeedMeans | src/emuflow/chimew_grouping.py:359-370 | a seed crosses the most lines, and is the greatest encoding among those |
| GroupingRule.NearestKeyMeans | src/emuflow/chimew_grouping.py:237-248 | the target itself comes first, then encodings that add no line to it, then those that differ from it in fewest lines; ties go to more lines, to the rarer, to the greater encoding and to the earlier signal |
| GroupingRule.NextMember | src/emuflow/chimew_grouping.py:372-401 | of the signals with a free slot the next member is the first of its encoding, and no other encoding's first signal is closer to the target |
| GroupingRule.BitsCountCrossings | src/emuflow/chimew_grouping.py:411 | the crossing bits count every line once for every group that crosses it |
| WireBinding.ValidateMembers | src/emuflow/chimew_phase6.py:853-900 | the tallied sets accept exactly the groups whose members fit the plan, have distinct slots, one sufficient ratio per direction and the announced directions |
| WireBinding.FreeIffCompatible | src/emuflow/chimew_phase6.py:801-852 | looking a record up in the accumulated sets is comparing it with every record before |
| WireBinding.ValidateBinding | src/emuflow/chimew_phase6.py:764-949 | accepts exactly if every record is in order, no two get in each other's way and the schedule is covered; `WireRecords.AcceptedIff` spells this out |
| WireBinding.EveryEntryBoundOnce | src/emuflow/chimew_phase6.py:805-949 | the members of an accepted binding are the schedule's entries, each exactly once |
| WireBinding.PinsNeverRepeat | src/emuflow/chimew_phase6.py:901-907 | accepted records take two package pins each, none twice |
| WireRecords.AcceptedIff | src/emuflow/chimew_phase6.py:764-949 | field by field: a binding is accepted exactly if it plans the scheduled entries, every record's link, members, slots, ratios and directions are in order, no two records repeat a group, a member or a package pin of a device or misuse a wire, and every entry is bound |
| WireSharing.DriversDifferIffAligned | src/emuflow/chimew_phase6.py:839-852 | groups on one wire are driven from different ends exactly if their records name the ends in the same order |
| WireRecords.DriverIsSource | src/emuflow/chimew_phase6.py:858-900 | the driver of a single-direction record is the source of each of its entries |
| WireSharing.SlotsExclusiveIffApart | src/emuflow/chimew_phase6.py:839-900 | in an accepted binding, entries share a wire and a slot only in opposite directions of a full-duplex link with wires per direction if and only if records that name the ends of a wire differently use disjoint slots, and if and only if the pin plan is free of collisions |
| WireSharing.CheckCollisions | src/emuflow/pin_planning.py:518-557 | the collision set accepts exactly if no two entries share link, direction (on links with lanes per direction), lane and slot |
| WireRecords.CollisionFreeIff | src/emuflow/pin_planning.py:552-557 | the plan is free of collisions exactly if no two entries share link, lane and slot, and the way they go where a link has lanes for each |
| WireSharing.MisalignedCollision | src/emuflow/chimew_phase6.py:839-852 | without alignment an accepted binding can drive one wire twice in the same slot and direction; the pin plan's collision check rejects it |
| BankAllocation.RatioIsLeast | src/emuflow/bank_allocation.py:41-51 | an active direction's ratio is the least of one and the quantum's multiples that is no less than the minimum and carries the signals; there is none exactly if that exceeds the maximum |
| BankAllocation.MoreBanks | src/emuflow/bank_allocation.py:41-51 | more banks never need a greater ratio |
| BankAllocation.AllocateSharedBanks | src/emuflow/bank_allocation.py:10-75 | returns the split whose objective is strictly below that of every other feasible one; fails exactly on invalid arguments or if none is feasible |
| BankAllocation.SplitExists | src/emuflow/bank_allocation.py:53-75 | a split is feasible exactly if the banks suffice for what each direction needs on its own |
| BankAllocation.UnlimitedSplit | src/emuflow/bank_allocation.py:41-75 | without a maximum only two active directions on one bank cannot be split |
| BankSplits.AllocationIsBest | src/emuflow/bank_allocation.py:53-75 | the returned split divides banks and lanes, has the least ratios that suffice, and beats every other split with sufficient ratios: by the greater ratio, their sum, the greatest and the total number of signals per wire compared by cross-multiplication, and the forward banks |
| BankSplits.NoAllocationIff | src/emuflow/bank_allocation.py:53-75 | there is no allocation exactly if no split has ratios that suffice for both directions |
| BankSplits.PressureOrder | src/emuflow/bank_allocation.py:60-65 | pressures compare as signals per wire |
| BankAllocation.ApplyBankDomainRatios | src/emuflow/bank_allocation.py:78-104 | each pair sharing banks gets the ratios of its best split, or the over-budget ratio if there is none; every other key keeps its own |
| BankSplits.PairRatios | src/emuflow/bank_allocation.py:78-104 | each of a pair that shares banks gets the least ratio for its own load on its own part of them, or both are over budget |
| Ranking.Rank | src/emuflow/chimew_correlation.py:55-67 | every rank is half a place plus a place for each smaller value and half a place for each equal one |
| Ranking.RanksKeepOrder | src/emuflow/chimew_correlation.py:55-67 | ranks are equal exactly for equal values and ordered as the values are |
| Ranking.RankSumConserved | src/emuflow/chimew_correlation.py:55-67 | whatever the ties, the ranks of n values add up to n(n + 1)/2 |
| Ranking.Spearman | src/emuflow/chimew_correlation.py:70-85 | there is a correlation exactly for two or more pairs of values neither side of which is constant |
| Ranking.CorrelationMeans | src/emuflow/chimew_correlation.py:70-85 | n times the numerator is n times the sum of products less the product of sums, and likewise the norms |
| Ranking.CorrelationBounded | src/emuflow/chimew_correlation.py:70-85 | the squared numerator is at most the product of the norms |
| Ranking.TransformKeepsRanks | src/emuflow/chimew_correlation.py:55-85 | a strictly increasing transform of the values leaves the ranks, and so the correlation, unchanged |
| Ranking.OppositeCorrelation | src/emuflow/chimew_correlation.py:70-85 | values in opposite order correlate at exactly minus one |
| RecoveryCuts.PrefixCounts | scripts/rapidwright/EmuFlowRWRoute.java:226-238 | the arrays count, for every line, the spans that start at or before it and those that end after it, without an access out of bounds |
| RecoveryCuts.CandidateSeparates | scripts/rapidwright/EmuFlowRWRoute.java:239-252 | a line the scan may choose has connections wholly on both its sides |
| RecoveryCuts.ScanAxis | scripts/rapidwright/EmuFlowRWRoute.java:225-252 | the scan finds the first best balanced line of the axis, if it improves on the one known |
| RecoveryBoxes.CanCutIff | scripts/rapidwright/EmuFlowRWRoute.java:225-250 | within the bounds, a line can be cut exactly if some box begins beyond it before the last column and some box ends before it after the first |
| RecoveryBoxes.RatioMeans | scripts/rapidwright/EmuFlowRWRoute.java:245 | the score times the greater count is the difference of the counts; it is nothing exactly for equal counts |
| RecoveryBoxes.RatioOrder | scripts/rapidwright/EmuFlowRWRoute.java:245-246 | scores compare as fractions of the counts |
| RecoveryBoxes.CutIsBest | scripts/rapidwright/EmuFlowRWRoute.java:225-278 | a node with a line that can be cut is a fork at the first line of least imbalance between the boxes that begin up to it and those that end beyond it, vertical lines first |
| RecoveryBoxes.ForkDivides | scripts/rapidwright/EmuFlowRWRoute.java:284-329 | the left, right and middle boxes of a fork lie below, above and across its line, and the children's bounds meet at it |
| RecoveryTree.Deal | scripts/rapidwright/EmuFlowRWRoute.java:218-329 | there is a cut exactly if some line of either axis can be cut, it is the first best balanced one, and the three lists partition the connections with neither side empty and all smaller |
| RecoveryTree.Build | scripts/rapidwright/EmuFlowRWRoute.java:218-336 | the linked nodes form a tree that is sound throughout: sorted connections inside their bounds, forks at the chosen line, children partitioning their parent |
| RecoveryTree.RecoveryPartitionTree.constructor | scripts/rapidwright/EmuFlowRWRoute.java:204-208 | builds a sound tree over all connections of the device |
| RecoveryTree.LeavesPartition | scripts/rapidwright/EmuFlowRWRoute.java:218-336 | the leaves hold exactly the root's connections |
| RecoverySchedule.ProgramOfTree | scripts/rapidwright/EmuFlowRWRoute.java:721-733 | a sound tree's visit holds each connection once, and its parallel branches hold only connections with disjoint boxes |
| RecoverySchedule.StepKeepsSafe | scripts/rapidwright/EmuFlowRWRoute.java:721-733 | every step of either branch keeps parallel branches apart and what comes second waiting |
| RecoverySchedule.EveryRunIsSafe | scripts/rapidwright/EmuFlowRWRoute.java:721-733 | in every interleaving, connections routed at the same time have disjoint boxes; the run is bounded, can go on until nothing is left, and has then visited each connection exactly once |
| RecoveryBoxes.RoutedBoxesDisjoint | scripts/rapidwright/EmuFlowRWRoute.java:721-733 | in every interleaving, the bounding boxes of connections routed at the same time are disjoint along an axis |
| RecoverySchedule.MiddleBeforeSides | scripts/rapidwright/EmuFlowRWRoute.java:728-732 | in every interleaving, nothing of a node's sides is visited before everything of its middle has been visited and is no longer being routed |
| ClockSearch.NearestLeafSearch | scripts/rapidwright/EmuFlowRWRoute.java:404-437 | the candidates are exactly the leaf buffers at the least number of hops over usable nodes that are not leaves, if that is within the bound |
| ClockSearch.RouteMeetsNearest | scripts/rapidwright/EmuFlowRWRoute.java:413-437 | no route is shorter than the nearest depth, and the leaf of every route of that length is a candidate |
| ClockSearch.RebuildPath | scripts/rapidwright/EmuFlowRWRoute.java:456-471 | the rebuilt path is a route from the selected leaf to the sink of the recorded number of hops, without repeats |
| ClockSearch.TwoHopSearch | scripts/rapidwright/EmuFlowRWRoute.java:384-393 | finds exactly the usable leaf buffers two hops above |
| ClockSearch.Select | scripts/rapidwright/EmuFlowRWRoute.java:442-452 | the selected candidate comes first by depth, by being in use and by name |
| ClockSearch.FirstMeans | scripts/rapidwright/EmuFlowRWRoute.java:442-452 | the selection is nearest; at equal depth a buffer in use or taken before is never passed over for a free one, and names decide within a kind |
| ClockSearch.RouteSink | scripts/rapidwright/EmuFlowRWRoute.java:374-473 | fails exactly if no leaf buffer can be reached, and otherwise takes the preferred buffer over a shortest route |
| ClockSearch.RouteClockSinks | scripts/rapidwright/EmuFlowRWRoute.java:371-481 | succeeds exactly if every sink can reach a buffer; the tables then list every sink's route, chosen in view of the buffers taken before it |
| Chains.Successors | scripts/rapidwright/EmuFlowNativeDeviceConstraints.java:683-690 | fails exactly on a branch or a merge |
| Chains.NextIsNew | scripts/rapidwright/EmuFlowNativeDeviceConstraints.java:702-707 | the next site of a chain is in no earlier chain and not yet in this one |
| Chains.VisitedAllIffAcyclic | scripts/rapidwright/EmuFlowNativeDeviceConstraints.java:710 | all edges have been visited exactly if there is no cycle |
| Chains.DecomposeChains | scripts/rapidwright/EmuFlowNativeDeviceConstraints.java:682-713 | succeeds exactly if the edges neither branch nor merge nor form a cycle, with vertex-disjoint maximal chains over all edges; the in-loop errors never occur |
| Chains.CoveredOnce | scripts/rapidwright/EmuFlowNativeDeviceConstraints.java:692-709 | no edge is covered by two chains or twice by one |

## Left out

- Native kernels: the C++ programs called by subprocess are not part of this model; their answers are arbitrary inputs to the checkers.
- Documents: JSON shapes and type checks, SHA-256 seals, provenance, metrics dictionaries and report assembly.
- Floating point: sums, means, scores, pressures and correlations are exact; where floats round, ties may fall differently. The correlation is kept as numerator and norms instead of dividing by a square root.
- RapidWright: device data, routing status and timing are parameters; cell placement, pin mapping and net connection are foreign calls.
- Real concurrency: the thread pool behind the parallel visit is an arbitrary interleaving of the two branches; memory effects of routing a connection are not modelled, only when it is being routed.
- Recovery timeouts: the heuristics that choose which connections are recovered.
- validate_bank_pin_assignment, and all of validate_pin_plan but its collision set: not part of this model, and nothing is assumed of them.
- Electrical checks of a binding record (I/O standard, voltage, pin position) are one flag of the record; links are taken to have two ends where pins and drivers are counted.
- Sorting candidates: where the program sorts and uses only the first element, the least element is taken directly.
- Chain order: the final sort by joined names is left out, since the chains are built in the order of their first sites already.
- MinCostPairs.MinimumCostPairs: path costs are required to stay below the marker for unreached nodes, because the program relies on it without checking.
- FixedLanes.CoalescedChoice: that entries travel between the ends of their links, stay within the lane count and do not collide on shared lanes are hypotheses; validate_tdm_schedule establishes them (src/emuflow/tdm.py:1782-1845) and is not part of this model.
- HopcroftKarp.Matcher.Dfs: recursion depth is not limited, so a stack overflow on very long augmenting paths is not modelled.
- Crossing masks and guard domains: deriving an entry's encoding from its line lists, and its guarded lane from the protected entries, are inputs of the grouping model.
- Phase 6 pin planning and the electrical map validator: record assembly around rules that the binding validation states.
