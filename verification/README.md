# Karpenter disruption engine: a verified model

Karpenter removes or replaces nodes when the cluster could run cheaper. This project models the code
that decides which nodes those are and carries the decision out, and proves what that code keeps:

- **Requirements** (`Numerals`, `Requirement`, `Requirements`): label requirements with value sets,
  complements, integer bounds and minValues; their intersection, overlap and containment tests; the
  serialised form and the round trip through it.
- **Revalidation** (`Matching`, `Revalidation`): a command is re-simulated before it starts, and its
  replacements are matched one to one with simulated claims by augmenting paths over two arrays.
- **The command queue** (`QueueModel`, `Queue`): commands are started, waited for, completed or rolled
  back. `QueueModel` is the state machine, with starting split into the overlap check and the insert;
  `Queue` is the class that mutates the maps, proved to move as the state machine does.
- **Budgets and admission** (`Budgets`, `Admission`): pool budgets, and a batch of proposals validated
  and started one at a time on a real `Queue`.
- **Prices** (`Offerings`, `Pricing`, `Replacements`, `Narrowing`, `Retry`, `SpotMarkets`): the aggregate
  price filter, pinning to spot, zone narrowing and the choice of spot markets.
- **Passes** (`Walk`, `Ordering`, `SingleNode`, `Coverage`, `NegativeCache`, `PrefixSearch`): the order of a
  single-node pass, its walk, the coverage cycle over passes that time out, the negative-result cache and the
  multi-node prefix search.
- **Scores** (`Balanced`, `NodePoolTotals`) and **node overlays** (`OverlayModel`, `Overlays`).

`Candidates`, `Wrappers`, `Finite`, `Sums` and `Sorting` hold shared definitions and facts. `dafny verify dfyconfig.toml`
checks everything.

## How the code is modelled

- What other code decides is a parameter: the scheduling simulation, API replies, the clock, the cloud
  provider's spot advice, budget schedules, run-time validity of overlays and which offerings an overlay
  selects. The theorems hold for every value of these.
- Prices and costs are real numbers. `math.MaxFloat64`, "no price", is an absent value, which adds up to
  an absent total. Integers of label values are 64-bit; `Atoi` range errors and the wrap-around of `Lt`
  are explicit. Durations are integers.
- Key and value normalisation is a table. The theorems that need it assume that normal names are normal
  already and that no numeral is renamed (`Requirements.Settled`), as with the built-in table.
- Maps are iterated in every order. Loops that delete from or insert into a map or slice are loops over
  the same collection here; recursive helpers of the source are recursive methods.
- The functions that state a specification are about values; the methods that implement them change
  arrays, maps and fields in place where the source does.

## Where the code differs from what is promised

Each of these is proved as an exact condition, with an input on which the code fails where the condition
is not itself that input.

- `Lt` of the smallest 64-bit integer wraps around and admits every integer (`Requirement.NewDenotes`,
  `Requirement.LtSmallestWraps`). Validation refuses negative bounds in node pools and node claims
  (pkg/apis/v1/nodeclaim_validation.go:148-158), so such a bound can only come another way, such as the node
  affinity of a pod.
- `SubsetOf` turns down contained requirements when the outer one spells out a bound that excludes
  nothing, such as `Lte 9223372036854775807` (`Requirement.SubsetOfExact`,
  `Requirement.SubsetOfMissesVacuousBound`).
- Serialising a requirement with both bounds and excluded values drops the exclusions
  (`Requirements.RoundTripIdentity`, `Requirements.ExclusionIsForgotten`).
- The taint comparison counts lengths only, so a repeated taint fools it
  (`Revalidation.TaintsAreEqualExact`).
- The overlap check and the insertion of a command are not one atomic step, and commands of one method are
  started in parallel. Exactness of the provider-ID map needs concurrently started commands to be disjoint
  (`QueueModel.InsertExactIff`, `QueueModel.OverlapLosesCommand`).
- The deferred timeout turns a command that has just succeeded into a failed one, after its candidates are
  deleted (`QueueModel.DeadlineOverridesSuccess`).
- A claim that allows reserved capacity beside spot and on-demand is priced at reserved but may still launch
  elsewhere (`Offerings.BoundedIff`, `Offerings.MixedExceeds`).
- The coverage cycle promises that every candidate is reached within a bounded number of passes. Candidates
  below the threshold, without budget or held back are skipped without being recorded, so they stay at the
  front of every resumed walk and the cycle never completes (`Coverage.CoversIff`,
  `Coverage.PassProgressIff`). Reached candidates behind the depth of a pass are then starved for as long as
  passes time out (`Coverage.StarvedIff`, `Coverage.TailStarves`, `Coverage.BelowThresholdStarves`). Within a
  pool those below the threshold come last, so one pool with budget is covered (`Balanced.ThresholdLast`,
  `Coverage.OnePoolReached`), but a pool without budget keeps the tails of other pools from ever being
  reached, however the pools are ordered (`Coverage.AbleReachedIff`, `Coverage.IdlePoolStarves`,
  `Coverage.StarvedThird`).
- Narrowing a claim to the cheap spot zones of its cheapest type is said to keep that type by construction.
  It is dropped when it has a dearer spot offering in one of those zones (`Narrowing.AnchorSurvivesIff`,
  `Retry.KeepsAnchorIff`, `Retry.AnchorCanBeLost`).
- The spot market search promises that the next cheapest type anchors when the first one's zones admit
  nothing, but a type rejected at an offering whose zone reads as empty still anchors and yields no type
  (`SpotMarkets.EmptyIff`, `SpotMarkets.AnchorShadowsUsable`).
- The multi-node batch is documented as 100 nodes and can be 101 (`PrefixSearch.BatchLimit`,
  `PrefixSearch.OverfullBatch`).
- The capacity conflict check of node overlays sees only the last accepted overlay
  (`OverlayModel.CapacityCheckMisses`, `OverlayModel.EqualWeightCapacityAccepted`,
  `OverlayModel.ClashingOverlays`).
- Savings of a move across pools whose nodes cost nothing are charged to each pool in full
  (`Balanced.SavingsConserved`, `Balanced.FreePoolsChargedTwice`).

## Model

| member | source | states |
|---|---|---|
| `Requirement.NewDenotes` | pkg/scheduling/requirement.go:49-111 | a constructed requirement admits exactly the values its operator names, if and only if it is not `Lt` of the smallest machine integer, which wraps around and admits every integer |
| `Requirement.LtSmallestWraps` | pkg/scheduling/requirement.go:96-100 | `Lt -9223372036854775808` admits 0 |
| `Requirement.Intersect` | pkg/scheduling/requirement.go:182-215 | the deletion loop yields the intersection as a value: complement, surviving values, tightest bounds, larger minValues, and DoesNotExist on contradictory bounds |
| `Requirement.IntersectionDenotes` | pkg/scheduling/requirement.go:182-215 | a value is admitted by the intersection exactly when both sides admit it, and the result is well formed |
| `Requirement.IntersectionMinValues` | pkg/scheduling/requirement.go:182-215 | the minValues of an intersection is there if either side has one, is at least each, and is one of them, whatever the values and bounds come to |
| `Requirement.IntersectionCommutes` | pkg/scheduling/requirement.go:182-215 | the two orders give the same requirement, field by field |
| `Requirement.IntersectionAssociates` | pkg/scheduling/requirement.go:182-215 | any three requirements on a key combine to the same requirement whichever pair comes first, also when bounds collapse to DoesNotExist half way |
| `Requirement.ConcreteValues` | pkg/scheduling/requirement.go:322-327 | a well-formed concrete requirement admits exactly the values it lists |
| `Requirement.ComplementIsInfinite` | pkg/scheduling/requirement.go:322-327 | a complement requirement, bounded or not, admits a value outside any given finite set of strings |
| `Requirement.HasIntersectionExact` | pkg/scheduling/requirement.go:221-255 | the allocation-free test is true exactly when some value satisfies both sides, which is exactly when the intersection is not DoesNotExist |
| `Requirement.SubsetOfExact` | pkg/scheduling/requirement.go:259-301 | `SubsetOf` is true exactly when every admitted value is admitted by the other side and no bound of the other side is vacuous where this side has none |
| `Requirement.SubsetOfCorrectIff` | pkg/scheduling/requirement.go:259-301 | `SubsetOf` answers the containment question correctly if and only if there is no vacuous bound or dropping it would not have changed the answer |
| `Requirement.SubsetOfMissesVacuousBound` | pkg/scheduling/requirement.go:259-301 | `Gte 1` is contained in `Lte 9223372036854775807`, and `SubsetOf` turns it down |
| `Numerals.SpellingReadsBack` | pkg/scheduling/requirement.go:414-430 | every spelling of a machine integer, with any number of leading zeros, with or without a plus sign, and zero also with a minus sign, is read as that integer |
| `Numerals.AtoiIff` | pkg/scheduling/requirement.go:80-105 | what is read as an integer: a sign or none, at least one digit, and in the 64-bit range |
| `Requirements.Add` | pkg/scheduling/requirements.go:133-140 | the loop folds intersection into the map, one requirement at a time |
| `Requirements.AddOneConsistent` | pkg/scheduling/requirements.go:133-140 | adding keeps every entry under its own key and well formed, and adds exactly that key |
| `Requirements.AddAllDenotes` | pkg/scheduling/requirements.go:133-140 | after adding a list, a key admits a value exactly when it did before and every added requirement on the key does |
| `Requirements.AddAllMinValues` | pkg/scheduling/requirements.go:133-141 | the minValues stored under a key is the largest of the one there and those added under that key |
| `Requirements.CompatibleIff` | pkg/scheduling/requirements.go:181-197 | compatible if and only if on every label asked for both sides admit a common value or are both met without the label, and labels the other side lacks may be undefined or are met without |
| `Requirements.NoValueInCommon` | pkg/scheduling/requirements.go:254-274 | without a common value, NotIn and DoesNotExist are compatible with each other and nothing else is |
| `Requirements.AddOrderIrrelevant` | pkg/scheduling/requirements.go:133-140 | adding any permutation of a list gives the same map |
| `Requirements.FromSelectors` | pkg/scheduling/requirements.go:47-53 | parsing a list of selectors is adding their requirements to the empty map |
| `Requirements.ParseDenotes` | pkg/scheduling/requirement.go:49-111 | a selector is stored under the normal name of its key and admits what its operator says of the normal names of its values, with its minValues |
| `Requirements.Entry` | pkg/scheduling/requirement.go:122-178 | one requirement is written as its pair of bounds, or as a single selector over some listing of its values |
| `Requirements.ToSelectors` | pkg/scheduling/requirements.go:120-130 | the map is written key by key, each key once, in some order |
| `Requirements.RoundTrip` | pkg/scheduling/requirements.go:120-130 | reading back what was written, in any walk order of the map and the sets, gives the map with the exclusions beside bounds dropped |
| `Requirements.RoundTripIdentity` | pkg/scheduling/requirement.go:122-178 | the round trip is the identity if and only if no requirement combines bounds with excluded values, and it never narrows what a key admits |
| `Requirements.ParsedRoundTrip` | pkg/scheduling/requirements.go:47-53 | the same for any requirements that were themselves read from selectors, under a settled normaliser: identity if and only if no bounds stand beside exclusions, never narrower |
| `Requirements.ExclusionIsForgotten` | pkg/scheduling/requirement.go:129-178 | `Gte 1` and `NotIn 5` on one key exclude 5; written out and read back, 5 is admitted |
| `Matching.Augment` | pkg/controllers/disruption/validation.go:382-411 | an augmenting step either places the row and keeps every other row placed, or changes nothing and leaves the visited columns exhausted |
| `Matching.Match` | pkg/controllers/disruption/validation.go:382-411 | true exactly when every row can be given a column of its own; false exactly when some rows outnumber the columns they can use (Hall) |
| `Matching.ViolatorBlocksAll` | pkg/controllers/disruption/validation.go:382-411 | rows that outnumber their columns rule out every assignment |
| `Matching.ExhaustedViolates` | pkg/controllers/disruption/validation.go:382-411 | the rows reached by a failed search, with the row that failed, outnumber their columns |
| `Revalidation.TaintsAreEqualExact` | pkg/controllers/disruption/validation.go:449-459 | the taint comparison means "same taints, any order" against every other list if and only if its left list repeats no taint |
| `Revalidation.InstanceTypesAreSubsetExact` | pkg/controllers/disruption/helpers.go:265-269 | true exactly when every name on the left is a name on the right |
| `Revalidation.MatchStandsIn` | pkg/controllers/disruption/validation.go:419-447 | a matched replacement comes from the same pool and template, has the taints counted and listed, and every label state and instance type it may launch as is allowed by the claim |
| `Revalidation.StandInMatches` | pkg/controllers/disruption/validation.go:419-447 | the converse: such a stand-in is matched if and only if no requirement of the claim spells out a vacuous bound |
| `Revalidation.ReplacementsMatchSimulation` | pkg/controllers/disruption/validation.go:382-411 | accepts exactly when replacements can be assigned distinct simulated claims that they match |
| `Revalidation.ValidateCommand` | pkg/controllers/disruption/validation.go:323-375 | accepts exactly when there are candidates, all pods schedule, the claim counts agree and an assignment exists; each refusal has its own exact condition |
| `Revalidation.AcceptedStandsIn` | pkg/controllers/disruption/validation.go:323-375 | an accepted command gives its replacements distinct simulated claims, each of which stands in for its replacement |
| `QueueModel.InsertExactIff` | pkg/controllers/disruption/queue.go:395-403 | inserting a command keeps the provider-ID map exact if and only if no command in flight shares a candidate |
| `QueueModel.CommitExactIff` | pkg/controllers/disruption/queue.go:347-423 | the same for a whole start, over whichever candidates were marked |
| `QueueModel.CommitAborts` | pkg/controllers/disruption/queue.go:347-423 | a start that does not launch keeps the invariant |
| `QueueModel.LaunchesIff` | pkg/controllers/disruption/queue.go:359-374 | a start goes through if and only if every candidate was marked, or some were and there is nothing to launch, and as many claims were created as replacements |
| `QueueModel.CommitMarks` | pkg/controllers/disruption/queue.go:359-400 | a start that goes through puts exactly the written candidates in flight and marks those the cluster knows; one that does not changes neither |
| `QueueModel.MarkedAre` | pkg/controllers/disruption/queue.go:304-317 | the candidates whose writes went through, in their order, each where it stood |
| `QueueModel.CompletionRemovesExactly` | pkg/controllers/disruption/queue.go:450-461 | completing a command removes its own provider IDs and no other |
| `QueueModel.FailureKeeps` | pkg/controllers/disruption/queue.go:156-200 | a failed command is unmarked, leaves the queue and is counted as completed; marks of other candidates stay and the invariant holds |
| `QueueModel.SuccessKeeps` | pkg/controllers/disruption/queue.go:217-282 | a succeeded command has deleted all its candidates, after its replacements were initialised, and leaves the invariant standing |
| `QueueModel.ReconcileKeeps` | pkg/controllers/disruption/queue.go:156-200 | every reconcile, whatever the replies and the clock, keeps the invariant |
| `QueueModel.ReconcileDecides` | pkg/controllers/disruption/queue.go:216-284 | in terms of the clock and the replies alone: past the deadline, 600000 ms up to 7500 candidates in flight, 80 ms each up to 45000, 3600000 ms beyond, or with a lost replacement, the command ends and is unmarked; otherwise it ends marked once all is ready and deleted, and goes on until then |
| `QueueModel.ReconcileDeletes` | pkg/controllers/disruption/queue.go:253-284 | deletes are issued for all candidates of the command once every replacement is ready, and for no other |
| `QueueModel.RunSafe` | pkg/controllers/disruption/queue.go:347-461 | over every run of begins, commits and reconciles whose concurrent commands are disjoint: the map is exact, no candidate is deleted before all its command's replacements are initialised, a succeeded command has deleted all its candidates, and no failed command leaves a mark |
| `QueueModel.DeletedAfterReady` | pkg/controllers/disruption/queue.go:227-251 | in every run, a candidate of a command is deleted only after each claim created for it was found initialised by a reconcile that asked for it by name, unless the command came with it initialised |
| `QueueModel.ActiveDisjoint` | pkg/controllers/disruption/queue.go:426-437 | two unfinished commands never share a candidate |
| `QueueModel.TimeoutCompletes` | pkg/controllers/disruption/queue.go:156-200 | a reconcile more than an hour after creation ends the command unsuccessfully and unmarks it |
| `QueueModel.NoEarlyTimeout` | pkg/controllers/disruption/queue.go:88-94 | a reconcile within ten minutes ends a command only with a lost replacement or in success |
| `QueueModel.OverlapLosesCommand` | pkg/controllers/disruption/controller.go:231-245 | without disjointness: two commands for any one candidate both pass the check before either is inserted, and one is lost from the map |
| `QueueModel.DeadlineOverridesSuccess` | pkg/controllers/disruption/queue.go:217-226 | a command whose replacements are ready and whose deletes went through still fails when reconciled past its deadline, though its candidates are gone |
| `Queue.Queue.constructor` | pkg/controllers/disruption/queue.go:117-132 | a new queue knows no command |
| `QueueModel.RetryDurationGrows` | pkg/controllers/disruption/queue.go:88-94 | the retry duration never shrinks as the queue fills: ten minutes exactly up to 7500 candidates in flight, an hour exactly from 45000 on |
| `QueueModel.TimeoutPersists` | pkg/controllers/disruption/queue.go:217-226 | a command that has timed out stays timed out as the clock advances, unless the queue has grown |
| `Queue.StartedKeeps` | pkg/controllers/disruption/queue.go:347-423 | an uninterrupted start of a fresh command keeps the invariant, launched or not |
| `Queue.Queue.HasAny` | pkg/controllers/disruption/queue.go:426-437 | true exactly when one of the candidates is in flight |
| `Queue.Queue.MarkDisrupted` | pkg/controllers/disruption/queue.go:286-320 | the candidates whose taint and condition were written, in order |
| `Queue.Queue.StartCommand` | pkg/controllers/disruption/queue.go:347-423 | the queue moves exactly as the state machine does, succeeds exactly when nothing overlaps and the launch went through, with the created names on the replacements, and keeps the invariant for a fresh command |
| `Queue.Queue.CompleteCommand` | pkg/controllers/disruption/queue.go:450-461 | the queue moves exactly as the completion step does |
| `Queue.Queue.Reconcile` | pkg/controllers/disruption/queue.go:156-200 | a NodeClaim of no command changes nothing; otherwise the outcome and the new state are those of the reconcile step on a command that lists it; the invariant is kept |
| `Queue.Queue.Drive` | pkg/controllers/disruption/queue.go:217-282 | waiting, deleting, timing out and completing one command, in place, are the reconcile step |
| `Queue.Queue.Find` | pkg/controllers/disruption/queue.go:203-212 | a command in flight that lists the NodeClaim, or none when there is none |
| `Queue.DeleteCandidates` | pkg/controllers/disruption/queue.go:261-282 | failures are reported exactly when some candidate neither went away nor was gone already |
| `Queue.AwaitReplacements` | pkg/controllers/disruption/queue.go:227-260 | the replacements after a pass, with nothing recorded from the first lost one on, and whether one was lost |
| `Budgets.CountNodes` | pkg/controllers/disruption/helpers.go:349-385 | per pool, the number of counted nodes and of disrupting ones, in any order of the nodes |
| `Budgets.BuildDisruptionBudgetMapping` | pkg/controllers/disruption/helpers.go:349-400 | each listed pool maps to its allowance less its disrupting nodes, never below zero; any other pool reads as zero |
| `Budgets.BecomingDisrupted` | pkg/controllers/disruption/helpers.go:355-385 | a healthy node that becomes not ready, deleting or marked adds one to its own pool's count if it is counted, and nothing to any other |
| `Budgets.BudgetFills` | pkg/controllers/disruption/helpers.go:386-391 | the budget fills a pool exactly up to its allowance, and is zero for a pool at or beyond it |
| `Budgets.MappedSplits` | pkg/controllers/disruption/helpers.go:403-408 | the current forms are kept in their order |
| `Budgets.MappedNames` | pkg/controllers/disruption/helpers.go:403-408 | when no candidate was dropped, the current forms name exactly the proposed nodes |
| `Budgets.WithinBudgets` | pkg/controllers/disruption/validation.go:304-318 | true exactly when no candidate is nominated and no pool's candidates exceed its budget together |
| `Budgets.MarkingAdds` | pkg/controllers/disruption/helpers.go:349-400 | marking nodes adds at most the newly marked nodes of the pool to its disrupting ones |
| `Budgets.MarkingWithinBudget` | pkg/controllers/disruption/validation.go:289-320 | marking validated candidates leaves each pool they touch within its allowance and every other pool unchanged |
| `Admission.ValidateCandidates` | pkg/controllers/disruption/validation.go:289-320 | a failed read is an error; otherwise valid exactly when every candidate is current, none is nominated and no pool's candidates exceed its budget together |
| `Admission.Validate` | pkg/controllers/disruption/validation.go:193-243 | the candidates are checked, the command re-simulated and matched, and the candidates checked again; valid only if the simulation bears the proposal out |
| `Admission.VerdictIff` | pkg/controllers/disruption/validation.go:193-243 | valid if and only if both readings clear every candidate and the simulation schedules all pods with as many claims, matched one to one; an error if and only if a reading or the simulation failed where it was needed |
| `Admission.StartedMarks` | pkg/controllers/disruption/queue.go:347-423 | starting marks only candidates of the command and unmarks nothing |
| `Admission.StartWithinBudget` | pkg/controllers/disruption/singlenodeconsolidation.go:356-410 | right after a validated command starts, the pools it touches are within the allowance its validation saw and no other pool has changed |
| `Admission.AttemptOne` | pkg/controllers/disruption/singlenodeconsolidation.go:376-408 | one proposal moves the queue, the admitted list and the error flag exactly as the reference step does |
| `Admission.AdmitProposals` | pkg/controllers/disruption/singlenodeconsolidation.go:356-410 | the batch is the trace of that step: first proposal always, later ones while the reserve lasts, stopping at the first error |
| `Admission.AdmittedIff` | pkg/controllers/disruption/singlenodeconsolidation.go:356-410 | exactly the proposals tried in time that were valid against the marks left by those before them, with nothing in flight, and whose start went through |
| `Admission.GivenUpIff` | pkg/controllers/disruption/singlenodeconsolidation.go:388-403 | a batch is given up exactly where validation errs or a valid proposal does not start |
| `Admission.AdmittedBornOut` | pkg/controllers/disruption/validation.go:232-234 | no command is started whose own re-simulation did not bear it out, nor one whose candidates did not clear |
| `Admission.AdmittedStandsIn` | pkg/controllers/disruption/validation.go:359-375 | the claims an admitted command launches get distinct simulated claims that they stand in for |
| `Admission.AdmittedCommand` | pkg/controllers/disruption/singlenodeconsolidation.go:394-404 | the queue then holds the command with its creation time and the names of its claims |
| `Admission.TraceKeeps` | pkg/controllers/disruption/singlenodeconsolidation.go:347-410 | at every point of every batch, no pool exceeds its allowance unless it already did, no pool touched by an admitted command exceeds it at all, and commands are admitted in walk order |
| `Admission.TraceStaysSane` | pkg/controllers/disruption/singlenodeconsolidation.go:347-410 | the queue keeps its invariant at every point of every batch of fresh commands |
| `Offerings.InClassExact` | pkg/cloudprovider/types.go:623-634 | an offering belongs to a capacity-type class exactly when it names that capacity type |
| `Offerings.WorstExists` | pkg/cloudprovider/types.go:623-634 | there is a worst launch price exactly when some capacity type has an available offering the requirements allow |
| `Offerings.WorstIs` | pkg/cloudprovider/types.go:623-634 | it is the highest price among the available offerings the requirements allow of the first capacity type on offer, reserved before spot before on-demand |
| `Offerings.PinNarrows` | pkg/controllers/disruption/consolidation.go:426-433 | adding a pin keeps exactly the compatible offerings with the pinned value |
| `Offerings.PinnedIs` | pkg/controllers/disruption/consolidation.go:426-433 | a claim that allows both spot and on-demand is left with spot and its minValues, any other is untouched |
| `Offerings.NotMixedPricedAsLaunched` | pkg/cloudprovider/types.go:623-634 | a claim that does not mix reserved with other capacity types is priced at the capacity type it will launch as after pinning |
| `Offerings.PricedAsLaunchedBounds` | pkg/cloudprovider/types.go:623-634 | then no launch costs more than the worst launch price |
| `Offerings.BoundedIff` | pkg/controllers/disruption/consolidation.go:426-433 | whatever the prices are, no launch of the pinned claim exceeds the price it was filtered by, if and only if the claim is priced at the only capacity type it may still launch as |
| `Offerings.MixedExceeds` | pkg/controllers/disruption/consolidation.go:426-433 | a claim that allows reserved beside spot and on-demand has prices for which a launch exceeds the filtered price |
| `Pricing.SatisfiesMinValues` | pkg/cloudprovider/types.go:431-465 | errs exactly when all options miss some minValues; otherwise returns the shortest non-empty prefix that meets them |
| `Pricing.MinValuesMean` | pkg/cloudprovider/types.go:431-465 | minValues are met exactly when under each key at least that many different values are listed |
| `Pricing.CheapestIs` | pkg/controllers/disruption/consolidation.go:1009-1017 | the cheapest launch price is that of some option and no option is below it |
| `Pricing.CheapestLaunchPrice` | pkg/controllers/disruption/consolidation.go:1009-1017 | the loop computes the cheapest launch price, none when there is none |
| `Pricing.KeepsCheapest` | pkg/controllers/disruption/consolidation.go:1032-1059 | under a feasible limit every claim keeps an option of its own at its cheapest price |
| `Pricing.FeasibleIff` | pkg/controllers/disruption/consolidation.go:1032-1042 | the filter finds the limit feasible if and only if some choice of one option per claim costs less in total |
| `Pricing.KeptIff` | pkg/controllers/disruption/consolidation.go:1046-1056 | an option is kept if and only if it costs less than the claim's cheapest plus an equal share of what the cheapest leave under the limit |
| `Pricing.CheaperThanSplits` | pkg/controllers/provisioning/scheduling/nodeclaim.go:523-527 | filtering keeps the order of the options |
| `Pricing.BelowLimit` | pkg/controllers/disruption/consolidation.go:1032-1059 | one price per claim, each below the claim's ceiling, adds up to less than the limit |
| `Pricing.LaunchTotal` | pkg/controllers/disruption/consolidation.go:1032-1059 | after the filter and the pinning, every choice of one kept type per claim, launched into any offering it may land on, costs less than the limit in total |
| `Replacements.NodeClaim.RemoveInstanceTypeOptionsByPriceAndMinValues` | pkg/controllers/provisioning/scheduling/nodeclaim.go:523-532 | keeps exactly the options below the price, and errs exactly when they miss their minValues |
| `Replacements.NodeClaim.Truncate` | pkg/controllers/disruption/consolidation.go:997-1005 | a prefix of the wanted length, or the shortest longer one that minValues needs; minValues that held still hold |
| `Replacements.FilterReplacementsByAggregatePrice` | pkg/controllers/disruption/consolidation.go:1032-1059 | errs exactly when the cheapest total is below the limit and some claim's survivors miss their minValues; otherwise the claims are the filtered ones |
| `Replacements.FilterReplacements` | pkg/controllers/disruption/consolidation.go:885-928 | each of the four outcomes, and exactly when |
| `Replacements.PinToSpot` | pkg/controllers/disruption/consolidation.go:426-433 | claims that allow both spot and on-demand are pinned to spot, the rest are untouched |
| `Narrowing.NarrowedLaunch` | pkg/controllers/disruption/consolidation.go:552-582 | a claim narrowed to spot in a set of zones may land exactly on its compatible spot offerings in those zones |
| `Narrowing.CheapZonesAre` | pkg/controllers/disruption/consolidation.go:559-566 | the cheap zones of a type are those of its available offerings that the requirements allow below the limit |
| `Narrowing.AnchorSurvivesIff` | pkg/controllers/disruption/consolidation.go:548-582 | narrowed to its own cheap zones, the anchor's worst launch price is below the limit if and only if it has no spot offering in those zones at or above the limit |
| `Narrowing.AnchorSurvives` | pkg/controllers/disruption/consolidation.go:548-549 | a case of it: with one spot offering per zone the anchor always survives, as the comment has it |
| `Narrowing.NarrowedNotMixed` | pkg/controllers/disruption/consolidation.go:552-582 | a narrowed claim allows spot only, so it mixes no capacity types |
| `Retry.OrderByPrice` | pkg/cloudprovider/types.go:357-373 | a permutation in order of the best price, types without a price last |
| `Retry.CompatibleTypesSplit` | pkg/cloudprovider/types.go:390-398 | the types with an available offering the requirements allow, in their order |
| `Retry.CheapZonesIff` | pkg/controllers/disruption/consolidation.go:559-567 | a type has a cheap zone exactly when its best price is below the limit |
| `Retry.AnchorZones` | pkg/controllers/disruption/consolidation.go:558-569 | the zones are those of a cheapest type, empty exactly when no type has a cheap zone |
| `Retry.NarrowClaim` | pkg/controllers/disruption/consolidation.go:552-582 | each outcome and its condition; a narrowed claim is spot in the anchor's cheap zones with exactly the options below the limit there, the anchor among them if and only if it is cheap throughout those zones |
| `Retry.KeepsAnchorIff` | pkg/controllers/disruption/consolidation.go:570-582 | a narrowed claim keeps its anchor if and only if the anchor has no spot offering in the kept zones at or above the limit |
| `Retry.NarrowedIsLaunchable` | pkg/controllers/disruption/consolidation.go:553-573 | a narrowed claim lists as many capacity types and zones as its minValues ask for, exactly when the two checks pass |
| `Retry.AnchorCanBeLost` | pkg/controllers/disruption/consolidation.go:548-549 | a claim whose only type has a cheap and a dear spot offering in one zone: the type is the anchor, its zones suffice, and the narrowed claim has no type left |
| `Retry.NarrowAll` | pkg/controllers/disruption/consolidation.go:520-526 | narrows claim by claim from the snapshots and stops at the first that cannot be narrowed; every claim before it is narrowed from its own snapshot |
| `Retry.RetryNarrowed` | pkg/controllers/disruption/consolidation.go:610-637 | stops at the first claim that cannot be narrowed, and says why; once all are narrowed the filter fails exactly when narrowing left a claim without options or minValues are unmet, never on price, and otherwise keeps the filtered form of the narrowed claims |
| `Retry.RetrySpotOnly` | pkg/controllers/disruption/consolidation.go:509-540 | the same, with each claim of an admitted retry cut down to a prefix of its options, none of them empty for a positive cap |
| `Retry.OnlyMinValuesStop` | pkg/controllers/disruption/consolidation.go:527-530 | with one spot offering per zone and type, only minValues stop a retry whose claims were all narrowed |
| `Retry.RetryLaunchTotal` | pkg/controllers/disruption/consolidation.go:509-540 | any launch of an admitted retry, whole or cut down, saves more than the required share of the candidates' price |
| `SpotMarkets.Appraise` | pkg/controllers/disruption/consolidation.go:821-848 | the market of a type: admitted and rejected zones and the least admitted price, with the advisor's refusals noticed |
| `SpotMarkets.Anchors` | pkg/controllers/disruption/consolidation.go:859-866 | exactly the types with an admitted zone, in order of price |
| `SpotMarkets.Launchable` | pkg/controllers/disruption/consolidation.go:859-876 | the zones are the good zones of the first usable anchor and the types exactly those that survive in them; without a type exactly when nothing is usable or the anchor shadows every type |
| `SpotMarkets.ChosenIff` | pkg/controllers/disruption/consolidation.go:870-873 | a type is chosen if and only if some offering in the zones is admitted and none there or without a zone is turned down by the advisor or does not fit |
| `SpotMarkets.GoodZoneIff` | pkg/controllers/disruption/consolidation.go:866 | a zone of the anchor is kept if and only if it is named, has an admitted offering and none that is turned down |
| `SpotMarkets.AnchorIsCheapest` | pkg/controllers/disruption/consolidation.go:860-865 | the anchor has an admitted offering no dearer than any of a usable type |
| `SpotMarkets.CrossProductLaunchable` | pkg/controllers/disruption/consolidation.go:859-876 | every compatible offering of a chosen type in a chosen zone, or whose zone reads as empty, is admitted, and there is one in a chosen zone |
| `SpotMarkets.AnchorSurvivesIff` | pkg/controllers/disruption/consolidation.go:859-876 | the anchor survives in its own zones exactly when it is not rejected at the empty zone |
| `SpotMarkets.EmptyIff` | pkg/controllers/disruption/consolidation.go:859-876 | anchored on a type, nothing survives if and only if that type is rejected at an offering whose zone reads as empty and no other type survives in its zones |
| `SpotMarkets.AnchorShadowsUsable` | pkg/controllers/disruption/consolidation.go:851-876 | two types, given by their offerings, on which the search gives up although the second has a launchable market |
| `Walk.Interleave` | pkg/controllers/disruption/singlenodeconsolidation.go:462-488 | every candidate of every pool once, rank by rank, pools in order within a rank |
| `Walk.InterleavePermutes` | pkg/controllers/disruption/singlenodeconsolidation.go:427-431 | the walk order is a permutation of the candidates, whatever order the pools come in |
| `Ordering.SortByRatio` | pkg/controllers/disruption/consolidation.go:175-180 | a permutation in descending order of price per disruption cost |
| `Ordering.OrderPools` | pkg/controllers/disruption/singlenodeconsolidation.go:468-471 | every pool once, the unseen ones before the rest, in any order otherwise |
| `Ordering.SortAndShuffle` | pkg/controllers/disruption/singlenodeconsolidation.go:427-429 | sorting and interleaving, with whatever pools are unseen |
| `Ordering.ShufflePermutes` | pkg/controllers/disruption/singlenodeconsolidation.go:427-429 | the order is of the same candidates, each once |
| `Ordering.RanksRise` | pkg/controllers/disruption/singlenodeconsolidation.go:478-485 | whatever order the pools come in, a candidate stands behind all candidates of smaller rank in any pool |
| `Ordering.PoolDescends` | pkg/controllers/disruption/singlenodeconsolidation.go:427-429 | within a pool the order of a pass is by descending savings ratio |
| `Ordering.BetterOutrank` | pkg/controllers/disruption/singlenodeconsolidation.go:427-429 | a candidate has at least as many before it in its pool as have a strictly better ratio |
| `Ordering.OnePoolOrder` | pkg/controllers/disruption/singlenodeconsolidation.go:427-429 | with one pool and no ties there is one order |
| `Ordering.FirstOfPool` | pkg/controllers/disruption/singlenodeconsolidation.go:463-485 | the best candidate of an unseen pool stands among the first, as many as there are unseen pools |
| `Walk.ResumedPermutes` | pkg/controllers/disruption/singlenodeconsolidation.go:442-460 | resuming moves the unreached candidates to the front and keeps everything once |
| `SingleNode.Consider` | pkg/controllers/disruption/singlenodeconsolidation.go:195-299 | a candidate is brought to a verdict exactly when it is open and can pass, and held exactly when its move also wins |
| `SingleNode.SingleNodeConsolidation.ResumeCoverageCycle` | pkg/controllers/disruption/singlenodeconsolidation.go:442-460 | the candidates in resumed order, and a cycle that forgets nodes that are gone and restarts when it is complete |
| `SingleNode.SingleNodeConsolidation.SortCandidates` | pkg/controllers/disruption/singlenodeconsolidation.go:427-431 | sorted, interleaved with the unseen pools first, and resumed |
| `SingleNode.SingleNodeConsolidation.WalkCandidates` | pkg/controllers/disruption/singlenodeconsolidation.go:123-343 | the proposals are exactly those the reference walk holds up to where the pass stopped, and why it stopped; a timed-out pass remembers exactly its verdicts, any other resets the cycle; the pools not come to are recorded exactly when it timed out or held nothing |
| `SingleNode.HeldProposals` | pkg/controllers/disruption/singlenodeconsolidation.go:195-299 | proposals held together never share a node, nor a Balanced pool |
| `SingleNode.HeldIff` | pkg/controllers/disruption/singlenodeconsolidation.go:195-299 | held are exactly the candidates that can pass, with an approved move of this pass's own simulation, and no earlier proposal for their node or Balanced pool nor a spent budget in the way |
| `SingleNode.HasVerdictIff` | pkg/controllers/disruption/singlenodeconsolidation.go:195-230 | the same for verdicts, whatever the simulation finds |
| `SingleNode.HeldWithinBudget` | pkg/controllers/disruption/singlenodeconsolidation.go:208-299 | the proposals held stay within every pool's budget |
| `SingleNode.VerdictIff` | pkg/controllers/disruption/singlenodeconsolidation.go:195-230 | a candidate is recorded as evaluated exactly when the walk reached it able to pass and open; skipped candidates are not recorded |
| `SingleNode.UnhinderedVerdicts` | pkg/controllers/disruption/singlenodeconsolidation.go:158-300 | in a pass that holds nothing, every candidate whose score and budget allow it is brought to a verdict |
| `Coverage.RunPass` | pkg/controllers/disruption/singlenodeconsolidation.go:119-343 | a whole pass: it walks some order its candidates can have with the pools unseen so far, resumed, and moves the cycle and the unseen pools exactly as the model of a pass says |
| `Coverage.PassProgressIff` | pkg/controllers/disruption/singlenodeconsolidation.go:436-460 | a timed-out pass forgets no live candidate, and adds some if and only if an unreached candidate within its depth can pass and is open |
| `Coverage.UnhinderedPass` | pkg/controllers/disruption/singlenodeconsolidation.go:442-460 | a pass without skips and proposals reaches its depth in unreached candidates, or all that are left |
| `Coverage.ProgressCovers` | pkg/controllers/disruption/singlenodeconsolidation.go:436-441 | if every pass progresses, each in an order of its own, the unreached candidates fall by one a pass, and the cycle is complete within as many passes as there are candidates |
| `Coverage.CoversIff` | pkg/controllers/disruption/singlenodeconsolidation.go:436-441 | under steady conditions and passes at least d deep, in whatever orders, every candidate is reached within the bounded number of passes if and only if every candidate can pass its threshold and has budget |
| `Coverage.ReachedIff` | pkg/controllers/disruption/singlenodeconsolidation.go:442-460 | a candidate that can pass its threshold and has budget is reached if and only if some pass had, in its own order, fewer unreached candidates before it than it got deep |
| `Coverage.AbleReached` | pkg/controllers/disruption/singlenodeconsolidation.go:436-441 | such a candidate is reached, within as many passes at least d deep as there are such candidates, if in every order fewer than d candidates before it cannot be evaluated |
| `Coverage.AbleReachedIff` | pkg/controllers/disruption/singlenodeconsolidation.go:436-441 | in passes d deep whose orders agree on whether fewer than d of those stand before it, it is reached if and only if that is so |
| `Coverage.NeverReached` | pkg/controllers/disruption/singlenodeconsolidation.go:436-441 | with a pass's depth or more of those before it in the order of every pass, a candidate is reached by no number of passes |
| `Coverage.OutrankedNever` | pkg/controllers/disruption/singlenodeconsolidation.go:478-485 | so with that many of them of smaller rank it is reached in no order of the pools |
| `Coverage.InRankReached` | pkg/controllers/disruption/singlenodeconsolidation.go:478-485 | and with fewer than d of them of no greater rank it is reached in every order of the pools |
| `Coverage.IdlePoolStarves` | pkg/controllers/disruption/singlenodeconsolidation.go:208-217 | in terms of the input alone: d candidates of a pool without budget, and d better ones of its own pool, keep a candidate from ever being reached by passes d deep, whichever pools are unseen and in whatever order |
| `Coverage.StarvedThird` | pkg/controllers/disruption/singlenodeconsolidation.go:208-217 | such candidates: two of a pool without budget and three of another |
| `Coverage.OnePoolReached` | pkg/controllers/disruption/singlenodeconsolidation.go:436-441 | with one pool and budget for it, passes reach exactly the candidates that can pass the threshold, within as many passes as there are |
| `Coverage.StuckForever` | pkg/controllers/disruption/singlenodeconsolidation.go:436-441 | passes that make no progress leave the cycle where it is, however many there are |
| `Coverage.StuckRepeatsHead` | pkg/controllers/disruption/singlenodeconsolidation.go:442-460 | such a pass spends its depth on the unreached candidates and evaluates only the head of the reached ones |
| `Coverage.TailStarves` | pkg/controllers/disruption/singlenodeconsolidation.go:436-441 | so a reached candidate behind that head, in the order of the pass, is not evaluated by it |
| `Coverage.SettledStays` | pkg/controllers/disruption/singlenodeconsolidation.go:225-230 | once all candidates that can be evaluated are reached, the cycle stays as it is |
| `Coverage.StarvedIff` | pkg/controllers/disruption/singlenodeconsolidation.go:225-230 | such a cycle evaluates a candidate again if and only if those that cannot be evaluated, with those before it that can, are fewer than the pass is deep |
| `Coverage.BelowThresholdStarves` | pkg/controllers/disruption/singlenodeconsolidation.go:220-230 | three candidates of one pool, the worst below the threshold, passes two deep: from the second pass on the second best is never evaluated and the cycle never completes |
| `Coverage.StarvingInput` | pkg/controllers/disruption/singlenodeconsolidation.go:220-230 | such candidates, with the totals of their pool |
| `Coverage.SteadyRun` | pkg/controllers/disruption/singlenodeconsolidation.go:158-187 | steady runs exist for any sequence of orders, as long as some candidate cannot be evaluated |
| `Coverage.UnseenSoon` | pkg/controllers/disruption/singlenodeconsolidation.go:463-472 | a pool the last pass did not come to, none of whose candidates is reached, is come to within as many candidates as there are such pools |
| `NegativeCache.NegativeResultCache.constructor` | pkg/controllers/disruption/negativeresultcache.go:65-71 | an empty cache |
| `NegativeCache.NegativeResultCache.ShouldSkip` | pkg/controllers/disruption/negativeresultcache.go:74-94 | true exactly on an unexpired entry with the same fingerprint; an expired or changed entry is evicted |
| `NegativeCache.NegativeResultCache.StoreNegative` | pkg/controllers/disruption/negativeresultcache.go:97-112 | writes the entry unless the life is not positive or the same verdict still has time left; then nothing changes |
| `NegativeCache.RestoringKeeps` | pkg/controllers/disruption/negativeresultcache.go:104-111 | storing a verdict again while it has time left keeps its expiry |
| `NegativeCache.NegativeResultCache.Clear` | pkg/controllers/disruption/negativeresultcache.go:116-122 | an empty cache |
| `NegativeCache.NegativeResultCache.DropExpired` | pkg/controllers/disruption/negativeresultcache.go:125-134 | exactly the unexpired entries stay |
| `NegativeCache.HitIff` | pkg/controllers/disruption/negativeresultcache.go:74-134 | over every history, a lookup hits exactly when some earlier effective store of the candidate and fingerprint has neither expired nor been evicted since |
| `NegativeCache.HitIsFresh` | pkg/controllers/disruption/negativeresultcache.go:74-134 | with a clock that does not run backwards, a hit at t names a store at s with s <= t <= s + ttl that found no live entry of that candidate and fingerprint, with no clear since; every later store for the candidate found the verdict alive |
| `PrefixSearch.Prefilter` | pkg/controllers/disruption/multinodeconsolidation.go:97-111 | keeps, in order, exactly the candidates within their pools' budgets, and says whether any was left out |
| `PrefixSearch.KeptCount` | pkg/controllers/disruption/multinodeconsolidation.go:97-111 | of each pool as many candidates are kept as it has and its budget allows |
| `PrefixSearch.FirstNConsolidationOption` | pkg/controllers/disruption/multinodeconsolidation.go:156-234 | the result is a valid prefix of at least two candidates or none; without deadline or error it is an edge of validity; a logarithmic number of probes |
| `PrefixSearch.SevenProbes` | pkg/controllers/disruption/multinodeconsolidation.go:156-234 | a full batch takes seven probes at most |
| `PrefixSearch.EdgeIsLongest` | pkg/controllers/disruption/multinodeconsolidation.go:156-234 | if validity is downward closed, an edge is the longest valid prefix |
| `PrefixSearch.BatchLimit` | pkg/controllers/disruption/multinodeconsolidation.go:113-116 | the batch may be one node longer than the documented 100, exactly when there are more than 100 candidates |
| `PrefixSearch.OverfullBatch` | pkg/controllers/disruption/multinodeconsolidation.go:113-116 | a batch of 101 nodes is returned when it is valid |
| `Overlays.InstanceTypeStore.constructor` | pkg/controllers/nodeoverlay/store.go:105-110 | an empty store |
| `Overlays.InstanceTypeStore.UpdateInstanceTypeOffering` | pkg/controllers/nodeoverlay/store.go:240-265 | first update of each offering stays, later ones only lower its recorded weight; other targets are untouched |
| `Overlays.InstanceTypeStore.UpdateInstanceTypeCapacity` | pkg/controllers/nodeoverlay/store.go:178-210 | resources already overlaid stay, and the conflict record becomes the new overlay's |
| `Overlays.InstanceTypeStore.IsOfferingUpdateConflicting` | pkg/controllers/nodeoverlay/store.go:267-286 | true exactly when the offering's recorded weight is the overlay's |
| `Overlays.InstanceTypeStore.IsCapacityUpdateConflicting` | pkg/controllers/nodeoverlay/store.go:212-236 | true exactly when the recorded weight is equal and a recorded resource is shared |
| `Overlays.InstanceTypeStore.Validate` | pkg/controllers/nodeoverlay/controller.go:183-206 | true exactly when no selected instance type of any pool conflicts |
| `Overlays.InstanceTypeStore.StoreUpdates` | pkg/controllers/nodeoverlay/controller.go:208-224 | every selected instance type of every pool is updated |
| `Overlays.InstanceTypeStore.ValidateAndUpdate` | pkg/controllers/nodeoverlay/controller.go:163-181 | a refused overlay leaves the store exactly as it was |
| `Overlays.OrderByWeight` | pkg/apis/v1alpha1/nodeoverlay.go:130-140 | a permutation in descending weight, later names first among equal weights |
| `Overlays.LaterIff` | pkg/apis/v1alpha1/nodeoverlay.go:126-140 | names are compared as in a dictionary |
| `Overlays.OrderIsUnique` | pkg/apis/v1alpha1/nodeoverlay.go:126-140 | names being unique, there is one such order, so a reconcile does not depend on how the overlays are listed |
| `Overlays.Reconcile` | pkg/controllers/nodeoverlay/controller.go:105-115 | the store holds exactly the accepted overlays, each accepted against those before it, and exactly the refused valid ones are reported |
| `Overlays.RefusedIff` | pkg/controllers/nodeoverlay/controller.go:105-115 | an overlay is refused exactly when, on some instance type, an accepted overlay of equal weight prices one of its offerings, or one of equal weight shares a resource and so does the last accepted |
| `Overlays.EachVerdict` | pkg/controllers/nodeoverlay/controller.go:105-115 | each overlay in turn is passed over if invalid, accepted if it does not clash, and reported as in conflict if it does |
| `OverlayModel.FirstPriceWins` | pkg/controllers/nodeoverlay/store.go:240-265 | an offering some accepted overlay prices has the override of the first such overlay, at the weight of the last; any other has none |
| `OverlayModel.PriceConflictExact` | pkg/controllers/nodeoverlay/store.go:267-286 | with weights descending, the price check fires exactly when an accepted overlay of equal weight prices one of the offerings |
| `OverlayModel.NoEqualWeightPrices` | pkg/controllers/nodeoverlay/controller.go:163-181 | no two accepted overlays of equal weight price the same offering |
| `OverlayModel.FirstResourceWins` | pkg/controllers/nodeoverlay/store.go:178-210 | each resource's override is that of the first accepted overlay that sets it |
| `OverlayModel.CapacityConflictIff` | pkg/controllers/nodeoverlay/store.go:212-236 | the capacity check fires exactly when the last accepted overlay of the target's resources has equal weight and shares one |
| `OverlayModel.CapacityCheckMisses` | pkg/controllers/nodeoverlay/store.go:212-236 | it never invents a conflict, and misses one exactly when an accepted overlay of equal weight shares a resource and the last accepted one does not |
| `OverlayModel.EqualWeightCapacityAccepted` | pkg/controllers/nodeoverlay/store.go:207-236 | three overlays of equal weight are all accepted when the one in the middle shares no resource with its neighbours, whatever the outer two share |
| `OverlayModel.ClashingOverlays` | pkg/controllers/nodeoverlay/store.go:207-236 | such overlays, the outer two with different values for one resource |
| `OverlayModel.AppliedPrice` | pkg/controllers/nodeoverlay/store.go:117-174 | a pool sees each offering at its own price, or at that of the first accepted overlay that prices it |
| `OverlayModel.AppliedCapacity` | pkg/controllers/nodeoverlay/store.go:136-139 | a pool sees each resource at the value of the first accepted overlay that sets it, or as it was |
| `Balanced.ApprovedIff` | pkg/controllers/disruption/balanced.go:108-121 | a move is approved exactly when it saves something and twice its share of cost is at least its share of disruption |
| `Balanced.SavingMoreHelps` | pkg/controllers/disruption/types.go:101-112 | saving more for the same disruption never loses approval |
| `Balanced.EstimatedSavings` | pkg/controllers/disruption/types.go:381-402 | source prices, less the cheapest available offering of each new claim's first option for a replace |
| `Balanced.DestinationIs` | pkg/controllers/disruption/types.go:381-402 | a new claim is expected to cost the cheapest available offering of its first option, or nothing |
| `Balanced.DeleteSavesMost` | pkg/controllers/disruption/types.go:381-402 | a replace never saves more than the delete of the same nodes |
| `Balanced.ComputePoolDisruptionCosts` | pkg/controllers/disruption/types.go:308-317 | the precomputed costs agree with those computed from the candidates, for every pool |
| `Balanced.EvaluateBalancedMove` | pkg/controllers/disruption/balanced.go:130-182 | approved exactly when there are candidates and every Balanced pool approves, with the score of each |
| `Balanced.PoolsSplit` | pkg/controllers/disruption/balanced.go:135-157 | summing by pool loses nothing and counts nothing twice |
| `Balanced.SavingsConserved` | pkg/controllers/disruption/balanced.go:149-157 | the savings attributed to the pools add up to the net savings if and only if the nodes cost something, there is one pool, or there are no savings |
| `Balanced.FreePoolsChargedTwice` | pkg/controllers/disruption/balanced.go:149-157 | two pools of nodes that cost nothing and a replacement that costs 1: the pools are charged 2 together |
| `Balanced.PruningSound` | pkg/controllers/disruption/balanced.go:287-299 | if any delete or replace of the candidate is approved, the candidate is not pruned |
| `Balanced.RatioPasses` | pkg/controllers/disruption/balanced.go:287-299 | of two candidates of a pool, the one with the better savings ratio can pass the threshold if the other can |
| `Balanced.ThresholdLast` | pkg/controllers/disruption/singlenodeconsolidation.go:427-429 | so in the order of every pass the candidates of a pool below the threshold come last in it |
| `Balanced.PruningExact` | pkg/controllers/disruption/balanced.go:287-299 | the pruning test agrees with the approval of the delete if and only if the pool is not Balanced or has a positive cost on record |
| `Balanced.ApprovedHalves` | designs/balanced-consolidation.md:252 | a replace of a node with equal shares of cost and disruption is approved exactly when it costs at most half |
| `Balanced.ChainHalves` | designs/balanced-consolidation.md:334-343 | after n approved replaces the price has halved n times, but for the factor by which launches exceed the estimates they were approved with |
| `Balanced.ChainBounded` | pkg/apis/v1/nodepool.go:167-171 | a chain among prices of at least a floor has at most n replaces, once n + 1 of them would go below the floor |
| `NodePoolTotals.ComputeNodePoolTotals` | pkg/controllers/disruption/balanced.go:47-102 | a pool with candidates has the cluster's cost if positive, else its candidates' prices, and the disruption of all its nodes |
| `NodePoolTotals.PoolCostIs` | pkg/controllers/disruption/balanced.go:88-97 | a pool costs what the cluster tracks for it, or its candidates when nothing is tracked |
| `NodePoolTotals.NodesTotalSplits` | pkg/controllers/disruption/balanced.go:70-86 | disruption adds up node by node |
| `NodePoolTotals.OneNodeEvenShare` | pkg/controllers/disruption/balanced.go:47-102 | the one node of a pool has equal shares of its cost and of its disruption |
| `NodePoolTotals.PoolIsDraining` | pkg/controllers/disruption/balanced.go:104-108 | a pool with a candidate among its nodes has at least the base disruption cost |
| `NodePoolTotals.PruningDecidesDelete` | pkg/controllers/disruption/balanced.go:287-299 | under computed totals the pruning test decides the delete of any candidate with a price |

## Left out

- The scheduling simulation, candidate discovery, pod eviction costs, budget schedules (cron) and static or drift disruption: oracles here.
- Kubernetes I/O, events, metrics, logging, retries of single API calls, and the choice of worker counts.
- Floating-point rounding: prices are exact, so the single-replacement special case of the price filter is equivalent here, and rounding at a strict comparison is not modelled.
- `Requirement.Any`, `ContentHash64`, `String` and error texts: random, hash or display code.
- In-place rewriting of the caller's value slice by normalisation, and the second normalisation when `Gt MaxInt` or contradictory bounds collapse to DoesNotExist: the two agree for a settled normaliser.
- The order of the values in a serialised requirement: any listing is allowed.
- Label-value syntax and length limits, and the `AllowUndefinedWellKnownLabels` hints and suggestions in compatibility errors.
- Which of several orders sorting leaves for ties, and which order a map gives its pools: the theorems hold for each.
- `filterOutSameInstanceType` in multi-node consolidation, spot-to-spot stability and flexibility gates, and the split fallback of a failed simulation: not modelled.
- Per-override allocatable groups of offerings: each offering carries its own verdict on whether the claim fits.
- Contents of the negative-cache fingerprint: a string here.
- Price adjustment arithmetic of overlays (absolute, signed, percentage): a function parameter of `OverlayModel.Apply`.
- The pass-scoped caches and the settling delay before the first validation: no effect on the decision modelled.
- Queue.Queue.StartCommand: requires a candidate, because the source indexes the first one; the event it enqueues is the caller of `Queue.Queue.Reconcile`.
- QueueModel.RunSafe: assumes that commands begun concurrently are disjoint; `QueueModel.OverlapLosesCommand` shows why.
- Admission.AdmitProposals: the cluster's nodes, the provider ID and pool behind a node name, and the allowances of the budgets do not change during the batch other than through the commands it starts.
- Retry.NarrowClaim: assumes that every offering names one capacity type and one zone.
- Coverage.AbleReachedIff: for passes of one depth that start from an empty cycle; `Coverage.ReachedIff` is for every depth and order.
- Pricing.LaunchTotal: assumes claims priced as they launch; `Offerings.BoundedIff` says exactly when that is.
- Coverage.RunPass: assumes distinct provider IDs and positive disruption costs, which the cluster state and the base cost of draining a node guarantee.
- Coverage.ProgressCovers: over a set of candidates that does not change between passes; their order may.
- Coverage.CoversIff: steady conditions mean that a pass holds no proposal and that what keeps a candidate from a verdict is the same in every pass.
- Balanced.PruningSound: assumes prices of available offerings and disruption costs that are not negative.
- Balanced.ChainHalves: for nodes whose share of the pool's cost equals their share of its disruption, as in a pool of one node (`NodePoolTotals.OneNodeEvenShare`) or of equal nodes; how far a launch exceeds its estimate is a parameter.
- Overlays.Reconcile: the listing of node pools and instance types, and status updates, are not modelled; a target is a node pool with an instance type name, each listed once.
