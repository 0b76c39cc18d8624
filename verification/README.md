# Verification of the QSCCP strategy and of the repository's algorithms

This project models, in Dafny, the algorithms of the repository that have
something to prove, and proves what they promise.

* **QSCCP rate tables** (`scenario/extensions/QSCCPStrategy.cpp` and `.h`).  A
  `RateCollection` remembers for one flow which face announced which rate: a hash
  index and a list share mutable entries, and a 32-bit total is kept beside them.
  `RateCollection.dfy` has the class with its fields, loops and recursive calls;
  its methods are proved against a value-level table.  `RateTable.dfy` has that
  table and its runs (updates and cleanings), `DeficitRoundRobin.dfy` the face
  selector, `WaterFilling.dfy` the split of an available rate,
  `RateShares.dfy` the split of a merged rate, and `RateStore.dfy` the store that
  drives the tables from Interests, Data and the timer.  Over runs of the store,
  `StoreTraces.dfy` says which faces survive the timer and at which rate,
  `StoreTables.dfy` which tables exist and which events meet a missing one,
  `StoreHistory.dfy` which rates are on record, `FirstInterests.dfy` which Interests
  are given a face, `UpstreamRates.dfy` and `UpstreamShares.dfy` what is asked for
  upstream, `StoreBalances.dfy` when ratios and balances are bounded,
  `SendTargets.dfy` when rates are split and what sent Data hands out, and
  `StoreProgress.dfy` that a run can always go on.
* **Graph algorithms** (`ns-3/bindings/python/topsort.py`): `Digraph.dfy` (walks,
  cycles, pigeonhole), `DependencyTables.dfy`, `Topsort.dfy`,
  `TopsortLevels.dfy`, `Rotation.dfy` and `FindCycles.dfy`.  Dictionaries are
  iterated in an arbitrary order.
* **Worker pool** (`ns-3/test.py`): `WorkerPool.dfy`, a state machine of one
  dispatcher, any number of worker threads, two unbounded queues, poison pills and
  an interrupt that may come at any moment; `WorkerLaunches.dfy` (which jobs are
  run, and what the exit status says about them) and `WorkerOutcomes.dfy` (every
  outcome can happen).
* **Type-graph walk** (`ns-3/utils/print-introspected-doxygen.cc`):
  `TypeHops.dfy` (the ways on from a type), `TypeRoutes.dfy` (the simple routes),
  `TypePaths.dfy` (how a recorded path is read) and `TypeGraphWalk.dfy`, the
  backtracking recursion with its two stacks.
* **Unified diffs** (`ns-3/utils/check-style.py`): `PatchText.dfy`,
  `PatchSet.dfy` (writer and reader), `PatchReading.dfy` (which texts are read)
  and `PatchRoundTrip.dfy`.
* **Command lines** (`ns-3/waf-tools/shellcmd.py`): `ShellSyntax.dfy` (tokens to
  nodes), `ShellGrammar.dfy` (which tokens are accepted), `ShellMeaning.dfy` (what
  a pipeline is worth), `ShellProcesses.dfy` (which processes are started, where
  and with what input), `ShellGrouping.dfy` (how the value compares with the POSIX
  shell) and `ShellPipeline.dfy` (the class that parses and runs).
* **Enumeration** (`ns-3/bindings/python/rad_util.py`): `Permutations.dfy` and
  `BinaryText.dfy`.

`Common.dfy` holds the small vocabulary they share.

Promises of the source that do not hold for every input are stated with the exact
condition under which they do:

* `selectNextFace` ends if and only if nobody is waited for or some face can save
  enough credit (`EndsExactlyWhenSettled`); data below 100000 always ends, two
  faces with half the rate each never pay for data of 200000
  (`LargeDataNeverEnds`).
* The first Interest of a flow is given a face if and only if there is a next hop
  that it did not come from, unless the number of different next hops is a multiple
  of 2^25, for which the 32-bit total of the default rates reads zero
  (`FirstInterestServedExactly`).
* An Interest asks for no more upstream than all downstream faces ask for, if and
  only if nothing is asked for, the total of the recommended rates reads zero, or
  the rate on record for the chosen face is not above that total
  (`UpstreamAsksNoMoreExactly`).  Data without a target rate from two faces is
  enough to break it (`DataWithoutRatesAskMore`).  The recommended faces together
  would be asked for exactly what is asked for downstream, if and only if that is
  nothing or the total has not overflowed (`UpstreamSharesExactly`).
* Up to any point of a run, ratios and balances are bounded if and only if no rate
  on record has been above a total of recommended rates other than zero
  (`RunBoundsExactly`).  Without an overflow none is (`NoOverflowIsWithin`); with
  one the bounds may break (`OverflowBreaksBounds`) or not (`OverflowMayStayBounded`).
* The target rates sent downstream stay within a merged rate that leaves a unit for
  each face, if and only if the 32-bit total has not overflowed
  (`SplitConservation`, and `SendSplitsExactly` for every sending of every run); two
  Interests that ask for the greatest rate already make it overflow
  (`TwoInterestsOverflow`).
* An Interest meets a missing table if and only if it carries no rate, its flow
  has not been introduced before and the recommended rates have a face for it, a
  test on balances and ratios before the call (`NullTableExactly`,
  `SelectsExactly`); the very first Interest can do it (`FirstInterestMeetsNull`).
* A written patch set is read back unchanged if and only if its names and lines are
  single lines, its positions are not negative, and no removed line starts with
  `-- ` and no added line with `++ ` (`RoundTripExactly`, `RemovedDashesAreLost`).
* A text is read as a patch set if and only if a source file comes first of all and
  a chunk header before any content, and every line is one of these (`ParsesExactly`).
* A run of a command line ends with a status, whatever its commands return, if and
  only if the line was accepted, every `cd` has a directory and none comes last
  (`RunsToTheEndExactly`, `TrailingChdir`); it returns what section 2.9.3 of the
  POSIX.1-2017 Shell Command Language prescribes if and only if, from the first
  `&&` or `||` behind a command on, there is only one kind of them, those behind a
  `cd` included (`PosixExactly`).  `a || b && c` and `a || cd d && b` fail
  (`MixedOperators`, `MixedWithChdir`).
* `permutations` returns no list twice if and only if no item is given twice
  (`DistinctExactly`, `TwoEqualItems`).

Where the code and its own text disagree, the model follows the code: the docstring
of `permutations` lists the results in another order than the code builds them in,
`Uniquefy` is said to work in place but gets a copy, so that nothing is
deduplicated after the walk of the types, and the share for a table whose total
is zero is an integer division.  A redirection without its file is accepted at the
very end of a command line, and is then ignored (`AcceptsExactly`).

## Model

| member | source | states |
|---|---|---|
| `FindCycles.FindCycles` | ns-3/bindings/python/topsort.py:343-385 | on every finite graph the search ends; each list yielded is a simple cycle, every simple cycle is a rotation of one yielded, and no two yielded are rotations of each other |
| `FindCycles.Explore` | ns-3/bindings/python/topsort.py:351-385 | one start node: the stack of paths runs empty, every simple path from the start has been followed, and only nodes reachable from the start are marked |
| `FindCycles.Expand` | ns-3/bindings/python/topsort.py:355-385 | one path popped: every child closes a recorded cycle or is pushed, and the work left shrinks by exactly one path |
| `FindCycles.IsDuplicate` | ns-3/bindings/python/topsort.py:371-375 | the search among the known cycles succeeds exactly if one of them is a rotation of the new one |
| `FindCycles.ReachedCycleIsRecorded` | ns-3/bindings/python/topsort.py:346-349 | skipping marked nodes loses nothing: a cycle that some explored start can reach has been recorded up to rotation |
| `Rotation.IsRotated` | ns-3/bindings/python/rad_util.py:735-775 | the comparison of slices of the doubled list decides rotation; two empty lists are an error |
| `Rotation.RotationTransitive` | ns-3/bindings/python/rad_util.py:735-775 | rotation is transitive, so that comparing with one representative is enough |
| `DependencyTables.BuildTables` | ns-3/bindings/python/topsort.py:77-90 | the two dictionaries hold, for every element, how often it occurs as a child and the list of its children, duplicates and self-loops counted |
| `DependencyTables.WaitingExactly` | ns-3/bindings/python/topsort.py:77-90 | the count of an element is the number of the pairs in which it is a child and whose parent is not finished |
| `DependencyTables.ChildrenExactly` | ns-3/bindings/python/topsort.py:77-90 | a child is in the list of a parent as often as the pair is given |
| `DependencyTables.LeftoverComesFromCycles` | ns-3/bindings/python/topsort.py:108-111 | what cannot be ordered is what lies on a cycle or is reachable from one, and something is left exactly if there is a cycle |
| `DependencyTables.AncestorBefore` | ns-3/bindings/python/topsort.py:62-64 | in an order with parents first, every ancestor along any walk comes first |
| `Topsort.Topsort` | ns-3/bindings/python/topsort.py:61-112 | fails exactly if the pairs contain a directed cycle; else every element once, parents before children; the error names the elements on or behind a cycle, those ordered, how many parents of each are not ordered yet, and the remaining children |
| `Topsort.FinishParent` | ns-3/bindings/python/topsort.py:97-106 | one turn of the loop over the growing answer: no deleted count is touched, and the counts are again those of the parents still to come |
| `Topsort.KnockDownChildren` | ns-3/bindings/python/topsort.py:100-103 | knocking down the children appends exactly the elements whose last parent is done |
| `TopsortLevels.TopsortLevels` | ns-3/bindings/python/topsort.py:157-172 | level k holds the elements whose longest incoming path has k edges; together the levels are a topological order, or the error names what is on or behind a cycle, with the counts and children that remain |
| `TopsortLevels.TopsortLevelsCore` | ns-3/bindings/python/topsort.py:203-232 | the same for tables that describe a list of pairs; in the error they describe it again, less the elements ordered |
| `TopsortLevels.NextLevel` | ns-3/bindings/python/topsort.py:205-205 | an element is free in round k exactly if its longest incoming path has k edges |
| `RateTable.Mod32IsRemainder` | scenario/extensions/QSCCPStrategy.h:76-76 | the wrap-around of the 32-bit totals is the remainder modulo 2^32 |
| `RateTable.SumAfterUpdate` | scenario/extensions/QSCCPStrategy.cpp:194-212 | an update moves the true sum of the rates by the new rate less the one recorded before |
| `RateTable.UpdateConsistent` | scenario/extensions/QSCCPStrategy.cpp:189-226 | an update keeps the ids distinct and the total equal to the sum of the rates modulo 2^32 |
| `RateTable.UpdateFresh` | scenario/extensions/QSCCPStrategy.cpp:214-224 | an update leaves every ratio equal to its rate over the total, although a repeated rate skips the refresh |
| `RateTable.FreshExactly` | scenario/extensions/QSCCPStrategy.cpp:214-224 | an up-to-date ratio times the total is the rate; with a total of zero it is 1 for a lone face and 0 otherwise |
| `RateTable.StepKeepsCredit` | scenario/extensions/QSCCPStrategy.cpp:159-226 | updates and cleanings move no balance and no allocation, new faces start with neither, and without an erasing every face keeps its place |
| `RateTable.EraseConsistent` | scenario/extensions/QSCCPStrategy.cpp:163-186 | erasing silent faces keeps index, list and total in agreement |
| `RateTable.RunInvariant` | scenario/extensions/QSCCPStrategy.cpp:159-226 | after any sequence of updates, cleanings and selections the total is the sum modulo 2^32 and every counter is the number of updates since the last cleaning |
| `RateTable.EraseKeepsUpdatedFaces` | scenario/extensions/QSCCPStrategy.cpp:163-177 | a face survives an erasing cleaning exactly if its updates since the previous one are not a multiple of 2^32, hence, without a wrap, exactly if there was one |
| `RateTable.NeverErasedRun` | scenario/extensions/QSCCPStrategy.cpp:385-387 | in a run without erasing no face disappears and every ratio stays exact |
| `RateTable.ResetAfterSilence` | scenario/extensions/QSCCPStrategy.cpp:168-177 | after a resetting cleaning a face that was silent has the default rate and every other its own |
| `RateTable.SurvivorsInAnyOrder` | scenario/extensions/QSCCPStrategy.cpp:180-186 | whatever the order of the hash index, the rebuilt list is a permutation of the survivors |
| `RateCollections.RateCollection.AddOrUpdateRate` | scenario/extensions/QSCCPStrategy.cpp:189-226 | the method on shared entries makes the table that the value-level update makes, and reports whether the face is new |
| `RateCollections.RateCollection.ListedIffIndexed` | scenario/extensions/QSCCPStrategy.h:74-75 | a face is listed exactly if it is indexed |
| `RateCollections.RateCollection.RefreshRatios` | scenario/extensions/QSCCPStrategy.cpp:216-223 | the loop gives every entry its share, with the integer division when the total is zero |
| `RateCollections.RateCollection.SelectNextFace` | scenario/extensions/QSCCPStrategy.cpp:228-269 | the recursive method ends, and makes the selection of the value-level selector |
| `RateCollections.RateCollection.SelectFaceByRatio` | scenario/extensions/QSCCPStrategy.cpp:271-311 | an empty table is filled from the next hops, one face is taken unless the Interest came from it, and several are selected among |
| `RateCollections.RateCollection.GetRatioByFace` | scenario/extensions/QSCCPStrategy.cpp:313-325 | the share of a face: an equal one when the total is zero, one hundredth for a stranger |
| `RateCollections.RateCollection.GetAllocateRate` | scenario/extensions/QSCCPStrategy.cpp:361-368 | the allocation of the face that is listed under the id, and nothing for a stranger |
| `RateCollections.RateCollection.GetFaceNum` | scenario/extensions/QSCCPStrategy.h:37-40 | the size of the index is the number of listed faces |
| `RateCollections.RateCollection.GetMergeRate` | scenario/extensions/QSCCPStrategy.h:42-45 | in a table whose total agrees with its rates, the sum of all rates on record modulo 2^32 |
| `RateCollections.RateCollection.DoPeriodicCleaning` | scenario/extensions/QSCCPStrategy.cpp:159-187 | both forms of the loop end and make a cleaning step of the table, for every order of the hash index |
| `RateCollections.RateCollection.ResetSilentFaces` | scenario/extensions/QSCCPStrategy.cpp:162-178 | the form that does not advance after an update ends, gives silent faces the default rate and keeps index and list as they were |
| `RateCollections.RateCollection.EraseSilentFaces` | scenario/extensions/QSCCPStrategy.cpp:162-186 | the erasing form leaves the survivors with cleared counters and the total without the silent rates |
| `RateCollections.RateCollection.KeptAreSurvivors` | scenario/extensions/QSCCPStrategy.cpp:180-186 | the entries left in the index are the survivors |
| `RateCollections.RateCollection.CalSplitRateByRate` | scenario/extensions/QSCCPStrategy.cpp:327-359 | the allocations are a max-min fair split, or unchanged when there is nothing to split |
| `RateCollections.RateCollection.FillSorted` | scenario/extensions/QSCCPStrategy.cpp:342-357 | the loop over the sorted entries, with its signed temporary, does the value-level water-filling |
| `RateCollections.RateCollection.UpdateTotalAvailableRate` | scenario/extensions/QSCCPStrategy.h:57-65 | the new rate is stored, and the split renewed exactly when it moved by more than a fifth |
| `DeficitRoundRobin.EndsExactlyWhenSettled` | scenario/extensions/QSCCPStrategy.cpp:228-269 | the recursion ends if and only if nobody is waited for or some face can save more credit than the data costs |
| `DeficitRoundRobin.SmallDataSettles` | scenario/extensions/QSCCPStrategy.cpp:234-236 | data below the credit cap always ends |
| `DeficitRoundRobin.LargeDataNeverEnds` | scenario/extensions/QSCCPStrategy.cpp:249-263 | two faces of ratio one half and data of 200000: no end |
| `DeficitRoundRobin.UnservedPassProgress` | scenario/extensions/QSCCPStrategy.cpp:230-263 | a pass that serves nobody and starts a sweep uses up one top-up of somebody |
| `DeficitRoundRobin.SelectResult` | scenario/extensions/QSCCPStrategy.cpp:245-268 | a listed face other than the excluded one is returned whenever some such face has a share of at least 0.00001; only balances change, and the sweep stops at the face served |
| `DeficitRoundRobin.SelectKeepsBounds` | scenario/extensions/QSCCPStrategy.cpp:232-256 | balances stay at least 0 and below 116000 while ratios are at most 1 |
| `DeficitRoundRobin.FairService` | scenario/extensions/QSCCPStrategy.cpp:228-269 | over any run from zero balances, after R top-ups every face has been served at most R quanta and at least that less the largest data and one quantum |
| `DeficitRoundRobin.ProportionalService` | scenario/extensions/QSCCPStrategy.cpp:228-269 | two faces are served in the proportion of their ratios up to a bound that does not grow with the run |
| `DeficitRoundRobin.LedgerBalances` | scenario/extensions/QSCCPStrategy.cpp:234-253 | credit is conserved: what a face was served and what it holds is what it held and was given |
| `DeficitRoundRobin.SelectedFace` | scenario/extensions/QSCCPStrategy.cpp:271-311 | a face that is chosen is in the table and is not the one the Interest came from |
| `DeficitRoundRobin.ChoosesExactly` | scenario/extensions/QSCCPStrategy.cpp:245-268 | a face is returned if and only if one other than the excluded has a share of at least 0.00001, or can pay in what is left of the sweep, or can pay after the top-up that follows a sweep begun later than at the first face |
| `DeficitRoundRobin.SelectsExactly` | scenario/extensions/QSCCPStrategy.cpp:271-311 | whether an Interest gets a face, as a test on the table and the next hops before the call: no face, one face, several faces |
| `FirstInterests.ServesExactly` | scenario/extensions/QSCCPStrategy.cpp:228-269 | the same with every number written out: the share, the balance against the size, the cap of 100000 and the top-up of 16000 times the share |
| `FirstInterests.InterestServedExactly` | scenario/extensions/QSCCPStrategy.cpp:245-268 | after any run of the store, an Interest with several faces to choose from is given one if and only if another face has a rate of at least one part in 100000 of the total, or can pay at once, or after a top-up |
| `FirstInterests.FirstInterestServedExactly` | scenario/extensions/QSCCPStrategy.cpp:271-311 | an Interest that fills the table is given a face if and only if some next hop is not the ingress and the number of different next hops is no multiple of 2^25 |
| `FirstInterests.FirstInterestServed` | scenario/extensions/QSCCPStrategy.cpp:271-311 | with fewer than 2^25 next hops, none called 0, and data below the cap, it is answered, with a next hop other than the ingress as soon as there is one |
| `FirstInterests.ThreeNextHops` | scenario/extensions/QSCCPStrategy.cpp:228-311 | three next hops, data of unknown size: face 1 after two top-ups, with 9000 paid |
| `WaterFilling.WaterFillIsMaxMin` | scenario/extensions/QSCCPStrategy.cpp:342-357 | over a sorted list the loop makes a max-min fair split |
| `WaterFilling.FillConserves` | scenario/extensions/QSCCPStrategy.cpp:342-357 | despite the floor at every turn, the allocations sum to the available rate or to all demands, whichever is less |
| `WaterFilling.FillIsFair` | scenario/extensions/QSCCPStrategy.cpp:345-357 | if a face gets less than it asked for, no other gets more than one above it |
| `WaterFilling.FillKeepsFaces` | scenario/extensions/QSCCPStrategy.cpp:345-357 | no face gets more than it asked for, and nothing but allocations changes |
| `WaterFilling.MaxMinSplitPermutes` | scenario/extensions/QSCCPStrategy.cpp:336-340 | fairness does not depend on how equal rates are sorted |
| `WaterFilling.OneFaceSplit` | scenario/extensions/QSCCPStrategy.cpp:331-335 | the case of one face is a max-min fair split, too |
| `WaterFilling.Int32Subtraction` | scenario/extensions/QSCCPStrategy.cpp:346-348 | passing a turn through a signed 32-bit temporary does not change the subtraction |
| `RateShares.SplitConservation` | scenario/extensions/QSCCPStrategy.cpp:458-482 | with n >= 2 faces the truncated target rates sum to more than the merged rate less n, and to at most the merged rate if and only if the total has not overflowed (for a merged rate of at least n) |
| `RateShares.GreatestRatesOverflow` | scenario/extensions/QSCCPStrategy.h:145-149 | two faces with the greatest rate make the target rates exceed the merged rate |
| `RateShares.TargetIsShare` | scenario/extensions/QSCCPStrategy.cpp:313-325 | the target rate of a face is its weight times the rate per unit, rounded down |
| `RateStore.StoreInvariant` | scenario/extensions/QSCCPStrategy.cpp:378-482 | at every point of every run of the store every table has its total equal to its sum modulo 2^32, and the recommended tables have exact ratios |
| `RateStore.RecommendedFacesStay` | scenario/extensions/QSCCPStrategy.cpp:385-387 | a face once in a recommended table stays there for the whole run |
| `StoreTraces.TimerKeepsAskingFaces` | scenario/extensions/QSCCPStrategy.cpp:378-393 | after a timer event the asking faces of a flow are those heard since the previous one (by Interests with a rate, counted modulo 2^32) |
| `StoreTraces.SilentFacesFallBack` | scenario/extensions/QSCCPStrategy.cpp:385-387 | after a timer event a recommended face has the rate 2000000 if no rate was told for it since the previous one (counted modulo 2^32), and else the rate it had |
| `StoreHistory.AskedRatesExactly` | scenario/extensions/QSCCPStrategy.cpp:401-413 | after any run a face is among the available rates of a flow, and with which rate, exactly as the history says: the rate of its last Interest, forgotten at a timer that finds it silent |
| `StoreHistory.ToldRatesExactly` | scenario/extensions/QSCCPStrategy.cpp:442-455 | after any run the recommended rate of a face is that of the last Data from it (the greatest if it named none), 2000000 for a next hop that filled the table and for a face that a timer finds silent |
| `StoreHistory.OnlyInterestsMoveCredit` | scenario/extensions/QSCCPStrategy.cpp:228-269 | in every run only Interests of the flow move the balances of the recommended faces; anything else keeps them, their places and where the selector resumes |
| `StoreProgress.RunGoesOn` | scenario/extensions/QSCCPStrategy.cpp:378-482 | after any run every event that is answered and reads no missing table can be taken |
| `StoreProgress.SplitExists` | scenario/extensions/QSCCPStrategy.cpp:327-359 | every table has a max-min fair split |
| `StoreTables.NullTableExactly` | scenario/extensions/QSCCPStrategy.cpp:401-428 | after any run the missing table is dereferenced if and only if no rate is carried, the flow was never introduced and the recommended rates have a face for the Interest, each a test before the call |
| `StoreTables.FirstInterestMeetsNull` | scenario/extensions/QSCCPStrategy.cpp:415-426 | the first Interest, with no rate and one next hop, dereferences a missing table |
| `StoreTables.FlowsExactly` | scenario/extensions/QSCCPStrategy.cpp:402-464 | after any run a flow has its table of available rates exactly if an Interest with a rate came or Data was sent, and its table of recommended rates exactly if an Interest or Data came |
| `StoreTables.SendMissesExactly` | scenario/extensions/QSCCPStrategy.cpp:442-463 | after any run, sending Data meets a missing table if and only if the flow had no Interest and no Data before |
| `StoreTables.SmallInterestsAnswerable` | scenario/extensions/QSCCPStrategy.cpp:228-311 | in every run in which no face is called 0, the selector ends for every Interest whose data is below the credit cap |
| `UpstreamRates.UpstreamAsksNoMoreExactly` | scenario/extensions/QSCCPStrategy.cpp:421-428 | for the face that a step selects, no more is asked for upstream than downstream if and only if nothing is asked for, the total reads zero, or the rate on record for the face is not above the total; so always without an overflow |
| `UpstreamRates.DataWithoutRatesAskMore` | scenario/extensions/QSCCPStrategy.cpp:447-455 | the run of two Data without a rate and one Interest that asks for 1000 asks for more upstream |
| `UpstreamShares.UpstreamSharesExactly` | scenario/extensions/QSCCPStrategy.cpp:421-428 | at every Interest of every run that is given a face, the rate asked for upstream times the recommended total is the rate on record times the downstream total (an equal part if the recommended total reads zero); over all faces it sums to the downstream total if and only if that is nothing or there is no overflow |
| `StoreBalances.RunBoundsExactly` | scenario/extensions/QSCCPStrategy.cpp:214-256 | up to any point of any run of the store, ratios are between 0 and 1 and balances at least 0 and below 116000 if and only if no rate on record has been above a total other than zero |
| `StoreBalances.NoOverflowIsWithin` | scenario/extensions/QSCCPStrategy.cpp:210-224 | while the total has not overflowed, no rate is above it |
| `StoreBalances.OverflowMayStayBounded` | scenario/extensions/QSCCPStrategy.cpp:210-224 | three rates of 2^31 overflow to a total of 2^31, and every ratio is still within 1 |
| `StoreBalances.OverflowBreaksBounds` | scenario/extensions/QSCCPStrategy.cpp:210-237 | rates of 2^32 - 1 and 2 give a ratio above 1 and, after one Interest, a balance of at least 116000 |
| `SendTargets.SendSplitsExactly` | scenario/extensions/QSCCPStrategy.cpp:458-482 | whenever Data is sent in a run of the store, the target rates of the n >= 2 faces that ask for its flow sum to more than the recommended total less n, and to at most that total if and only if the rates asked for have not overflowed (for a total of at least n) |
| `SendTargets.SendTargetsExactly` | scenario/extensions/QSCCPStrategy.cpp:474-481 | in every run every sent Data carries the whole recommended total for a lone asker, else the whole part of the share of the face, an equal part if nothing is asked for, a hundredth for a face that does not ask |
| `SendTargets.SendRenewsExactly` | scenario/extensions/QSCCPStrategy.h:57-65 | in every run, sending renews the split exactly if the recommended total is above 6/5 or below 4/5 of the available rate before |
| `SendTargets.InterestRenewsExactly` | scenario/extensions/QSCCPStrategy.cpp:409-412 | in every run, an Interest with a rate renews the split exactly if its face has not asked before |
| `SendTargets.TwoInterestsOverflow` | scenario/extensions/QSCCPStrategy.cpp:458-482 | a run of two Interests for the greatest rate, after which sent Data hands out more than the recommended total |
| `WorkerPool.RunInv` | ns-3/test.py:965-1033 | in every interleaving every job is in exactly one place, and the input queue holds what was put last, in order |
| `WorkerPool.AnswersKeepOrder` | ns-3/test.py:1689-1690 | in every interleaving the answers are collected in the order in which the workers gave them |
| `WorkerPool.NothingBehindAPill` | ns-3/test.py:1667-1670 | once a worker holds a pill, only pills are left in the queue |
| `WorkerPool.NeverStuck` | ns-3/test.py:1689-1690 | until the program has finished some step other than the interrupt can be taken |
| `WorkerPool.RunIsBounded` | ns-3/test.py:965-1033 | a run has a bounded number of program steps, whatever the scheduler does |
| `WorkerPool.FinishedExactlyOnce` | ns-3/test.py:1689-1829 | at the end every dispatched job has been collected exactly once, both queues are empty and every worker has left |
| `WorkerPool.Verdict` | ns-3/test.py:1699-1717 | the status is 0 exactly if every collected job passed or was skipped; a job handed back unrun means that there was an interrupt |
| `WorkerPool.TallyBound` | ns-3/test.py:1913-1916 | the comparison of the counters succeeds exactly if every job did well |
| `WorkerPool.TallyExactly` | ns-3/test.py:1699-1717 | at every moment each of the five counters is the number of collected answers of its kind |
| `WorkerLaunches.CollectedRanExactly` | ns-3/test.py:980-1033 | in every interleaving a collected job was run by some worker if and only if it is neither skipped nor broken off, and its return code is the one with which that program ended |
| `WorkerLaunches.RunsOnce` | ns-3/test.py:988-1033 | no job is run twice |
| `WorkerLaunches.NoLaunchAfterInterrupt` | ns-3/test.py:975-978 | once the interrupt flag is raised no worker begins to run a job |
| `WorkerLaunches.StatusExactly` | ns-3/test.py:1913-1916 | the status is 0 if and only if every job to be run was run and ended with 0, and every job to be skipped was passed on unbroken |
| `WorkerOutcomes.EveryOutcomeHappens` | ns-3/test.py:1006-1019 | for every list of exit codes some run ends with all jobs collected, each with its code |
| `TypeGraphWalk.StaticInformation.DoGather` | ns-3/utils/print-introspected-doxygen.cc:1198-1282 | ends on every finite graph, leaves both stacks as it found them and appends the entries of the walk |
| `TypeGraphWalk.StaticInformation.Gather` | ns-3/utils/print-introspected-doxygen.cc:1189-1195 | a type is recorded with a path exactly if the path leads to it from the root, along types of which none comes twice |
| `TypePaths.PathsExactly` | ns-3/utils/print-introspected-doxygen.cc:1198-1282 | the paths recorded are those whose components can be read from the root: a name along a pointer attribute that does not point to any object, a name and `[i]` along a container attribute, `$` and a type to a derived or aggregated type |
| `TypePaths.EntriesExactly` | ns-3/utils/print-introspected-doxygen.cc:1198-1282 | the same in the middle of a walk, behind the path so far and without the types on it |
| `TypePaths.HopsExactly` | ns-3/utils/print-introspected-doxygen.cc:1207-1280 | the ways on from a type, in terms of attributes, derived types and aggregations alone |
| `TypePaths.DeviceList` | ns-3/utils/print-introspected-doxygen.cc:1239-1239 | a container of devices is recorded under `/DeviceList/[i]` |
| `TypeRoutes.OneEntryPerSimplePath` | ns-3/utils/print-introspected-doxygen.cc:1202-1206 | the entries from a root are, one by one, those of its simple paths: each path once, with its type and its label |
| `TypeRoutes.RoutesAreSimple` | ns-3/utils/print-introspected-doxygen.cc:1202-1205 | a route is taken exactly if it visits no type twice |
| `TypeGraphWalk.StaticInformation.HasAlreadyBeenProcessed` | ns-3/utils/print-introspected-doxygen.cc:1126-1138 | the scan decides membership in the stack |
| `TypeGraphWalk.StaticInformation.GetCurrentPath` | ns-3/utils/print-introspected-doxygen.cc:1104-1115 | the label is the joined path |
| `TypeGraphWalk.StaticInformation.RecordOutput` | ns-3/utils/print-introspected-doxygen.cc:1118-1123 | one entry is appended, with the current path |
| `PatchRoundTrip.RoundTripExactly` | ns-3/utils/check-style.py:348-403 | the text of a patch set is read back as that patch set if and only if the condition on names, positions and lines holds |
| `PatchRoundTrip.RemovedDashesAreLost` | ns-3/utils/check-style.py:368-374 | the patch set that removes the line `-- x` is not read back |
| `PatchRoundTrip.LineRead` | ns-3/utils/check-style.py:359-400 | a written line is read as content with its kind and text, unless it looks like the name of a file |
| `PatchRoundTrip.ReadReadable` | ns-3/utils/check-style.py:359-403 | what is read has single lines and positions without a sign, whatever the text |
| `PatchRoundTrip.ReadCount` | ns-3/utils/check-style.py:381-400 | no line of content is lost or read twice |
| `PatchSet.ParsePatchset` | ns-3/utils/check-style.py:359-403 | the loop of the reader does what the fold of its rounds does, exceptions included |
| `PatchReading.ParsesExactly` | ns-3/utils/check-style.py:360-407 | a text is read without an exception if and only if every line is in its place |
| `PatchReading.HeaderExactly` | ns-3/utils/check-style.py:362-362 | a line is a chunk header if and only if it starts with the marks and four numbers of one, and its positions are the first and the third |
| `PatchSet.WriteLine` | ns-3/utils/check-style.py:204-217 | a line is written with its mark, or an exception raised exactly when its kind was never set |
| `PatchSet.WriteChunk` | ns-3/utils/check-style.py:286-293 | header and lines, in order; fails exactly at a line without a kind |
| `PatchSet.LengthsExactly` | ns-3/utils/check-style.py:291-292 | the lengths in a header are the numbers of lines of the old and of the new text; their sum counts the common lines twice |
| `PatchSet.WritePatch` | ns-3/utils/check-style.py:348-356 | names and chunks, in order |
| `PatchSet.WritePatchset` | ns-3/utils/check-style.py:348-356 | patches written one after the other give the rendered lines |
| `PatchText.HeaderRoundTrip` | ns-3/utils/check-style.py:291-292 | a chunk header is matched by the regular expression and its positions are read back |
| `PatchText.ToNatOfDecimal` | ns-3/utils/check-style.py:238-239 | a number written in decimal is read back |
| `PatchText.LinesOfUnlines` | ns-3/utils/check-style.py:367-367 | lines without line ends, written each with one, are iterated as they were |
| `ShellSyntax.AcceptedExactly` | ns-3/waf-tools/shellcmd.py:121-201 | the node lists that some command line parses to are exactly the well-formed ones |
| `ShellSyntax.WellFormedShape` | ns-3/waf-tools/shellcmd.py:121-201 | commands and operators take turns, first and last is a command, a `cd` is last or followed by `&&`, and output goes to a pipe exactly in front of a pipe operator |
| `ShellSyntax.WordsRoundTrip` | ns-3/waf-tools/shellcmd.py:121-201 | written as words, a well-formed pipeline is parsed back unchanged: arguments, redirections and environment included |
| `ShellSyntax.StepKeepsParsing` | ns-3/waf-tools/shellcmd.py:136-199 | every token keeps the committed part well formed, in every state of the parser |
| `ShellSyntax.RefusedIsCommitted` | ns-3/waf-tools/shellcmd.py:121-201 | a command line that is refused leaves units each followed by its operator |
| `ShellSyntax.EnvWordRead` | ns-3/waf-tools/shellcmd.py:24-24 | an assignment word is split at its first equals sign |
| `ShellSyntax.EnvVarExactly` | ns-3/waf-tools/shellcmd.py:24-24 | a word is an assignment if and only if it is a name, an equals sign, a value without white space and perhaps a line end |
| `ShellGrammar.AcceptsExactly` | ns-3/waf-tools/shellcmd.py:121-201 | a list of tokens is accepted, and makes a pipeline, if and only if it is spelled by the grammar of clauses: assignments, name, arguments and redirections in any order with no stream redirected twice; `cd` with at most one directory |
| `ShellPipeline.Pipeline.Parse` | ns-3/waf-tools/shellcmd.py:121-201 | the loop over the tokens leaves the parsed nodes, or stops at the failed assertion with what had been committed; either can be run |
| `ShellSyntax.CommitOne` | ns-3/waf-tools/shellcmd.py:101-104 | committing a unit and its operator keeps the committed part well formed |
| `ShellPipeline.Pipeline.Run` | ns-3/waf-tools/shellcmd.py:214-346 | after any parse: the run stops at the first command that is last or whose operator ends it and returns its status, returns nothing at the end of a pipeline cut short, or raises at a `cd` that cannot be carried out; it has started exactly the commands reached, in order, each where the `cd`s in front of it lead and with its input |
| `ShellProcesses.ValueExactly` | ns-3/waf-tools/shellcmd.py:285-346 | the value of a run is that of the one place where it stops |
| `ShellProcesses.StartedExactly` | ns-3/waf-tools/shellcmd.py:222-346 | a command is started if and only if no `cd` in front of it fails and every operator in front of it lets the run go on |
| `ShellProcesses.ProcessIsRight` | ns-3/waf-tools/shellcmd.py:224-281 | a process is started where the caller is if there is no `cd` in front, else in the last absolute directory, or `.`, followed by the later ones behind one slash each; it reads from the command piped into it, else from its file, else what the caller reads |
| `ShellProcesses.PlainPath` | ns-3/waf-tools/shellcmd.py:228-228 | relative directories that do not end in a slash make `.` followed by each of them behind a slash |
| `ShellProcesses.OneChdir` | ns-3/waf-tools/shellcmd.py:228-228 | `cd d` and then `b`: `b` is started in `./d` |
| `ShellProcesses.TwoChdirs` | ns-3/waf-tools/shellcmd.py:228-228 | `cd a` and then `cd b` and then `c`: `c` is started in `./a/b` |
| `ShellProcesses.AbsoluteChdir` | ns-3/waf-tools/shellcmd.py:228-228 | `cd a` and then `cd /t` and then `c`: `c` is started in `/t` |
| `ShellPipeline.ExecPipedCommands` | ns-3/waf-tools/shellcmd.py:203-212 | the status of a pipe is that of its last command (section 2.9.2 of the POSIX.1-2017 Shell Command Language) |
| `ShellMeaning.RunsToTheEndExactly` | ns-3/waf-tools/shellcmd.py:226-232 | a run ends with a status for all exit statuses if and only if the line was accepted, every `cd` has a directory and none is last |
| `ShellMeaning.TrailingChdir` | ns-3/waf-tools/shellcmd.py:226-228 | `cd d` is accepted and its run raises an exception |
| `ShellGrouping.PosixExactly` | ns-3/waf-tools/shellcmd.py:306-346 | the value is the left-associative one of section 2.9.3, with a `cd` a command that succeeds, for all exit statuses if and only if from the first list operator behind a command on only one kind of them occurs, those behind a `cd` included |
| `ShellGrouping.UniformAgrees` | ns-3/waf-tools/shellcmd.py:306-346 | with one kind of list operator from there on, both groupings of the nodes give the same value for all exit statuses |
| `ShellGrouping.MixedDiffers` | ns-3/waf-tools/shellcmd.py:306-346 | if an operator of the other kind follows, be it behind a `cd`, there are exit statuses for which they differ |
| `ShellGrouping.MixedOperators` | ns-3/waf-tools/shellcmd.py:306-346 | `a` or else `b` and then `c`, where `a` succeeds and `c` fails: 0 here, 1 with the left-associative grouping |
| `ShellGrouping.MixedWithChdir` | ns-3/waf-tools/shellcmd.py:306-346 | `a` or else `cd d` and then `b`, where `a` succeeds and `b` fails: 0 here, 1 with the left-associative grouping |
| `Permutations.Permute` | ns-3/bindings/python/rad_util.py:310-326 | the loops build the lists of the recursive description, in its order |
| `Permutations.CountOrders` | ns-3/bindings/python/rad_util.py:310-326 | n items give n! lists |
| `Permutations.PermutationsExactly` | ns-3/bindings/python/rad_util.py:310-326 | a list is returned if and only if it is a permutation of the items |
| `Permutations.DistinctExactly` | ns-3/bindings/python/rad_util.py:310-326 | no list is returned twice if and only if no item is given twice |
| `Permutations.TwoEqualItems` | ns-3/bindings/python/rad_util.py:310-326 | two equal items give the same list twice |
| `BinaryText.BinaryRange` | ns-3/bindings/python/rad_util.py:639-660 | the counter ends; it lists all 2^n numerals of width n in order, and nothing for the width 0 |
| `BinaryText.CountUp` | ns-3/bindings/python/rad_util.py:649-659 | the inner loop over the toggles adds one in place and leaves the carry behind the last digit |
| `BinaryText.IncrementCounts` | ns-3/bindings/python/rad_util.py:651-659 | the ripple of carries turns the digits of k into those of k + 1, and overflows exactly at 2^n |
| `BinaryText.Int2BinExactly` | ns-3/bindings/python/rad_util.py:91-107 | the way over hexadecimal digits gives the n-digit numeral, or the exception exactly from 2^n on |
| `BinaryText.BinRoundTrip` | ns-3/bindings/python/rad_util.py:96-130 | `bin2int` undoes `int2bin` on every number that fits |
| `BinaryText.BinTextRoundTrip` | ns-3/bindings/python/rad_util.py:96-130 | `int2bin` undoes `bin2int` on every text of binary digits |
| `BinaryText.RangeIsInt2Bin` | ns-3/bindings/python/rad_util.py:639-660 | the k-th entry of the range is `int2bin` of k |

## Left out

- Doubles of the C++ code are real numbers here; rounding is not modelled. Totals, rates and counters keep their 32 bits.
- RateStore: the store and its events are modelled on values, with each table a value of `RateTable`; sharing of tables by reference is not captured. Names, Interests, Data, the FIB, the PIT, suppression, scheduling, nacks and forwarding are parameters or absent, and so is the choice of the next hop after the selector.
- `afterReceiveNack` (empty), `afterContentStoreHit` (logs), the random generator and its threshold are not modelled.
- RateCollections.RateCollection.SelectNextFace: requires that the recursion ends, which `EndsExactlyWhenSettled` decides, and that no face has the id 0, which the forwarder reserves for "no face". The index into the list is a natural number, not an `int`.
- RateCollections.RateCollection.SelectFaceByRatio: requires the same where there are several faces; `SmallInterestsAnswerable` shows it after every run in which no face is called 0, for data below the credit cap.
- RateCollections.RateCollection.CalSplitRateByRate: requires fewer than 2^31 entries, for the source counts them in an `int`; the sort may order equal rates in any way, and here it is an insertion sort.
- RateCollections.RateCollection.DoPeriodicCleaning: the loop is written in two forms, one for each value of the flag that it never changes.
- RateCollections.RateCollection.UpdateTotalAvailableRate: nothing is claimed on how far an old split may drift, for the test compares with a value that moves at every call.
- `totalRate` and `nextForwardFace` have no initialiser of their own; they start at zero, as value-initialisation by `make_shared` leaves them.
- DeficitRoundRobin.FairService: for runs with fixed ratios, starting from zero balances, with an excluded id that is not listed and data below the credit cap.
- FindCycles.FindCycles: a list of results, not a generator; a consumer that changes a yielded cycle in the middle of the search is not modelled.
- TopsortLevels.TopsortLevelsCore: requires counts that are the numbers of parents, as its docstring asks, and that every item is in some pair; other tables, which the source accepts, are not modelled.
- WorkerPool: jobs return, there is at least one processor where progress is claimed, and the queues are unbounded; building the list of jobs, reports, XML, valgrind and process launches are absent. A job that was interrupted is collected, but counted nowhere.
- TypeGraphWalk: `IsChildOf`, the attributes and the registered types are given as relations; the class for unknown type names, printing and the template `Uniquefy`, which works on a copy, are absent.
- PatchSet: the patches under construction are values, and the current chunk is named by its two positions; the objects that the source shares between the list and its variables are not. Text lines end at the line feed only.
- `remove_trailing_whitespace_changes`, the formatting tool, temporary files, version control and the external patch program are absent.
- ShellPipeline.Pipeline.Run: for the nodes that a parse leaves, accepted or refused; nodes put together in another way are not modelled. File handles, splitting of a string into tokens, verbose printing (which reads a variable before it is assigned) and the real processes are absent: an exit status is given for every position. Opening a redirection is taken to succeed. The arguments, the output redirections and the environment of a process are those of its node and are not repeated in the model of a process.
- ShellGrouping.PosixExactly: a `cd` is taken to succeed, for the source never changes directory itself and finds a wrong one only when it starts a process.
- ShellSyntax: white space in assignments is that of ASCII.
- BinaryText.Bin2Int: only for texts of binary digits; the signs, spaces and prefixes that the built-in conversion accepts are not modelled.
- The rest of `rad_util.py`, `ns-3/utils/grid.py`, the scenarios, the examples and the other build tools are plumbing or have no clear specification.
