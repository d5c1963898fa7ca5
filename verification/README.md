# Verified models of RustMC's core algorithms

RustMC is a stateless model checker for programs with mixed-size memory accesses. This
project models five parts of it that compute something simple in a way that is not obvious,
and proves what they compute.

1. **Combinations and permutations** (`Lists`, `Enumeration`, `Functors`, `Rotations`,
   `*Steps`, `Feeding`, `Engine`, `Exactness*`, `VisitsExact`, `ReversibleExact`, `ForEach`,
   `Arithmetic`, `Counting`, `VisitCounts`). `Engine.Range` runs the in-place algorithms on an
   array. A nest of function objects is a value of the datatype `Functors.Functor`, and
   `Functors.Visits` lists the states it shows. The engine is proved to show exactly that list,
   up to the first `true` of the user's function; other lemmas say what is in the list. The
   user's function sees everything it has been shown and leaves the range alone.
2. **Mixed-size accesses** (`MixedAccess`, `RfOptions`, `RfExact`, `WordValues`, `RfValue`,
   `Coherence`, `RmwPlacement`, `RmwExact`, `RmwOptions`, `CoInsertion`, `CoOrderings`,
   `CoEqual`, `CoFront`, `CoCuts`, `CoDriver`). Inside one 8-byte word, a fragment is a set of
   byte offsets, and a value is a 64-bit word that is shifted by whole bytes. Whether a store
   happens before an event is an arbitrary predicate.
   `CoOrderings` rests on the completeness of `for_each_permutation` from part 1.
3. **Context bound** (`ContextBound`, `ContextOrder`, `ContextEnabled`, `ContextSearch`,
   `ContextOptimal`, `ContextGreedy`, `ContextSteps`, `ContextLocks`, `ContextBarriers`). The
   bounded search over backward linearizations agrees with the calculated minimum. On any graph
   that is the minimum over the linearizations that take events greedily. It is the minimum over
   all linearizations if taking events early enables no thread, as without lock and barrier
   reads. `doesPrefixExceedBound` answers the opposite of what its name says: whether the prefix
   can be finished within the bound.
4. **Execution graph and clocks** (`DepViews`, `LockMatching`, `GraphModel`, `GraphCut`,
   `GraphClass`, `GraphRestrict`, `Stamps`, `GraphMirror`, `GraphRf`, `GraphLinks`, `GraphRuns`).
   Cutting in place and copying both restrict the graph to a view. Over every run, reads-from
   lists and reader lists mirror each other, links stay inside the graph, coherence has each store
   at most once, and stamps increase along threads, so that any graph can be cut or copied.
5. **Instruction cache and files** (`InstructionCache`, `CacheRuns`, `FileSystem`). Cached
   labels are what execution would emit; block-wise writes are writes to a flat file.

Where the code differs from what one would expect of it, the model follows the code:

- `completeRevisitedRMW` does not keep the order of the old stores in general.
  `RmwOptions.OldOrderCanChange` gives an example and `RmwExact.OrderKeptIff` the exact condition.
- With locks, `calculate` can return more than the minimum, because taking events early can
  free a lock, and then a switch counts as preemptive that was forced before.
  `ContextLocks.NotMinimalWithLocks` gives a graph. A barrier that a thread waits for without
  having arrived does the same (`ContextBarriers.NotMinimalWithoutArriving`).
- If all stores that `calcCoOrderings` can place the new store before have its access, it only
  tries the positions before them. It can then miss orders in which earlier, smaller stores
  change places (`CoCuts.EqualBranchMisses`). `CoCuts.CoversIffNoCut` and
  `CoCuts.CoversIffNothingSlips` say exactly when it misses none, for example if all overlapping
  stores have the same access (`CoCuts.EqualOrdersQueued`).
- `getMatchingUnlock` can be asked about a lock that failed; its answer is then not mapped back.
  `LockMatching.LockOfUnlock` says exactly when it is, and `LockMatching.FailedLock` shows such
  a thread.
- `executeWriteFS` returns 0, not -1, when the offset is beyond the largest file.
- `isEnabled` for a barrier needs a store to the barrier in the view (the code asserts it); the
  model counts the thread as not enabled otherwise.

Assumptions that stand for something outside the code: graphs are consistent
(`ContextBound.WellFormed`), the order of events is acyclic where a search is said to be
defined, `UInt` is a type of natural numbers up to a maximum, and a thread's next label is a
function of the values it has obtained. In the context-bound model, accesses are to the same
location or to disjoint ones. The source filters coherence by overlap
(src/ExecutionGraph.hpp:179-206), but mixed-size mode clears the bound (src/Config.cpp:377-385),
so overlapping accesses of different sizes never meet a bound.

## Model

| member | source | states |
|---|---|---|
| `Engine.Range.RotateDiscontinuous` | src/CombinatoricUtils.hpp:62-79 | rotates two separate windows in place as if they were one range, by swapping ranges or single elements depending on which is shorter |
| `Engine.Range.RotateDiscontinuous3` | src/CombinatoricUtils.hpp:84-103 | the same where the second part of the range consists of two separate windows |
| `Engine.Range.Permute_` | src/CombinatoricUtils.hpp:268-316 | shows the function every permutation of a window, in lexicographic order of positions, up to the first `true`, and leaves the window reversed |
| `Engine.Range.Permute` | src/CombinatoricUtils.hpp:323-389 | shows the same states and restores the window |
| `Engine.Range.CombineDiscontinuous` | src/CombinatoricUtils.hpp:110-150 | shows every combination of the two windows in lexicographic order, restores both at depth 0 and leaves them moved on by one below |
| `CombinationSteps.LeftBehind` | src/CombinatoricUtils.hpp:118-149 | moved on by one means: the first window is A[1..] + B[0], the second A[0] + B[1..], nothing else changes |
| `Engine.Range.CombineDiscontinuous3_` | src/CombinatoricUtils.hpp:182-250 | the same when the elements left over are spread over two windows, including the states in which it leaves the three windows to its caller |
| `Engine.Range.Reversible` | src/CombinatoricUtils.hpp:740-831 | shows the states of the even and the odd case of the reversible permutation, in order, and restores the range |
| `Engine.Range.Call` | src/CombinatoricUtils.hpp:415-433 | every nest of the function objects shows exactly its list of states and leaves the range as it found it, or stops at the first `true` with the range as shown last |
| `Exactness.PermsExact` | src/CombinatoricUtils.hpp:268-316 | the list of permutations has every arrangement of distinct elements exactly once and is increasing in lexicographic order of positions |
| `Exactness.SplitsComplete` | src/CombinatoricUtils.hpp:110-150 | every choice of d1 of the elements is among the combinations |
| `Exactness.SplitsUnique` | src/CombinatoricUtils.hpp:110-150 | no two combinations choose the same elements |
| `ForEach.Run` | src/CombinatoricUtils.hpp:436-446 | an enumeration shows a prefix of its states; all of them and with the range restored unless the function stops it; it stops exactly at the first `true`, with the range as it was shown last |
| `ForEach.CombinationsInOrder` | src/CombinatoricUtils.hpp:436-446 | for_each_combination shows the i-th combination in lexicographic position order, followed by the elements left over in their original order |
| `ForEach.EveryPermutationOnce` | src/CombinatoricUtils.hpp:499-514 | for_each_permutation shows every arrangement of d1 elements exactly once |
| `ForEach.ShownRearranged` | src/CombinatoricUtils.hpp:499-514 | every state shown is a rearrangement of the whole range |
| `ForEach.EveryCircularOnce` | src/CombinatoricUtils.hpp:571-580 | for_each_circular_permutation shows exactly one rotation of every arrangement |
| `ForEach.EveryReversibleCircularOnce` | src/CombinatoricUtils.hpp:893-928 | for_each_reversible_circular_permutation shows exactly one of the rotations of every arrangement and of its reverse |
| `ForEach.EveryReversibleOnce` | src/CombinatoricUtils.hpp:834-845 | for_each_reversible_permutation shows exactly one of every arrangement of two or more elements and its reverse |
| `ReversibleExact.ReversibleShows` | src/CombinatoricUtils.hpp:740-831 | which arrangements the function object shows: those in which the first element lies in the first half, or is in the middle with the second element before it |
| `ReversibleExact.ExactlyOneOfTwo` | src/CombinatoricUtils.hpp:740-831 | of an arrangement of a window and its reverse, exactly one is shown |
| `Exactness3.CombineThree` | src/CombinatoricUtils.hpp:252-265 | the three-window combination, permuted in every window, reaches every rearrangement of the three windows and nothing else |
| `Exactness3.CombineThreeDistinct` | src/CombinatoricUtils.hpp:252-265 | and shows nothing twice |
| `Counting.ComputeGcd` | src/CombinatoricUtils.hpp:448-459 | the loop computes the greatest common divisor |
| `Arithmetic.GcdGreatest` | src/CombinatoricUtils.hpp:448-459 | it is divided by every common divisor |
| `Arithmetic.ExactStep` | src/CombinatoricUtils.hpp:476-482 | k / gcd(r, k) divides n, and r / gcd * (n / (k / gcd)) is the next binomial coefficient |
| `Counting.CountEachCombination` | src/CombinatoricUtils.hpp:461-485 | returns C(d1 + d2, d1) exactly, and overflows exactly if that exceeds the maximum of the type |
| `Counting.CountEachPermutation` | src/CombinatoricUtils.hpp:516-532 | returns (d1 + d2)! / d2! exactly, and overflows exactly if that exceeds the maximum |
| `Counting.CountEachCircularPermutation` | src/CombinatoricUtils.hpp:582-627 | returns (d1 + d2)! / (d1 * d2!) exactly, and overflows exactly if that exceeds the maximum |
| `Counting.CountEachReversiblePermutation` | src/CombinatoricUtils.hpp:847-877 | returns half of (d1 + d2)! / d2! for two or more elements, and overflows exactly if that exceeds the maximum |
| `Counting.CountEachReversibleCircularPermutation` | src/CombinatoricUtils.hpp:930-954 | returns the stated quotient exactly, and overflows exactly if that exceeds the maximum |
| `VisitCounts.ShownCount` | src/CombinatoricUtils.hpp:740-831 | how many states any nest of function objects shows, counted on the list of states itself |
| `VisitCounts.Quotients` | src/CombinatoricUtils.hpp:461-485 | the numbers of states the five enumerations show are the documented quotients of factorials, and one state for a circular permutation of no elements |
| `VisitCounts.CountShown` | src/CombinatoricUtils.hpp:847-877 | whenever a counting function does not overflow, its result is the number of states its enumeration shows (reverse circular permutations: of at least one element) |
| `MixedAccess.GetAccesses` | src/MemAccess.hpp:107-123 | the accesses of a fragment are its maximal runs |
| `MixedAccess.RunsPartition` | src/MemAccess.hpp:107-123 | they cover every byte of the fragment once and no other byte |
| `MixedAccess.RunsAreMaximal` | src/MemAccess.hpp:107-123 | they are not empty, in order, and cannot be merged |
| `MixedAccess.RunsExact` | src/MemAccess.hpp:107-123 | an access is among them exactly if its bytes belong to the fragment and it cannot be extended |
| `RfOptions.EnumerateRfHelper` | src/GenMCDriver.cpp:2134-2184 | appends to the options those of the recursion over the stores, latest first |
| `RfOptions.EnumerateRfOptions` | src/GenMCDriver.cpp:2186-2196 | returns them with the coherence-maximal one at the end |
| `RfExact.OptionsExact` | src/GenMCDriver.cpp:2134-2196 | the options are exactly those of the allowed choices of stores (covering the load, containing the stores that must be used, each supplying a byte and passing the filter), and none comes twice |
| `RfExact.PassesIff` | src/GenMCDriver.cpp:2155-2175 | the load can read a fragment from a store exactly if no store after it in coherence that happens before the load overlaps a maximal run of the fragment |
| `RfExact.OptionsInOrder` | src/GenMCDriver.cpp:2134-2196 | the options come in the order of their choices, later stores chosen first, so that the coherence-maximal one ends up last |
| `RfExact.ReadsLatest` | src/GenMCDriver.cpp:2145-2180 | the option of a choice reads every byte of the load once, from the latest chosen store that covers it, and no other byte |
| `RfExact.ChoicesDiffer` | src/GenMCDriver.cpp:2134-2196 | options of different choices read some byte from different stores |
| `RfExact.ChoiceFromReads` | src/GenMCDriver.cpp:2134-2196 | a choice consists of exactly the stores that some byte is read from |
| `RfValue.GetWriteValue` | src/GenMCDriver.cpp:1157-1166 | puts the values of the parts together with shifts and ors |
| `RfValue.ValueByte` | src/EventLabel.hpp:1295-1299 | each byte of the value is the byte of the one store it is read from; a byte that is not read is zero |
| `RfValue.OptionFits` | src/EventLabel.hpp:1297-1297 | no option reads outside the store a part comes from |
| `RfValue.FirstReadsLatest` | src/GenMCDriver.cpp:2193-2195 | without filtering there is a coherence-maximal option, and it reads every byte from the latest store that covers it |
| `RfValue.InstalledValueIsMemory` | src/GenMCDriver.cpp:2255-2255 | the value of the option that handleLoad installs is the word of the accessed bytes of memory, after all stores have been replayed in coherence order onto the initial bytes |
| `RmwPlacement.Bucket.PlaceRMW` | src/GenMCDriver.cpp:3546-3581 | the bucket becomes the stores not overtaken, the new write, and the overtaken ones, each in their old order |
| `RmwExact.NothingLost` | src/GenMCDriver.cpp:3577-3581 | the new bucket holds the old stores and the new one, each once |
| `RmwExact.BehindIff` | src/GenMCDriver.cpp:3546-3581 | an old store goes behind the write exactly if it overlaps a part that was read from initialization or from a store before it |
| `RmwExact.PlacedOrder` | src/GenMCDriver.cpp:3566-3581 | old stores on the same side of the write keep their order in the new bucket |
| `RmwExact.DirectlyAfterSource` | src/GenMCDriver.cpp:3566-3581 | on every byte the new write directly follows the store that byte was read from, or is first if it was read from Init |
| `RmwExact.OrderKeptIff` | src/GenMCDriver.cpp:3566-3581 | the old per-byte orders are kept if and only if no store is sent behind the new write while a later one that overlaps it stays in front |
| `RmwExact.SameAccessInserts` | src/GenMCDriver.cpp:3566-3581 | if all stores have the same access, the old order is kept |
| `RmwOptions.OldOrderCanChange` | src/GenMCDriver.cpp:3566-3581 | an rf option that the enumeration yields, and with which two old stores that overlap change places |
| `RmwOptions.OptionsJustified` | src/GenMCDriver.cpp:2134-2196 | every rf option of a load meets what the placement needs |
| `RmwOptions.JustifiedInPart` | src/GenMCDriver.cpp:3546-3581 | and still does after the graph has been cut; if the sources stay, every byte is still read from one of the stores |
| `Coherence.GetPerByteCoherence` | src/GenMCDriver.cpp:2372-2389 | computes, for every byte, the stores to it in order |
| `Coherence.SamePerByte` | src/GenMCDriver.cpp:2460-2460 | comparing the results compares the orders byte by byte |
| `CoInsertion.ConstructCoSeq` | src/GenMCDriver.cpp:2352-2370 | inserts the new store directly after the lsize-th store it overlaps, or in front, and returns its position |
| `CoInsertion.SpotIs` | src/GenMCDriver.cpp:2352-2370 | that position is the front, or directly behind an overlapping store with lsize overlapping stores up to it |
| `CoInsertion.OverlapsBehind` | src/GenMCDriver.cpp:2462-2464 | there are positions left to try exactly as long as an overlapping store is behind |
| `CoInsertion.IsBlocked` | src/GenMCDriver.cpp:2466-2478 | evaluates the two filters on the successors |
| `CoInsertion.BlockedIff` | src/GenMCDriver.cpp:2466-2478 | a position is rejected if and only if on some byte the next store is the write of an RMW, or some overlapping later store happens before the new one |
| `CoOrderings.ShowsPermutations` | src/GenMCDriver.cpp:2456-2457 | the permutations that the driver is shown are exactly those of the bucket |
| `CoOrderings.AddPlacements` | src/GenMCDriver.cpp:2458-2484 | the callback adds every placement of its permutation that is not rejected, and only such placements, filed under its per-byte orders |
| `CoOrderings.PlacementCached` | src/GenMCDriver.cpp:2462-2482 | positions between the same overlapping stores are interchangeable: the one that is tried stands for all of them |
| `CoOrderings.CacheOrders` | src/GenMCDriver.cpp:2450-2485 | what is cached are placements, and every placement has its per-byte orders in the cache |
| `CoOrderings.MixedOrderings` | src/GenMCDriver.cpp:2432-2487 | the branch for different accesses queues placements of the new store that differ pairwise on some byte and cover the per-byte orders of all placements |
| `CoEqual.FirstPlace` | src/RADriver.cpp:881-895 | a store may be placed after the last overlapping store that happens before it |
| `CoEqual.SameSizeOrderings` | src/GenMCDriver.cpp:2413-2427 | the branch for equal accesses queues the new store before each place that is not the write of an RMW and does not happen before it |
| `CoEqual.EqualOrdersApart` | src/GenMCDriver.cpp:2413-2427 | what that branch queues are placements of the general branch, and they differ pairwise |
| `CoCuts.CoversIffNoCut` | src/GenMCDriver.cpp:2413-2427 | they cover all placements of the general branch if and only if there is no cut: no set of old stores that can stay in front of the new one without an overlapping store from before the places |
| `CoCuts.CoversIffNothingSlips` | src/GenMCDriver.cpp:2413-2427 | the same as a condition that can be computed: all overlapping stores from before the places are in the least set of stores that must stay in front |
| `CoCuts.CutMisses` | src/GenMCDriver.cpp:2413-2427 | a cut gives a placement that is missed: the stores of the cut, the new store, and the others |
| `CoCuts.EqualOrdersQueued` | src/GenMCDriver.cpp:2413-2427 | if all stores that overlap the new one have its access, as without mixed sizes, nothing is missed |
| `CoCuts.EqualBranchMisses` | src/GenMCDriver.cpp:2413-2427 | a placement between two earlier, smaller stores that is missed |
| `CoDriver.Driver.CalcCoOrderings` | src/GenMCDriver.cpp:2391-2492 | takes the branch the places ask for, queues what that branch computes, and puts the new store last; what is queued covers all placements, in the branch for equal accesses exactly if nothing slips past the new store |
| `ContextEnabled.EndedNeverEnabled` | src/ContextBoundDecider.cpp:37-46 | a thread that has ended, or has no further event, is not enabled |
| `ContextEnabled.JoinEnabledIff` | src/ContextBoundDecider.cpp:48-49 | a thread at a join is enabled exactly if all events of the joined thread are in the view |
| `ContextEnabled.LockEnabledIff` | src/ContextBoundDecider.cpp:51-69 | a thread at a lock is enabled exactly if the latest store in the view is an unlock that no completed lock of the view reads, or there is none and no reader of Init is in the view |
| `ContextEnabled.BarrierEnabledIff` | src/ContextBoundDecider.cpp:70-80 | a thread at a barrier is enabled exactly if the latest store in the view has the value of the first store |
| `ContextEnabled.OthersEnabled` | src/ContextBoundDecider.cpp:35-83 | a thread with any other next event is enabled |
| `ContextEnabled.CanBlockIff` | src/ContextBoundDecider.cpp:28-33 | a thread can block exactly if its next event is a join, a lock or a barrier wait |
| `ContextEnabled.EnabledIffCouldRun` | src/ContextBoundDecider.cpp:35-83 | being enabled depends only on the events that have run, and says that the next event of the thread does not have to wait |
| `ContextOrder.MaximalIffNoEdge` | src/ContextBoundDecider.cpp:85-119 | isSCMaximal, which looks at immediate successors, is maximality in po, rf, co, fr, create and join on a downward-closed view |
| `ContextOrder.CandidateExists` | src/ContextBoundDecider.cpp:146-157 | on acyclic graphs every non-empty downward-closed view has a maximal thread |
| `ContextOrder.ShrinkClosed` | src/ContextBoundDecider.cpp:121-128 | what is left after taking a maximal event is downward closed |
| `ContextSearch.UnfoldPrefix` | src/ContextBoundDecider.cpp:130-134 | takes events of the thread while they are maximal and cannot block |
| `ContextSearch.DoesPrefixExceedBound` | src/ContextBoundDecider.cpp:136-159 | answers whether the prefix can be finished within the bound, and its BUG_ON does not fire |
| `ContextSearch.DoesExecutionExceedBound` | src/ContextBoundDecider.cpp:161-178 | answers whether the whole graph cannot |
| `ContextSearch.CalculatePrefix` | src/ContextBoundDecider.cpp:210-229 | returns the result of the search, and the optional is never empty |
| `ContextSearch.Calculate` | src/ContextBoundDecider.cpp:193-208 | the same for the whole graph |
| `ContextSearch.ExceedsIffAbove` | src/ContextBoundDecider.cpp:136-229 | the bound is exceeded exactly if the calculated minimum is above it, and then so is every smaller bound |
| `ContextSearch.SearchDefined` | src/ContextBoundDecider.cpp:210-229 | both searches are defined on every downward-closed view of an acyclic graph |
| `ContextGreedy.UnfoldTakes` | src/ContextBoundDecider.cpp:130-134 | the events taken are those of the thread from the last one on, each with nothing after it in the view and without a join, lock or barrier behind it, and the next one is not like that |
| `ContextGreedy.CalculateIsGreedyMinimum` | src/ContextBoundDecider.cpp:136-229 | on any acyclic graph, with locks and barriers too, the result is the fewest preemptive switches of a linearization that takes events greedily, one has exactly as many, and a bound is exceeded exactly if all have more |
| `ContextOptimal.GreedyStep` | src/ContextBoundDecider.cpp:130-134 | under the same condition, removing a maximal event of the current thread first never costs more |
| `ContextOptimal.GreedyFindsFewest` | src/ContextBoundDecider.cpp:210-229 | so the search with unfolding finds what the search without it finds |
| `ContextOptimal.EnabledMonotone` | src/ContextBoundDecider.cpp:35-83 | without lock and barrier reads, a thread that is enabled stays so in a larger view |
| `ContextOptimal.CalculateIsMinimum` | src/ContextBoundDecider.cpp:193-229 | if taking an event early never enables another thread, calculate is the true minimum of preemptive switches over all linearizations, and one linearization has exactly as many |
| `ContextOptimal.PlainReadsNeverFree` | src/ContextBoundDecider.cpp:35-83 | without lock and barrier reads it never does |
| `ContextOptimal.CalculateIsMinimumOfPlain` | src/ContextBoundDecider.cpp:161-229 | so on graphs without lock and barrier reads the result is the true minimum, and the verdict on every bound is the right one |
| `ContextOptimal.ExceedsIffAllAbove` | src/ContextBoundDecider.cpp:161-178 | the bound is exceeded exactly if every linearization has more preemptive switches |
| `ContextOptimal.PreemptionsCounted` | src/ContextBoundDecider.cpp:216-227 | preemptive switches are the positions of the linearization at which another thread runs though the one before could have gone on |
| `ContextLocks.GreedyNeverBelow` | src/ContextBoundDecider.cpp:130-134 | on any graph, also with locks and barriers, unfolding never makes the result smaller than the minimum |
| `ContextLocks.NotMinimalWithLocks` | src/ContextBoundDecider.cpp:35-83 | with locks the result can be too large: an acyclic graph for which calculate returns two, though one linearization has at most one preemptive switch |
| `ContextLocks.LockFrees` | src/ContextBoundDecider.cpp:52-69 | that graph violates the condition under which the minimum is found |
| `ContextBarriers.BarriersNeverFree` | src/ContextBoundDecider.cpp:70-80 | waiting at a barrier does not violate it, if the thread has arrived at the barrier before |
| `ContextBarriers.NotMinimalWithoutArriving` | src/ContextBoundDecider.cpp:70-80 | otherwise a barrier can do harm like a lock: a graph for which calculate returns three, though one linearization has at most two preemptive switches |
| `DepViews.DepView.Contains` | src/DepView.cpp:24-28 | tells whether the event is in the set the clock stands for |
| `DepViews.DepView.UpdateIdx` | src/DepView.hpp:87-97 | adds the event and nothing else |
| `DepViews.DepView.SetMax` | src/DepView.hpp:101-111 | drops the later events of the thread and adds the event |
| `DepViews.DepView.AddHole` | src/DepView.cpp:30-34 | removes the event from the set, unless it is the first of its thread |
| `DepViews.DepView.RemoveHole` | src/DepView.cpp:42-42 | adds the event, if it is not later than the latest seen |
| `DepViews.DepView.AddHolesInRange` | src/DepView.cpp:36-40 | removes exactly the events of the range |
| `DepViews.DepView.RemoveHolesInRange` | src/DepView.cpp:46-50 | adds exactly the events of the range, up to the latest seen |
| `DepViews.DepView.Update` | src/DepView.cpp:54-73 | is set union, also with the clock itself; holes stay at or below the maximum |
| `DepViews.MergeIsUnion` | src/DepView.cpp:59-71 | the intersection of holes with what one clock alone has seen is that of a union |
| `LockMatching.GetMatchingLock` | src/ExecutionGraph.cpp:90-116 | the backward loop with a stack of unlocks finds what the search with a depth finds |
| `LockMatching.GetMatchingUnlock` | src/ExecutionGraph.cpp:118-145 | the same forward |
| `LockMatching.LockBeforeMatches` | src/ExecutionGraph.cpp:97-114 | the lock found is the one such that locks and unlocks between the two are balanced, and the only one |
| `LockMatching.UnlockAfterMatches` | src/ExecutionGraph.cpp:126-143 | the unlock found is likewise |
| `LockMatching.UnlockOfLock` | src/ExecutionGraph.cpp:90-145 | a lock that is found is mapped back to its unlock |
| `LockMatching.LockOfIff` | src/ExecutionGraph.cpp:90-116 | getMatchingLock yields a lock exactly if its write and the unlock match |
| `LockMatching.UnlockOfIff` | src/ExecutionGraph.cpp:118-145 | getMatchingUnlock of any lock, successful or not, yields the first unlock at which one more lock has been released than taken |
| `LockMatching.LockOfUnlock` | src/ExecutionGraph.cpp:90-145 | an unlock that is found is mapped back if and only if the lock was successful |
| `LockMatching.FailedLock` | src/ExecutionGraph.cpp:118-145 | a thread with a failed lock whose search finds an unlock that belongs to no lock |
| `GraphClass.ExecutionGraph.GetViewFromStamp` | src/ExecutionGraph.cpp:493-507 | for each thread, the last event with a stamp up to the given one |
| `GraphModel.ViewFromStampIff` | src/ExecutionGraph.cpp:487-507 | with stamps that increase along threads, the view holds exactly the events up to the stamp, and the starts |
| `GraphClass.ExecutionGraph.RemoveAfter` | src/ExecutionGraph.cpp:509-542 | coherence and the readers of Init keep the buckets that remaining events access, and in them the remaining events in order |
| `GraphClass.ExecutionGraph.CutToStamp` | src/ExecutionGraph.cpp:544-599 | the graph is restricted to the view of the stamp |
| `GraphClass.ExecutionGraph.CopyGraphUpTo` | src/ExecutionGraph.cpp:610-737 | the copy is the graph restricted to the view |
| `GraphClass.CutAndCopyAgree` | src/ExecutionGraph.cpp:544-738 | cutting to a stamp and copying up to its view give the same graph, with labels, rf, readers, coherence, Init readers and alloc, free and join links |
| `GraphRestrict.RestrictedEvents` | src/ExecutionGraph.cpp:544-738 | exactly the events of the view are left |
| `GraphRestrict.RestrictedLabel` | src/ExecutionGraph.cpp:567-582 | of a label in the view its kind, stamp and bucket are left, each alloc, free and join link exactly if it leads to the view, and of rf lists, readers and accesses what is in the view, in the old order |
| `GraphRestrict.RestrictedBuckets` | src/ExecutionGraph.cpp:509-542 | coherence and the readers of Init keep a bucket exactly if an event of the view accesses it, with what is in the view, in the old order |
| `GraphRestrict.RestrictedToAll` | src/ExecutionGraph.cpp:544-738 | restricting to the whole graph changes nothing |
| `GraphCut.Relink` | src/ExecutionGraph.cpp:651-708 | the second pass over the copy restores the links that stay |
| `Stamps.CompressStampsAfter` | src/ExecutionGraph.cpp:601-608 | renumbers the labels above the stamp thread by thread and changes nothing else |
| `Stamps.CompressedExactly` | src/ExecutionGraph.cpp:601-608 | stamps up to the given one and all labels stay, and later labels get larger new stamps |
| `Stamps.NumbersConsecutive` | src/ExecutionGraph.cpp:601-608 | the new stamps are consecutive from the next one on |
| `Stamps.DistinctStaysDistinct` | src/ExecutionGraph.cpp:601-608 | stamps stay distinct |
| `Stamps.IncreasingStaysIncreasing` | src/ExecutionGraph.cpp:601-608 | stamps stay increasing along each thread |
| `Stamps.RestrictGraph` | src/GenMCDriver.cpp:123-131 | after cutting and renumbering, stamps increase and are distinct, and only thread starts carry stamps above the given one, numbered consecutively from the next one on |
| `GraphRf.ChangeRf` | src/ExecutionGraph.cpp:432-477 | gives a read a new rf list, unlinks it from its old sources and links it to its new ones; the lists mirror each other afterwards, and addReader is never called for a reader that is listed |
| `GraphRf.ChangeKeepsMirror` | src/ExecutionGraph.cpp:432-477 | a read is listed once by every source some part comes from and by no other, also if one source supplies several parts |
| `GraphRf.StoresAreSources` | src/ExecutionGraph.cpp:462-467 | the stores that are linked are the different sources of the list, each once |
| `GraphLinks.ChangedLabel` | src/ExecutionGraph.cpp:432-477 | the read gets the new list; no other read changes, and nothing but readers changes elsewhere |
| `GraphLinks.ChangedReaders` | src/ExecutionGraph.cpp:432-477 | in the readers of a write only the entry of the read changes: it is there once exactly if some part comes from the write |
| `GraphLinks.ChangedInitReaders` | src/ExecutionGraph.cpp:432-477 | the same for the readers of Init |
| `GraphRuns.AddKeepsMirror` | src/ExecutionGraph.cpp:282-298 | adding a label keeps the mirror |
| `GraphRuns.RestrictKeepsMirror` | src/ExecutionGraph.cpp:544-738 | cutting and copying keep the mirror |
| `GraphRuns.CompressKeepsMirror` | src/ExecutionGraph.cpp:601-608 | renumbering keeps the mirror |
| `GraphRuns.RunKeepsMirror` | src/ExecutionGraph.cpp:772-843 | in every run of label addition, links to allocations, frees and joins, placement in coherence, changeRf, cutting, copying and renumbering, a reader is listed exactly once by a source if and only if some part of its rf list comes from it |
| `GraphRuns.RunKeepsLinks` | src/ExecutionGraph.cpp:610-843 | in every run links stay inside the graph, accessed buckets are tracked, and coherence orders stores of the bucket, each at most once: what copying a graph needs |
| `GraphRuns.RunKeepsStamps` | src/ExecutionGraph.cpp:487-507 | in every run stamps are distinct, below the next one, and increase along each thread: what the view of a stamp needs |
| `GraphLinks.AddLabelToGraph` | src/ExecutionGraph.cpp:282-315 | puts the label with the next stamp at the end of the thread and tracks the bucket of an access |
| `GraphLinks.AddedExactly` | src/ExecutionGraph.cpp:282-315 | nothing else changes |
| `GraphLinks.AddAlloc` | src/ExecutionGraph.cpp:479-485 | the access points to its allocation, which lists it |
| `GraphLinks.AllocAddedExactly` | src/ExecutionGraph.cpp:479-485 | no other label changes |
| `GraphLinks.SetLink` | src/GenMCDriver.cpp:2580-2582 | sets the link of an allocation to its free, or of the end of a thread to the join |
| `GraphLinks.LinkSetExactly` | src/GenMCDriver.cpp:2580-2582 | no other link or label changes |
| `GraphLinks.AddStoreToCO` | src/ExecutionGraph.hpp:353-357 | puts a store before the given one of its bucket |
| `GraphLinks.StoreAddedExactly` | src/ExecutionGraph.hpp:353-357 | and the other stores of the bucket, and other buckets, stay as they are |
| `GraphLinks.TidyLinks` | src/ExecutionGraph.cpp:772-843 | what mirrored graphs need besides to have all links inside |
| `InstructionCache.ExtractValPrefix` | src/GenMCDriver.cpp:469-493 | the values the thread obtained, and where the last one was |
| `InstructionCache.SameValuesSameThread` | src/GenMCDriver.cpp:469-493 | the values obtained determine the labels up to the last of them |
| `InstructionCache.Cache.CacheEventLabel` | src/GenMCDriver.cpp:1081-1128 | every cached sequence stays the run of labels that execution emits after its values, only the last with a value; the label is cached and nothing is lost |
| `InstructionCache.Cache.TryOptimizeScheduling` | src/GenMCDriver.cpp:505-527 | finds a cached continuation exactly if there is one, and what it gives, up to where handling a label ends the replay, equals what execution would add |
| `InstructionCache.RecordKeepsSound` | src/GenMCDriver.cpp:1100-1128 | caching the next label keeps the cache sound and loses nothing |
| `CacheRuns.RunKeepsCached` | src/GenMCDriver.cpp:1100-1128 | cutting the thread, caching elsewhere and adding the cached label keep everything emitted in the cache |
| `CacheRuns.RunKeepsInvariant` | src/GenMCDriver.cpp:1081-1128 | in every run of executions that share the cache, with copies, cuts and changed values, the cache is sound and covers each execution, so that the check on the label to be cached (line 1122) holds at every call |
| `FileSystem.DiskSizeFor` | src/Execution.cpp:4354-4376 | the size on disk is updated early exactly if the write touches the rest of a partly used last block, and then to the end of the write or of that block |
| `FileSystem.Inode.ZeroDskRange` | src/Execution.cpp:4494-4506 | zeroes the range and nothing else |
| `FileSystem.Inode.WriteDataToDisk` | src/Execution.cpp:3760-3779 | copies the bytes and changes nothing else |
| `FileSystem.BytesInBlock` | src/Execution.cpp:4555-4561 | a chunk is not empty, inside one block, and is the rest of what is to be written or ends with the block |
| `FileSystem.Inode.ExecuteBufferedWrite` | src/Execution.cpp:4529-4585 | writes exactly count bytes in chunks inside single blocks; the file is then what a flat file would be: old bytes kept, the gap zeroed, size the larger of old and end |
| `FileSystem.Inode.ExecuteWriteChecks` | src/Execution.cpp:4508-4527 | where to write and how much, with its error cases |
| `FileSystem.Inode.ExecuteWrite` | src/Execution.cpp:4587-4631 | without the lock it returns 42, and if its checks fail 0, and changes nothing; otherwise the flat file is written at the offset or at the end |
| `FileSystem.Inode.ExecuteRead` | src/Execution.cpp:4378-4427 | returns the bytes from the offset on, as many as asked for or as the file has, and nothing beyond its end |
| `FileSystem.Inode.WriteThenRead` | src/Execution.cpp:4378-4631 | a read after a write returns the same bytes |
| `FileSystem.ReadAfterWrite` | src/Execution.cpp:4529-4585 | on flat files, reading what was written gives it back |
| `FileSystem.FlatWriteAt` | src/Execution.cpp:4529-4585 | a write changes exactly the bytes it covers; the others stay, and a gap becomes zeros |
| `FileSystem.FlatReadAt` | src/Execution.cpp:4378-4427 | a read yields the bytes from the offset on, as many as asked for or as there are |

## Left out

- Memory-model consistency, the stores a model lets a load read from, and `isWriteRfBefore`: they are arbitrary inputs.
- User functions that write to the range: an enumeration's function may stop it and may remember what it has been shown, but leaves the range alone.
- Reverse circular permutations of no elements, for which the code steps past the end of its range.
- Instances of the enumeration templates that only pass their iterators' distances on to the counting functions.
- The choice of one random order or source in estimation mode, and the message about write-write races.
- Placing the write of an RMW, for which there is only one position (src/RADriver.cpp:1073-1085).
- Which of several permutations with the same orders per byte the map of coherence orders keeps, and the order in which they are queued.
- ContextOptimal.CalculateIsMinimum: the condition is sufficient, and necessary only in the two examples; which graphs beyond it `calculate` is minimal for is not characterized. On any graph the result is the minimum over greedy linearizations, and never too small.
- `getSlack` and the round-bound decider.
- `changeRf` to a single store, which unlinks only the first source, and `removeLast`, which leaves readers of Init behind.
- GraphClass.ExecutionGraph.CopyGraphUpTo: copies for views without holes; hole labels, and positions of the view that the graph does not contain, are not modelled.
- GraphRuns.AddKeepsMirror: labels are added at the end of a thread; replacing an empty label is not modelled, as no graph here has one.
- Stamps.RestrictGraph: repairing reads that a cut has left without a source is not modelled.
- GraphClass.ExecutionGraph.CutToStamp: removing rf parts while walking over them is modelled as a filter, and the two maps of `removeAfter` are filtered by key.
- `hasHole`, whose result is the opposite of its comment, and `removeAllHoles`.
- InstructionCache.Cache.TryOptimizeScheduling: gives the labels that are new to the graph; what makes a handler end the replay (a blocked thread, a moot or halting execution) is an arbitrary input.
- InstructionCache.Cache.CacheEventLabel: models one thread; the cache keeps one such map per thread.
- FileSystem.Inode.ExecuteBufferedWrite: journaling and syncing, and the ranges of ordered data, have no effect on what a file contains and are left out, as are crashes and recovery.
- FileSystem.Inode.ExecuteRead: a negative count is excluded where the code would start to copy bytes, since it then compares an unsigned index with a negative count.
- Machine integers of file offsets, sizes and stamps: they are natural numbers.
- Symmetry reduction, helping, barriers and in-place revisits, which mixed-size mode mostly disables.
- Interpretation of instructions, configuration, output and thread pools.
