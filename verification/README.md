# udipe, verified

A Dafny model of the parts of libudipe whose correctness depends on whole runs or on a
compressed representation agreeing with a simple one.

- **Sparse distributions** (`Histogram`, `Builders`, `Queries`, `Operations`, `Gaps`, `Plot`).
  A builder keeps sorted bins in two arrays and shifts, doubles and accumulates them in
  place. Everything is specified on the sorted list that the bins stand for. The compressed
  form is canonical, which turns "same values" into "same distribution".
- **Bit arrays, bit streams and the buffer pool** (`Bits`, `BitArrays`, `Entropy`,
  `BufferPool`). Words are numbers below 2^64, operators have their arithmetic meaning, and
  a shift has to be shown to be in range. A bit array stands for a sequence of booleans, a
  word array for one large number, the pool for a set of live indices.
- **Custom futures** (`CustomFuture`, `CustomFutureSafety`, `CustomFutureWakeup`). One worker,
  any number of cancel calls and one finish call on one status word, one step per load,
  compare-and-swap, payload write or futex call, with spurious failures.
- **Connect-options pool** (`ConnectPool`, `ConnectProtocol`). The slot selection of one call,
  and the mask protocol of any number of threads with futex sleep and single wake-up.
- **Reference-counted TSS key** (`RefcountedTss`). Any number of threads on one word.

`dafny verify dfyconfig.toml` checks the whole project.

## Where the code and its documentation differ

The model follows the code.

- `connect_options_allocate()` does not add the last trailing-zero count, so it tries the slot
  after the previous free one. `ConnectPool.CanHitIffNotIsolated` says exactly on which masks
  some draw can succeed, `ConnectProtocol.ServedIffNotIsolated` says what that means for a
  caller, and `ConnectProtocol.StarvationIsReachable` reaches a mask where no draw can.
- `connect_options_liberate()` wakes one sleeper and only when the mask was empty. A sleeper
  can be left behind exactly if at least three threads share the pool
  (`ConnectProtocol.StrandsIffThreeThreads`).
- `future_finish()` waits without being counted in `downstream_count`, and
  `future_notify_eager_outcome()` sends nothing when that count is zero. A finish call that
  fell asleep is never notified. It can happen exactly if the future is unresolved when
  `udipe_finish()`, or `udipe_cancel()` with `finish`, is called
  (`CustomFutureWakeup.FinishMayHangIffUnresolved`).
- `udipe_custom_try_set_result()` ignores its `successful` argument, so the outcome is the
  documented one exactly if it is true (`CustomFutureSafety.DocumentedOutcomeIffSuccessful`).
- `distribution_min_difference_with()` skips a value equal to the smallest one of the longer
  side; `Gaps.ExactIff` gives the exact condition under which its result is the documented one.
- `distribution_min_difference()` never advances its previous value and returns the first gap,
  which is the documented result exactly if it is the least gap (`Gaps.FirstGapExactIff`).
- The argument about shifts inside `bit_array_range_set()` has a wrong step 1b
  (`BitArrays.AlignedStartReachesMask`), but its conclusion holds
  (`BitArrays.ShiftInRangeIffSlowPath`).

## Model

| member | source | states |
|---|---|---|
| `Bits.DivCeil` | src/bits.h:26 | the least multiple of the denominator that covers the numerator |
| `Bits.Broadcast` | src/bits.h:66-68 | every bit of the word is the given value |
| `Bits.CountTrailingZeros` | src/bits.h:77-89 | the result is the lowest set bit: set, and none below it |
| `Bits.PopulationCount` | src/bits.h:97-108 | the result is the number of set bits among all 64 |
| `Bits.LowMask` | src/bit_array.h:206 | shifting one left and subtracting one sets exactly the bits below the shift amount |
| `BitArrays.IndexRoundTrip` | src/bit_array.h:96-137 | index and position conversions are inverse to each other |
| `BitArrays.Get` | src/bit_array.h:153-158 | reads the boolean that the packed words stand for |
| `BitArrays.Set` | src/bit_array.h:168-178 | changes exactly one boolean, padding included in what stays |
| `BitArrays.Count` | src/bit_array.h:186-210 | counts the positions below the length with the value, whatever the padding |
| `BitArrays.CountsAddUp` | src/bit_array.h:180-210 | the counts of true and of false add up to the length |
| `BitArrays.RangeAllEq` | src/bit_array.h:243-276 | true exactly if all bits of the range have the value, also for empty and reversed ranges |
| `BitArrays.RangeSet` | src/bit_array.h:305-388 | sets exactly the positions from start to end, leaves all others and the padding, does nothing on a reversed range |
| `BitArrays.FillMask` | src/bit_array.h:378-383 | the mask selects exactly the covered bits of a word |
| `BitArrays.ShiftInRangeIffSlowPath` | src/bit_array.h:325-383 | the mask's shift is below the word width exactly on words that miss the fast path |
| `BitArrays.AlignedStartReachesMask` | src/bit_array.h:325-345 | step 1b of the source's argument fails exactly on nonempty ranges that start a word and end within it |
| `BitArrays.FindFirst` | src/bit_array.h:398-434 | the first match below the length, or none, whatever the padding |
| `BitArrays.FindNext` | src/bit_array.h:458-519 | the first match after the previous one; with wraparound the first in circular order |
| `BitArrays.CircularNextIsFirst` | src/bit_array.h:446-456 | the wraparound result is the match at the least circular distance, the previous bit itself coming last |
| `BitArrays.Enumerate` | src/bit_array.h:436-442 | find_first then find_next visits exactly the matches, in increasing order, as many as the count |
| `Entropy.Generate` | src/bits.c:15-45 | the words are the sum of all draws shifted by multiples of their width, truncated, with the least number of draws |
| `Entropy.ToBits` | src/bits.c:48-97 | output k holds the input bits from the cursor plus k widths on, bit by bit and as a slice of the input number, and the cursor advances by the width per output |
| `Entropy.SlicesCompose` | src/bits.c:63-95 | two consecutive calls produce what one call for both produces |
| `Entropy.SliceOfPacked` | src/bits.c:27-43 | slice k of the packed draws is draw k, for every draw that fits |
| `Entropy.RoundTrip` | src/bits.c:15-97 | generating and then cutting at the draw width gives the draws back |
| `BufferPool.ConfigurationRounds` | src/buffer.c:127-167 | least page multiple that is large enough; automatic count covers the cache share minimally, capped; an oversized explicit count is refused |
| `BufferPool.BufferAllocator.constructor` | src/buffer.c:203-224 | nothing is live, exactly the configured buffers are available |
| `BufferPool.BufferAllocator.Allocate` | src/buffer.c:298-326 | the lowest free buffer becomes live; fails exactly when all are live |
| `BufferPool.BufferAllocator.Liberate` | src/buffer.c:262-293 | exactly the buffer at that address stops being live |
| `BufferPool.BufferAllocator.Finalize` | src/buffer.c:229-258 | passes exactly when nothing is live, and leaves a poisoned allocator |
| `BufferPool.BufferAllocator.FreePlusLive` | src/buffer.h:66-74 | available bits plus live buffers is the buffer count |
| `BufferPool.BufferAllocator.BufferIsInsidePool` | src/buffer.c:319-322 | live buffer i lies at i times the buffer size, inside the pool |
| `BufferPool.BufferAllocator.BuffersAreDisjoint` | src/buffer.c:319-322 | different live buffers do not overlap |
| `BufferPool.Replay` | src/buffer.c:262-326 | over every history the pool answers like a set that hands out the lowest free index |
| `ConnectPool.Select` | src/connect.c:91-102 | tries the slot after the free slot before the drawn one (0 for rank 0), below 32, with every shift below 32 |
| `ConnectPool.TriedBelowFree` | src/connect.c:95-102 | the drawn free slot exists and the slot tried is never above it |
| `ConnectPool.TriedIsUnique` | src/connect.c:95-102 | mask and rank determine the slot tried |
| `ConnectPool.CanHitIffNotIsolated` | src/connect.c:91-116 | some draw tries a free slot exactly if slot 0 is free or two neighbours are |
| `ConnectProtocol.ClearSlot` | src/connect.c:102-109 | fetch_and takes exactly the one bit |
| `ConnectProtocol.SetSlot` | src/connect.c:134-140 | fetch_or returns exactly the one bit |
| `ConnectProtocol.InitialIsExclusive` | src/connect.c:25-47 | initially every slot is free and nobody holds one |
| `ConnectProtocol.StepKeepsExclusive` | src/connect.c:73-150 | every atomic step keeps ownership exclusive and equal to the clear bits |
| `ConnectProtocol.RunKeepsExclusive` | src/connect.c:73-150 | in every interleaving no slot has two holders and the held slots are the clear bits |
| `ConnectProtocol.FreePlusHeld` | src/connect.c:54-59 | free plus held is 32, and the finalize check passes exactly when nothing is held |
| `ConnectProtocol.AllocationEndsWithSlot` | src/connect.c:79-126 | an allocation call ends only by taking a slot that was free and unheld |
| `ConnectProtocol.IsolatedMaskStarvesCaller` | src/connect.c:79-116 | on a nonempty isolated mask a lone caller never gets a slot and never changes the mask, for any draws and any number of retries |
| `ConnectProtocol.CallerCanStep` | src/connect.c:79-116 | an awake caller always has a next step, so a starved one loops |
| `ConnectProtocol.ServedIffNotIsolated` | src/connect.c:79-116 | a lone caller on a nonempty mask, wherever it is in its call, can get a free slot exactly if the free slots are not isolated |
| `ConnectProtocol.StarvationIsReachable` | src/connect.c:79-150 | a run from the initial state leads to such a mask with a caller on it |
| `ConnectProtocol.LoneSleeperIsNeverStranded` | src/connect.c:80-87 | with at most one sleeper, nobody sleeps while a slot is free unless a wake call is on its way |
| `ConnectProtocol.TwoSleepersCanBeStranded` | src/connect.c:137-148 | from every state with two sleepers on an empty mask and a thread holding two slots, a run strands one sleeper |
| `ConnectProtocol.StrandingIsReachable` | src/connect.c:80-148 | such a stranded sleeper is reachable from the initial state |
| `ConnectProtocol.StrandsIffThreeThreads` | src/connect.c:73-150 | some run from the start strands a sleeper exactly if there are at least three threads |
| `RefcountedTss.ClearsReachable` | src/refcounted_tss.c:95-97 | clearing the top bit leaves exactly the count |
| `RefcountedTss.WordCountsSlots` | src/refcounted_tss.c:16-108 | in every run the word is the reachability bit plus the outstanding slots; at most one deletion, only after discard and without slots; as many true results as deletions |
| `RefcountedTss.ExactlyOneCallReturnsTrue` | src/refcounted_tss.c:67-108 | once discarded, drained and returned, exactly one call returned true |
| `RefcountedTss.DeletionIsLastAccess` | src/refcounted_tss.c:81-107 | once a call decides to delete, its deletion is the only access left, and after it there is none |
| `RefcountedTss.AssertionsHold` | src/refcounted_tss.c:43-99 | the assertions on the word hold in every run that follows the rules of use, overflow included |
| `RefcountedTss.SlotLifeCycle` | src/refcounted_tss.c:35-91 | a slot is counted at once, releasable only when installed, and its release puts the word back |
| `RefcountedTss.CanAlwaysBeTornDown` | src/refcounted_tss.c:35-108 | every state of every run can be continued until all slots are released and the key was deleted by the one call that returns true |
| `CustomFuture.PackIsInjective` | src/future/status.h:29-229 | equal packed words are equal statuses |
| `CustomFuture.InitialWord` | src/future.c:279-289 | the packed word of a new custom future |
| `CustomFuture.SwapIsWeak` | src/future/status_ops.h:325-348 | a swap succeeds only on an unchanged word and may fail on any |
| `CustomFutureSafety.RunKeepsInv` | src/future.c:77-571 | the protocol invariant holds in every state of every run |
| `CustomFutureSafety.AcceptedResultIsDelivered` | src/future.c:366-420 | if the result was accepted, no cancel call wins and every finish call that has returned got exactly that payload |
| `CustomFutureSafety.ResolvedWithoutResultIsCanceled` | src/future.c:137-164 | otherwise exactly one cancel call won and every finish call that has returned got the cancelation |
| `CustomFutureSafety.ReturnedCallsHaveAnswers` | src/future.c:77-571 | a cancel call answers true or false only when the outcome was decided by a cancelation, or by somebody; a finish call that has returned has a result |
| `CustomFutureSafety.CancelMayWinIffUndecided` | src/future.c:93-163 | a cancel call that starts now may return true exactly if the outcome is unknown, and does so if left alone |
| `CustomFutureSafety.PollIsTruthful` | src/future.c:305-320 | the worker is told of a cancelation exactly if some cancel call has won |
| `CustomFutureSafety.DocumentedOutcomeIffSuccessful` | include/udipe/future.h:885-888 | an accepted result is always published as a success, which is the documented outcome exactly if the worker said so |
| `CustomFutureSafety.FailureIsPublishedAsSuccess` | src/future.c:366-420 | the failing input: a run in which a reported failure is published as a success |
| `CustomFutureSafety.NobodyCrashes` | src/future.c:445-673 | only the four legal statuses occur, and no fatal exit or failed assertion is reached, the two on every turn of the finish loop included |
| `CustomFutureSafety.DebugChecksPass` | src/future/status_ops.c:18-124 | the word, every call's copy of it and every status about to be written pass the debug check |
| `CustomFutureSafety.SwapsMayCompareWords` | src/future/status.h:19-229 | for every copy that anybody has, equal packed words are equal statuses |
| `CustomFutureSafety.AtMostThreeSwaps` | src/future.c:137-481 | the successful swaps equal a rank of at most three, two for a successful result |
| `CustomFutureSafety.StepsChangeOnlyTheirFields` | src/future.c:137-477 | each step changes only its own fields of the latest word, the word only moves forward, and each counted swap raises the rank by one |
| `CustomFutureWakeup.SleeperIsNeverNotified` | src/future.c:574-608 | a sleeping finish call stays asleep in every continuation without a spurious wake-up |
| `CustomFutureWakeup.FinishNeverReturnsOnceAsleep` | src/future.c:483-492 | the same along every run from the start |
| `CustomFutureWakeup.AsleepIffAsleepAtPublication` | src/future.c:574-608 | from the publication on, a finish call sleeps exactly if it slept at the publication |
| `CustomFutureWakeup.ReturnsIffAwake` | src/future.c:483-492 | on a resolved future, a call that has started can return exactly if it is not asleep |
| `CustomFutureWakeup.CancelCallDecides` | src/future.c:93-163 | a cancel call left alone comes to its answer on every future, however outdated its copy of the word |
| `CustomFutureWakeup.SpuriousWakeFreesSleeper` | src/future.c:483-492 | on a resolved future a spurious return of the futex call is enough for a sleeping call to return |
| `CustomFutureWakeup.NotificationReachesCounted` | src/future.c:590-606 | the notification leaves a sleeper asleep exactly if nobody is counted or no wake-up by address was asked for |
| `CustomFutureWakeup.FinishOfResolvedDelivers` | src/future.c:483-571 | finish on a resolved future, left alone, returns the published payload or the cancelation |
| `CustomFutureWakeup.WorkerEnds` | src/future.c:324-420 | from every state of every run the worker alone resolves the future and is done |
| `CustomFutureWakeup.LateFinisherNeverWaits` | src/future.c:483-485 | a call that starts to finish a resolved future never waits |
| `CustomFutureWakeup.LostWakeupIsReachable` | src/future.c:426-492 | from every reachable unresolved state, a finish call, or a cancel call that finishes, may end up asleep with the result published and the notification sent |
| `CustomFutureWakeup.FinishMayHangIffUnresolved` | src/future.c:483-608 | finishing, directly or as part of a cancelation, can end in a lost wake-up exactly if the future is unresolved at the call |
| `Builders.BinByValue` | src/benchmark/distribution.h:258-394 | the bin of the value, else the nearest below, above or at least distance, with the sentinels; ties go down |
| `Builders.ShiftIn` | src/benchmark/distribution.c:60-93 | in-place shifting inserts exactly one bin into both arrays |
| `Builders.Reallocate` | src/benchmark/distribution.c:94-122 | moving to twice the storage inserts exactly one bin |
| `Builders.Builder.CreateBin` | src/benchmark/distribution.c:48-125 | the bins stay sorted and gain exactly the copies, with or without reallocation |
| `Builders.Builder.Insert` | src/benchmark/distribution.h:458-500 | exactly the given copies of the value are added to what was recorded |
| `Builders.Accumulate` | src/benchmark/distribution.c:149-155 | the counts become their running sums in place |
| `Builders.Builder.Build` | src/benchmark/distribution.c:140-158 | a valid distribution of exactly the recorded values, held by the builder's own storage; the builder is poisoned |
| `Builders.Reset` | src/benchmark/distribution.c:498-515 | an empty builder in the storage of a distribution, which is poisoned |
| `Histogram.ExpandCount` | src/benchmark/distribution.h:72-85 | the list behind end ranks has each value as often as the counts said |
| `Histogram.ExpandSorted` | src/benchmark/distribution.h:180-189 | the list behind the bins is sorted |
| `Histogram.SameValuesSameDistribution` | src/benchmark/distribution.h:26-85 | distributions with the same values have identical bins and ranks |
| `Queries.BinByRank` | src/benchmark/distribution.h:560-633 | the bin whose rank interval contains the rank |
| `Queries.Nth` | src/benchmark/distribution.h:891-896 | the element of that rank in the sorted list |
| `Queries.RecordAndReadBack` | src/benchmark/distribution.h:683-896 | inserting any values, building and reading all ranks gives the values sorted, as many as were inserted |
| `Queries.RecycleAndReadBack` | src/benchmark/distribution.h:1103-1121 | after a reset, exactly what was recorded since is read back |
| `Queries.ReadBackIsUnique` | src/benchmark/distribution.h:872-896 | there is only one such list |
| `Queries.CountBelow` | src/benchmark/distribution.h:920-934 | the number of values below the value, with or without equality, which are the first so many |
| `Queries.Quantile` | src/benchmark/distribution.h:956-963 | the documented quantile for every probability from 0 to 1: the lowest value whose inclusive count reaches the probability |
| `Queries.QuantileDuality` | src/benchmark/distribution.h:936-963 | a quantile is at most x exactly when the number of values up to x reaches the positive probability |
| `Queries.RankBetweenCounts` | src/benchmark/distribution.h:898-934 | every rank lies between the exclusive and the inclusive count of its value |
| `Operations.Choose` | src/benchmark/distribution.h:1075-1085 | the element at which the draw stops when it counts through the list again and again |
| `Operations.DrawsEnumerateList` | src/benchmark/distribution.h:1056-1085 | the draws below the length pick the whole list in order, and a full turn changes nothing |
| `Operations.Resample` | src/benchmark/distribution.c:170-185 | as many values as before, exactly the ones that the draws pick, none invented |
| `Operations.Sub` | src/benchmark/distribution.c:248-305 | min(len) differences, each from the shorter side in order against the element of the longer that the draw picks, with the right sign; every value is a minuend value minus a subtrahend value |
| `Operations.DifferencesAreDifferences` | src/benchmark/distribution.c:293-299 | each one is a minuend value minus a subtrahend value, whichever side is iterated |
| `Operations.Scale` | src/benchmark/distribution.c:189-244 | exactly the scaled values, for zero, positive and negative factors, in a valid distribution |
| `Operations.ScaleByInsertion` | src/benchmark/distribution.h:753-758 | the documented simple form: insert each scaled rank, then build |
| `Operations.ScaleBothWays` | src/benchmark/distribution.h:753-758 | both forms give the identical distribution |
| `Gaps.MinDifferenceWith` | src/benchmark/distribution.c:402-481 | the least nonzero distance over all pairs that avoid the longer side's smallest value on the shorter side, none if there is no such pair |
| `Gaps.NeverUndershoots` | src/benchmark/distribution.h:1048-1051 | the result is never below the documented minimum |
| `Gaps.ExactIff` | src/benchmark/distribution.c:449-464 | it is the documented minimum exactly under an input condition |
| `Gaps.MissesSmallestDifference` | src/benchmark/distribution.c:449-464 | an input on which the documented minimum is missed |
| `Gaps.MinDifference` | src/benchmark/distribution.h:1015-1035 | the first gap, none for fewer than two different values |
| `Gaps.FirstGapExactIff` | src/benchmark/distribution.h:1002-1012 | it is the documented minimum exactly if no later gap is smaller |
| `Gaps.FirstGapMisses` | src/benchmark/distribution.h:1026-1032 | an input on which the documented minimum is missed |
| `Plot.ComputeAbscissa` | src/benchmark/distribution_log.c:187-220 | boundaries run from first to last, strictly increase after the first pair, and each leaves its exact share of the values to the bins after it, rounded down; the length shrinks just enough |
| `Plot.WidthsAgree` | src/benchmark/distribution_log.c:203-219 | any two bins cover the same number of values, give or take one |
| `Plot.ComputeOrdinate` | src/benchmark/distribution_log.c:252-271 | each ordinate counts exactly the values of its interval |
| `Plot.PlotHistogram` | src/benchmark/distribution_log.c:156-271 | on the full range no boundary repeats, the bins are even, and the ordinates add up to the number of values |

## Left out

- Logging, scopes, error reporting and process exit; fatal exits are states shown unreachable or preconditions.
- 64-bit overflow of recorded values, counts and differences: integers are unbounded, as the source assumes that no overflow happens.
- Weak memory orderings: atomic steps are sequentially consistent.
- `Queries.Quantile`: the probability is a real number; rounding of `double` is not modelled.
- Readers of a distribution work on the value that the storage holds, not on the storage itself; `distribution_clone()` and `distribution_finalize()` are not modelled.
- `Entropy.Generate`: RAND_MAX is taken as 2^b - 1 and `rand()` as an arbitrary stream of b-bit draws.
- `BufferPool.ConfigurationRounds`: cache shares and page size are inputs; a cache share of zero for a defaulted size together with a defaulted count, which divides by zero, is excluded.
- The shift `1 << 31` on an `int` in connect.c is taken as the top bit, as compilers do.
- The future allocator, other future types, `udipe_wait()` and liberation: waiters are an environment that changes the count and the notification requests while the future is available, and that has left before a finishing call starts, as the documentation demands.
- `distribution_scaled_div()`: it compares the numerator's length with itself, so it always iterates over the numerator; otherwise it is the loop of `distribution_sub()`.
- Quantile plots, bar drawing and text layout; benchmark calibration; network threads and command queues.
