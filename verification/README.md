# Decision pipeline: state, admission, hand-over and policy

A model of the parts of the decision engine whose correctness spans several functions or several
threads, with proofs about every input, every run or every interleaving:

- **Tiered window store.** Counters live in an in-process versioned map (string keys over hash
  shards). A write-back store marks changed keys dirty and removed keys expired; flushers bring a
  warm table into line, and a restart seeds a new primary from it. Old epochs move on to an archive.
- **submit / submit_sync.** The calling thread and the `run_event` coroutine share a context guarded
  by one mutex; the pipeline counts events in flight, and `drain` waits for the count to reach 0.
- **Admission.** A lock-free token bucket and a concurrency cap per tenant, and the K-of-N loop
  that assigns cells to tenants and owner instances to a fleet.
- **Threshold evaluator.** A ten-attempt compare-and-swap retry on one window.
- **Policy stage.** Rules fire decision types; incompatible types knock each other out by
  priority; survivors become the decision's active decisions.

## How it is modelled

Code that runs under one lock, or with no other thread about, is a class or a method with the
source's loops, proved against a function of its inputs or its old state. Code whose point is
interleaving is a state machine: one atomic access, one lock section or one table operation a
step, any number of callers, flushers, calls or evaluations, and every outcome that the program
does not control (clock readings, spurious compare-exchange failures, failing statements, the stop
token) chosen freely at each step. The two meet: the class operations are proved to be particular
runs of the machines (`WriteBackWindowStore.CompareAndSwap`, `Expire` and `FlushSync`,
`AloneComputesTryAcquire`, `ReportIsARun`).

Hashes are arbitrary functions into the naturals, 64-bit versions and 32-bit masks wrap as in the
source, and a value is compared as `get` reads it: an absent key is `{0.0, 0}`.

| file | content |
|---|---|
| `Bits.dfy`, `Slots.dfy`, `Options.dfy` | words, exclusive or, modular facts; totals over the slots of a machine; optional values |
| `ShuffleSharding.dfy` | the assignment loop, which cells it can reach, exactly when it ends |
| `TenantRouter.dfy`, `FleetRouter.dfy` | the two routers that use it |
| `Admission.dfy` | token bucket and concurrency cap under concurrent callers |
| `WindowStore.dfy` | string keys, shards, the in-process store |
| `WarmTier.dfy` | the database store: warm table, archive, range sums |
| `WriteBack.dfy` | the write-back protocol under all interleavings |
| `WriteBackStore.dfy` | the write-back store as an object, tiered queries, restart |
| `SyncSubmit.dfy`, `SyncAnswers.dfy` | one call's hand-over; which answer it gets, and that it gets one |
| `Pipeline.dfy`, `Draining.dfy`, `Serving.dfy` | all calls and the in-flight counter; what drain waits for, the life cycle; one call among the others |
| `Threshold.dfy` | the retry loop, concurrently and over the store, and how the two relate |
| `Policy.dfy` | decision types, rules, and the declarative resolution |
| `DecisionTypes.dfy` | the registry and the decision record as objects |
| `PolicyStage.dfy`, `StageResults.dfy`, `ActiveDecisions.dfy` | the stage's loops, what their output says, and what it activates |

## Where the code and its descriptions differ

The model follows the code.

- `ARCHITECTURE.md:440` resolves a collision by incrementing the candidate modulo N; the loop
  instead drops it and goes on to the next index.
- `include/fre/sharding/tenant_router.hpp:24` asks for a power of two, and configuration
  validation (`src/pipeline/pipeline_config.cpp:64`) only for K < N. With an even N the indices
  from 8 on keep the hash's parity, so K above N/2 + 5 never ends (`NeverFinishes`), while every
  odd N up to 2^31 always works (`AlwaysFinishes`).
- The refill rate is an integer division that gives 0 below 976,563 tokens a second, so the
  default of 500 (`include/fre/sharding/tenant_router.hpp:41`) never refills (`SlowRateNeverRefills`).
- `src/state/write_back_window_store.cpp:142` expects a failed delete to be made up for later;
  nothing retries it (`FailedDeleteIsForgotten`).
- `include/fre/core/decision_type.hpp:28` lets the earlier match win a tie between incompatible
  types; the code keeps the pair's first member (`TieKeepsEarlierIff`, `TieCanDropTheEarlier`).

## Model

| member | source | states |
|---|---|---|
| ShuffleSharding.FinishesIff | src/sharding/tenant_router.cpp:31-41 | for every hash, N and K, wrap-around of the 32-bit index included, the loop ends if and only if K cells, or all N, are among those some index proposes |
| ShuffleSharding.AssignmentIsFirstDistinct | src/sharding/tenant_router.cpp:31-41 | a finishing loop returns the first min(K, N) different cells of the index sequence, in that order, and no other list satisfies that description |
| ShuffleSharding.AssignmentShape | src/sharding/tenant_router.cpp:35-40 | a finished assignment is duplicate-free, in range, and has min(K, N) members |
| ShuffleSharding.EveryEvenMask | src/sharding/tenant_router.cpp:32-33 | the XOR masks of indices from 8 on cover every even 32-bit word: the multiplier is twice an odd number, invertible modulo 2^31 |
| ShuffleSharding.MaskParity | include/fre/sharding/hash_seeds.hpp:16-19 | over the whole 32-bit index range only indices 0, 1, 2, 4 and 6 have an odd mask |
| ShuffleSharding.KnownProposals | include/fre/sharding/hash_seeds.hpp:16-19 | known answers for the hash 0: the eight seeds in their order, each plus its index, and the next two multiples |
| Bits.XorBits | src/sharding/tenant_router.cpp:33 | the exclusive or of the proposal, bit by bit |
| ShuffleSharding.OddReachesAll | src/sharding/tenant_router.cpp:31-38 | with an odd N up to 2^31 every cell is proposed for every 64-bit hash |
| ShuffleSharding.EvenReach | src/sharding/tenant_router.cpp:31-38 | with an even N the proposed cells are exactly those of the hash's own parity and the five odd-mask cells, two disjoint families |
| ShuffleSharding.ReachSplit | src/sharding/tenant_router.cpp:31-38 | for any N the proposed cells are those of the 2^31 words that share the hash's upper half and parity, and the five odd-mask cells |
| ShuffleSharding.OddReach | src/sharding/tenant_router.cpp:31-38 | with an odd N above 2^31 these words have 2^31 different cells, and exactly the odd-mask cells at an odd distance too long for 32 bits come on top |
| ShuffleSharding.TerminationIff | src/sharding/tenant_router.cpp:24-44 | termination for every hash, every 32-bit N above 0 and every K: if and only if K does not exceed the number of proposed cells, or these make up all N; that number is N for odd N up to 2^31, N/2 plus the different odd-mask cells for even N, and 2^31 plus the odd-mask cells no neighbour has for larger odd N |
| ShuffleSharding.AlwaysFinishes | src/sharding/tenant_router.cpp:24-44 | the loop ends for every tenant when N is odd and at most 2^31 (any K), or K is at most N/2 (any N) |
| ShuffleSharding.NeverFinishes | src/pipeline/pipeline_config.cpp:63-70 | an even N above 10 with K above N/2 + 5, which validation lets through when K < N, ends for no tenant at all |
| TenantRouting.AssignCells | src/sharding/tenant_router.cpp:24-44 | the growing-vector loop with its wrapping counter returns the first min(K, N) different cells |
| TenantRouting.TenantRouter.GetOrCreateTenant | src/sharding/tenant_router.cpp:149-161 | an existing tenant's state is returned untouched, whether or not its loop would end today; a new one starts with its assignment and a full bucket; no other tenant changes |
| TenantRouting.TenantRouter.NewTenantHasItsBurst | src/sharding/tenant_router.cpp:116-119 | a tenant seen for the first time is admitted exactly bucket_capacity times at once, slots permitting, and then refused |
| TenantRouting.TenantRouter.CellsFor | src/sharding/tenant_router.cpp:171-183 | a tenant is given the same assignment at every call, and every index falls inside the strand table |
| TenantRouting.TenantRouter.TryConsume | src/sharding/tenant_router.cpp:68-105 | with nobody else about, the three exchange loops refill up to capacity and take one token exactly when one is there, however often each weak exchange fails spuriously |
| TenantRouting.TenantRouter.AddTokens | src/sharding/tenant_router.cpp:86-91 | the inner exchange loop adds the refill and clamps at capacity, however often it fails spuriously |
| TenantRouting.TenantRouter.TryAcquire | src/sharding/tenant_router.cpp:185-206 | outcome and new state of one tenant, with the token spent but the slot given back when over the cap; all other tenants unchanged |
| TenantRouting.TenantRouter.Release | src/sharding/tenant_router.cpp:208-213 | one slot of a known tenant is given back; an unknown tenant changes nothing |
| FleetRouting.FleetRouter.AssignInstances | service/src/fleet_router.cpp:19-40 | the fleet's loop returns, element by element, the list that the cell loop returns for the same hash, N and K |
| FleetRouting.ExactlyKOwners | specs/003-fleet-shuffle-sharding/contracts/fleet-router-contract.md:43 | in a fleet of N >= 2 exactly min(K, N) instances own each tenant |
| FleetRouting.SmallFleets | service/src/fleet_router.cpp:48-58 | in a fleet of one or none every instance owns every tenant, and neither such a fleet nor an empty topology gives a hint |
| FleetRouting.HintListsOwners | specs/003-fleet-shuffle-sharding/contracts/fleet-router-contract.md:45 | every address in a redirect hint belongs to an owner, and every owner with an address in the topology appears |
| FleetRouting.AddressesInOrder | service/src/fleet_router.cpp:63-74 | the addresses follow the order of assignment, at most one an owner, each from the owner's first entry that has one |
| FleetRouting.HintReadsBack | service/src/fleet_router.cpp:63-75 | splitting the text at its commas gives the addresses back, when no address holds a comma |
| FleetRouting.FleetRouter.OwnsTenant | service/src/fleet_router.cpp:48-55 | the answer is membership in the one assignment on which all instances agree, and yes in a fleet of one |
| FleetRouting.FleetRouter.RedirectHint | service/src/fleet_router.cpp:57-76 | the stream with its `first` flag is the comma-joined list of the owners' first printable addresses; empty for a fleet of one or an empty topology |
| Admission.SignedElapsedIsDifference | src/sharding/tenant_router.cpp:77-81 | the unsigned difference cast back to signed is the true difference, so a caller whose clock is behind never wins a refill |
| Admission.SignedElapsedFits | src/sharding/tenant_router.cpp:77-81 | for any two clock readings the elapsed time is the signed 64-bit number congruent to their difference |
| Admission.StepKeepsInv | src/sharding/tenant_router.cpp:68-105 | each atomic access keeps 1024 * consumed + tokens + refills won but not added + amount clamped off equal to capacity plus rate times elapsed, the tokens within bounds, and the refill clock monotone |
| Admission.RunKeepsInv | src/sharding/tenant_router.cpp:68-105 | the books, bounds and cap hold after every interleaving of any number of callers, spurious failures and late clocks included |
| Admission.ReadsAreReal | src/sharding/tenant_router.cpp:75-104 | over every run, the value a caller is about to compare and exchange is one that the field held when that caller read it, and it has stood there since |
| Admission.RefusedOnlyWhenEmpty | src/sharding/tenant_router.cpp:96-104 | over every run and against any rivals, a caller is refused for want of tokens only if the bucket held less than one at its last read; losing an exchange makes it read again |
| Admission.RefillSkippedOnlyWhenIdle | src/sharding/tenant_router.cpp:75-94 | over every run, a caller goes without a refill only if its clock was not ahead of the refill time it last read there, or the rate is 0 |
| Admission.ClampedIsOverflow | src/sharding/tenant_router.cpp:86-91 | tokens are clamped off only by a step that adds a refill, which then fills the bucket, and exactly the excess over capacity; tokens rise only by such a step, by its refill less what it clamps |
| Admission.TurnedAwayOnlyAtCap | src/sharding/tenant_router.cpp:196-203 | a caller that has its token is turned away if and only if the counter had reached the cap when it added itself |
| Admission.ThroughputBound | src/sharding/tenant_router.cpp:53-105 | over any run, consumed is at most capacity plus tokens_per_second times the elapsed seconds, and no more are admitted than consumed |
| Admission.ConcurrencyCap | src/sharding/tenant_router.cpp:196-213 | slots held never exceed max_concurrent; the counter is held slots plus callers between add and undo, hence never negative |
| Admission.AloneComputesTryAcquire | src/sharding/tenant_router.cpp:185-206 | a caller that nobody disturbs ends, within nine accesses, with the sequential outcome and state |
| Admission.RateIsFloor | src/sharding/tenant_router.cpp:65-66 | the rate is the largest whole number of 1/1024 tokens a nanosecond that does not exceed the configured one |
| Admission.RefilledMeaning | src/sharding/tenant_router.cpp:68-94 | undisturbed, a refill brings rate times the time passed, up to capacity, and sets the refill time; a clock that is not ahead changes nothing |
| Admission.BurstIsCapacity | src/sharding/tenant_router.cpp:185-206 | at one clock reading a full bucket admits its capacity, slots permitting, and not one more |
| Admission.RateIsZeroIff | src/sharding/tenant_router.cpp:65-66 | the fixed-point rate is 0 if and only if fewer than 976,563 tokens a second are configured |
| Admission.SlowRateNeverRefills | src/sharding/tenant_router.cpp:65-81 | below that rate no run of any length consumes more than the initial burst |
| Admission.DrainedBucketRecoversIff | src/sharding/tenant_router.cpp:65-105 | a bucket with less than one token and a slot free is served again at some later clock reading if and only if the rate reaches that value |
| WindowStore.MakeKeyInjective | src/state/window_store.cpp:12-14 | keys whose tenant and entity ids hold no colon never share a string, decimal epoch and arbitrary window name included |
| WindowStore.KeyIsUniqueIff | src/state/window_store.cpp:12-14 | a key shares its string with no key at all if and only if none of its three text parts holds a colon |
| WindowStore.DecimalRoundTrip | src/state/window_store.cpp:13 | reading a printed epoch back gives the epoch |
| WindowStore.KeyFormat | src/state/window_store.cpp:13 | the four parts of a key in their order, on a known answer |
| WindowStore.ShardMeaning | src/state/window_store.cpp:16-20 | a shard in range, the same for all keys of one tenant and entity, following either id's hash when the other's is 0, and 0 when they are equal |
| WindowStore.CasMeaning | src/state/window_store.cpp:40-48 | the abstract swap succeeds if and only if the versions match, whatever the aggregates, and touches no key but its own |
| WindowStore.ShardedStoreRefinesMap | src/state/window_store.cpp:16-63 | on colon-free ids compare-and-swap and expire on the shards answer and act as on the abstract map, and disturb no other key |
| WindowStore.UnsafeKeysShareASlot | src/state/window_store.cpp:12-20 | two different keys with colons in their ids read the same slot in every store whose hash sends them to one shard |
| WindowStore.InProcessWindowStore.Get | src/state/window_store.cpp:22-30 | the stored value, or the zero value for a missing key |
| WindowStore.InProcessWindowStore.CompareAndSwap | src/state/window_store.cpp:32-49 | replaces the value if and only if the versions match; the other shards and strings stay |
| WindowStore.InProcessWindowStore.Expire | src/state/window_store.cpp:51-63 | removes exactly the key's string from its shard |
| WarmTier.ArchivalConservesIff | src/state/duckdb_window_store.cpp:173-194 | whatever statements fail, archival leaves every range sum as it was if and only if each archived row meets a condition on the two tables beforehand (when both statements succeed: nothing archived under it earlier) |
| WarmTier.FirstArchivalConserves | src/state/duckdb_window_store.cpp:139-195 | a first archival of all epochs below the cutoff changes no range sum and leaves none of them in the warm table |
| WarmTier.RecentEpochsUntouched | src/state/duckdb_window_store.cpp:150-157 | rows at or above current minus retention are the same in both tables afterwards, whatever fails |
| WarmTier.OldMeansRetentionHasPassed | src/state/duckdb_window_store.cpp:142-152 | in terms of time: an epoch is archived if and only if the retained number of whole windows has passed since its own window ended |
| WarmTier.ArchivedRows | src/state/duckdb_window_store.cpp:183-193 | row by row, whatever fails: a copied row is in the archive as it was, a deleted one is gone, rows of other epochs stay where and as they are |
| WarmTier.DuckDbWindowStore.FlushOldEpochs | src/state/duckdb_window_store.cpp:139-195 | the epoch-by-epoch loop, in any order, does what archiving all old epochs at once does; a row leaves the warm table if and only if its window ended at least the retained number of windows ago and its delete worked |
| WarmTier.DuckDbWindowStore.Get | src/state/duckdb_window_store.cpp:213-249 | the row, or the zero value, or an error |
| WarmTier.DuckDbWindowStore.CompareAndSwap | src/state/duckdb_window_store.cpp:251-330 | as `get` sees it, seed-then-update is the in-process compare-and-swap; when the unchecked commit fails the answer is the same and nothing happened |
| WarmTier.DuckDbWindowStore.Expire | src/state/duckdb_window_store.cpp:332-359 | removes exactly the key's row, or nothing on an error |
| WarmTier.DuckDbWindowStore.UpsertBatch | src/state/duckdb_window_store.cpp:375-431 | all rows or none, and success exactly when every statement and the commit worked |
| WarmTier.DuckDbWindowStore.ScanWarmTier | src/state/duckdb_window_store.cpp:435-474 | an error, or a list in which every row of the warm table occurs exactly once and nothing else does, whatever order the database has |
| WarmTier.ScanRoundTrip | src/state/duckdb_window_store.cpp:375-474 | a scan's rows, upserted into an empty table, give the scanned table back |
| WarmTier.DuckDbWindowStore.QueryRange | src/state/duckdb_window_store.cpp:489-570 | the sum of the matching warm rows and, when archiving, of the matching archived rows; a failing archive query counts as 0 |
| WarmTier.RangeSumIsEpochSum | src/state/duckdb_window_store.cpp:505-509 | the range sum is the sum of the aggregates of that tenant, entity and window over the epochs from first to last, both included, and 0 for an empty range |
| WriteBack.StepKeepsInv | src/state/write_back_window_store.cpp:48-69 | each disciplined step of any caller or of the flusher keeps write-back agreement: a key whose tiers differ is dirty, expired, in a flusher's snapshots, or held by a caller about to record it |
| WriteBack.StepKeepsAgreementIff | src/state/write_back_window_store.cpp:104-146 | a single step keeps agreement if and only if it is harmless: only a batch that writes a stale value nobody will rewrite, or a delete that removes a live row or leaves a dead one, can break it |
| WriteBack.RunAgreesIff | src/state/write_back_window_store.cpp:48-146 | for any run of any callers and any number of overlapping flushers, with any failures: starting from agreement, agreement holds at every moment if and only if every step taken is harmless where it is taken |
| WriteBack.RunKeepsAgreement | src/state/write_back_window_store.cpp:48-146 | agreement holds in every interleaving in which no key is given a new value between its expire and its delete, one flush runs at a time, and deletes succeed; batches may fail |
| WriteBack.RestingRunAgrees | src/state/write_back_window_store.cpp:89-146 | when such a run comes to rest with nothing marked, both tiers read the same at every key |
| WriteBack.WarmValuesAreHistorical | src/state/write_back_window_store.cpp:104-146 | in every interleaving, overlapping flushes and failures included, a warm value is one that the primary's `get` returned at some earlier moment |
| WriteBack.SwapAfterExpireIsLost | src/state/write_back_window_store.cpp:61-69 | a run in which a key expired and then swapped loses its warm row while nothing is marked |
| WriteBack.OverlappingFlushesRegress | src/state/write_back_window_store.cpp:113-123 | a run in which two overlapping flushes write the older value last |
| WriteBack.FailedDeleteIsForgotten | src/state/write_back_window_store.cpp:141-145 | a run in which a failed delete leaves a dead warm row with nothing marked |
| WriteBack.FlusherAloneFlushes | src/state/write_back_window_store.cpp:89-146 | every run that consists of one flusher's snapshots and nothing but its own further steps, in any key order and with any failing table operations, available tier or not, ends in the one-piece flush when the flusher is back at rest |
| WriteBack.FlusherAloneFinishes | src/state/write_back_window_store.cpp:89-146 | such a run exists from every state, for every choice of failures |
| WriteBack.FlushAgreesIff | src/state/write_back_window_store.cpp:104-146 | what a flush leaves at a key for every choice of failures: after a delete that worked, agreement if and only if the key had not been given a new value; otherwise, if and only if the batch wrote it or it agreed before |
| WriteBackStore.TieredQueryIff | src/state/write_back_window_store.cpp:73-85 | where only marked keys differ, the flushed warm sum equals the primary's sum for every range if and only if no expired key has an aggregate again |
| WriteBackStore.QueryAfterDisciplinedRun | src/state/write_back_window_store.cpp:73-100 | at rest after any disciplined run, only marked keys differ, and flushing makes every range sum that of the primary |
| WriteBackStore.RestartRoundTrip | src/state/write_back_window_store.cpp:14-40 | from any such state at rest: flush, forget the primary, seed a new one; it reads the same at every key and nothing is dirty |
| WriteBackStore.SeedingAgreesIff | src/state/write_back_window_store.cpp:161-173 | the seeded primary reads as the warm tier everywhere if and only if each value it held before equals the warm one or gave way to a warm row at version 0 |
| WriteBackStore.Restart | src/state/write_back_window_store.cpp:32-40 | the destructor's flush and the next constructor over the same database, as objects: a fresh store that reads as the old one did |
| WriteBackStore.WriteBackWindowStore.constructor | src/state/write_back_window_store.cpp:14-30 | whatever the primary holds, an available tier that can be scanned is seeded into it with nothing dirty, and the store is fresh if and only if the two agreed where both had a say; otherwise the primary stays as it is |
| WriteBackStore.WriteBackWindowStore.LoadWarmTier | src/state/write_back_window_store.cpp:161-173 | over the scanned rows, in any order, each is taken exactly where the primary is still at version 0 |
| WriteBackStore.WriteBackWindowStore.Get | src/state/write_back_window_store.cpp:44-46 | the primary's value for any key, which for colon-free ids is that of the abstract map; the warm tier is not asked |
| WriteBackStore.WriteBackWindowStore.CompareAndSwap | src/state/write_back_window_store.cpp:48-59 | for any key the primary's answer and effect, and a dirty mark if and only if the swap succeeded; for colon-free ids equal to the protocol's two steps |
| WriteBackStore.WriteBackWindowStore.Expire | src/state/write_back_window_store.cpp:61-69 | any key leaves the primary and the dirty set and enters the expired set; for colon-free ids equal to the protocol's two steps |
| WriteBackStore.WriteBackWindowStore.FlushSync | src/state/write_back_window_store.cpp:89-100 | both sets are taken, latest values written, expired rows deleted; on a failed batch or an unavailable tier exactly the dirty keys are kept; the outcome is that of a run of one flusher's own steps |
| WriteBackStore.WriteBackWindowStore.QueryRange | src/state/write_back_window_store.cpp:73-85 | an error and no change when unavailable; otherwise the flushed warm sum, which is the primary's own sum when the flush works, archival is off and nothing expired came back |
| SyncSubmit.CallerStepKeepsInv | src/pipeline/pipeline.cpp:266-379 | every step of the submitting thread keeps the hand-over invariant: mutual exclusion, and what each party's position implies about the shared fields |
| SyncSubmit.CoroutineStepKeepsInv | src/pipeline/pipeline.cpp:68-181 | so does every step of the coroutine |
| SyncSubmit.AnswerMeaning | src/pipeline/pipeline.cpp:149-177 | an error in hand means nothing emitted; a decision in hand means the skip path was not taken and only that decision is emitted, once, by the time the coroutine leaves |
| SyncAnswers.ErrorExactlyUnderItsCause | src/pipeline/pipeline.cpp:266-379 | at each step each error is answered if and only if its cause is there: not started, not running, not admitted, found invalid, stopped, or timed out |
| SyncAnswers.ChecksPassed | src/pipeline/pipeline.cpp:270-301 | a call that is not refused at a check goes on to the next, is counted only when admitted, and its coroutine is born only by the spawn |
| SyncAnswers.GivesUpIff | src/pipeline/pipeline.cpp:308-340 | the caller gives up if and only if the result is not there and the deadline has passed or a stop is requested, the deadline first; with the result there it reads it |
| SyncAnswers.ErrorHasReason | src/pipeline/pipeline.cpp:266-379 | in every interleaving and every changing world, an error is reported only if the world gave reason for it at some step of the call |
| SyncAnswers.AnswerFitsTheWorld | src/pipeline/pipeline.cpp:239-379 | in every interleaving in a world that stays as it is, the answer is the one that world calls for; an admitted, valid event that is not cancelled and in time gets its decision and nothing else |
| SyncAnswers.CanAlwaysReturn | src/pipeline/pipeline.cpp:266-379 | from every state of a call, steps of its two parties lead to an answer: neither the mutex nor a wait ever blocks both |
| SyncAnswers.AdmittedEventIsDecided | src/pipeline/pipeline.cpp:266-379 | an event submitted to a live pipeline, admitted, valid, not stopped and in time is brought to its decision, which has then been emitted once |
| SyncAnswers.AcceptedEventIsEmitted | src/pipeline/pipeline.cpp:239-264 | an event submitted without waiting, to a live pipeline and admitted, is accepted and brought to exactly one emission, valid or not |
| Serving.PlaysAsAlone | src/pipeline/pipeline.cpp:239-379 | a call's own steps among any number of other calls take it where they would take it alone, and leave the others as they are |
| Serving.LiveEventIsDecided | src/pipeline/pipeline.cpp:266-379 | from every state of a live pipeline, a new event that is admitted, valid, not stopped and in time can be brought to its decision, emitted once |
| Serving.LiveEventIsEmitted | src/pipeline/pipeline.cpp:239-264 | from every state of a live pipeline, a new event submitted without waiting and admitted can be brought to exactly one emission |
| Pipeline.ErrorMeansNeverEmitted | src/pipeline/pipeline.cpp:308-378 | over every run: once `submit_sync` has returned an error, that event is not emitted before or ever after |
| Pipeline.DecisionMeansSameEmission | src/pipeline/pipeline.cpp:342-369 | over every run: once it has returned a decision, the coroutine emits that decision, at most once, and certainly before it leaves |
| Pipeline.StepKeepsInv | src/pipeline/pipeline.cpp:61-66 | every step of any call or of drain keeps the counter, the drain mutex and the pending wake-up consistent |
| Pipeline.InFlightCountsUnfinished | src/pipeline/pipeline.cpp:61-66 | after any run the counter is the number of counted events whose `run_event` has not completed, so it is 0 exactly when none is unfinished |
| Pipeline.NoLostWakeup | src/pipeline/pipeline.cpp:381-387 | a drain blocked while the counter is 0 always has a notify still coming |
| Pipeline.CountZeroIsFinal | src/pipeline/pipeline.cpp:61-66 | once the counter is 0, an event spawned so far emits nothing more in any continuation |
| Draining.DrainEndsIff | src/pipeline/pipeline.cpp:384-387 | a step ends drain cleanly if and only if it evaluates the predicate where no event is unfinished, and otherwise if and only if one is and the time is up |
| Draining.DrainWaits | src/pipeline/pipeline.cpp:384-387 | with an event unfinished and time left, drain goes on to block and gives its mutex back |
| Draining.CleanDrainIsFinal | src/pipeline/pipeline.cpp:381-392 | over every run: when drain has ended cleanly no event is unfinished, and those spawned by then emit nothing more in any continuation |
| Draining.TimedOutDrainHadReason | src/pipeline/pipeline.cpp:384-387 | over every run: a drain that does not end cleanly ran out of time over an unfinished event |
| Draining.BlockedDrainIsWoken | src/pipeline/pipeline.cpp:61-66 | a drain blocked while nothing is in flight is woken by steps of the completing events alone, and then ends cleanly |
| Draining.DrainChanges | src/pipeline/pipeline.cpp:381-392 | drain begins only by being called, moves on by its own steps, and a notify does no more than wake it where it is blocked |
| Draining.BlockedDrainTimesOut | src/pipeline/pipeline.cpp:384-387 | a drain blocked over an unfinished event gives up when its time is up |
| Draining.CompletionMeaning | src/pipeline/pipeline.cpp:61-66 | a completing event takes one off the counter and goes on to notify if and only if it was the last |
| Draining.PhaseChanges | src/pipeline/pipeline.cpp:195-237 | only the last store of a start makes the pipeline live, only the end of a drain stops it, and a start gets under way only from a stopped pipeline |
| Draining.StartsAndStops | src/pipeline/pipeline.cpp:195-237 | a start takes a stopped pipeline to live; drain takes it to draining and leaves it stopped |
| Draining.StateCheckReadsPhase | src/pipeline/pipeline.cpp:276-282 | a call passes its state check if and only if the pipeline is live, and is told apart between never started and not running |
| Draining.NothingBeforeStart | src/pipeline/pipeline.cpp:239-243 | over every run: until a start has completed, every call is refused or at its checks, nothing is in flight or emitted |
| Draining.DrainRefusesNewcomers | src/pipeline/pipeline.cpp:381-382 | over every run: once a drain has begun and until a start completes, no call that arrives is let in |
| Threshold.ContentionIsReal | include/fre/evaluator/threshold_evaluator.hpp:60-92 | an evaluation that reports contention changed nothing, and at least ten changes by others hit its key during the call, with any other writers and expiry about |
| Threshold.OnlyChangesAreLogged | include/fre/evaluator/threshold_evaluator.hpp:60-83 | what the bound counts: successful swaps and removals of a key that was there, and nothing else |
| Threshold.TenChangesAreEnough | include/fre/evaluator/threshold_evaluator.hpp:60 | a run with exactly ten changes in which an evaluation reports contention, so that bound is exact |
| Threshold.NineChangesAreNotEnough | include/fre/evaluator/threshold_evaluator.hpp:60 | with nine of its attempts overtaken the tenth still counts the event |
| Threshold.NoLostUpdates | include/fre/evaluator/threshold_evaluator.hpp:60-83 | any number of concurrent evaluations on a fresh key: aggregate and version equal the number n of successful ones, and each of 1..n was seen by exactly one of them |
| Threshold.FlagsExactly | include/fre/evaluator/threshold_evaluator.hpp:94-95 | n evaluations succeed and exactly max(0, n - floor(T)) of them flag, or all n when T is negative |
| Threshold.ContentionIffOvertaken | include/fre/evaluator/threshold_evaluator.hpp:60-92 | whatever others do before and during each attempt: contention is reported if and only if at each of the ten attempts the version read differs from the version found at the swap; otherwise the first attempt to hold decides, and value and report are determined by it |
| Threshold.ReportIsARun | include/fre/evaluator/threshold_evaluator.hpp:60-92 | whatever the loop over the store reports and leaves, the concurrent machine comes to the same from every state with that value, by a run of this evaluation's reads and swaps and the others' changes |
| Threshold.Attempt | include/fre/evaluator/threshold_evaluator.hpp:61-83 | one turn over the real store, with any swaps and removals by others between read and swap: what it wrote, whether it held, and what the store reads afterwards |
| Threshold.Evaluate | include/fre/evaluator/threshold_evaluator.hpp:47-110 | the whole loop over the real store: it flags, passes or reports contention as the first attempt that nobody overtook, or their absence, demands, and leaves that attempt's count or the others' last value |
| DecisionTypes.DecisionTypeRegistry.FindType | src/pipeline/decision_type.cpp:48-54 | the type registered under the id, if any |
| DecisionTypes.DecisionTypeRegistry.AddType | src/pipeline/decision_type.cpp:10-29 | an empty or known id is refused without a change; otherwise the type goes in at its lower bound, the order and distinctness of ids stay, and every other lookup is as before |
| DecisionTypes.DecisionTypeRegistry.AddIncompatible | src/pipeline/decision_type.cpp:31-46 | a pair is recorded if and only if both types are registered |
| DecisionTypes.DecisionTypeRegistry.AreIncompatible | src/pipeline/decision_type.cpp:56-65 | true exactly when the two were declared incompatible in either order |
| Policy.IncompatibleMeaning | src/pipeline/decision_type.cpp:56-65 | two types are incompatible if and only if some declared pair names them, in either order |
| Policy.LookupMeaning | src/pipeline/decision_type.cpp:10-58 | in a registry built by its own calls, each registered type, and nothing else, is found under its id with its own priority |
| DecisionTypes.Decision.FindStage | include/fre/core/decision.hpp:82-87 | the first stage output under the name, if any |
| DecisionTypes.StageNamedMeaning | include/fre/core/decision.hpp:82-87 | the output found is the first under the name, and none is found only if there is none |
| DecisionTypes.Decision.ComputeActiveDecisions | src/pipeline/decision_type.cpp:69-93 | a priority-sorted permutation of the entries for the policy results that name a registered type; unchanged without a registry or a policy stage |
| DecisionTypes.EntriesMeaning | src/pipeline/decision_type.cpp:75-87 | whatever else the results say, exactly those that name a registered type have an entry, with that type, the evaluator's name and the type's priority |
| Policy.PicksAreSurvivors | src/stage/policy_stage.cpp:112-155 | exactly the fired types that no fired incompatible partner beats are picked, each once, through the first rule that fired it |
| Policy.PicksExact | src/stage/policy_stage.cpp:147-155 | the picks are in rule order and nothing else is picked |
| Policy.PairsActAsSet | src/stage/policy_stage.cpp:123-145 | the order and repetition of declared pairs do not matter, and a further pair only removes survivors |
| Policy.SurvivorsCompatible | src/stage/policy_stage.cpp:123-145 | no two survivors were declared incompatible, nor one with itself |
| Policy.MutualLossIff | src/stage/policy_stage.cpp:138-144 | of two fired incompatible types at least one does not survive; where no third fired type beats either, neither survives if and only if their priorities are equal and the pair was declared both ways round |
| Policy.LosersStillBeat | src/stage/policy_stage.cpp:127-145 | a chain of three types in which the middle one is dropped and still takes the last with it, though that one has no other rival and the pair was declared one way |
| Policy.TieKeepsEarlierIff | include/fre/core/decision_type.hpp:26-28 | on equal priorities, with no third fired type against it, the earlier match survives if and only if the pair was not declared with the later type first, and the later one if and only if it was not declared with the earlier first |
| Policy.TieCanDropTheEarlier | src/stage/policy_stage.cpp:138-144 | two rules and one pair for which the earlier match of a tie is the one dropped |
| PolicyStage.Deduplicate | src/stage/policy_stage.cpp:115-121 | keeps the first match of each type |
| PolicyStage.DeduplicationKeepsFirst | src/stage/policy_stage.cpp:112-121 | the kept matches are those of the rules that are first to fire their type, in rule order |
| PolicyStage.CollectLosers | src/stage/policy_stage.cpp:123-145 | exactly the kept types that some other kept type beats, or that are paired with themselves |
| PolicyStage.KeptAreSurvivors | src/stage/policy_stage.cpp:147-155 | dropping the losers leaves the results of the surviving types' first rules, in rule order |
| PolicyStage.EvaluateAll | src/stage/policy_stage.cpp:69-110 | exceptions and untyped matches go to the output in rule order, registered typed matches to the list, unregistered ones nowhere |
| PolicyStage.ProcessFirstMatch | src/stage/policy_stage.cpp:28-58 | without typed rules or a registry: the first match decides, unlabelled, after the exceptions before it |
| StageResults.FirstMatchDecides | src/stage/policy_stage.cpp:28-58 | without typed rules or a registry: the verdict is that of the first rule that matches, Pass when none does; its result, unlabelled and in its name, comes last; exactly the rules that threw before it have degraded results, blocking if and only if the stage fails closed, and raise the error flag |
| StageResults.AsideMeaning | src/stage/policy_stage.cpp:71-99 | on the other path too, exactly the exceptions and the untyped matches come first, in rule order, each with the verdict, name and reason of its rule or of the failure mode |
| StageResults.ResolvedResultsMeaning | src/stage/policy_stage.cpp:59-156 | the whole list of results on that path: those, and then for each survivor its first rule's verdict in that rule's name; the error flag if and only if some rule threw |
| PolicyStage.Process | src/stage/policy_stage.cpp:14-163 | the five loops together produce the declarative resolution: verdict, results in order, and the error flag |
| ActiveDecisions.ActiveAreSurvivors | src/pipeline/decision_type.cpp:69-93 | however the sort orders equal priorities: the active types are exactly the survivors, each once, in its first rule's name, sorted by priority, pairwise compatible |
| ActiveDecisions.ResolvePolicy | src/pipeline/pipeline.cpp:121-139 | stage and record run one after the other: the output joins the record, and the record's active decisions are exactly the survivors as above, or none on the first-match path |
| ActiveDecisions.TopPriorityHeadsTheList | src/stage/policy_stage.cpp:138-155 | a fired type that outranks all other fired types heads the active decisions, unless it is paired with itself, when it never appears |
| ActiveDecisions.VerdictIsStrictest | src/stage/policy_stage.cpp:89-155 | the stage's verdict is the strictest among matched untyped rules and rules that speak for survivors, and of no others |
| ActiveDecisions.FirstMatchActivatesNothing | src/stage/policy_stage.cpp:28-58 | the first-match path leaves no active decision |

## Left out

- TenantRouting.AssignCells: demands a loop that ends, which the source does not check; `TerminationIff` says exactly when that is. Likewise GetOrCreateTenant, CellsFor and TryAcquire for a tenant not seen before.
- FleetRouting.FleetRouter.AssignInstances: the same demand, as in OwnsTenant and RedirectHint for a fleet of two or more and, in the latter, a topology that is not empty.
- Admission.ThroughputBound: clock readings stay below 2^63 nanoseconds and products do not overflow 64 bits; capacity and rate are not negative.
- Admission.ConcurrencyCap: the 32-bit slot counter is an integer here, and a release follows an acquire that succeeded.
- TenantRouting.TenantRouter.TryAcquire: the object is used by one thread; concurrent callers are in `Admission`. A tenant's creation time is a parameter.
- WriteBack.StepKeepsInv: the discipline (no swap of an expired key before its delete, one flusher, deletes succeed) is assumed because the code breaks agreement without it, as the three counterexample runs show; `RunAgreesIff` assumes none of it. Whether the tier is available is fixed for a run, as it is once the database has been opened.
- WriteBackStore.WriteBackWindowStore.CompareAndSwap: for ids that hold colons it says what happens to the string store, not to the abstract map, which such keys can disturb (`UnsafeKeysShareASlot`); likewise Get and Expire.
- WriteBackStore.WriteBackWindowStore.FlushSync: the object is used by one thread; interleavings are in `WriteBack`. A batch fails as a whole.
- WarmTier.DuckDbWindowStore.QueryRange: the archive is one table rather than parquet files; all database errors are one error.
- WarmTier.FirstArchivalConserves: COPY and DELETE succeed and no other writer touches the table between them.
- Threshold.NoLostUpdates: fewer than 2^64 changes, after which the version wraps; no expiry and no other writer.
- Threshold.Evaluate: store errors are not modelled, since the in-process store has none.
- Draining.CleanDrainIsFinal: says nothing of a `submit` caught between its state check and its increment, which the code does not cover either.
- Pipeline.StepKeepsInv: one drain at a time; stopping the thread pool, which may abandon coroutines, is over-approximated by coroutines that take no further step.
- SyncAnswers.CanAlwaysReturn: says that steps to an answer exist from everywhere, not that a scheduler takes them. A wait on the condition variable may wake at any time, so `notify_one` itself is not a step.
- DecisionTypes.Decision.ComputeActiveDecisions: the order among equal priorities is left open, as `std::sort` leaves it.
- Weak memory orderings: atomics and lock sections are sequentially consistent steps.
- Floating-point rounding: aggregates and thresholds are real numbers.
- The admission cap as a bound on running evaluations: the slot is released right after the spawn, so it is none.
- Rule conditions, rule sorting at configuration time, stage internals and emission retries: a rule's outcome and an event's decision are inputs.
- Expiry callbacks, the flush threads' timing, display names, scores, reason texts and metadata of results.
- entity_key and current_epoch of the evaluator, topology_json, HTTP, configuration loading, JSON, plugins, inference models, logging.
- SQL text, files, prepared statements and result decoding of the database store.
