# Verification model of the Misaka core

Dafny models of the parts of the Misaka service where many steps, callers or files have to agree, with proofs of what
they promise together. `dafny verify dfyconfig.toml` checks everything.

| modules | subject |
|---|---|
| `Placement`, `PlacementProofs`, `AcquireProofs`, `EventProofs`, `Vram`, `SchedulerRuns` | Active / Warm / Cold placement of models under two budgets, LRU eviction, idle ticks, transition log, training lock |
| `TrainingProtocol`, `TrainingProofs`, `TrainingExecutor` | the training worker, its callers and the scheduler in any interleaving |
| `FidelityLoop`, `FidelityService`, `FidelityClaims` | the fidelity refine loop for every critic, and concurrent callers of one loop |
| `RepairGeometry`, `CheckResults`, `RepairPlanner`, `RepairMask`, `MaskRequest`, `ImageHeader` | from failed checks to the repair mask's pixels and bytes |
| `CriticResponse`, `CriticGates`, `Critique` | from the responses of two critic passes and of a second critic to final verdicts |
| `CrossProject`, `VersionTree` | reference cycles between projects, the forest of asset versions |
| `AtomicIo`, `LruCache` | atomic JSON files under concurrent writers and readers, the bounded snapshot cache |
| `TagText`, `PromptLineage`, `RoundPrompt` | the words of a planned round, prompts composed over refine rounds, merged negative prompts |
| `StableSort`, `Wrappers` | Python's stable sort, optional and error results |

Objects that the source updates in place are classes (`ModelScheduler`, `TrainingExecutor`, `FidelityStore`,
`LoopRecord`, `SnapshotCache`). Each of their methods is proved to have exactly the effect of a function on values, and
the theorems are about those functions, so they hold of the objects. Pixel buffers are arrays filled in place.
Concurrency is a step relation with one step for each region under a lock, each database statement or each file
operation; critics, runners, mask builders and codecs are arbitrary.

## Findings

Where a promise of the code or its comments does not hold on all inputs, the model keeps the code's behaviour and proves
exactly when the promise holds.

- In the mask of a planned round a visible chosen box is fully white if and only if feather <= dilate + 1
  (`RepairMask.FeatherConditionIsExact`); the defaults 12 and 8 satisfy it.
- A box far beyond an edge of the picture is clamped to that edge before its neighbourhood is painted, so that a strip
  along the edge is repainted although no pixel there is near the box. Painting stays within the dilated box if and only
  if the box reaches into the picture or lies no further outside than the dilation
  (`RepairMask.PaintsOnlyTheDilatedBoxIff`).
- A plan may have no mask. With well-formed boxes it has one if and only if some chosen fail has a box, at most 32 pieces
  are cut out and the image is within its bounds (`MaskRequest.FeasibleIff`); the planner caps the pieces nowhere. Each
  passed box around one failed box makes four, so nine are too many (`MaskRequest.SurroundedFailIsFeasibleIff`,
  `MaskRequest.NinePassedBoxesAreTooMany`), and the round ends FAILED. Nothing orders a critic's coordinates either: a failure
  with an inverted or empty box passes the gates, because its area is 0, and cannot be drawn
  (`MaskRequest.InvertedBoxIsConfirmedAndCannotBeDrawn`, `MaskRequest.LoneFailIsFeasibleIff`).
- A plan may have no refine request. The instruction is empty, and the request refused, if and only if no chosen or
  reasserted check has a fix tag that is not blank (`RoundPrompt.InstructionIsEmptyIff`); the check `weapons-hidden` alone is
  such a plan (`RoundPrompt.WeaponsHiddenHasNoRequest`), and the round ends FAILED.
- A critic's answer can make the critique raise, although the response parser is meant never to: an infinite coordinate
  (the valid JSON number 1e999) or an integer confidence that no float holds does so in the parser
  (`CriticResponse.OverflowingAnswerRaises`), a box whose area or centre no float holds in the gates.
  `CriticResponse.ParseCriticResponse` and `Critique.CritiqueImage` state exactly when; otherwise there is one verdict for
  each check.
- `best_pass_count` can fall when a critic confirms everything with fewer results than before, in particular with an
  empty list (`FidelityLoop.BestFallsIff`, `FidelityLoop.BestFallsOnAnEmptyCritique`); with one result per check it never does.
- Two callers of `advance` never run a round at once, but a caller that read the record before another one finished
  records the same round index again (`FidelityClaims.StaleRecordRepeatsAnIndex`) or, if its round fails, sets the row back
  (`FidelityClaims.StaleFailureFallsBehind`). The indices are sequential if and only if every recorded round was claimed
  with a current record, and exactly 0..current_round if and only if moreover no stale record was ever written and the
  row got the outcome of every recorded round.
- While nobody runs a round the loop is awaiting or terminal, if and only if no exception has escaped outside the guarded
  part, from planning to the last write (`FidelityClaims.StrandedIffSomeoneEscaped`); such an exception leaves it in a
  working status for good (`FidelityClaims.EscapedExceptionStrandsTheLoop`).
- The auto-continue path of `start_loop` claims no round, so whenever a round is awaited `advance` can run that round
  beside it (`FidelityClaims.AutoContinueIsNotExclusive`).
- A RUNNING job is without the training lock exactly between the release and its FAILED write
  (`TrainingProofs.RunningWithoutTheLockIff`), which happens exactly when resolving the command, the runner or the
  checkpoint scan raised (`TrainingProofs.OnlyARaiseOutlivesTheLock`).
- `register` checks neither the tier nor the name of a record; the budgets, the log and the exclusion of training survive
  it under exact conditions (`AcquireProofs.RegisterKeepsBudgetsIff`, `AcquireProofs.ReplacingKeepsTheLogIff`,
  `TrainingProofs.RegisteringDuringTrainingIff`).
- After a regression the next round plans from the best round itself if and only if no later round reported the same asset
  (`FidelityLoop.RecoveryPlansFromTheBestRoundIff`). The default refiner always returns a new asset; only an injected one
  can repeat it (`FidelityLoop.RepeatedAssetReplacesTheSource`).
- A new negative tag with commas does not survive as one tag but as its parts (`PromptLineage.MergeNegative`).
- Fill bytes, which the JPEG standard allows before any marker, are taken for a long segment. With less than 48 KiB left the
  frame header is found if and only if no fill byte stands before any marker (`ImageHeader.FrameSizeIsReadIffNoFillByte`).

## Model

| member | source | states |
|---|---|---|
| Placement.Find | core/scheduler/vram.py:224-226 | the looked-up record is the first with that name; absent exactly when no record has it |
| Vram.ModelScheduler.constructor | core/scheduler/vram.py:125-143 | a new scheduler is the empty placement: no models, no log, no lock holder |
| Vram.ModelScheduler.SetState | core/scheduler/vram.py:250-263 | one record changes tier and one event is logged, or nothing happens when the tier is the same |
| Vram.ModelScheduler.Demote | core/scheduler/vram.py:314-332 | the object's whole new state is the placement's demotion; an error exactly for an unknown name |
| Vram.ModelScheduler.Evict | core/scheduler/vram.py:334-342 | the object's whole new state is the placement's eviction; a known model ends Cold |
| Vram.ModelScheduler.Tick | core/scheduler/vram.py:344-360 | the loop's whole effect is the placement's tick, idleness measured at the given time and events stamped with the clock, and the returned events are exactly those added to the log |
| Vram.ModelScheduler.TickModel | core/scheduler/vram.py:354-359 | one iteration: an overdue Active model is demoted, an overdue Warm one evicted, others stay |
| Vram.ModelScheduler.DemoteUntilFits | core/scheduler/vram.py:302-312 | demotes candidates in order only while needed, and reports exactly whether the missing megabytes now fit |
| Vram.ModelScheduler.FreeVramFor | core/scheduler/vram.py:293-312 | candidates are the other Active models in order of last use; the whole effect is that of the placement |
| Vram.ModelScheduler.Acquire | core/scheduler/vram.py:265-291 | the object's new state and its result are the placement's acquire, error cases included |
| Vram.ModelScheduler.Register | core/scheduler/vram.py:214-222 | oversized models are refused without effect; a known name is replaced in its place, a new one added at the end |
| Vram.ModelScheduler.TryBeginTraining | core/scheduler/vram.py:182-212 | an empty holder is an error; otherwise the lock is taken exactly when no model is Active, and else the Active names are returned and nothing changes |
| Vram.ModelScheduler.EndTraining | core/scheduler/vram.py:172-175 | the lock is free afterwards and nothing else changed |
| SchedulerRuns.Perform | core/scheduler/vram.py:155-360 | every operation of a run is one call of the object, with exactly the operation's effect |
| SchedulerRuns.PerformAll | core/scheduler/vram.py:155-360 | after any calls in any order on a new scheduler both budgets hold and the log leads from unloaded models to the current placement, if names are registered once and unloaded |
| PlacementProofs.DemotionPrefersWarm | core/scheduler/vram.py:314-332 | a demoted model stays in RAM exactly when the Warm tier exists and the RAM budget still holds with it |
| PlacementProofs.DemoteMovesDown | core/scheduler/vram.py:314-332 | demoting moves at most that one model, only downwards, with a log event that tells of it |
| PlacementProofs.EvictMovesDown | core/scheduler/vram.py:334-342 | evicting moves at most that one model, to Cold, with a log event that tells of it |
| PlacementProofs.MovedDownKeepsInv | core/scheduler/vram.py:314-342 | any such downward move keeps both budgets and the log's meaning |
| PlacementProofs.TickEffect | core/scheduler/vram.py:344-360 | after one tick no overdue Active model is left, and models that were not Active are settled |
| PlacementProofs.ThirdTickIsSilent | core/scheduler/vram.py:344-360 | after two ticks at one instant a third adds no event and changes nothing, whatever the clock reads |
| EventProofs.DemotionIsLogged | core/scheduler/vram.py:314-332 | a demotion adds one event with the caller's reason, and for a model sent to Cold whether the Warm tier was off or RAM was short |
| EventProofs.EvictionIsLogged | core/scheduler/vram.py:334-342 | eviction ends Cold with one event that says whether the Warm tier was skipped; a Cold model logs nothing |
| EventProofs.TickOneIsLogged | core/scheduler/vram.py:353-359 | a model that is not overdue is left alone; an overdue one changes tier with one event of the right reason and time |
| EventProofs.TickIsLogged | core/scheduler/vram.py:344-360 | a tick logs one event for each overdue model and no other, in dictionary order, each with the clock's reading at that model |
| EventProofs.AcquireIsLogged | core/scheduler/vram.py:265-312 | the log gains the demotion of every evicted model in order of last use and then the restore, from Warm or from Cold as the model stood, none for an Active model |
| EventProofs.CandidateTiesKeepTheirOrder | core/scheduler/vram.py:297-301 | candidates used at the same time stay in order of registration |
| EventProofs.RegisterEffect | core/scheduler/vram.py:214-222 | refused exactly over the budget; else only the record at the name's place, or at the end, changes |
| EventProofs.TrainingBeginsIff | core/scheduler/vram.py:182-212 | the lock is taken exactly by a named holder while no model is Active; else nothing changes |
| AcquireProofs.LruOthersAre | core/scheduler/vram.py:297-301 | the candidates are the other Active models, each once, least recently used first |
| AcquireProofs.NeededIsLeast | core/scheduler/vram.py:302-312 | the number of demoted candidates is the least that frees the excess |
| AcquireProofs.FreeVramEffect | core/scheduler/vram.py:293-312 | freeing room demotes exactly that prefix, then the incoming model fits, and its own record is untouched |
| AcquireProofs.AcquireAlwaysSucceeds | core/scheduler/vram.py:265-291 | under the invariant, acquiring a registered model without a training lock always ends Active; the cannot-fit error after eviction is unreachable |
| AcquireProofs.EvictedIsTheShortestLruPrefix | core/scheduler/vram.py:293-312 | the demoted models are the shortest least-recently-used prefix whose removal lets the model fit; none when it was Active already |
| AcquireProofs.AcquireMovesExactlyTheEvicted | core/scheduler/vram.py:265-312 | the acquired model is Active and just used, exactly the evicted models left the Active tier, every other record is unchanged |
| AcquireProofs.AcquireKeepsInv | core/scheduler/vram.py:265-312 | acquire keeps both budgets and the log's meaning, whatever it returns |
| AcquireProofs.RegisterKeepsBudgetsIff | core/scheduler/vram.py:214-222 | registering keeps the budgets if and only if the tier that the new record claims has room for it |
| AcquireProofs.ReplacingKeepsTheLogIff | core/scheduler/vram.py:214-222 | replacing a name keeps the log replayable if and only if the new record has the old tier |
| AcquireProofs.StepKeepsEverything | core/scheduler/vram.py:155-360 | each operation keeps both budgets, and replaying the log from the registered tiers still gives every model's tier |
| AcquireProofs.EveryReachableStateIsSound | core/scheduler/vram.py:155-360 | in every reachable state both budgets hold, and the log is legal (each event from where replay stands, to another tier, never Cold to Warm) and explains every current tier |
| TrainingExecutor.TrainingExecutor.Enqueue | core/training/executor.py:356-374 | a stored job becomes QUEUED, nothing else stored changes, and the job goes to the end of the queue, as two protocol steps |
| TrainingExecutor.TrainingExecutor.CancelJob | core/training/executor.py:376-397 | only a QUEUED job becomes FAILED; otherwise nothing stored changes |
| TrainingExecutor.TrainingExecutor.RunLocked | core/training/executor.py:489-555 | on every path, each exception included, the guarded part takes only worker steps of the protocol from the state before, changes no other job, and the job succeeds exactly if it was still QUEUED, its command resolved and its runner reported success |
| TrainingExecutor.TrainingExecutor.RunAndRelease | core/training/executor.py:489-559 | the guarded part and its finally block: the lock is released on every path |
| TrainingExecutor.TrainingExecutor.RunJob | core/training/executor.py:464-559 | the worker's steps from taking the lock to giving it back; the job succeeds exactly if moreover its id is not empty and no model was Active |
| TrainingExecutor.TrainingExecutor.ProcessItem | core/training/executor.py:447-462 | the worker is idle again after its own steps only, no other job has changed, and the job is COMPLETED exactly if it succeeded and FAILED otherwise, after an exception too |
| TrainingExecutor.TrainingExecutor.RunUntilIdle | core/training/executor.py:432-445 | the queue is emptied by worker steps only; no job is lost or added; each queued job ends COMPLETED exactly if it was QUEUED, no model was Active and its runner reported success, else FAILED; every other job and the scheduler are unchanged |
| TrainingExecutor.EnqueueAndRun | core/training/executor.py:356-445 | a stored job enqueued on an idle executor while no model is Active ends COMPLETED exactly if its command resolves and its runner reports success, else FAILED; every other job keeps its status |
| TrainingProofs.LockedSchedulerActivatesNothing | core/scheduler/vram.py:275-280 | while the training lock is held no operation of another caller makes a model Active or moves the lock |
| TrainingProofs.StepKeepsInv | core/training/executor.py:356-559 | every step of any caller or of the worker keeps the invariant of lock, queue, order and every job's status |
| TrainingProofs.Reachable | core/training/executor.py:356-559 | the invariant holds in every state that any interleaving reaches |
| TrainingProofs.TrainingIsExclusive | core/training/executor.py:474-559 | in every interleaving, while a job is inside the runner no model is Active and the lock is held by that job |
| TrainingProofs.AnEmptyQueueMeansEveryJobIsSettled | core/training/executor.py:432-559 | with an empty queue and an idle worker every stored enqueued job is COMPLETED exactly if its runner succeeded and FAILED otherwise, jobs ran in enqueue order, begins equal ends, and a job cancelled while QUEUED was never given to the runner |
| TrainingProofs.AtMostOneJobRuns | core/training/executor.py:464-559 | a RUNNING job is always the one the worker holds |
| TrainingProofs.WorkerEmptiesTheQueue | core/training/executor.py:432-445 | from every state, whatever the injected parts choose, the worker alone reaches an empty queue in finitely many steps |
| TrainingProofs.EnqueuedJobCompletes | core/training/executor.py:356-559 | as protocol steps: a stored job enqueued with nothing else queued reaches the runner, which succeeds, and is COMPLETED with the lock released |
| TrainingProofs.RegisteringDuringTrainingIff | core/scheduler/vram.py:214-222 | registering during a job keeps the exclusion if and only if the new record is not Active |
| TrainingProofs.RunningWithoutTheLockIff | core/training/executor.py:447-559 | a stored job is RUNNING without holding the lock if and only if the lock was just released after an exception and FAILED is not yet written |
| TrainingProofs.OnlyARaiseOutlivesTheLock | core/training/executor.py:489-559 | the worker comes to release the lock of a RUNNING job if and only if the command, the runner or the checkpoint scan raised; the next two steps free the lock and then write FAILED |
| FidelityLoop.BestFallsIff | core/consultant/fidelity_loop.py:549-597 | the recorded best falls if and only if everything is confirmed with fewer passes than the best so far; the whole table of statuses, targets and best values in every other case |
| FidelityLoop.BestIndexIsTheLastMaximum | core/consultant/fidelity_loop.py:556-597 | the index that the bookkeeping tracks is the last round with the most passes |
| FidelityLoop.PlanAlwaysExists | core/consultant/fidelity_service.py:323-337 | an awaiting loop always has a confirmed fail to plan from, so the branch without a plan is unreachable |
| FidelityLoop.AwaitingTargetsTheLastRound | core/consultant/fidelity_service.py:309-311 | while the user is awaited the next round targets the last round's asset and plans from that round |
| FidelityLoop.NextTargetTargets | core/consultant/fidelity_service.py:303-322 | for any recorded rounds: the newest round and its asset, or after a regression the best asset and the newest round of it |
| FidelityLoop.RefineRoundIsRefined | core/consultant/fidelity_service.py:312-384 | the exact effect of one round for every reply: nothing, a final status, a failure with its message, or one more round with its outcome |
| FidelityLoop.BaselineEffect | core/consultant/fidelity_service.py:256-295 | a failure with its message, or round 0 of the root asset with its outcome, against which nothing regresses |
| FidelityLoop.RecoveryPlansFromTheBestRoundIff | core/consultant/fidelity_service.py:303-322 | after a regression the target is the best asset, and the plan comes from the best round's results if and only if no later round has the same asset |
| FidelityLoop.RepeatedAssetReplacesTheSource | core/consultant/fidelity_service.py:303-308 | a concrete run in which the refiner repeats the best asset and the plan comes from the later round |
| FidelityLoop.LastForAssetIsARound | core/consultant/fidelity_service.py:404-409 | the search returns the last round of that asset, and nothing exactly when there is none |
| FidelityLoop.BaselineEstablishesInv | core/consultant/fidelity_service.py:256-295 | a baseline critique with any results establishes the loop invariant |
| FidelityLoop.RefineKeepsInv | core/consultant/fidelity_service.py:297-384 | each round keeps the invariant, never lowers the best count, and adds exactly one round exactly when the critic answered |
| FidelityLoop.EveryRunIsSound | core/consultant/fidelity_service.py:256-403 | over every run the best count is the maximum of all rounds, the best asset is that of the last round attaining it, and an awaiting loop is below its cap with a confirmed fail in every round |
| FidelityLoop.AwaitingIsBelowTheCap | core/consultant/fidelity_loop.py:549-597 | an awaiting status means rounds are left; every other status under the invariant is terminal |
| FidelityLoop.BestFallsOnAnEmptyCritique | core/consultant/fidelity_loop.py:549-555 | a concrete run whose best count drops from 1 to 0 and passes |
| FidelityService.FidelityStore.ClaimRound | core/consultant/fidelity_store.py:200-225 | a claim succeeds exactly for an allowed status and then changes only the status |
| FidelityService.FidelityStore.Latest | core/consultant/fidelity_store.py:299-305 | a recorded round whose index no other round exceeds; none exactly for an empty table |
| FidelityLoop.LatestRoundIsNewest | core/consultant/fidelity_store.py:299-305 | the last of the rounds listed by index is a recorded round of the largest index |
| FidelityService.ApplyOutcome | core/consultant/fidelity_service.py:396-402 | record and row take over status, round and best values together |
| FidelityService.RecordCritique | core/consultant/fidelity_service.py:362-384 | one round is appended and record and row follow the decided outcome |
| FidelityService.RunBaselineCritique | core/consultant/fidelity_service.py:256-295 | record, row and rounds end as the baseline step says, failures included |
| FidelityService.RunRefineRound | core/consultant/fidelity_service.py:297-384 | record and rounds end as the refine step says and the row follows except after an unreadable image; target and source are returned and are those of the awaiting status, and the round is the refined one of that source |
| FidelityService.FindTarget | core/consultant/fidelity_service.py:303-322 | the newest round and its asset, or after a regression the best asset and the newest round of it |
| FidelityService.RunAutoContinue | core/consultant/fidelity_service.py:386-394 | record and rounds end as the run on the replies used, and the row follows the record; the guard never ends the loop: it stops in a terminal status other than FAILED unless a round raised, after at most max_rounds rounds |
| FidelityClaims.AdvanceIsExclusive | core/consultant/fidelity_service.py:182-207 | in every interleaving of advance callers at most one is between its claim and its final write |
| FidelityClaims.AdvanceAloneIsARefineRound | core/consultant/fidelity_service.py:182-207 | a caller that nobody interferes with turns row and rounds into exactly those of the sequential refine round |
| FidelityClaims.IndicesAreSequentialIffRecordsWereCurrent | core/consultant/fidelity_service.py:182-207 | recorded indices are exactly 0, 1, 2, ... if and only if every recorded round was claimed with a current record; while nobody runs a round they are exactly 0..current_round if and only if no stale record was ever written and the row got the outcome of every recorded round |
| FidelityClaims.RestIsPermanent | core/consultant/fidelity_store.py:200-225 | a loop that is not awaiting and that nobody runs never changes again |
| FidelityClaims.EscapedExceptionStrandsTheLoop | core/consultant/fidelity_service.py:193-207 | an exception after the claim and outside the guarded part, up to the last write, leaves a non-terminal status that no caller can leave |
| FidelityClaims.StrandedIffSomeoneEscaped | core/consultant/fidelity_service.py:182-207 | in every interleaving of advance callers, failing writes included, a loop that nobody runs is neither awaiting nor terminal if and only if some exception escaped |
| FidelityClaims.StaleRecordRepeatsAnIndex | core/consultant/fidelity_service.py:182-193 | a concrete interleaving of two callers that records index 1 twice |
| FidelityClaims.StaleFailureFallsBehind | core/consultant/fidelity_service.py:182-193 | a concrete interleaving in which a stale caller's failure sets current_round back behind the last round |
| FidelityClaims.AutoContinueIsNotExclusive | core/consultant/fidelity_service.py:126-164 | in every awaiting state, for any two idle callers, some continuation has auto-continue and advance run a round at once |
| CheckResults.VerdictsPartition | core/consultant/fidelity_loop.py:153-176 | with synced results the three verdict counts partition the list and the passed count is the pass count |
| CheckResults.FailsOneMore | core/consultant/fidelity_loop.py:196 | the fails are the failed results in their order |
| RepairGeometry.OverlapIsASharedPixel | core/consultant/fidelity_loop.py:73-81 | two boxes overlap if and only if some pixel lies in both |
| RepairGeometry.ClipCoversTheDifference | core/consultant/fidelity_loop.py:108-132 | the strips of one clip cover exactly the pixels of the box outside the excluded one |
| RepairGeometry.ClipAllCoversTheDifference | core/consultant/fidelity_loop.py:108-132 | repeated clipping covers exactly the pixels outside every excluded box |
| RepairGeometry.ClipAllKeepsPiecesDisjoint | core/consultant/fidelity_loop.py:108-132 | repeated clipping leaves non-empty pieces no two of which share a pixel |
| RepairGeometry.ClipEachConservesArea | core/consultant/fidelity_loop.py:108-132 | each clipping pass loses exactly the area shared with the excluded box |
| RepairGeometry.AreaCountsPixels | core/consultant/fidelity_loop.py:89-91 | the area of a box is the number of its pixels |
| RepairGeometry.IouIsTheShareOfPixels | core/consultant/fidelity_loop.py:94-105 | the ratio is that of the shared pixels to all pixels of both boxes, 0 when they share none |
| RepairGeometry.DilateIsTheNeighbourhood | core/consultant/fidelity_loop.py:84-86 | a dilated box holds exactly the pixels at most that far from the box |
| StableSort.SortIsSorted | core/consultant/fidelity_loop.py:196-197 | the sort is ordered by its key |
| StableSort.SortIsStable | core/consultant/fidelity_loop.py:196-197 | items of equal key keep their order |
| StableSort.SortIsAPermutation | core/consultant/fidelity_loop.py:196-197 | the sorted list has the same items |
| RepairPlanner.SelectTopKFailed | core/consultant/fidelity_loop.py:184-210 | the loop computes the greedy choice over the fails in descending confidence |
| RepairPlanner.SelectionIsGreedyMaximal | core/consultant/fidelity_loop.py:184-210 | chosen checks are confirmed fails, at most k, pairwise apart; a fail is left out only for an overlapping chosen fail of at least its confidence, or because k fails of at least its confidence are chosen |
| RepairPlanner.TiesKeepTheirOrder | core/consultant/fidelity_loop.py:196-197 | candidates come by falling confidence, those of one confidence in the order of the results |
| RepairPlanner.ClipAgainst | core/consultant/fidelity_loop.py:259-289 | the loop over excluded boxes is repeated clipping, to which the geometry theorems apply |
| RepairPlanner.CarvePassed | core/consultant/fidelity_loop.py:249-289 | the loop with its seen set computes the subtracted boxes and the reasserted checks |
| RepairPlanner.ReassertedOneMore | core/consultant/fidelity_loop.py:249-289 | a passed result is reasserted exactly if its box touches a dilated chosen box and no earlier passed result has the same box, be it the same region or not |
| RepairPlanner.BuildMaskRegions | core/consultant/fidelity_loop.py:213-289 | one region per chosen box and one sharp region per subtracted piece |
| RepairPlanner.SubtractedPixels | core/consultant/fidelity_loop.py:249-289 | a pixel is subtracted if and only if some passed box holds it that touches a dilated chosen box and is a different region from every such box, and no chosen box holds it |
| RepairPlanner.PiecesOfAreDisjoint | core/consultant/fidelity_loop.py:259-289 | the pieces of one passed box are non-empty and share no pixel |
| RepairPlanner.PlanRound | core/consultant/fidelity_loop.py:425-433 | no plan exactly when no confirmed fail remains; else the greedy choice with its regions, cut-outs and reasserted checks, for any quota, dilation, feather and threshold |
| RoundPrompt.PlanWords | core/consultant/fidelity_loop.py:434-439 | tags, instruction and excluded tags collected from the chosen and then the reasserted checks; the whole image is redrawn exactly if the chosen boxes' total area exceeds its share |
| RoundPrompt.CollectedTags | core/consultant/fidelity_loop.py:297-333 | at most cap tags of different keys, all from the checks, in their order and as many as fit; no chosen check's key is lost unless those alone exceed the cap, and none at all when all fit |
| RoundPrompt.OneMoreCheck | core/consultant/fidelity_loop.py:297-333 | each check of the checklist adds its tags behind those before it |
| RoundPrompt.SelectStrategyForRound | core/consultant/fidelity_loop.py:336-358 | redraws exactly if the total area of the chosen boxes exceeds the threshold share of a non-empty image |
| RoundPrompt.BuildRefineRequest | core/consultant/fidelity_loop.py:371-397 | refused exactly for an empty instruction; else the negative prompt is set exactly if the round excludes something, and then reads as the inherited and the new tags, each key once |
| RoundPrompt.InstructionIsEmptyIff | core/models/schemas.py:581 | the instruction is empty if and only if no chosen or reasserted check has a fix tag that is not blank |
| RoundPrompt.NothingCollectedIff | core/consultant/fidelity_loop.py:297-333 | nothing is collected if and only if no chosen or reasserted check has such a tag that is not blank |
| RoundPrompt.TagsComeFromTheChecks | core/consultant/fidelity_loop.py:297-333 | every added tag is a trimmed fix tag, every excluded one a trimmed negative tag, of a chosen or reasserted check |
| RoundPrompt.WeaponsHiddenHasNoRequest | core/consultant/fidelity.py:640-655 | a plan that chooses only this check excludes tags and has no request |
| RoundPrompt.PlanRequest | core/consultant/fidelity_service.py:314-350 | no plan exactly without a confirmed fail; a plan without a request exactly if nothing chosen or reasserted has a fix tag to add; else the instruction, a negative prompt exactly if some check excludes something and then with the parent's, and a redraw exactly if the chosen boxes cover more than the share |
| RoundPrompt.RoundAddsItsTags | core/consultant/fidelity_loop.py:371-397 | an appended round keeps every tag of the parent and adds exactly its collected tags, up to their keys, when these hold no commas |
| RepairMask.UnionValue | core/editor/mask.py:151-160 | every union value lies in [0, 1] |
| RepairMask.MaskValue | core/editor/mask.py:151-171 | every mask value lies in [0, 1] |
| RepairMask.UnionIsTheMaximum | core/editor/mask.py:184-240 | merging yields the least upper bound of the regions' values at every pixel |
| RepairMask.UnionIgnoresOrder | core/editor/mask.py:151-160 | the mask depends only on which regions occur |
| RepairMask.AccumulateRegion | core/editor/mask.py:184-240 | the in-place pixel loops merge the closed-form value of one region into every pixel and report clamping exactly |
| RepairMask.RasterizeUnion | core/editor/mask.py:151-160 | after all regions every buffer cell is the pointwise maximum; an error exactly for a malformed box |
| RepairMask.CarveOut | core/editor/mask.py:156-161 | each cell is multiplied by one minus the subtract value |
| RepairMask.LevelIsNearest | core/editor/mask.py:163-169 | the byte of a value is the integer nearest to 255 times it, ties to even; 0 exactly up to 1/510, 255 at 1.0 |
| RepairMask.NearestIsUnique | core/editor/mask.py:163-169 | only one byte is nearest in this sense |
| RepairMask.RegionValueByDistance | core/editor/mask.py:202-239 | the value of a region at each pixel in terms of its distance from the painted edge |
| RepairMask.RegionFadesWithDistance | core/editor/mask.py:202-239 | around a box inside the picture the paint is full up to a distance and then falls evenly to nothing |
| RepairMask.PaintsOnlyTheDilatedBoxIff | core/editor/mask.py:204-225 | paint stays within the dilated box if and only if the box reaches into the picture or is no further outside than the dilation |
| RepairMask.ClampingIff | core/editor/mask.py:196-225 | clamping is reported exactly if the box or its neighbourhood leaves the picture |
| RepairMask.CoverageExtremes | core/editor/mask.py:163-181 | coverage is 1.0 exactly if every pixel is repainted in full, 0.0 exactly if none is repainted |
| RepairMask.BuildMask | core/editor/mask.py:133-181 | succeeds exactly for well-formed requests within the pixel cap; then every pixel is three equal bytes, the integer nearest to 255 times the closed form with ties to even, and coverage is its mean over all pixels, within [0, 1] |
| RepairMask.BuildMaskPng | core/editor/mask.py:133-181 | the file of a request decodes, for every sound codec, to an image of the requested size whose every pixel is the nearest bytes of the closed form |
| RepairMask.RawBoxIsFullyPainted | core/editor/mask.py:202-239 | with feather <= dilate + 1 a region is 1.0 on its whole raw box |
| RepairMask.FeatherConditionIsExact | core/editor/mask.py:202-239 | in the mask of any planned round a visible chosen box is 1.0 everywhere if and only if feather <= dilate + 1 |
| RepairMask.WideFeatherIsGrey | core/editor/mask.py:202-239 | with a wider feather the first visible pixel of a box apart from the others is below 1.0, whatever is subtracted |
| RepairMask.ChosenAreaIsNeverHollowedOut | core/consultant/fidelity_loop.py:249-289 | every in-image pixel of every chosen fail's raw box has value 1.0, whatever passed boxes overlap it |
| RepairMask.MaskClosedForm | core/editor/mask.py:151-171 | elsewhere the mask is the union, cut to 0.0 exactly on the separate passed details |
| MaskRequest.BuildRepairMask | core/consultant/fidelity_service.py:542-559 | a mask is made if and only if the request is within its bounds, the picture within its own and no box is empty; then every byte is the nearest one to its closed form, with feather <= dilate + 1 every in-image pixel of every chosen box is 255, and every pixel outside the dilated chosen boxes or on a carved detail is 0 |
| MaskRequest.FeasibleIff | core/models/schemas.py:438-439 | with well-formed critic boxes all boxes of the request are well formed, so a mask is made exactly if some chosen fail has a box and the counts and the size are within bounds |
| MaskRequest.SurroundedFailIsFeasibleIff | core/consultant/fidelity_loop.py:259-289 | one fail with n different passed boxes around it makes 4 * n pieces, a feasible request if and only if n <= 8 |
| MaskRequest.NinePassedBoxesAreTooMany | core/models/schemas.py:438-439 | concrete results with a plan and no mask |
| MaskRequest.LoneFailIsFeasibleIff | core/editor/mask.py:184-200 | a lone confirmed fail has a mask if and only if its box is well formed |
| MaskRequest.InvertedBoxIsConfirmedAndCannotBeDrawn | core/llm/critic_support.py:112-119 | an answer with any inverted or empty box in the right region is confirmed by all gates and has no mask |
| ImageHeader.WritePngRgb | core/editor/mask.py:248-271 | the encoder's loop and chunks yield the specified file, none when a number exceeds its four bytes |
| ImageHeader.PngRoundTrip | core/editor/mask.py:248-271 | a reference decoder recovers size and every pixel, for every sound deflate codec and checksum |
| ImageHeader.PngStartsWithTheHeader | core/editor/mask.py:248-271 | the first 29 bytes of an encoded file: signature, header chunk, size and the settings of an 8-bit RGB image |
| ImageHeader.ProbeReadsEncodedSize | core/editor/mask.py:81-101 | the size probe reads the size of every file the encoder writes |
| ImageHeader.ReadJpegSize | core/editor/mask.py:104-125 | the marker scan terminates on every input, short segment lengths included, and computes the specified scan |
| ImageHeader.JpegSizeIsTheFrameSize | core/editor/mask.py:104-125 | behind any legal items the scan returns the frame header's size and never mistakes payload bytes for it |
| ImageHeader.FrameSizeIsReadIffNoFillByte | core/editor/mask.py:104-125 | behind any items without fill bytes, and with less than 48 KiB left from there on, the size is read if and only if no fill byte stands before any further marker or the frame header |
| CriticResponse.ParseCriticResponse | core/llm/critic_support.py:51-119 | raises if and only if the decoder did, or some asked check has an entry with a boolean verdict and a number that overflows; else the loop yields, check by check, the parsed entry or the default pass |
| CriticResponse.ParsedIsOneAnswerPerCheck | core/llm/critic_support.py:51-110 | when parsing does not raise: one synced pass or fail per check in order, confidence within [0, 1], and the same verdict wherever an id repeats |
| CriticResponse.AnswerHolds | core/llm/critic_support.py:89-119 | an answer holds the critic's verdict, note and box and its confidence cut to [0, 1], 0.5 if it is no number; without a usable entry it is a pass without box or confidence |
| CriticResponse.BoxIsReadIff | core/llm/critic_support.py:112-119 | a box is read exactly from a list of four whole numbers, in the order x0, y0, x1, y1 |
| CriticResponse.BoxRaisesIff | core/llm/critic_support.py:112-119 | a box raises exactly if only whole numbers stand before an infinite one in a list of four |
| CriticResponse.OverflowingAnswerRaises | core/llm/critic_support.py:101-119 | an answer with an infinite coordinate or a huge integer confidence raises |
| Critique.CritiqueImage | core/llm/vision.py:91-129 | raises if and only if parsing a response does or a box of pass A overflows in the gates; else one verdict per check in order, each decided by both passes and, for exactly the checks in doubt, by the second critic's answer to these checks |
| Critique.SentAreAsked | core/llm/vision.py:360-370 | the second critic is sent exactly the checks in doubt, in order |
| Critique.OpinionIsTheAnswer | core/llm/vision.py:369-443 | the opinion on an asked check is the answer for its id in the second critic's response to the asked checks, none offline or without a response |
| Critique.ApplyGates | core/llm/vision.py:123-128 | the gated list, unless the area of a box or the centre of a small failed one is too large for a float |
| Critique.ParsedVerdictsAreDecided | core/llm/vision.py:91-129 | for any two responses that parse: a check fails exactly if both passes failed with a small box in the right region or the second critic was asked and failed it, and passes exactly if confirmed; the second critic's response to all checks in doubt is what decides; no assumption on ids |
| CriticGates.ApplyTwoPassGate | core/llm/vision.py:165-199 | the merged list is, position by position, pass A's result or its two-pass downgrade |
| CriticGates.LocalGatesDecide | core/llm/vision.py:223-330 | after the local gates a result fails exactly when pass A failed and pass B did not pass, with a small box in the right region, and passes exactly when a confident small box supports it |
| CriticGates.LocalizedIff | core/llm/vision.py:202-207 | a box is small exactly if ten times its area is at most six times that of the image; none is too large for an image without pixels |
| CriticGates.RegionBands | core/llm/vision.py:68-79 | the centre lies in the region's band, in hundredths of the height, for each region |
| CriticGates.SentAreTheChecksInNeed | core/llm/vision.py:360-370 | the checks sent are exactly those of the results in doubt or of passed fine details, in order |
| CriticGates.GatedIsPointwise | core/llm/vision.py:121-128 | gating keeps ids and order of the results that belong to a check |
| CriticGates.SecondOpinionDecides | core/llm/vision.py:333-426 | targeted results pass or fail exactly as the second critic's answer to the sent checks says and are unverified without one; the others are unchanged |
| CriticGates.EveryVerdictIsDecided | core/llm/vision.py:91-129 | through all five gates: ids and order kept, passed synced with the verdict, and an exact table for every final pass and fail in terms of the raw answers |
| CriticGates.TargetedIff | core/llm/vision.py:356-367 | an id goes to the second critic exactly when some result of that id is in doubt or a passed fine detail |
| CriticGates.FineDetailPassWasConfirmed | core/llm/vision.py:333-426 | with the gate on, a passed fine detail was passed by the second critic |
| CriticGates.LocalFailStands | core/llm/vision.py:333-386 | with one answer per id, which the parser guarantees, a confirmed local failure stays a failure |
| CriticGates.LocalFailIsOverturnedIff | core/llm/vision.py:367-386 | the gate alone, on any lists: a confirmed local failure passes in the end if and only if another result repeats its id in doubt and the second critic passes it |
| CrossProject.DetectCycles | core/project/cross_project.py:706-756 | terminates on every graph and lists the specified cycles in the order of the references |
| CrossProject.CyclesAreExactlyTheLassos | core/project/cross_project.py:706-756 | the result is, as a set, exactly the walks from the start whose projects are distinct except that the last repeats an earlier one |
| CrossProject.EachLassoIsReportedOnce | core/project/cross_project.py:706-756 | if no project lists a reference twice, every such walk is reported exactly once |
| CrossProject.SomeCycleIff | core/project/cross_project.py:706-756 | a cycle is reported if and only if some walk without self-references returns to a project |
| VersionTree.HasCycle | core/generation/service.py:457-469 | the walk terminates and answers exactly whether the chain comes back to an id it has passed |
| VersionTree.EndsIffNoCycle | core/generation/service.py:457-469 | an ancestor chain ends if and only if it reaches no cycle |
| VersionTree.BuildVersionTree | core/generation/service.py:472-518 | the emitted nodes, their order by creation time, the cycle flag and the cap flag, on all assets |
| VersionTree.NodeShowsItsAsset | core/generation/service.py:482-501 | a node has its asset's id and time, is orphaned exactly if no asset is its parent, and lacks its parent exactly if the parent's chain never ends; no assumption on ids |
| VersionTree.LookupIsTheLast | core/generation/service.py:455-469 | among assets with one id the last counts |
| VersionTree.ParentKeptExactlyOnEndingChains | core/generation/service.py:482-490 | a node keeps its parent exactly where its chain ends and loses it exactly where the chain reaches a cycle |
| VersionTree.EmittedRelationIsWellFounded | core/generation/service.py:482-490 | along every emitted parent link the height falls, so the emitted relation is well-founded |
| VersionTree.CycleReportedIff | core/generation/service.py:482-490 | the flag is set if and only if some emitted asset's chain reaches a cycle |
| LruCache.SnapshotCache.BoundedSet | core/project/atomic_io.py:108-116 | the key becomes the newest entry and the cache never exceeds its bound |
| LruCache.SnapshotCache.Hit | core/project/atomic_io.py:223-227 | a hit returns the cached value and renews the key; a miss changes nothing |
| LruCache.TouchedAgain | core/project/atomic_io.py:108-116 | one touch maps the kept suffix of the recency order to the kept suffix of the new order |
| LruCache.EvictedExactlyAfterTheBound | core/project/atomic_io.py:101-116 | a key stays if and only if fewer other distinct keys than the bound were touched since its last touch |
| AtomicIo.StepKeepsInv | core/project/atomic_io.py:119-242 | every step of a writer, a failing writer or a reader keeps each file whole and every pending, cached or returned value accounted for |
| AtomicIo.ReadsReturnWholeContents | core/project/atomic_io.py:189-242 | under every interleaving a value read from the file was its whole content at some moment since the read began, and a cached one was returned before from the same file; so each was the initial content or a completed replacement |
| AtomicIo.ReadSpansItsContents | core/project/atomic_io.py:189-242 | the contents a read spans are exactly the one at its start and every replacement of its path since |
| AtomicIo.OnlyReplaceChangesAFile | core/project/atomic_io.py:119-165 | only a completed replacement changes a file, to its writer's whole text; a failed write leaves the old content |
| AtomicIo.WriteReplacesTheFile | core/project/atomic_io.py:119-165 | in every reachable state an undisturbed write can be completed and leaves the file with the whole text, no temporary file and the other files as they were |
| AtomicIo.AbandonedWriteLeavesNoTrace | core/project/atomic_io.py:119-165 | a write given up at any point leaves every file as it was |
| AtomicIo.HealthyReadReturns | core/project/atomic_io.py:189-242 | a file that is there and parses is read at the first attempt: its value is returned and cached |
| AtomicIo.AttemptFailsIff | core/project/atomic_io.py:215-242 | an attempt fails if and only if the system refused it, the file was absent or its text did not parse; the first failure leads to a second attempt, the second to the cache |
| AtomicIo.ReadEndsWithoutAValueIff | core/project/atomic_io.py:215-234 | in every interleaving a read ends without a value if and only if two of its attempts failed and its path is not cached; if it is, the cached value is returned |
| AtomicIo.NobodyIsStuck | core/project/atomic_io.py:119-242 | a reader can always go on, and a write can always be completed or given up |
| TagText.TagsOfJoin | core/generation/refine.py:219-225 | splitting undoes joining on trimmed, comma-free, non-empty tags |
| TagText.TagsOfJoined | core/generation/refine.py:244-245 | the tags of two prompts joined by a comma and a blank are the tags of both |
| TagText.JoinOfBoth | core/generation/refine.py:219-225 | joined lists are joined by a comma and a blank |
| TagText.StripIsTheCore | core/generation/refine.py:219-225 | trimming takes all white space off both ends and nothing else |
| PromptLineage.DedupeCommaTags | core/generation/refine.py:202-225 | the loop keeps the first tag of each key, in order |
| PromptLineage.FirstSeenIsDistinct | core/generation/refine.py:219-225 | no two kept tags share a key |
| PromptLineage.FirstSeenOneMore | core/generation/refine.py:219-225 | a tag is kept exactly if no earlier one has its key, in order |
| PromptLineage.KeysOfFirstSeen | core/generation/refine.py:219-225 | no key is lost or invented |
| PromptLineage.DedupeIsIdempotent | core/generation/refine.py:202-225 | removing duplicates from a text twice is removing them once |
| PromptLineage.ComposedText | core/generation/refine.py:228-245 | the composed text in every case: the instruction alone on replacement or without a parent, the parent alone for a blank instruction, else both tag by tag, each key once |
| PromptLineage.RoundByRoundEqualsAtOnce | core/generation/refine.py:228-245 | composing round by round and composing all rounds at once give the same tags in the same order once duplicates are removed |
| PromptLineage.RoundByRoundEqualsJoinedInstruction | core/generation/refine.py:228-245 | the normalised texts agree with one composition by the joined instructions |
| PromptLineage.EveryTagSurvives | core/generation/refine.py:228-245 | over any number of append rounds the final prompt's keys are exactly those of the first prompt and all instructions |
| PromptLineage.DedupeCasefold | core/consultant/fidelity_loop.py:135-150 | the loop keeps the first trimmed non-empty tag of each key |
| PromptLineage.MergeNegative | core/consultant/fidelity_loop.py:361-368 | the merged text reads as the inherited and then the new tags, each key once; new tags without commas all survive up to their key and none is added |

## Left out

Assumptions of the model:

- Clocks, file names and identifiers are parameters; each scheduler call reads the clock once, a tick once for each model.
- Real numbers stand for the source's floats, so rounding of ratios and feather ramps is not modelled. That a critic's number is too large for a float is.
- Runs of the scheduler register only new names and Cold models; what happens otherwise is stated by the exact lemmas above.
- The executor has one worker, only the executor takes or releases the training lock, each job id is enqueued once, and a job is submitted in one step. `begin_training`, `stop` and job-store writes that fail are left out.
- In the sequential service the loop store's writes do not fail; in the interleavings of `FidelityClaims` they may.
- Python's recursion limit, which a very long chain of project references could reach, is not modelled.
- The in-process lock for each loop around `advance` is left out; exclusion is proved from the claim alone.
- `AtomicIo` reads without a default; the throttled warnings and the retry delays are left out, the retries themselves are not.
- Which of several rounds with one index `latest_round` returns is open in the source's statement; the model takes the one recorded last.
- White space and the equality key of tags are parameters, so case folding is not computed.
- Asset ids are unique in the theorems on kept parents; the tree builder itself is specified for repeated ids too.
- Cached values are immutable; a caller that changes a returned object is outside the model.

Not modelled:

- The reason text and the id lists of a round plan, the text of a critic's prompt, and the wording of a verdict's note.
- JSON decoding: a response is invalid, makes the decoder raise otherwise, or is a map of entries by id.
- Staged prompt decomposition, `select_strategy` and the refine recipes.
- Decoding, deflating and checksums themselves: the PNG theorems hold for every sound codec.
- `_acquire_file_lock`, `copy_external_asset` and the resolution of references: file-system side effects.
- HTTP routes, event streams, SQL text, subprocesses, signals and providers.
- `AssetStore`, licence reports, network state, style guides, job unblocking by reason strings: finite or simple.
- ImageHeader.JpegSizeIsTheFrameSize: one direction; what the scan returns on bytes that are no legal sequence of items is given by the scan's specification only.
