# Verification of the execution-slot protocol and its neighbours

This project models the parts of the serverless platform whose correctness depends on many
steps taken together, and proves what they promise. `dafny verify dfyconfig.toml` checks it.

| file | what it models |
|---|---|
| `Environment.dfy`, `Lease.dfy`, `Invocation.dfy` | the records of an execution slot as objects updated in place: environment, lease, invocation, attempt |
| `SlotStore.dfy`, `InMemoryStore.dfy`, `SlotRuns.dfy`, `SlotLaws.dfy`, `SlotExamples.dfy` | the slot store: what each write does to the rows, the object behind the lock, what every run keeps, the writes stated on rows alone, and concrete runs |
| `BridgeSession.dfy`, `SessionRuns.dfy` | the host side of the guest protocol, one session reused by many attempts |
| `SlotSession.dfy` | session and store together: what a guest frame may settle |
| `Egress.dfy`, `EgressRules.dfy` | IPv4 networks as address sets, their text, and the allowlist rules |
| `Report.dfy`, `LoadPlan.dfy`, `LoadRun.dfy` | the load harness: sweep line, gap scan, plan check, concurrent workers and the budget |
| `Labels.dfy`, `Series.dfy` | metric lines: the writer's escapes, the reader, flat keys |
| `Seal.dfy`, `Compatibility.dfy` | signing, verifying and matching snapshot manifests |
| `Usage.dfy` | the de-duplicating usage sink |
| `Prelude.dfy`, `Texts.dfy` | shared types, powers of two, positions and decimal numbers |

How the pieces fit. An object the source updates in place is a class; each method is proved
against a function from the state before to the state after, or to the error that leaves it as
it was. A run is a sequence of such steps, and the promises about runs are lemmas over all
sequences. The store's lock makes each of its writes one step, so an interleaving of
dispatchers is a sequence of steps; the workers of a load phase and the two locks of the usage
sink are split into the steps the source really takes. Instants are integers; identifiers are
numbers, ordered where the source keeps rows by id; clocks, randomness and I/O outcomes are
parameters. What an operation writes is also stated on the rows and the request alone, apart from
the functions that define it (`SlotLaws.dfy`, and the `…Exactly` lemmas of the other files).

## Where the code does less than its words

Each has a lemma with a concrete input and one with the exact condition.

| what happens | input | exactly when |
|---|---|---|
| `is_usable` promises that a session whose guest exited is not reused, but `wait_result` does not mark an exit it reports | `ReportedExitLeavesTheSessionUsable` | `ExitIsMarkedExactlyWhenWaitDidNotReportIt` |
| without `drain_stale` the `Exited` a finished attempt left behind is reported as the crash of the next attempt | `WithoutDrainExitIsMisattributed` | `LeftoversSettleExactly` |
| a lease without an ownership expiry trusts its execution deadline, and its first extension can replace that by an earlier instant | `ExpiryMovesBackExactly` | `ExpiryMovesBackExactly` |
| a reclaim touches nothing of a live dispatcher, by its words, but ends the attempt and the running invocation under the reclaimer's own lease when the dispatcher that accepted the invocation died | `AttemptOfTheReclaimerIsEnded` | `SparedAttemptEndsExactly` |
| a lease its owner still trusts is taken, within the clock skew | `TrustedLeaseIsTaken` | `TrustedLeasesAreTakenExactlyFromDeadOwners` |
| a dispatcher that stopped still renews a lease, one at a time | `StoppedOwnerStillRenews` | `DeadDispatcherRenewsExactly` |
| the store accepts an acquire that writes a fenced row, which leaves a held lease on a fenced environment | `FencedRowIsAcquired` | `AcquireKeepsExactly` |
| the requests of a wave that ended in an error, or whose budget could not be written, never reach `budget.json`, so a scenario can exceed `max_requests` | `LostWavesEscapeTheLimit` | `BudgetOverRepeatedRuns`, `RunLosesNothingExactly` |
| a run that cannot read `budget.json` starts from nothing and overwrites it, so runs that all completed can exceed `max_requests` | `UnreadBudgetEscapesTheLimit` | `CompletedRunsLoseNothingExactly`, `RunLosesNothingExactly` |
| `split_key` does not undo `key` for a label value with a comma | `CommaInAValueIsLost` | `SplitKeyExactly` |

## Model

| member | source | states |
|---|---|---|
| EnvironmentModel.ExecutionEnvironment.TransitionTo | crates/domain/src/environment.rs:180-220 | one move along the life cycle, or an error that changes nothing |
| EnvironmentModel.ExecutionEnvironment.MarkInitializing | crates/domain/src/environment.rs:225-233 | the boot evidence is recorded exactly when the move happens |
| EnvironmentModel.ExecutionEnvironment.RecordGuestBootId | crates/domain/src/environment.rs:275-277 | only the boot id changes |
| EnvironmentModel.ExecutionEnvironment.Reserve | crates/domain/src/environment.rs:293-302 | an idle, unfenced environment leaves the pool without a new epoch |
| EnvironmentModel.ExecutionEnvironment.Assign | crates/domain/src/environment.rs:314-332 | all or nothing: busy at the next epoch, or an error and no change |
| EnvironmentModel.ExecutionEnvironment.Fence | crates/domain/src/environment.rs:338-353 | draining at the next epoch, first fence time kept, refused once ended |
| EnvironmentModel.ReachableIsWellFormed | crates/domain/src/environment.rs:180-353 | in every reachable record: idle time iff idle, stop time iff ended, fenced only while draining or ended, ready time once handed out |
| EnvironmentModel.IssuedEpochsAreConsecutive | crates/domain/src/environment.rs:314-353 | over any run the epochs handed out are consecutive, so no two are equal |
| EnvironmentModel.RunKeepsWhatIsSet | crates/domain/src/environment.rs:180-353 | identity, owner, first ready time, first fence time and ended records never change |
| EnvironmentModel.FenceIsForever | crates/domain/src/environment.rs:284-353 | after a fence no continuation makes the environment reusable, reservable or assignable |
| EnvironmentModel.AssignedUntilParked | crates/domain/src/environment.rs:284-332 | an assigned environment is not handed out again before it is parked |
| EnvironmentModel.DrainingOnlyEnds | crates/domain/src/environment.rs:180-220 | draining is left only by ending |
| EnvironmentModel.NothingBeforeInitialization | crates/domain/src/environment.rs:180-241 | nothing is handed out before the guest booted |
| EnvironmentModel.OnlyIdleExpires | crates/domain/src/environment.rs:361-366 | the idle time of a reachable environment has run out exactly when its last park, which nothing ended since, is `ttl` ago |
| EnvironmentModel.MovesExactly | crates/domain/src/environment.rs:180-220 | which state leads to which, that every such move is taken, and each instant it writes |
| EnvironmentModel.OperationsByState | crates/domain/src/environment.rs:225-353 | for each state, whether a reservation, hand-out, fence or initialization is taken, and the record it leaves |
| EnvironmentModel.RefusalsAreNamed | crates/domain/src/environment.rs:180-206 | a refused move is terminal exactly from an ended state, illegal otherwise, and names the states |
| LeaseModel.ExecutionLease.OwnedBy | crates/domain/src/environment.rs:420-424 | from then on the lease is active until its ownership expiry, whatever its deadline |
| LeaseModel.ExecutionLease.Renew | crates/domain/src/environment.rs:448-467 | extends an active lease only; an expired or released one is refused unchanged |
| LeaseModel.ExecutionLease.Revive | crates/domain/src/environment.rs:475-487 | extends any unreleased lease, never backwards |
| LeaseModel.ExecutionLease.Release | crates/domain/src/environment.rs:489-498 | releases once |
| LeaseModel.NoSplitOwnershipExactly | crates/domain/src/environment.rs:428-442 | owner and reclaimer can both act exactly when the reclaimer's clock is ahead by more than the skew |
| LeaseModel.RunNeverGivesBack | crates/domain/src/environment.rs:448-498 | over any run the ownership expiry never moves back and a released lease is frozen |
| LeaseModel.ReleaseIsFinal | crates/domain/src/environment.rs:448-504 | after a release nothing renews, revives, releases or is accepted |
| LeaseModel.RenewalNeverRevives | crates/domain/src/environment.rs:448-487 | an expiry once passed is only undone by a revival |
| LeaseModel.ExpiryMovesBackExactly | crates/domain/src/environment.rs:428-467 | exactly when the instant the owner trusts moves back, with an input |
| LeaseModel.ExtendsExactly | crates/domain/src/environment.rs:448-487 | a renewal or revival extends to `ttl` from now or keeps a later expiry, and changes nothing else |
| LeaseModel.TrustedExactly | crates/domain/src/environment.rs:428-446 | the instants up to which the owner acts and from which a reclaimer may |
| InvocationModel.InvocationLedgerEntry.MarkQueued | crates/domain/src/invocation.rs:292-302 | only from accepted |
| InvocationModel.InvocationLedgerEntry.MarkRunning | crates/domain/src/invocation.rs:304-326 | dispatch: attempt recorded, run deadlines set, first start kept |
| InvocationModel.InvocationLedgerEntry.MarkRetry | crates/domain/src/invocation.rs:334-350 | another attempt while running |
| InvocationModel.InvocationLedgerEntry.MarkRequeued | crates/domain/src/invocation.rs:356-365 | only asynchronous; the run deadlines are dropped |
| InvocationModel.InvocationLedgerEntry.MarkSucceeded | crates/domain/src/invocation.rs:367-385 | only from running |
| InvocationModel.InvocationLedgerEntry.MarkFailed | crates/domain/src/invocation.rs:387-408 | never with the class of a cancellation or an unknown outcome |
| InvocationModel.InvocationLedgerEntry.MarkCancelled | crates/domain/src/invocation.rs:410-416 | from any open status |
| InvocationModel.InvocationLedgerEntry.MarkOutcomeUnknown | crates/domain/src/invocation.rs:418-438 | only from running |
| InvocationModel.InvocationAttempt.Finish | crates/domain/src/invocation.rs:549-559 | an attempt ends once |
| InvocationModel.ReachableIsWellFormed | crates/domain/src/invocation.rs:219-438 | finish time iff settled, start iff dispatched, success and unknown outcome only after a dispatch, output only with success |
| InvocationModel.RunKeepsWhatIsSet | crates/domain/src/invocation.rs:292-438 | request and revision fixed, first start fixed, attempts only grow, settled is final |
| InvocationModel.RecordFollowsTheDispatches | crates/domain/src/invocation.rs:304-350 | the recorded attempts are exactly the dispatches that took effect, in order |
| InvocationModel.DeadlinesFollowTheLastDispatch | crates/domain/src/invocation.rs:304-365 | a running invocation has the deadlines of its last dispatch, a waiting one none |
| InvocationModel.SyncChangesAreBounded | crates/domain/src/invocation.rs:292-438 | a synchronous invocation changes status at most three times |
| InvocationModel.OnlyAsyncReturnsToTheQueue | crates/domain/src/invocation.rs:356-365 | only an asynchronous requeue leads back to the queue |
| InvocationModel.AcceptsExactly | crates/domain/src/invocation.rs:219-271 | accepted exactly with a key of 1 to 256 characters or none and a client deadline ahead |
| InvocationModel.TakenExactly | crates/domain/src/invocation.rs:273-438 | which operation is taken in which status |
| InvocationModel.MovesExactly | crates/domain/src/invocation.rs:292-365 | what a dispatch, retry or requeue writes, field by field |
| InvocationModel.SettledByOneEvent | crates/domain/src/invocation.rs:367-438 | a settled record carries output, error and instant of the one event that settled it |
| InvocationModel.FinishesOnce | crates/domain/src/invocation.rs:549-559 | a dispatched attempt takes its end and instant, a finished one none |
| InMemoryStoreModel.InMemoryStore.Acquire | crates/application/src/repository/memory.rs:787-854 | environment, lease, attempt and invocation rows written together, or the refusal and no change |
| InMemoryStoreModel.InMemoryStore.Complete | crates/application/src/repository/memory.rs:878-937 | writes the attempt and invocation rows under a current lease and releases it, or changes nothing |
| InMemoryStoreModel.InMemoryStore.ReleaseLease | crates/application/src/repository/memory.rs:939-956 | releases exactly a current lease |
| InMemoryStoreModel.InMemoryStore.RenewLease | crates/application/src/repository/memory.rs:860-876 | renews exactly for its owner at its epoch while active |
| InMemoryStoreModel.InMemoryStore.RenewDispatcher | crates/application/src/repository/memory.rs:613-642 | a live dispatcher extends itself and, of the leases it owns, the active ones, or with revival every unreleased one |
| InMemoryStoreModel.InMemoryStore.StopDispatcher | crates/application/src/repository/memory.rs:681-688 | the first stop time is kept |
| InMemoryStoreModel.InMemoryStore.ClaimForReuse | crates/application/src/repository/memory.rs:706-728 | reserves the first idle environment by id that matches the key in every field and belongs to the owner, unless that one is fenced |
| InMemoryStoreModel.InMemoryStore.ReleaseToPool | crates/application/src/repository/memory.rs:730-771 | parks within both pool limits, never under an unreleased lease, a fence or another epoch |
| InMemoryStoreModel.InMemoryStore.TakeIdleForTermination | crates/application/src/repository/memory.rs:773-785 | takes exactly an idle environment |
| InMemoryStoreModel.InMemoryStore.ConfirmTerminated | crates/application/src/repository/memory.rs:1077-1091 | ends exactly the fenced environment at that epoch |
| InMemoryStoreModel.InMemoryStore.SettleInvocationRows | crates/application/src/repository/memory.rs:577-600 | settles the invocation unless it survives, and every open attempt of it, as outcome unknown exactly when it was dispatched |
| InMemoryStoreModel.InMemoryStore.ReclaimExpired | crates/application/src/repository/memory.rs:958-1064 | marks the dead, takes their leases, fences exactly what those held or they own, settles exactly the attempts and invocations that ran under them or belong to them, and how |
| InMemoryStoreModel.CausesExactly | crates/application/src/repository/memory.rs:602-608 | what was interrupted is blamed on a restart exactly when the dispatcher stopped or was proven dead |
| InMemoryStoreModel.Settle | crates/application/src/repository/restart.rs:59-83 | dispatched ends as outcome unknown, never dispatched as a platform failure |
| InMemoryStoreModel.SettleAttempt | crates/application/src/repository/restart.rs:95-116 | an open attempt ends as outcome unknown exactly when its invocation does, a settled one is untouched |
| SlotRuns.ReachableIsConsistent | crates/application/src/repository/slot.rs:326-434 | every reachable store: an unreleased lease is at the epoch of its unfenced environment, epochs of leases are distinct, attempt and lease carry the same epoch |
| SlotRuns.AcquireKeepsExactly | crates/application/src/repository/memory.rs:787-854 | an accepted acquire keeps that invariant exactly when the row it writes is unfenced |
| SlotRuns.AssignedAcquireKeeps | crates/domain/src/environment.rs:314-332 | every run goes on with an acquire whose row `assign` made, and stays consistent |
| SlotRuns.OneHolder | crates/application/src/repository/memory.rs:787-854 | at most one unreleased lease per environment, at its current epoch |
| SlotRuns.LeaseEpochsIncrease | crates/application/src/repository/memory.rs:787-854 | a later lease of an environment has a larger epoch |
| SlotRuns.AttemptsSettleOnce | crates/application/src/repository/guard.rs:268-299 | a settled attempt row never changes in any run |
| SlotRuns.WhatSettlesAnAttempt | crates/application/src/repository/memory.rs:878-1053 | an attempt is settled only under its own current lease, by a reclaim that took a lease for it or covers its invocation, or by a direct update of its row |
| SlotRuns.LiveRowsAreUntouched | crates/application/src/repository/memory.rs:992-1053 | an unreleased lease the pass spares keeps its row and its environment; its attempt and invocation keep theirs when the lease drives the invocation and no dead dispatcher accepted it |
| SlotRuns.SparedAttemptEndsExactly | crates/application/src/repository/memory.rs:1009-1053 | the attempt of a lease the pass spares ends exactly when its open invocation ran on under a taken lease or belongs to a dead dispatcher, and a synchronous invocation ends with it |
| SlotRuns.CompletionSettlesExactly | crates/application/src/repository/memory.rs:878-937 | an accepted completion releases its lease, and settles its attempt iff the written row is terminal |
| SlotRuns.InvocationsSettleOnce | crates/application/src/repository/guard.rs:194-231 | a settled invocation never changes in any run |
| SlotRuns.FenceCheckIsImplied | crates/application/src/repository/slot.rs:408-434 | in reachable stores a lease is current exactly when it is unreleased and names the attempt and epoch |
| SlotRuns.NewerAssignmentFencesOlder | crates/application/src/repository/slot.rs:408-434 | a completion of an earlier assignment is stale and changes nothing |
| SlotRuns.CompletionIsOnce | crates/application/src/repository/memory.rs:878-937 | a completion settles its own attempt only, and its lease never completes, renews, revives or releases again |
| SlotRuns.ReclaimedOwnerIsFencedOut | crates/application/src/repository/memory.rs:958-1064 | after a reclaim the old lease is stale for good and its environment is closed to new leases |
| SlotRuns.DeadDispatchersStayDead | crates/application/src/repository/memory.rs:613-642 | a stopped or reclaimed dispatcher never acquires again and its heartbeat extends nothing |
| SlotRuns.DeadDispatcherRenewsExactly | crates/application/src/repository/memory.rs:860-876 | a dispatcher that is not live renews a lease exactly when it stopped, no reclaim reached it, and the lease is its own, unreleased and active |
| SlotRuns.ReclaimedDispatcherHoldsNothing | crates/application/src/repository/memory.rs:980-1023 | after a reclaim of the dispatcher it holds nothing and renews nothing, in every continuation |
| SlotExamples.StoppedOwnerStillRenews | crates/application/src/repository/memory.rs:860-876 | a run in which a stopped dispatcher moves the expiry of its lease |
| SlotExamples.TrustedLeaseIsTaken | crates/application/src/repository/memory.rs:992-1014 | a run in which a lease its owner trusts may be taken |
| SlotExamples.AttemptOfTheReclaimerIsEnded | crates/application/src/repository/memory.rs:1042-1053 | a run and a pass that takes no lease, yet ends the attempt and the running invocation under the reclaimer's own lease |
| SlotExamples.FencedRowIsAcquired | crates/application/src/repository/memory.rs:787-854 | an accepted acquire that leaves a fenced environment with a held lease |
| SlotRuns.TrustedLeasesAreTakenExactlyFromDeadOwners | crates/application/src/repository/memory.rs:958-1064 | within the skew a trusted lease is taken exactly when its owner is dead |
| SlotLaws.FrozenReclaimerChangesNothing | crates/application/src/repository/slot.rs:302-307 | a reclaimer that cannot prove its own lease changes no row |
| SlotLaws.GivenUpExactly | crates/application/src/repository/memory.rs:979-995 | a pass marks exactly the others that stopped, were proven dead or are past expiry and skew |
| SlotLaws.ReleasedExactly | crates/application/src/repository/memory.rs:997-1017 | it releases exactly the leases of those it gave up and the leases past expiry and skew, never its own |
| SlotLaws.FencedExactly | crates/application/src/repository/memory.rs:567-575 | it fences exactly the open, unfenced environments that lost their current lease or their owner, and how |
| SlotLaws.EndedInvocationsExactly | crates/application/src/repository/memory.rs:1018-1053 | it ends exactly the synchronous invocations that lost the lease of their last attempt or their acceptor, and how |
| SlotLaws.EndedAttemptsExactly | crates/application/src/repository/memory.rs:1018-1053 | it ends exactly the open attempts that lost their lease, or whose invocation lost its run |
| SlotLaws.AttemptsEndUnknown | crates/application/src/repository/restart.rs:95-116 | which of them end with the outcome unknown |
| SlotLaws.GoneDispatcherIsCleanedUp | crates/application/src/repository/slot.rs:288-300 | one pass marks a dispatcher that is gone, releases its leases, fences its environments and settles what it accepted |
| SlotLaws.PresentDispatcherKeepsItsRow | crates/application/src/repository/memory.rs:981-990 | a dispatcher that is not gone keeps its row |
| SlotLaws.AcquireAnswersForTheSlot | crates/application/src/repository/slot.rs:326-407 | refused, not found or lost, by the request and the stored environment, owner and leases |
| SlotLaws.AcquireAnswersForTheRows | crates/application/src/repository/memory.rs:800-840 | once the slot is free: lost, refused, not found or a conflict by the invocation, ids and tenants, and otherwise acquired |
| SlotLaws.AcquireFinds | crates/application/src/repository/slot.rs:380-407 | an accepted acquire found the row ready or idle, unfenced, at the expected epoch and of the serving owner, with no lease held |
| SlotLaws.AcquireWrites | crates/application/src/repository/memory.rs:841-854 | it stores its four rows and nothing else |
| SlotLaws.OnlyAcquireHandsOut | crates/application/src/repository/guard.rs:345-380 | in every run only an accepted acquire makes a stored environment busy |
| SlotLaws.CompleteAnswersExactly | crates/application/src/repository/memory.rs:878-925 | stale, not found, refused or completed, by the rows |
| SlotLaws.CompleteWrites | crates/application/src/repository/memory.rs:925-937 | attempt and invocation are stored, the lease is released, every other row is left |
| SlotLaws.RefusedCompletionChangesNothing | crates/application/src/repository/memory.rs:878-925 | a completion that is not accepted changes no row |
| SlotLaws.ResultIsKept | crates/application/src/repository/memory.rs:925-937 | in every run a settled invocation that was completed is held exactly so by every later store |
| SlotLaws.ReleasesExactly | crates/application/src/repository/memory.rs:939-956 | exactly under a held lease of this attempt and epoch on an unfenced environment |
| SlotLaws.RenewsExactly | crates/application/src/repository/memory.rs:860-876 | exactly for owner and epoch while trusted, and how far |
| SlotLaws.HeartbeatExtendsExactly | crates/application/src/repository/memory.rs:613-642 | which leases a heartbeat or revival extends, and how far |
| SlotLaws.HeartbeatWritesItsRow | crates/application/src/repository/memory.rs:613-642 | what it writes to the dispatcher, and that nothing else changes |
| SlotLaws.HeartbeatWithoutEffect | crates/application/src/repository/memory.rs:620-626 | a dispatcher that is gone, or expired without revival, changes no row |
| SlotLaws.StopsOnce | crates/application/src/repository/memory.rs:681-688 | the first stop of a registered dispatcher is recorded |
| SlotLaws.ClaimTakesTheFirstFitting | crates/application/src/repository/memory.rs:706-728 | the claimed row is the idle one of the owner with the key in every field and the smallest id |
| SlotLaws.ClaimIsEmptyExactly | crates/application/src/repository/memory.rs:706-728 | exactly when no row fits or the first that does is fenced |
| SlotLaws.ParksExactly | crates/application/src/repository/memory.rs:730-771 | parked, not parked or refused, by the rows, and the row it leaves |
| SlotLaws.ParkStaysWithinTheLimits | crates/application/src/repository/memory.rs:745-756 | after a park neither pool limit is exceeded |
| SlotLaws.TakesAndConfirmsExactly | crates/application/src/repository/memory.rs:773-785 | a take drains exactly an idle row, a confirmation ends exactly the fenced row at its epoch |
| SlotLaws.PutsEnvironmentExactly | crates/application/src/repository/guard.rs:345-380 | a plain write keeps identity, owner, epoch and fence of an open row and never makes it busy |
| SlotLaws.PutsAttemptExactly | crates/application/src/repository/guard.rs:268-299 | only the end of an open attempt is written |
| SlotLaws.PutsInvocationExactly | crates/application/src/repository/guard.rs:194-250 | an open invocation takes a row of the same call whose inline output fits |
| SlotLaws.InsertsNewRows | crates/application/src/repository/memory.rs:357-436 | a row that is not stored is inserted alone, and a dispatcher is registered once |
| BridgeSessionModel.ProbeNonces.FetchAdd | crates/application/src/bridge_session.rs:868-870 | each nonce is handed out once |
| BridgeSessionModel.BridgeSession.NextMessage | crates/application/src/bridge_session.rs:822-849 | reads the next item in order; anything but a frame disconnects |
| BridgeSessionModel.BridgeSession.Accepts | crates/application/src/bridge_session.rs:769-784 | accepts exactly the armed pair, counts the rest as stale |
| BridgeSessionModel.BridgeSession.WaitResult | crates/application/src/bridge_session.rs:651-721 | reads up to the first frame that settles the lease and returns its outcome |
| BridgeSessionModel.BridgeSession.DrainStale | crates/application/src/bridge_session.rs:435-481 | takes everything readable up to an exit or the end, counting results as stale |
| BridgeSessionModel.BridgeSession.ProbeReady | crates/application/src/bridge_session.rs:503-564 | one ping, then everything up to its own pong |
| BridgeSessionModel.BridgeSession.RearmFor | crates/application/src/bridge_session.rs:570-574 | new epoch, no lease |
| BridgeSessionModel.BridgeSession.WriteFrame | crates/application/src/bridge_session.rs:810-820 | a failed write closes the write side only |
| BridgeSessionModel.BridgeSession.SendInvoke | crates/application/src/bridge_session.rs:631-647 | armed before the write; a failed encode changes nothing |
| BridgeSessionModel.BridgeSession.ShutdownWith | crates/application/src/bridge_session.rs:758-767 | disconnected whatever the write did |
| SessionRuns.OutcomeBelongsToTheLastInvoke | crates/application/src/bridge_session.rs:631-721 | an outcome from a result frame names the pair the latest invoke armed, with no rearm since |
| SessionRuns.DrainIsABarrier | crates/application/src/bridge_session.rs:417-481 | after a drain that left the session usable, nothing readable then is ever an outcome, `Exited` included |
| SessionRuns.NextAttemptIsSettledByItsOwnFrame | crates/application/src/bridge_session.rs:421-574 | drain, rearm, invoke, wait: a result arrived after the drain and names an invoke after the rearm |
| SessionRuns.WithoutDrainExitIsMisattributed | crates/application/src/bridge_session.rs:651-701 | a run without the drain that blames the next attempt |
| SessionRuns.LeftoversSettleExactly | crates/application/src/bridge_session.rs:631-721 | without a drain, the next wait ends with a leftover item exactly when some unread leftover is an exit, no frame, or a result naming the new pair |
| SessionRuns.EveryResultIsReportedOrStale | crates/application/src/bridge_session.rs:435-721 | over any run, result frames consumed equal outcomes returned plus stale results |
| SessionRuns.ExitIsMarkedExactlyWhenWaitDidNotReportIt | crates/application/src/bridge_session.rs:417-419 | exits consumed equal exits reported by waits, plus one exactly when the session is marked |
| SessionRuns.ReportedExitLeavesTheSessionUsable | crates/application/src/bridge_session.rs:691-701 | a run whose wait reports an exit while the session stays usable |
| SlotSession.FrameSettlesOnlyUnderItsLease | crates/application/src/repository/slot.rs:408-434 | a completion built from a result frame is for the last armed pair and is accepted only under that attempt's own unreleased, newest lease |
| SlotSession.CompletionRestsOnItsOwnAssignment | crates/application/src/services/invoke.rs:2325-2439 | in a joint run, an accepted completion built from any outcome is for the last invoke, under the lease held at that invoke, and rests on an item that arrived after the drain of that assignment |
| SlotSession.LateFrameIsStale | crates/application/src/services/invoke.rs:3095-3101 | in a joint run, a result of an earlier assignment neither ends a wait nor completes anything once a later attempt is armed |
| SessionRuns.UnusableForever | crates/application/src/bridge_session.rs:417-574 | an unusable session stays so under every call; a closed side stays closed |
| SessionRuns.FailedSendLosesNoFrame | crates/application/src/bridge_session.rs:631-647 | after a failed write every queued frame is read with the same outcomes |
| SessionRuns.RearmsExactly | crates/application/src/bridge_session.rs:570-574 | a rearm records the epoch, forgets the armed pair and leaves the rest |
| SessionRuns.ExitMessageParts | crates/application/src/bridge_session.rs:691-701 | code and signal of an exit are shown in its message |
| SessionRuns.WaitAnswersExactly | crates/application/src/bridge_session.rs:651-721 | disconnected at once, timed out when nothing unread ends the wait, otherwise what the item that ends it stands for |
| SessionRuns.ResponseExactly | crates/application/src/bridge_session.rs:657-670 | a response exactly when one of the armed pair with that payload and time ended the wait |
| SessionRuns.GuestErrorExactly | crates/application/src/bridge_session.rs:671-701 | a guest error exactly when an `Error` of the armed pair with these fields or an exit ended it |
| SessionRuns.NoAnswerExactly | crates/application/src/bridge_session.rs:651-656 | when it times out and when it reports a disconnection |
| SessionRuns.SendsExactly | crates/application/src/bridge_session.rs:631-647 | armed pair, frames sent, write side and error by what becomes of the frame |
| SessionRuns.ShutsDownExactly | crates/application/src/bridge_session.rs:758-767 | disconnected in every case, and whether the guest was told |
| SessionRuns.ProbesExactly | crates/application/src/bridge_session.rs:503-517 | what a probe of an unusable session or with a failed ping leaves |
| SessionRuns.DrainCounts | crates/application/src/bridge_session.rs:435-482 | the number a drain reports is that of the frames it read |
| SessionRuns.ReadyExactly | crates/application/src/bridge_session.rs:503-564 | a probe succeeds exactly when its own pong comes before any exit, end or undecodable frame |
| SessionRuns.ReadyMeansAnsweredNow | crates/application/src/bridge_session.rs:503-564 | with counted nonces and a guest that echoes only pings it received, success means the guest wrote after this ping |
| EgressModel.New | crates/domain/src/egress.rs:126-132 | a network that contains the address, host bits cleared |
| EgressModel.MaskIsHighBits | crates/domain/src/egress.rs:134-140 | for all 33 prefixes the mask is 2^32 less the block size |
| EgressModel.ContainsIsAnInterval | crates/domain/src/egress.rs:159-161 | the masked comparison accepts exactly one interval of addresses |
| EgressModel.ContainsNetIsInclusion | crates/domain/src/egress.rs:164-166 | `contains_net` holds exactly when the address sets are included |
| EgressModel.OverlapsIsIntersection | crates/domain/src/egress.rs:169-171 | `overlaps` holds exactly when the address sets intersect |
| EgressModel.NestedOrDisjoint | crates/domain/src/egress.rs:159-171 | any two networks are nested or disjoint, and equal sets are equal networks (section 3.1 of RFC 4632) |
| EgressModel.SizeIsCardinality | crates/domain/src/egress.rs:155-157 | `size` is the number of addresses `contains` accepts |
| EgressRulesModel.AddressTextIsUnique | crates/domain/src/egress.rs:112-114 | an address has exactly one accepted text, the printed one |
| EgressRulesModel.ParseExactly | crates/domain/src/egress.rs:94-123 | the accepted texts are exactly the printed address with nothing or a slash and a prefix text, host bits zero |
| EgressRulesModel.ParseOfShow | crates/domain/src/egress.rs:94-178 | parsing the printed form gives the network back |
| EgressRulesModel.ParseU8Exactly | crates/domain/src/egress.rs:96-104 | a prefix text is an optional plus sign, any zeros and the digits of a number up to 255 |
| EgressRulesModel.PrefixRefuses | crates/domain/src/egress.rs:96-104 | a prefix that is no number up to 32 is reported before anything else |
| EgressRulesModel.AddressRefuses | crates/domain/src/egress.rs:105-123 | a colon, then no address, then host bits with the network that was meant |
| EgressRulesModel.RefusedBehindThePrefix | crates/domain/src/egress.rs:94-123 | behind a good prefix the answer is that of the address |
| EgressRulesModel.EntriesParse | crates/domain/src/egress.rs:187-262 | every blocked range parses, so its `expect` never fails |
| EgressRulesModel.PublicByOctets | crates/domain/src/egress.rs:322-324 | exactly which addresses are public, octet by octet (ranges of section 2.2.2 of RFC 6890) |
| EgressRulesModel.FirstOverlap | crates/domain/src/egress.rs:59-67 | no range is reported exactly when none overlaps |
| EgressRulesModel.ReportedIsFirst | crates/domain/src/egress.rs:59-67 | the reported range is the first of the table that overlaps |
| EgressRulesModel.ClearOfBlockedIsPublic | crates/domain/src/egress.rs:57-67 | the range check passes exactly when every address of the network is public |
| EgressRulesModel.ValidateExactly | crates/domain/src/egress.rs:57-81 | a rule is accepted exactly when its network has public addresses only and it lists 1 to 16 ports, none zero |
| EgressRulesModel.NetworkRefuses | crates/domain/src/egress.rs:57-81 | which error a refused rule gets: first overlap, number of ports, port zero |
| EgressRulesModel.TextRefuses | crates/domain/src/egress.rs:57-58 | a text that is no network refuses the rule with its own error |
| ReportModel.MaxOverlap | apps/load/src/report.rs:134-150 | exactly the highest number of requests with sent <= t < done over all instants; for any list, of requests sent less done |
| ReportModel.OneMoreRequest | apps/load/src/report.rs:136-141 | a request counts exactly when it has both times, from its sending until it is done |
| ReportModel.HighestPrefix | apps/load/src/report.rs:142-149 | the sweep over sorted events finds that maximum |
| ReportModel.StartReachesItsPrefixSum | apps/load/src/report.rs:142-143 | why ends must sort before starts: the count at a start is reached at its instant |
| ReportModel.Restarts | apps/load/src/report.rs:102-112 | exactly the maximal runs of down samples followed by an up sample, in order, disjoint, with their two times |
| LoadPlanModel.WaveEnd | apps/load/src/plan.rs:94-101 | the next wave: a phase alone, or a longest stretch of one wave number |
| LoadPlanModel.WavesAreUnique | apps/load/src/plan.rs:94-101 | a plan is cut into waves in only one way |
| LoadPlanModel.CheckPlan | apps/load/src/plan.rs:90-128 | accepted exactly when limits are valid, every wave's workers and all requests fit; otherwise the error of the limits, the first wave too wide, or the total |
| LoadPlanModel.LimitsExactly | apps/load/src/limits.rs:12-50 | limits are accepted within 1 to 64, 2000 and 1800, with the first error otherwise |
| LoadPlanModel.PhaseCounts | apps/load/src/plan.rs:103-112 | only a phase that invokes has workers and requests |
| LoadRunModel.EveryScheduleIsOrderly | apps/load/src/run.rs:256-306 | in every interleaving: indices handed out in order, each held by one worker, counts balance |
| LoadRunModel.InFlightIsBounded | apps/load/src/run.rs:256-306 | an accepted plan never has more than `max_concurrency` requests in flight, whatever the interleaving |
| LoadRunModel.EveryIndexExactlyOnce | apps/load/src/run.rs:256-312 | when the workers returned, each index was handed out once and sent plus refused equals requests |
| LoadRunModel.NothingIsSentNearTheDeadline | apps/load/src/run.rs:262-272 | under any schedule within half a second of the deadline nothing is sent |
| LoadRunModel.BoundIsReached | apps/load/src/run.rs:256-306 | some schedule has every worker of a wave in flight at once |
| LoadRunModel.RunWaves | apps/load/src/run.rs:163-181 | the waves executed one after the other from the budget that could be read, the budget written after each, and what a failed phase or a failed write leaves on disk |
| LoadRunModel.CollectWave | apps/load/src/run.rs:172-176 | the counts of a wave are added, or lost with its first error |
| LoadRunModel.ExecutedAsChecked | apps/load/src/run.rs:163-170 | the executed waves are the checked ones |
| LoadRunModel.PhaseSendsWithinRequests | apps/load/src/run.rs:256-316 | what the crews of an executed wave sent is within its requests |
| LoadRunModel.BudgetOverRepeatedRuns | apps/load/src/run.rs:136-181 | over repeated runs the budget on disk stays within `max_requests`, and what was really sent exceeds it by exactly the lost requests |
| LoadRunModel.RunLosesNothingExactly | apps/load/src/run.rs:54-64 | exactly when a run loses nothing: its last wave was recorded or sent nothing, a broken write had nothing to lose, and a budget stored without reading the file overwrote nothing |
| LoadRunModel.CompletedRunsLoseNothingExactly | apps/load/src/run.rs:136-181 | over completed runs nothing is lost exactly when no run that could not read the budget overwrote a non-empty one; so never when all read it |
| LoadRunModel.CompletedRunsCountEverything | apps/load/src/run.rs:136-181 | over completed runs that read the budget, sent plus refused is every request of every plan |
| LoadRunModel.LostWavesEscapeTheLimit | apps/load/src/run.rs:172-177 | runs that send more than `max_requests`, after a phase error and after a failed write |
| LoadRunModel.UnreadBudgetEscapesTheLimit | apps/load/src/run.rs:54-59 | two completed runs with every write stored that send more than `max_requests` |
| LabelsModel.Escape | crates/application/src/metrics/render.rs:118-129 | the writer's escapes |
| LabelsModel.Unescape | apps/load/src/prom.rs:18-33 | the reader's unescaping, a trailing backslash included |
| LabelsModel.UnescapeOfEscape | apps/load/src/prom.rs:18-33 | reading undoes writing for every value |
| LabelsModel.EscapedIsOneLine | crates/application/src/metrics/render.rs:118-129 | a written value has no line end and no bare quote |
| LabelsModel.EscapedLength | crates/application/src/metrics/render.rs:118-129 | only backslashes, quotes and line ends are escaped |
| LabelsModel.UnescapesExactly | apps/load/src/prom.rs:18-33 | what any text is read as, by its first backslash |
| LabelsModel.KeyIsTrimmed | apps/load/src/prom.rs:41 | commas in front of a key and white space around it are not part of it |
| LabelsModel.SpacesExactly | apps/load/src/prom.rs:41 | white space by code points (`White_Space` of Unicode) |
| LabelsModel.BrokenPairsAreRefused | apps/load/src/prom.rs:39-58 | a rest without an equals sign, an opening quote behind it or a closing one is refused |
| LabelsModel.ParseLabels | apps/load/src/prom.rs:35-63 | the index scan ends on every text and equals reading pair after pair |
| LabelsModel.LabelsReadBack | apps/load/src/prom.rs:35-63 | what the writer renders for any values is read back as the same map |
| SeriesModel.LineReadsBack | apps/load/src/prom.rs:66-99 | a written sample line whose number the reader understands is read back as exactly that sample |
| SeriesModel.NoSamples | apps/load/src/prom.rs:66-75 | blank lines, comments and lines without a space are skipped |
| SeriesModel.NumbersExactly | apps/load/src/prom.rs:76-83 | infinities have their own texts, any other number is up to the parser |
| SeriesModel.LastLabelCounts | apps/load/src/prom.rs:59 | of several labels with one key the last counts |
| SeriesModel.SplitKeyExactly | apps/load/src/prom.rs:101-134 | a flat key splits back exactly when name, keys and values avoid its separators |
| SeriesModel.UnclosedSplits | apps/load/src/prom.rs:119-134 | a key without its closing brace splits alike |
| SeriesModel.PartWithoutEqualsIsDropped | apps/load/src/prom.rs:125-129 | a part without an equals sign is no label |
| SeriesModel.CommaInAValueIsLost | apps/load/src/prom.rs:119-134 | a flat key that does not split back |
| SealModel.ConstantTimeEq | crates/domain/src/snapshot.rs:718-723 | the xor/or fold decides equality |
| SealModel.HmacSha256 | crates/domain/src/snapshot.rs:690-716 | the pad loops compute the definition of section 2 of RFC 2104 |
| SealModel.BitsExactly | crates/domain/src/snapshot.rs:703-723 | xor and or of bytes, bit by bit |
| SealModel.BlocksDetermineTheKey | crates/domain/src/snapshot.rs:700-706 | equal inner or outer blocks exactly for equal padded keys |
| SealModel.HmacKeys | crates/domain/src/snapshot.rs:691-716 | the empty key, a key padded with a zero, and a key longer than a block (section 2 of RFC 2104) |
| SealModel.HexDecodesExactly | crates/domain/src/snapshot.rs:655-656 | a text decodes to bytes exactly when it is their encoding up to letter case |
| SealModel.DigitsAreAscii | crates/domain/src/snapshot.rs:655-656 | the digits written, and the capital letters read besides them |
| SealModel.KeyIdHasNoNul | crates/domain/src/snapshot.rs:602-611 | the id of a signing key has no zero byte |
| SealModel.KeyIdShows | crates/domain/src/snapshot.rs:602-611 | the id is `s1-` and the digits of the first eight bytes of the hash |
| SealModel.DomainsAreSeparate | crates/domain/src/snapshot.rs:682-688 | what is signed is never what a key id is hashed from |
| SealModel.SignedMessageIsInjective | crates/domain/src/snapshot.rs:682-688 | what is signed determines the key id and the manifest bytes |
| SealModel.Seal | crates/domain/src/snapshot.rs:633-643 | canonical bytes, their digest, and the encoded HMAC |
| SealModel.SealsExactly | crates/domain/src/snapshot.rs:633-643 | each field of a sealed manifest, with the bytes that are signed |
| SealModel.Verify | crates/domain/src/snapshot.rs:647-668 | accepts exactly the sealed form of a manifest up to the letter case of the signature, and says why otherwise |
| SealModel.SealThenVerify | crates/domain/src/snapshot.rs:633-668 | verifying what was sealed gives the manifest back |
| CompatibilityModel.CheckCompatibility | crates/domain/src/snapshot.rs:444-559 | another tenant gives one reason; otherwise exactly the reasons that apply, once each, in order; none exactly when restorable and equal to the source in every field |
| CompatibilityModel.NoReasonExactly | crates/domain/src/snapshot.rs:444-559 | the reasons leave no field of the target free |
| CompatibilityModel.IdentityHasItsReasons | crates/domain/src/snapshot.rs:475-483 | a target that differs in one field gets exactly the reason of that field |
| CompatibilityModel.MachineHasItsReasons | crates/domain/src/snapshot.rs:520-531 | the same for devices, memory, processors and storage |
| CompatibilityModel.RuntimeHasItsReasons | crates/domain/src/snapshot.rs:484-504 | the same for provider, monitor, kernel and root file system |
| CompatibilityModel.HostHasItsReasons | crates/domain/src/snapshot.rs:484-504 | the same for bridge protocol, jailer, cgroup mode and host kernel |
| CompatibilityModel.CpuHasItsReasons | crates/domain/src/snapshot.rs:505-519 | the same for the processor of the host |
| CompatibilityModel.NetworkHasItsReasons | crates/domain/src/snapshot.rs:532-539 | another network is a mismatch, and egress on either side is unsupported besides |
| CompatibilityModel.GenerationsHaveTheirReasons | crates/domain/src/snapshot.rs:540-548 | the same for key generation, secret generation and lifecycle version |
| CompatibilityModel.SnapshotHasItsReasons | crates/domain/src/snapshot.rs:457-552 | the same for version, phase, state and expiry of the snapshot |
| CompatibilityModel.CompatibleTargetIsUnique | crates/domain/src/snapshot.rs:444-559 | at most one compatible target per manifest; compatible times are downward closed |
| UsageModel.InMemoryUsageSink.Record | crates/application/src/local_ports.rs:301-307 | the stored events are the first arrivals |
| UsageModel.InMemoryUsageSink.TotalsFor | crates/application/src/local_ports.rs:271-297 | the totals of the first arrivals of the wanted invocations |
| UsageModel.FirstIsDistinct | crates/application/src/local_ports.rs:301-307 | stored ids are pairwise distinct |
| UsageModel.TotalsOfSameEvents | crates/application/src/local_ports.rs:271-297 | totals do not depend on the order of the events |
| UsageModel.TotalsByField | crates/application/src/local_ports.rs:271-297 | which facts add to which total |
| UsageModel.TotalsIgnoreOrderAndResends | crates/application/src/local_ports.rs:271-307 | with equal facts under equal ids, order and re-sends do not change the totals |
| UsageModel.StoppedEventIdIsInjective | crates/domain/src/usage.rs:337-339 | two environments never share a stop id |
| UsageModel.StoppedEventIdShows | crates/domain/src/usage.rs:337-339 | the id is the environment followed by one fixed suffix |
| UsageModel.CompetingStopsCountOnce | crates/domain/src/usage.rs:337-339 | competing stops of an environment count once, as the first that arrived |
| UsageModel.ConcurrentRecordsCountOnce | crates/application/src/local_ports.rs:301-307 | in every interleaving of the two lock steps ids stay distinct, and totals at rest are those of first arrivals |

## Left out

- Integer width: epochs, counters, sums of workers and requests, and usage sums are unbounded; an overflow of `u32` or `u64` is not modelled. `u32` addresses are.
- Timestamps: the range of the clock type and the rounding of durations.
- SlotRuns.ReachableIsConsistent: runs are those whose acquires write unfenced rows; `AcquireKeepsExactly` shows that this is exactly what the invariant needs, and `AssignedAcquireKeeps` that every row `assign` makes is one.
- SlotRuns.WhatSettlesAnAttempt: a direct row update may settle an attempt without a lease, as the store allows; which callers use it is not modelled.
- The SQLite and TiDB stores, idempotency bindings and their expiry, functions, revisions, aliases, objects, logs and configuration rows.
- The tenant and reuse-key checks on inserted rows: the run model admits more inserts than the store does.
- InMemoryStoreModel.InMemoryStore.ReclaimExpired: the report of counts and the error types and message texts of settled rows are not part of the contract; their classes are.
- Reason strings of lost races, refusals and staleness.
- Bridge handshake, `wait_ready`, `cancel`, `drain_until_closed`, log forwarding and the partial frames of a cancelled read.
- SessionRuns.ReadyMeansAnsweredNow: assumes a guest that echoes only pings it received; a guest that guesses nonces is outside the model.
- SlotSession.CompletionRestsOnItsOwnAssignment: joint runs acquire before they invoke, and drain and rearm before a reuse, as the invoke service does; the service itself is not modelled.
- EgressRulesModel.EntriesParse: the blocked table is given by octets and prefix lengths and its text is computed from them; the IPv6 table is left out.
- The float parts of the report (`point`, `provisioned`, `percentile`, peaks and latencies), SVG and text rendering, and anomaly detection.
- LoadPlanModel.CheckPlan: `parse_phase` and the seeded jitter are left out; delays only shift when a worker takes its next step.
- SeriesModel.LineReadsBack: the parser of finite numbers is a parameter; the split of a text into lines is left out.
- ReportModel.MaxOverlap: the library sort is an insertion sort on the same order.
- SealModel.Verify: SHA-256 and JSON are parameters, so nothing is said about forging a signature.
- CompatibilityModel.CheckCompatibility: the manifest fields that are not compared (snapshot id, source environment, creation time, artifacts) are left out.
- Gateway handlers, the CLI, the console, admission, scaling, budget reservations, triggers and the queue.
