/** Runs of the slot store in which an owner that stopped still meets its lease, a pass ends
    an attempt of the reclaimer itself, and an acquire writes a fenced row. */
module SlotExamples {
  import opened Prelude
  import opened EnvironmentModel
  import opened LeaseModel
  import opened InvocationModel
  import opened SlotStoreModel
  import opened SlotRuns

  // ---------------------------------------------------------------- stores a run reaches

  ghost predicate RunTo(states: seq<Store>, steps: seq<Step>, s: Store) {
    Execution(states, steps, 0) && states[0] == EMPTY && states[|steps|] == s
  }

  /** Some run from the empty store ends here. */
  ghost predicate Reached(s: Store) {
    exists states, steps :: RunTo(states, steps, s)
  }

  lemma EmptyIsReached()
    ensures Reached(EMPTY)
  {
    assert RunTo([EMPTY], [], EMPTY);
  }

  lemma NextIsReached(s: Store, step: Step, s': Store)
    requires Reached(s) && Next(s, step, s', 0)
    ensures Reached(s')
  {
    var states, steps :| RunTo(states, steps, s);
    OneMoreStep(states, steps, step, s', 0);
    assert RunTo(states + [s'], steps + [step], s');
  }

  // ---------------------------------------------------------------- an owner that stopped

  const OWNER := Dispatcher(1, 0, 100, None, None)
  const RECLAIMER := Dispatcher(2, 0, 1000, None, None)
  const IDENTITY := Identity(3, 9, 8, "local", ReuseKey(9, 8, 0, 0, "", "", 0, 0), 0)
  const BOOTED := Environment(IDENTITY, Ready, 0, Some(1), None, BootEvidence(None, None), Some(0), None, None, 0)
  const BUSY := Assigned(BOOTED, 1).value
  const ATTEMPT := Dispatch(5, 6, 9, 1, 3, 1, 1)
  const LEASE := Lease(7, 3, 5, 9, 1, 1, 600, None, Some(1), Some(100))
  const ACQUIRE := SlotAcquire(BUSY, 0, LEASE, ATTEMPT, None)

  /** Dispatchers 1 and 2 are live. */
  const LIVE := Store(map[], map[], map[], map[], map[1 := OWNER, 2 := RECLAIMER])
  const POOLED := LIVE.(environments := map[3 := BOOTED])
  const HELD := LIVE.(environments := map[3 := BUSY], leases := map[7 := LEASE], attempts := map[5 := ATTEMPT])

  function Stopped(s: Store): Store { s.(dispatchers := map[1 := OWNER.(stoppedAt := Some(10)), 2 := RECLAIMER]) }

  lemma LiveIsReached()
    ensures Reached(LIVE)
  {
    EmptyIsReached();
    NextIsReached(EMPTY, RegisterDispatcher(OWNER), AfterRegister(EMPTY, OWNER));
    NextIsReached(AfterRegister(EMPTY, OWNER), RegisterDispatcher(RECLAIMER), LIVE);
  }

  lemma PooledIsReached()
    ensures Reached(POOLED)
  {
    LiveIsReached();
    NextIsReached(LIVE, PutEnvironment(BOOTED), POOLED);
  }

  lemma TheAcquireSucceeds()
    ensures AcquireOutcome(POOLED, ACQUIRE, 0).Acquired?
  {
  }

  lemma HeldIsReached()
    ensures Reached(HELD)
  {
    PooledIsReached();
    TheAcquireSucceeds();
    NextIsReached(POOLED, Acquire(ACQUIRE), HELD);
  }

  lemma StoppedIsReached()
    ensures Reached(Stopped(HELD))
  {
    HeldIsReached();
    NextIsReached(HELD, StopDispatcher(1, 10), Stopped(HELD));
  }

  /** A dispatcher that stopped renews a lease it still holds. */
  lemma StoppedOwnerStillRenews()
    ensures Reached(Stopped(HELD)) && !Stopped(HELD).dispatchers[1].IsLive() && Stopped(HELD).leases[7].owner == Some(1)
    ensures
      var renewed := AfterRenewLease(Stopped(HELD), 7, 1, 1, 200, 20);
      Stopped(HELD).leases[7].expiresAt == Some(100) && renewed.leases[7].expiresAt == Some(220)
  {
    StoppedIsReached();
  }

  const PASS := ReclaimRequest(2, 20, 5, {})

  /** A lease its owner's clock still trusts is taken, because the owner stopped. */
  lemma TrustedLeaseIsTaken()
    ensures Reached(Stopped(HELD)) && MayReclaim(Stopped(HELD), PASS)
    ensures 7 in TakenLeases(Stopped(HELD), PASS) && Stopped(HELD).leases[7].IsActive(PASS.now)
  {
    StoppedIsReached();
  }

  // ---------------------------------------------------------------- an acquire that writes a fence

  /** An acquire whose row carries a fence is accepted, and leaves a fenced environment with
      an unreleased lease. */
  lemma FencedRowIsAcquired()
    ensures Reached(POOLED)
    ensures
      var q := ACQUIRE.(env := BUSY.(fencedAt := Some(1)));
      && AcquireOutcome(POOLED, q, 0).Acquired?
      && AfterAcquire(POOLED, q, 0).environments[3].IsFenced() && AfterAcquire(POOLED, q, 0).leases[7].releasedAt.None?
  {
    PooledIsReached();
    TheAcquireSucceeds();
  }

  // ---------------------------------------------------------------- an acceptor that died

  const REQUEST := Request(6, 9, "f", None, 8, Sync, "http", None, "", 0, "", 0, Some(1))
  const ACCEPTED := Invocation(REQUEST, Accepted, Deadlines(500, None, None, 500), None, None, None, None, [])
  const RUNNING := Effect(ACCEPTED, MarkRunning(5, 600, 300), 1)
  const BOOTED_BY_2 := BOOTED.(owner := Some(2))
  const BUSY_FOR_2 := Assigned(BOOTED_BY_2, 1).value
  const LEASE_OF_2 := LEASE.(owner := Some(2))
  const ACQUIRE_BY_2 := SlotAcquire(BUSY_FOR_2, 0, LEASE_OF_2, ATTEMPT, Some(RUNNING))

  const WAITING := LIVE.(environments := map[3 := BOOTED_BY_2], invocations := map[6 := ACCEPTED])

  /** Dispatcher 2 runs, on its own environment, what dispatcher 1 accepted. */
  const HELPED := LIVE.(environments := map[3 := BUSY_FOR_2], leases := map[7 := LEASE_OF_2],
                        attempts := map[5 := ATTEMPT], invocations := map[6 := RUNNING])

  lemma WaitingIsReached()
    ensures Reached(WAITING)
  {
    LiveIsReached();
    var accepted := LIVE.(invocations := map[6 := ACCEPTED]);
    NextIsReached(LIVE, PutInvocation(ACCEPTED), accepted);
    NextIsReached(accepted, PutEnvironment(BOOTED_BY_2), WAITING);
  }

  lemma TheHelpIsAcquired()
    ensures AfterAcquire(WAITING, ACQUIRE_BY_2, 0) == HELPED
  {
    assert AcquireOutcome(WAITING, ACQUIRE_BY_2, 0).Acquired?;
  }

  lemma HelpedIsReached()
    ensures Reached(Stopped(HELPED))
  {
    WaitingIsReached();
    TheHelpIsAcquired();
    NextIsReached(WAITING, Acquire(ACQUIRE_BY_2), HELPED);
    NextIsReached(HELPED, StopDispatcher(1, 10), Stopped(HELPED));
  }

  lemma OnlyTheAcceptorIsDead()
    ensures MayReclaim(Stopped(HELPED), PASS) && Dead(Stopped(HELPED), PASS) == {1} && TakenLeases(Stopped(HELPED), PASS) == {}
  {
  }

  const UNKNOWN := InvocationError(ErrorClass.OutcomeUnknown, "Host.Restarted", "gateway restarted")

  /** The rows after the pass. */
  const ENDED := HELPED.(
    dispatchers := map[1 := OWNER.(stoppedAt := Some(10), reclaimedAt := Some(20)), 2 := RECLAIMER],
    attempts := map[5 := ATTEMPT.(status := AttemptOutcomeUnknown(UNKNOWN), finishedAt := Some(20))],
    invocations := map[6 := RUNNING.(status := InvocationStatus.OutcomeUnknown(UNKNOWN), finishedAt := Some(20))])

  lemma TheAttemptEnds()
    ensures AttemptsSettled(Stopped(HELPED), ENDED.attempts, {}, {1}, 20)
  {
    assert Covered(Stopped(HELPED), {}, {1}, 5);
    assert EndsAs(Stopped(HELPED), {}, 5, ENDED.attempts[5], 20);
  }

  lemma TheInvocationEnds()
    ensures InvocationsSettled(Stopped(HELPED), ENDED.invocations, {}, {1}, 20)
  {
  }

  lemma ThePassEndsTheRows()
    ensures Reclaimed(Stopped(HELPED), ENDED, PASS)
  {
    OnlyTheAcceptorIsDead();
    TheAttemptEnds();
    TheInvocationEnds();
  }

  lemma EveryPassEndsTheRows(after: Store)
    requires Reclaimed(Stopped(HELPED), after, PASS)
    ensures after.leases == HELPED.leases && after.environments == HELPED.environments
    ensures 5 in after.attempts && after.attempts[5].status.AttemptOutcomeUnknown?
    ensures 6 in after.invocations && after.invocations[6].status.OutcomeUnknown?
  {
    OnlyTheAcceptorIsDead();
  }

  /** The reclaimer's own attempt ends: the pass takes no lease and leaves the reclaimer's
      lease and environment as they are, yet the attempt under that lease and its running
      invocation end as outcome unknown, because the dispatcher that accepted it stopped. */
  lemma AttemptOfTheReclaimerIsEnded()
    ensures Reached(Stopped(HELPED)) && Next(Stopped(HELPED), Reclaim(PASS), ENDED, 0)
    ensures MayReclaim(Stopped(HELPED), PASS) && TakenLeases(Stopped(HELPED), PASS) == {}
    ensures
      var lease := ENDED.leases[7];
      lease.owner == Some(PASS.reclaimer) && lease.attemptId == 5 && lease.IsActive(PASS.now)
    ensures Stopped(HELPED).attempts[5].status.AttemptDispatched? && Stopped(HELPED).invocations[6].status.Running?
    ensures forall after :: Reclaimed(Stopped(HELPED), after, PASS) ==>
      && after.leases == HELPED.leases && after.environments == HELPED.environments
      && 5 in after.attempts && after.attempts[5].status.AttemptOutcomeUnknown?
      && 6 in after.invocations && after.invocations[6].status.OutcomeUnknown?
  {
    HelpedIsReached();
    OnlyTheAcceptorIsDead();
    ThePassEndsTheRows();
    forall after | Reclaimed(Stopped(HELPED), after, PASS)
      ensures after.leases == HELPED.leases && after.environments == HELPED.environments
      ensures 5 in after.attempts && after.attempts[5].status.AttemptOutcomeUnknown?
      ensures 6 in after.invocations && after.invocations[6].status.OutcomeUnknown?
    {
      EveryPassEndsTheRows(after);
    }
  }
}
