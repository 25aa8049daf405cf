/** What the writes of the store do, row by row. Every condition here is written on the rows,
    the request and the rows afterwards, not in the terms in which the writes are defined. */
module SlotLaws {
  import opened Prelude
  import opened EnvironmentModel
  import opened LeaseModel
  import opened InvocationModel
  import opened SlotStoreModel
  import opened SlotRuns

  // ---------------------------------------------------------------- reclaim: who is given up

  /** The reclaimer can prove its own lease. */
  predicate Stands(s: Store, q: ReclaimRequest) {
    q.reclaimer in s.dispatchers &&
    var d := s.dispatchers[q.reclaimer];
    d.stoppedAt.None? && d.reclaimedAt.None? && q.now < d.leaseExpiresAt
  }

  /** A pass by a reclaimer that can prove its lease, from a consistent store. */
  ghost predicate Pass(s: Store, s': Store, q: ReclaimRequest) {
    Consistent(s) && Stands(s, q) && Reclaimed(s, s', q)
  }

  /** A reclaimer that stopped, was reclaimed, is not registered or let its lease pass
      changes nothing. */
  lemma FrozenReclaimerChangesNothing(s: Store, s': Store, q: ReclaimRequest)
    requires Reclaimed(s, s', q) && !Stands(s, q)
    ensures s' == s
  {
  }

  /** A pass marks exactly the other dispatchers that stopped, were proven dead, or are past
      their expiry by the skew, and no row of them changes otherwise. */
  lemma GivenUpExactly(s: Store, s': Store, q: ReclaimRequest, d: DispatcherId)
    requires Pass(s, s', q) && d in s.dispatchers
    ensures d in s'.dispatchers
    ensures
      var before := s.dispatchers[d];
      s'.dispatchers[d] ==
        if d != q.reclaimer && before.reclaimedAt.None?
           && (before.stoppedAt.Some? || d in q.presumedDead || q.now >= before.leaseExpiresAt + q.skew)
        then before.(reclaimedAt := Some(q.now)) else before
  {
    assert s.dispatchers[d].id == d;
  }

  /** The owner is marked reclaimed after the pass. */
  predicate GivenUp(s': Store, owner: Option<DispatcherId>) {
    owner.Some? && owner.value in s'.dispatchers && s'.dispatchers[owner.value].reclaimedAt.Some?
  }

  lemma GivenUpIsDead(s: Store, s': Store, q: ReclaimRequest, owner: Option<DispatcherId>)
    requires Pass(s, s', q)
    ensures GivenUp(s', owner) <==> OwnerDead(owner, Dead(s, q))
  {
    if owner.Some? && owner.value in s.dispatchers {
      GivenUpExactly(s, s', q, owner.value);
    }
  }

  // ---------------------------------------------------------------- reclaim: leases and environments

  /** A pass releases exactly the unreleased leases of other owners it gave up, and those past
      their ownership expiry by the skew. */
  lemma ReleasedExactly(s: Store, s': Store, q: ReclaimRequest, l: LeaseId)
    requires Pass(s, s', q) && l in s.leases
    ensures l in s'.leases
    ensures
      var lease := s.leases[l];
      s'.leases[l] ==
        if lease.releasedAt.None? && lease.owner.Some? && lease.owner.value != q.reclaimer
           && (GivenUp(s', lease.owner) || (lease.expiresAt.Some? && q.now >= lease.expiresAt.value + q.skew))
        then lease.(releasedAt := Some(q.now)) else lease
  {
    GivenUpIsDead(s, s', q, s.leases[l].owner);
  }

  predicate JustReleased(s: Store, s': Store, l: LeaseId) {
    l in s.leases && l in s'.leases && s.leases[l].releasedAt.None? && s'.leases[l].releasedAt.Some?
  }

  /** These are the leases released between the two stores. */
  ghost predicate AreReleased(s: Store, s': Store, taken: set<LeaseId>) {
    taken <= s.leases.Keys && forall l :: l in taken <==> JustReleased(s, s', l)
  }

  lemma TakenAreReleased(s: Store, s': Store, q: ReclaimRequest)
    requires Pass(s, s', q)
    ensures AreReleased(s, s', TakenLeases(s, q))
  {
  }

  predicate Ended(e: Environment) { e.state.Stopped? || e.state.Failed? || e.state.Lost? }

  /** The pass released a lease on the environment at its current epoch. */
  ghost predicate LostItsLease(s: Store, s': Store, e: EnvironmentId)
    requires e in s.environments
  {
    exists l :: JustReleased(s, s', l) && s.leases[l].environmentId == e && s.leases[l].epoch == s.environments[e].epoch
  }

  lemma InterruptedIsLost(s: Store, s': Store, taken: set<LeaseId>, e: EnvironmentId)
    requires AreReleased(s, s', taken) && e in s.environments
    ensures Interrupted(s, taken, e) <==> LostItsLease(s, s', e)
  {
    if Interrupted(s, taken, e) {
      var l :| l in taken && Holds(s, l, e);
      assert JustReleased(s, s', l);
    }
    if LostItsLease(s, s', e) {
      var l :| JustReleased(s, s', l) && s.leases[l].environmentId == e && s.leases[l].epoch == s.environments[e].epoch;
      assert Holds(s, l, e);
    }
  }

  /** A pass fences exactly the open, unfenced environments it released the current lease of,
      or whose owner it gave up: draining, at the next epoch, with the time of the pass. */
  lemma FencedExactly(s: Store, s': Store, q: ReclaimRequest, e: EnvironmentId)
    requires Pass(s, s', q) && e in s.environments
    ensures e in s'.environments
    ensures
      var before := s.environments[e];
      s'.environments[e] ==
        if before.fencedAt.None? && !Ended(before) && (LostItsLease(s, s', e) || GivenUp(s', before.owner))
        then before.(state := Draining, idleSince := None, epoch := before.epoch + 1, fencedAt := Some(q.now), updatedAt := q.now)
        else before
  {
    GivenUpIsDead(s, s', q, s.environments[e].owner);
    TakenAreReleased(s, s', q);
    InterruptedIsLost(s, s', TakenLeases(s, q), e);
  }

  // ---------------------------------------------------------------- reclaim: invocations and attempts

  predicate Open(i: Invocation) { i.status.Accepted? || i.status.Queued? || i.status.Running? }

  /** The lease is for the last attempt of the invocation. */
  predicate ForLastAttempt(s: Store, l: LeaseId, i: InvocationId)
    requires l in s.leases && i in s.invocations
  {
    var a, ids := s.leases[l].attemptId, s.invocations[i].attemptIds;
    a in s.attempts && s.attempts[a].invocationId == i && ids != [] && a == ids[|ids| - 1]
  }

  /** The pass released the lease of the open invocation's last attempt, or gave up the
      dispatcher that accepted it. */
  ghost predicate LostItsRun(s: Store, s': Store, i: InvocationId)
    requires i in s.invocations
  {
    Open(s.invocations[i])
    && (GivenUp(s', s.invocations[i].request.dispatcherId) || exists l :: JustReleased(s, s', l) && ForLastAttempt(s, l, i))
  }

  lemma RunUnderIsLost(s: Store, s': Store, taken: set<LeaseId>, i: InvocationId)
    requires AreReleased(s, s', taken) && i in s.invocations
    ensures RunUnder(s, taken, i) <==> exists l :: JustReleased(s, s', l) && ForLastAttempt(s, l, i)
  {
    if RunUnder(s, taken, i) {
      var l :| l in taken && Drives(s, l, i);
      assert JustReleased(s, s', l) && ForLastAttempt(s, l, i);
    }
    if l :| JustReleased(s, s', l) && ForLastAttempt(s, l, i) {
      assert Drives(s, l, i);
    }
  }

  lemma CoveredIsLost(s: Store, s': Store, q: ReclaimRequest, i: InvocationId)
    requires Pass(s, s', q) && i in s.invocations
    ensures LostItsRun(s, s', i) <==>
      && !s.invocations[i].status.IsTerminal()
      && (RunUnder(s, TakenLeases(s, q), i) || OwnerDead(s.invocations[i].request.dispatcherId, Dead(s, q)))
  {
    GivenUpIsDead(s, s', q, s.invocations[i].request.dispatcherId);
    TakenAreReleased(s, s', q);
    RunUnderIsLost(s, s', TakenLeases(s, q), i);
  }

  /** A pass ends exactly the synchronous invocations that lost their run: a running one with
      its outcome unknown, any other as a failure of the platform. */
  lemma EndedInvocationsExactly(s: Store, s': Store, q: ReclaimRequest, i: InvocationId)
    requires Pass(s, s', q) && i in s.invocations
    ensures i in s'.invocations
    ensures
      var before, after := s.invocations[i], s'.invocations[i];
      if before.request.mode.Sync? && LostItsRun(s, s', i) then
        && after == before.(status := after.status, finishedAt := Some(q.now))
        && (if before.status.Running? then after.status.OutcomeUnknown? && after.status.error.errorClass.OutcomeUnknown?
            else after.status.Failed? && after.status.error.errorClass.PlatformError?)
      else after == before
  {
    CoveredIsLost(s, s', q, i);
  }

  /** The pass released a lease for this attempt. */
  ghost predicate LostIts(s: Store, s': Store, a: AttemptId) {
    exists l :: JustReleased(s, s', l) && s.leases[l].attemptId == a
  }

  lemma NamedIsLost(s: Store, s': Store, taken: set<LeaseId>, a: AttemptId)
    requires AreReleased(s, s', taken)
    ensures Named(s, taken, a) <==> LostIts(s, s', a)
  {
    if Named(s, taken, a) {
      var l :| l in taken && s.leases[l].attemptId == a;
      assert JustReleased(s, s', l);
    }
    if LostIts(s, s', a) {
      var l :| JustReleased(s, s', l) && s.leases[l].attemptId == a;
      assert l in taken;
    }
  }

  /** A pass ends exactly the open attempts whose lease it released or whose invocation lost
      its run. */
  lemma EndedAttemptsExactly(s: Store, s': Store, q: ReclaimRequest, a: AttemptId)
    requires Pass(s, s', q) && a in s.attempts
    ensures a in s'.attempts
    ensures
      var before, after := s.attempts[a], s'.attempts[a];
      if before.status.AttemptDispatched?
         && (LostIts(s, s', a) || (before.invocationId in s.invocations && LostItsRun(s, s', before.invocationId)))
      then after == before.(status := after.status, finishedAt := Some(q.now))
           && ((after.status.AttemptOutcomeUnknown? && after.status.error.errorClass.OutcomeUnknown?)
               || (after.status.AttemptFailed? && after.status.error.errorClass.PlatformError?))
      else after == before
  {
    TakenAreReleased(s, s', q);
    NamedIsLost(s, s', TakenLeases(s, q), a);
    if s.attempts[a].invocationId in s.invocations {
      CoveredIsLost(s, s', q, s.attempts[a].invocationId);
    }
  }

  /** No released lease for the attempt has an id up to this one. */
  ghost predicate ComesFirst(s: Store, s': Store, a: AttemptId, l: LeaseId) {
    forall m :: JustReleased(s, s', m) && s.leases[m].attemptId == a ==> l < m
  }

  ghost predicate EndsBefore(s: Store, s': Store, a: AttemptId, l: LeaseId)
    requires a in s.attempts && s.attempts[a].invocationId in s.invocations
  {
    JustReleased(s, s', l) && ForLastAttempt(s, l, s.attempts[a].invocationId) && ComesFirst(s, s', a, l)
  }

  /** A released lease ended the open run of the attempt's invocation before any released
      lease for the attempt itself came up. */
  ghost predicate EndedBefore(s: Store, s': Store, a: AttemptId)
    requires a in s.attempts
  {
    var i := s.attempts[a].invocationId;
    i in s.invocations && Open(s.invocations[i]) && exists l :: EndsBefore(s, s', a, l)
  }

  lemma OvertakesEndsBefore(s: Store, s': Store, taken: set<LeaseId>, a: AttemptId, l: LeaseId)
    requires AreReleased(s, s', taken) && a in s.attempts && s.attempts[a].invocationId in s.invocations
    ensures EndsBefore(s, s', a, l) <==> Overtakes(s, taken, a, l)
  {
  }

  lemma OvertakenIsEndedBefore(s: Store, s': Store, taken: set<LeaseId>, a: AttemptId)
    requires AreReleased(s, s', taken) && a in s.attempts
    ensures Overtaken(s, taken, a) <==> EndedBefore(s, s', a)
  {
    if s.attempts[a].invocationId in s.invocations {
      forall l: LeaseId ensures EndsBefore(s, s', a, l) <==> Overtakes(s, taken, a, l) {
        OvertakesEndsBefore(s, s', taken, a, l);
      }
    }
  }

  /** Attempts of running invocations end as unknown, and so do those whose own lease was
      released, unless a lease with a smaller id already ended the invocation's open run. */
  lemma AttemptsEndUnknown(s: Store, s': Store, q: ReclaimRequest, a: AttemptId)
    requires Pass(s, s', q) && a in s.attempts && a in s'.attempts && s'.attempts[a] != s.attempts[a]
    ensures
      var i := s.attempts[a].invocationId;
      i in s.invocations && s.invocations[i].status.Running? ==> s'.attempts[a].status.AttemptOutcomeUnknown?
    ensures
      var i := s.attempts[a].invocationId;
      !(i in s.invocations && s.invocations[i].status.Running?) ==>
        (s'.attempts[a].status.AttemptOutcomeUnknown? <==> LostIts(s, s', a) && !EndedBefore(s, s', a))
  {
    TakenAreReleased(s, s', q);
    NamedIsLost(s, s', TakenLeases(s, q), a);
    OvertakenIsEndedBefore(s, s', TakenLeases(s, q), a);
  }

  // ---------------------------------------------------------------- reclaim: a dispatcher that crashed

  /** Stopped, proven dead, or past its expiry by the skew, now or in an earlier pass. */
  predicate Gone(row: Dispatcher, q: ReclaimRequest, d: DispatcherId) {
    row.reclaimedAt.Some? || row.stoppedAt.Some? || d in q.presumedDead || q.now >= row.leaseExpiresAt + q.skew
  }

  lemma GoneIsGivenUp(s: Store, s': Store, q: ReclaimRequest, d: DispatcherId)
    requires Pass(s, s', q) && d in s.dispatchers && d != q.reclaimer && Gone(s.dispatchers[d], q, d)
    ensures GivenUp(s', Some(d))
  {
    GivenUpExactly(s, s', q, d);
  }

  lemma GivenUpHoldsNothing(s: Store, s': Store, q: ReclaimRequest, d: DispatcherId)
    requires Pass(s, s', q) && d != q.reclaimer && GivenUp(s', Some(d))
    ensures forall l :: l in s.leases && s.leases[l].owner == Some(d) ==> l in s'.leases && s'.leases[l].releasedAt.Some?
  {
    forall l | l in s.leases && s.leases[l].owner == Some(d) ensures l in s'.leases && s'.leases[l].releasedAt.Some? {
      ReleasedExactly(s, s', q, l);
    }
  }

  lemma GivenUpServesNothing(s: Store, s': Store, q: ReclaimRequest, d: DispatcherId)
    requires Pass(s, s', q) && GivenUp(s', Some(d))
    ensures forall e :: e in s.environments && s.environments[e].owner == Some(d) ==>
      e in s'.environments && (s'.environments[e].fencedAt.Some? || Ended(s'.environments[e]))
  {
    forall e | e in s.environments && s.environments[e].owner == Some(d)
      ensures e in s'.environments && (s'.environments[e].fencedAt.Some? || Ended(s'.environments[e]))
    {
      FencedExactly(s, s', q, e);
    }
  }

  lemma GivenUpRunsNothing(s: Store, s': Store, q: ReclaimRequest, d: DispatcherId)
    requires Pass(s, s', q) && GivenUp(s', Some(d))
    ensures forall i :: i in s.invocations && s.invocations[i].request.dispatcherId == Some(d)
                        && s.invocations[i].request.mode.Sync? ==>
      i in s'.invocations && !Open(s'.invocations[i])
  {
    forall i | i in s.invocations && s.invocations[i].request.dispatcherId == Some(d) && s.invocations[i].request.mode.Sync?
      ensures i in s'.invocations && !Open(s'.invocations[i])
    {
      EndedInvocationsExactly(s, s', q, i);
    }
  }

  /** What a dispatcher that is gone leaves behind is cleaned up by one pass: it is marked
      reclaimed, every lease it owned is released, every environment it owned is fenced or had
      ended, and every synchronous invocation it accepted is settled. */
  lemma GoneDispatcherIsCleanedUp(s: Store, s': Store, q: ReclaimRequest, d: DispatcherId)
    requires Pass(s, s', q) && d in s.dispatchers && d != q.reclaimer && Gone(s.dispatchers[d], q, d)
    ensures d in s'.dispatchers && s'.dispatchers[d].reclaimedAt.Some?
    ensures forall l :: l in s.leases && s.leases[l].owner == Some(d) ==> l in s'.leases && s'.leases[l].releasedAt.Some?
    ensures forall e :: e in s.environments && s.environments[e].owner == Some(d) ==>
      e in s'.environments && (s'.environments[e].fencedAt.Some? || Ended(s'.environments[e]))
    ensures forall i :: i in s.invocations && s.invocations[i].request.dispatcherId == Some(d)
                        && s.invocations[i].request.mode.Sync? ==>
      i in s'.invocations && !Open(s'.invocations[i])
  {
    GoneIsGivenUp(s, s', q, d);
    GivenUpHoldsNothing(s, s', q, d);
    GivenUpServesNothing(s, s', q, d);
    GivenUpRunsNothing(s, s', q, d);
  }

  /** The reclaimer, and a dispatcher that is not gone, keep their rows. */
  lemma PresentDispatcherKeepsItsRow(s: Store, s': Store, q: ReclaimRequest, d: DispatcherId)
    requires Pass(s, s', q) && d in s.dispatchers
    requires d == q.reclaimer || !Gone(s.dispatchers[d], q, d)
    ensures d in s'.dispatchers && s'.dispatchers[d] == s.dispatchers[d]
  {
    GivenUpExactly(s, s', q, d);
  }

  // ---------------------------------------------------------------- acquire

  /** The three rows of the request agree on the next epoch, the environment and the attempt;
      the lease is new and owned, and the environment row is busy. */
  predicate Agrees(q: SlotAcquire) {
    && q.env.epoch == q.expectedEpoch + 1 && q.lease.epoch == q.expectedEpoch + 1 && q.attempt.epoch == q.expectedEpoch + 1
    && q.lease.environmentId == q.env.identity.id && q.attempt.environmentId == q.env.identity.id
    && q.lease.attemptId == q.attempt.id
    && q.lease.owner.Some? && q.lease.expiresAt.Some? && q.lease.releasedAt.None?
    && q.env.state == Busy
  }

  /** The stored row waits for an assignment at the expected epoch, and belongs to the owner. */
  predicate Waits(stored: Environment, q: SlotAcquire) {
    && (stored.state == Ready || stored.state == Idle)
    && stored.fencedAt.None? && stored.epoch == q.expectedEpoch && stored.owner == q.lease.owner
  }

  /** A registered dispatcher that neither stopped nor was reclaimed. */
  predicate Serves(s: Store, owner: Option<DispatcherId>) {
    owner.Some? && owner.value in s.dispatchers
    && s.dispatchers[owner.value].stoppedAt.None? && s.dispatchers[owner.value].reclaimedAt.None?
  }

  predicate NoneHeld(s: Store, e: EnvironmentId) {
    forall l :: l in s.leases && s.leases[l].environmentId == e ==> s.leases[l].releasedAt.Some?
  }

  /** Everything of a request but the revision. */
  predicate SameCall(a: Request, b: Request) {
    && a.id == b.id && a.tenantId == b.tenantId && a.functionId == b.functionId && a.alias == b.alias
    && a.mode == b.mode && a.eventKind == b.eventKind && a.idempotencyKey == b.idempotencyKey
    && a.inputDigest == b.inputDigest && a.inputSizeBytes == b.inputSizeBytes && a.traceId == b.traceId
    && a.acceptedAt == b.acceptedAt && a.dispatcherId == b.dispatcherId
  }

  /** An inline output has at most `maxBytes` bytes, and a text no longer than the base64 form
      of that many. */
  ghost predicate Fits(output: Option<PayloadRef>, maxBytes: nat) {
    output.Some? && output.value.Inline? ==>
      output.value.size <= maxBytes && forall k: nat :: 3 * k >= maxBytes ==> |output.value.bytesBase64| <= 4 * k
  }

  lemma FitsIsBounded(i: Invocation, maxBytes: nat)
    ensures Fits(i.output, maxBytes) <==> BoundedOutput(i, maxBytes)
  {
    if Fits(i.output, maxBytes) && i.output.Some? && i.output.value.Inline? {
      assert 3 * ((maxBytes + 2) / 3) >= maxBytes;
    }
  }

  /** An open invocation takes this row: the same call, and an output that fits. */
  ghost predicate Takes(stored: Invocation, row: Invocation, maxBytes: nat) {
    SameCall(stored.request, row.request) && (row == stored || (Open(stored) && Fits(row.output, maxBytes)))
  }

  lemma TakesIsWritable(stored: Invocation, row: Invocation, maxBytes: nat)
    ensures Takes(stored, row, maxBytes) <==> InvocationWritable(stored, row, maxBytes)
  {
    FitsIsBounded(row, maxBytes);
  }

  ghost predicate FreshIds(s: Store, q: SlotAcquire) {
    q.attempt.id !in s.attempts && q.lease.id !in s.leases
  }

  ghost predicate OneTenant(s: Store, q: SlotAcquire, stored: Environment) {
    && stored.identity.tenantId == q.lease.tenantId
    && (q.attempt.invocationId in s.invocations ==>
          s.invocations[q.attempt.invocationId].request.tenantId == q.attempt.tenantId)
  }

  /** The answer to a request whose rows do not fit what is stored: malformed or foreign rows
      are refused, a missing environment is not found, and a slot somebody else has is lost. */
  lemma AcquireAnswersForTheSlot(s: Store, q: SlotAcquire, maxBytes: nat)
    ensures
      var id, r := q.env.identity.id, AcquireOutcome(s, q, maxBytes);
      && (!Agrees(q) ==> r == AcquireFailed(Refused))
      && (Agrees(q) && id !in s.environments ==> r == AcquireFailed(NotFound))
      && (Agrees(q) && id in s.environments ==>
            var stored := s.environments[id];
            if stored.identity != q.env.identity || stored.owner != q.env.owner then r == AcquireFailed(Refused)
            else !(Waits(stored, q) && Serves(s, q.lease.owner) && NoneHeld(s, id)) ==> r == SlotLost)
  {
  }

  /** The answer once the slot is free: about the invocation, the new ids and the tenants. */
  lemma AcquireAnswersForTheRows(s: Store, q: SlotAcquire, maxBytes: nat)
    requires Agrees(q) && q.env.identity.id in s.environments
    requires
      var stored := s.environments[q.env.identity.id];
      && stored.identity == q.env.identity && stored.owner == q.env.owner
      && Waits(stored, q) && Serves(s, q.lease.owner) && NoneHeld(s, q.env.identity.id)
    ensures
      var r := AcquireOutcome(s, q, maxBytes);
      if q.invocation.Some? && q.invocation.value.request.id !in s.invocations then r == AcquireFailed(NotFound)
      else if q.invocation.Some? && !Open(s.invocations[q.invocation.value.request.id]) then r == SlotLost
      else if q.invocation.Some? && !Takes(s.invocations[q.invocation.value.request.id], q.invocation.value, maxBytes) then
        r == AcquireFailed(Refused)
      else if !FreshIds(s, q) then r == AcquireFailed(Conflict)
      else r == if OneTenant(s, q, s.environments[q.env.identity.id]) then Acquired else AcquireFailed(Refused)
  {
    if q.invocation.Some? && q.invocation.value.request.id in s.invocations {
      TakesIsWritable(s.invocations[q.invocation.value.request.id], q.invocation.value, maxBytes);
    }
  }

  /** What an accepted acquire found: a row that waits at the expected epoch and is of the
      owner, a serving owner, no lease held, an open invocation and fresh ids. */
  lemma AcquireFinds(s: Store, q: SlotAcquire, maxBytes: nat)
    requires AcquireOutcome(s, q, maxBytes).Acquired?
    ensures Agrees(q) && Serves(s, q.lease.owner) && FreshIds(s, q) && NoneHeld(s, q.env.identity.id)
    ensures
      var id := q.env.identity.id;
      && id in s.environments && Waits(s.environments[id], q) && OneTenant(s, q, s.environments[id])
      && s.environments[id].identity == q.env.identity && s.environments[id].owner == q.env.owner
    ensures q.invocation.Some? ==>
      var id := q.invocation.value.request.id;
      id in s.invocations && Open(s.invocations[id]) && Takes(s.invocations[id], q.invocation.value, maxBytes)
  {
    AcquireAnswersForTheSlot(s, q, maxBytes);
    AcquireAnswersForTheRows(s, q, maxBytes);
  }

  /** An accepted acquire stores its four rows and nothing else. */
  lemma AcquireWrites(s: Store, q: SlotAcquire, maxBytes: nat)
    ensures
      var s' := AfterAcquire(s, q, maxBytes);
      if AcquireOutcome(s, q, maxBytes).Acquired? then
        && s'.environments == s.environments[q.env.identity.id := q.env]
        && s'.leases == s.leases[q.lease.id := q.lease]
        && s'.attempts == s.attempts[q.attempt.id := q.attempt]
        && s'.dispatchers == s.dispatchers
        && (q.invocation.Some? ==> s'.invocations == s.invocations[q.invocation.value.request.id := q.invocation.value])
        && (q.invocation.None? ==> s'.invocations == s.invocations)
      else s' == s
  {
  }

  // ---------------------------------------------------------------- complete

  /** The lease is held for this attempt at this epoch, and the environment, if it is stored,
      is at that epoch and unfenced. */
  predicate Current(s: Store, l: LeaseId, attempt: AttemptId, epoch: nat) {
    && l in s.leases && s.leases[l].releasedAt.None? && s.leases[l].attemptId == attempt && s.leases[l].epoch == epoch
    && (s.leases[l].environmentId in s.environments ==>
          && s.environments[s.leases[l].environmentId].epoch == epoch
          && s.environments[s.leases[l].environmentId].fencedAt.None?)
  }

  /** The same dispatch of the same attempt. */
  predicate SameTry(a: Attempt, b: Attempt) {
    b == a.(status := b.status, finishedAt := b.finishedAt)
  }

  /** The answer to a completion, whatever the store holds: stale without a current lease or
      once attempt or invocation is settled, an error for rows that are not stored or are
      others, and otherwise accepted. */
  lemma CompleteAnswersExactly(s: Store, c: SlotCompletion, maxBytes: nat)
    ensures
      var r, a := CompleteOutcome(s, c, maxBytes), c.attempt.id;
      if !Current(s, c.leaseId, a, c.attempt.epoch) then r == Stale
      else if a !in s.attempts then r == CompleteFailed(NotFound)
      else if !s.attempts[a].status.AttemptDispatched? then r == Stale
      else if !SameTry(s.attempts[a], c.attempt) then r == CompleteFailed(Refused)
      else if c.invocation.Some? && c.invocation.value.request.id !in s.invocations then r == CompleteFailed(NotFound)
      else if c.invocation.Some? && !Open(s.invocations[c.invocation.value.request.id]) then r == Stale
      else if c.invocation.Some? && !Takes(s.invocations[c.invocation.value.request.id], c.invocation.value, maxBytes) then
        r == CompleteFailed(Refused)
      else r == Completed
  {
    if c.invocation.Some? && c.invocation.value.request.id in s.invocations {
      TakesIsWritable(s.invocations[c.invocation.value.request.id], c.invocation.value, maxBytes);
    }
  }

  /** An accepted completion stores its attempt row, releases its lease, stores the invocation
      row it carries under its id, and leaves every other row. */
  lemma CompleteWrites(s: Store, c: SlotCompletion, maxBytes: nat)
    requires CompleteOutcome(s, c, maxBytes).Completed?
    ensures
      var s' := AfterComplete(s, c, maxBytes);
      && s'.leases == s.leases[c.leaseId := s.leases[c.leaseId].(releasedAt := Some(c.now))]
      && s'.attempts == s.attempts[c.attempt.id := c.attempt]
      && s'.environments == s.environments && s'.dispatchers == s.dispatchers
      && s'.invocations.Keys == s.invocations.Keys
      && (forall i :: i in s.invocations && (c.invocation.None? || i != c.invocation.value.request.id) ==>
            s'.invocations[i] == s.invocations[i])
      && (c.invocation.Some? ==>
            c.invocation.value.request.id in s'.invocations
            && s'.invocations[c.invocation.value.request.id] == c.invocation.value)
  {
    CompleteAnswersExactly(s, c, maxBytes);
  }

  /** A completion that was not accepted changes nothing. */
  lemma RefusedCompletionChangesNothing(s: Store, c: SlotCompletion, maxBytes: nat)
    requires !CompleteOutcome(s, c, maxBytes).Completed?
    ensures AfterComplete(s, c, maxBytes) == s
  {
  }

  /** The result of an accepted completion is kept for good: every later store holds exactly
      the settled invocation row it carried. */
  lemma ResultIsKept(states: seq<Store>, steps: seq<Step>, maxBytes: nat, at: nat, till: nat)
    requires Execution(states, steps, maxBytes) && states[0] == EMPTY && at < till < |states|
    requires steps[at].Complete? && CompleteOutcome(states[at], steps[at].completion, maxBytes).Completed?
    requires
      var c := steps[at].completion;
      c.invocation.Some? && !Open(c.invocation.value)
    ensures
      var i := steps[at].completion.invocation.value;
      i.request.id in states[till].invocations && states[till].invocations[i.request.id] == i
  {
    var c := steps[at].completion;
    CompleteOfARun(states, steps, maxBytes, at);
    CompleteWrites(states[at], c, maxBytes);
    InvocationsSettleOnce(states, steps, maxBytes, at + 1, till, c.invocation.value.request.id);
  }

  lemma CompleteOfARun(states: seq<Store>, steps: seq<Step>, maxBytes: nat, at: nat)
    requires Execution(states, steps, maxBytes) && at < |steps| && steps[at].Complete?
    ensures states[at + 1] == AfterComplete(states[at], steps[at].completion, maxBytes)
  {
    assert Next(states[at], steps[at], states[at + 1], maxBytes);
  }

  // ---------------------------------------------------------------- leases and heartbeats

  /** A release takes effect exactly under a current lease, and records the instant. */
  lemma ReleasesExactly(s: Store, l: LeaseId, attempt: AttemptId, epoch: nat, now: Timestamp)
    ensures AfterReleaseLease(s, l, attempt, epoch, now) ==
      if Current(s, l, attempt, epoch) then s.(leases := s.leases[l := s.leases[l].(releasedAt := Some(now))]) else s
  {
  }

  /** The instant until which the owner trusts the lease. */
  function TrustedUntil(l: Lease): Timestamp {
    if l.expiresAt.Some? then l.expiresAt.value else l.deadline
  }

  /** The row of a lease extended at `now`: to `ttl` from now, or not at all when its ownership
      expiry is already later. */
  predicate ExtendedTo(before: Lease, after: Lease, now: Timestamp, ttl: Duration) {
    after == before.(expiresAt := after.expiresAt) && after.expiresAt.Some?
    && if before.expiresAt.Some? && before.expiresAt.value > now + ttl then after.expiresAt == before.expiresAt
       else after.expiresAt.value == now + ttl
  }

  /** One lease is renewed exactly by its owner, at its epoch, while it is unreleased and
      trusted. */
  lemma RenewsExactly(s: Store, l: LeaseId, owner: DispatcherId, epoch: nat, ttl: Duration, now: Timestamp)
    ensures
      var s' := AfterRenewLease(s, l, owner, epoch, ttl, now);
      if l in s.leases && s.leases[l].owner == Some(owner) && s.leases[l].epoch == epoch
         && s.leases[l].releasedAt.None? && now < TrustedUntil(s.leases[l])
      then l in s'.leases && ExtendedTo(s.leases[l], s'.leases[l], now, ttl) && s' == s.(leases := s.leases[l := s'.leases[l]])
      else s' == s
  {
  }

  /** A heartbeat counts exactly for a serving dispatcher within its own expiry, and a revival
      for any serving one. */
  predicate Beats(s: Store, id: DispatcherId, now: Timestamp, revive: bool) {
    Serves(s, Some(id)) && (revive || now < s.dispatchers[id].leaseExpiresAt)
  }

  lemma HeartbeatWithoutEffect(s: Store, id: DispatcherId, ttl: Duration, now: Timestamp, revive: bool)
    requires !Beats(s, id, now, revive)
    ensures AfterHeartbeat(s, id, ttl, now, revive) == s
  {
  }

  /** It extends the dispatcher's row, and of the leases exactly its own unreleased ones that
      are still trusted, or with revival all its unreleased ones. */
  lemma HeartbeatExtendsExactly(s: Store, id: DispatcherId, ttl: Duration, now: Timestamp, revive: bool, l: LeaseId)
    requires Beats(s, id, now, revive) && l in s.leases
    ensures
      var s' := AfterHeartbeat(s, id, ttl, now, revive);
      && l in s'.leases
      && if s.leases[l].owner == Some(id) && s.leases[l].releasedAt.None? && (revive || now < TrustedUntil(s.leases[l]))
         then ExtendedTo(s.leases[l], s'.leases[l], now, ttl) else s'.leases[l] == s.leases[l]
  {
  }

  lemma HeartbeatWritesItsRow(s: Store, id: DispatcherId, ttl: Duration, now: Timestamp, revive: bool)
    requires Beats(s, id, now, revive)
    ensures
      var s' := AfterHeartbeat(s, id, ttl, now, revive);
      && id in s'.dispatchers && s' == s.(dispatchers := s.dispatchers[id := s'.dispatchers[id]], leases := s'.leases)
      && s'.leases.Keys == s.leases.Keys
      && var before, after := s.dispatchers[id], s'.dispatchers[id];
         && after == before.(heartbeatAt := now, leaseExpiresAt := after.leaseExpiresAt)
         && after.leaseExpiresAt >= before.leaseExpiresAt && after.leaseExpiresAt >= now + ttl
         && (after.leaseExpiresAt == before.leaseExpiresAt || after.leaseExpiresAt == now + ttl)
  {
  }

  /** The first stop is recorded, a later one or one of nobody changes nothing. */
  lemma StopsOnce(s: Store, d: DispatcherId, now: Timestamp)
    ensures AfterStop(s, d, now) ==
      if d in s.dispatchers && s.dispatchers[d].stoppedAt.None?
      then s.(dispatchers := s.dispatchers[d := s.dispatchers[d].(stoppedAt := Some(now))]) else s
  {
  }

  // ---------------------------------------------------------------- the pool

  /** An idle row with this key, of this owner. */
  predicate Fitting(e: Environment, key: ReuseKey, owner: Option<DispatcherId>) {
    && e.state == Idle && e.owner == owner
    && e.identity.reuseKey.tenantId == key.tenantId && e.identity.reuseKey.revisionId == key.revisionId
    && e.identity.reuseKey.executionRoleVersion == key.executionRoleVersion
    && e.identity.reuseKey.configurationVersion == key.configurationVersion
    && e.identity.reuseKey.resourceProfileDigest == key.resourceProfileDigest
    && e.identity.reuseKey.runtimeProfile == key.runtimeProfile
    && e.identity.reuseKey.networkPolicyVersion == key.networkPolicyVersion
    && e.identity.reuseKey.secretBindingGeneration == key.secretBindingGeneration
  }

  /** The row at `e` is the fitting one with the smallest id. */
  ghost predicate FirstFitting(s: Store, e: EnvironmentId, key: ReuseKey, owner: Option<DispatcherId>) {
    && e in s.environments && Fitting(s.environments[e], key, owner)
    && forall f :: f in s.environments && Fitting(s.environments[f], key, owner) ==> e <= f
  }

  lemma FirstFittingIsFirst(s: Store, e: EnvironmentId, key: ReuseKey, owner: Option<DispatcherId>)
    ensures FirstFitting(s, e, key, owner) <==> IsFirst(e, Matching(s, key, owner))
  {
    forall f | f in s.environments ensures Fitting(s.environments[f], key, owner) <==> f in Matching(s, key, owner) {
    }
  }

  /** A claim takes the fitting row with the smallest id, ready at the same epoch and no longer
      idle, and touches no other. */
  lemma ClaimTakesTheFirstFitting(s: Store, s': Store, key: ReuseKey, owner: Option<DispatcherId>, now: Timestamp, env: Environment)
    requires Claimed(s, s', key, owner, now, Some(env))
    ensures exists e :: FirstFitting(s, e, key, owner) && s.environments[e].fencedAt.None?
                        && s' == s.(environments := s.environments[e := env])
                        && env == s.environments[e].(state := Ready, idleSince := None, updatedAt := now, readyAt := env.readyAt)
                        && (s.environments[e].readyAt.Some? ==> env.readyAt == s.environments[e].readyAt)
                        && (s.environments[e].readyAt.None? ==> env.readyAt == Some(now))
  {
    var e :| IsFirst(e, Matching(s, key, owner)) && Reserved(s.environments[e], now) == Success(env)
      && s' == s.(environments := s.environments[e := env]);
    FirstFittingIsFirst(s, e, key, owner);
  }

  /** A claim comes back empty exactly when no row fits, or the first that does is fenced. */
  lemma ClaimIsEmptyExactly(s: Store, s': Store, key: ReuseKey, owner: Option<DispatcherId>, now: Timestamp, r: Option<Environment>)
    requires Claimed(s, s', key, owner, now, r)
    ensures r.None? <==> forall e :: FirstFitting(s, e, key, owner) ==> s.environments[e].fencedAt.Some?
    ensures r.None? ==> s' == s
  {
    forall e: EnvironmentId ensures FirstFitting(s, e, key, owner) <==> IsFirst(e, Matching(s, key, owner)) {
      FirstFittingIsFirst(s, e, key, owner);
    }
    if r.Some? {
      ClaimTakesTheFirstFitting(s, s', key, owner, now, r.value);
    }
  }

  /** An environment that just served at its epoch, or one that was started ahead and never did. */
  predicate Served(stored: Environment, epoch: nat) {
    && stored.epoch == epoch && stored.fencedAt.None?
    && (stored.state == Busy || (stored.state == Ready && stored.epoch == 0))
  }

  /** Room for one more idle environment, in all and with this key. */
  predicate Room(s: Store, key: ReuseKey, limits: PoolLimits) {
    && |set e | e in s.environments && s.environments[e].state == Idle| < limits.maxTotalIdle
    && |set e | e in s.environments && s.environments[e].state == Idle && s.environments[e].identity.reuseKey == key|
         < limits.maxIdlePerKey
  }

  lemma RoomIsCounted(s: Store, key: ReuseKey, limits: PoolLimits)
    ensures Room(s, key, limits) <==> IdleCount(s) < limits.maxTotalIdle && IdlePerKey(s, key) < limits.maxIdlePerKey
  {
    assert (set e | e in s.environments && s.environments[e].state == Idle) == Pooled(s);
    assert (set e | e in s.environments && s.environments[e].state == Idle && s.environments[e].identity.reuseKey == key)
        == PooledWith(s, key);
  }

  /** A park happens exactly for an environment that served, with no lease held on it, with
      room in the pool, for a copy that is ready or busy; it is refused when the copy is of
      another environment or fenced. */
  lemma ParksExactly(s: Store, env: Environment, limits: PoolLimits, now: Timestamp)
    ensures
      var id, r, s' := env.identity.id, ParkOutcome(s, env, limits, now), AfterPark(s, env, limits, now);
      if id !in s.environments || !Served(s.environments[id], env.epoch) || !NoneHeld(s, id)
         || !Room(s, env.identity.reuseKey, limits) || !(env.state == Ready || env.state == Busy)
      then r == NotParked && s' == s
      else if s.environments[id].identity != env.identity || s.environments[id].owner != env.owner || env.fencedAt.Some?
      then r == ParkRefused && s' == s
      else r == ParkedAs(env.(state := Idle, idleSince := Some(now), updatedAt := now))
           && s' == s.(environments := s.environments[id := env.(state := Idle, idleSince := Some(now), updatedAt := now)])
  {
    RoomIsCounted(s, env.identity.reuseKey, limits);
  }

  lemma OneMoreIdle(s: Store, s': Store, id: EnvironmentId, row: Environment)
    requires id in s.environments && s.environments[id].state != Idle && row.state == Idle
    requires s' == s.(environments := s.environments[id := row])
    ensures IdleCount(s') == IdleCount(s) + 1
    ensures IdlePerKey(s', row.identity.reuseKey) <= IdlePerKey(s, row.identity.reuseKey) + 1
  {
    var key := row.identity.reuseKey;
    assert Pooled(s') == Pooled(s) + {id};
    assert PooledWith(s', key) == PooledWith(s, key) + {id};
  }

  /** No park exceeds the limits of the pool. */
  lemma ParkStaysWithinTheLimits(s: Store, env: Environment, limits: PoolLimits, now: Timestamp)
    requires ParkOutcome(s, env, limits, now).ParkedAs?
    ensures IdleCount(AfterPark(s, env, limits, now)) <= limits.maxTotalIdle
    ensures IdlePerKey(AfterPark(s, env, limits, now), env.identity.reuseKey) <= limits.maxIdlePerKey
  {
    ParksExactly(s, env, limits, now);
    OneMoreIdle(s, AfterPark(s, env, limits, now), env.identity.id, ParkOutcome(s, env, limits, now).environment);
  }

  /** A take starts draining exactly an idle row; a confirmation ends as lost exactly the fenced
      row that did not end, at its epoch. */
  lemma TakesAndConfirmsExactly(s: Store, e: EnvironmentId, epoch: nat, now: Timestamp)
    ensures AfterTakeIdle(s, e, now) ==
      if e in s.environments && s.environments[e].state == Idle
      then s.(environments := s.environments[e := s.environments[e].(state := Draining, idleSince := None, updatedAt := now)])
      else s
    ensures AfterConfirm(s, e, epoch, now) ==
      if e in s.environments && s.environments[e].fencedAt.Some? && !Ended(s.environments[e]) && s.environments[e].epoch == epoch
      then s.(environments := s.environments[e := s.environments[e].(
        state := EnvironmentState.Lost("owner lost its lease; environment fenced and terminate confirmed"),
        idleSince := None, stoppedAt := Some(now), updatedAt := now)])
      else s
  {
  }

  // ---------------------------------------------------------------- plain row writes

  /** A row that is stored is replaced exactly by one of the same environment and owner that
      equals it, or that keeps epoch and fence of an open row and does not make it busy. */
  lemma PutsEnvironmentExactly(s: Store, env: Environment)
    requires env.identity.id in s.environments
    ensures
      var old_ := s.environments[env.identity.id];
      AfterPutEnvironment(s, env) ==
        if old_.identity == env.identity && old_.owner == env.owner && !Ended(old_) && old_.epoch == env.epoch
           && old_.fencedAt == env.fencedAt && (env.state == Busy ==> old_.state == Busy)
        then s.(environments := s.environments[env.identity.id := env]) else s
  {
    assert s.(environments := s.environments[env.identity.id := s.environments[env.identity.id]]) == s;
  }

  lemma PutsAttemptExactly(s: Store, a: Attempt)
    requires a.id in s.attempts
    ensures AfterPutAttempt(s, a) ==
      if SameTry(s.attempts[a.id], a) && s.attempts[a.id].status.AttemptDispatched?
      then s.(attempts := s.attempts[a.id := a]) else s
  {
    assert s.(attempts := s.attempts[a.id := s.attempts[a.id]]) == s;
  }

  lemma PutsInvocationExactly(s: Store, i: Invocation, maxBytes: nat)
    requires i.request.id in s.invocations
    ensures AfterPutInvocation(s, i, maxBytes) ==
      if Takes(s.invocations[i.request.id], i, maxBytes) then s.(invocations := s.invocations[i.request.id := i]) else s
  {
    TakesIsWritable(s.invocations[i.request.id], i, maxBytes);
  }

  /** A row that is not stored is inserted, and a dispatcher is registered once. */
  lemma InsertsNewRows(s: Store, env: Environment, a: Attempt, i: Invocation, d: Dispatcher, maxBytes: nat)
    ensures env.identity.id !in s.environments ==>
      AfterPutEnvironment(s, env) == s.(environments := s.environments[env.identity.id := env])
    ensures a.id !in s.attempts ==> AfterPutAttempt(s, a) == s.(attempts := s.attempts[a.id := a])
    ensures i.request.id !in s.invocations ==>
      AfterPutInvocation(s, i, maxBytes) == s.(invocations := s.invocations[i.request.id := i])
    ensures AfterRegister(s, d) == if d.id in s.dispatchers then s else s.(dispatchers := s.dispatchers[d.id := d])
  {
  }

  // ---------------------------------------------------------------- who hands out an environment

  /** In every run only an accepted acquire makes a stored environment busy, and it finds the
      row ready or idle, unfenced, one epoch behind. */
  lemma OnlyAcquireHandsOut(states: seq<Store>, steps: seq<Step>, maxBytes: nat, at: nat, e: EnvironmentId)
    requires Execution(states, steps, maxBytes) && states[0] == EMPTY && at < |steps|
    requires e in states[at].environments && states[at].environments[e].state != Busy
    requires e in states[at + 1].environments && states[at + 1].environments[e].state == Busy
    ensures steps[at].Acquire? && AcquireOutcome(states[at], steps[at].request, maxBytes).Acquired?
    ensures
      var before, after := states[at].environments[e], states[at + 1].environments[e];
      && (before.state == Ready || before.state == Idle) && before.fencedAt.None?
      && after.epoch == before.epoch + 1 && steps[at].request.env == after
  {
    ReachableIsConsistent(states, steps, maxBytes, at);
    assert Next(states[at], steps[at], states[at + 1], maxBytes);
    StepHandsOut(states[at], steps[at], states[at + 1], maxBytes, e);
  }

  lemma StepHandsOut(s: Store, step: Step, s': Store, maxBytes: nat, e: EnvironmentId)
    requires Consistent(s) && Next(s, step, s', maxBytes)
    requires e in s.environments && s.environments[e].state != Busy && e in s'.environments && s'.environments[e].state == Busy
    ensures step.Acquire? && AcquireOutcome(s, step.request, maxBytes).Acquired?
    ensures
      var before, after := s.environments[e], s'.environments[e];
      && (before.state == Ready || before.state == Idle) && before.fencedAt.None?
      && after.epoch == before.epoch + 1 && step.request.env == after
  {
    match step {
      case Acquire(q) =>
        if AcquireOutcome(s, q, maxBytes).Acquired? {
          AcquireFinds(s, q, maxBytes);
        }
      case _ =>
    }
  }
}
