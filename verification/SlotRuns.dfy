/** What every run of the slot store keeps. */
module SlotRuns {
  import opened Prelude
  import opened EnvironmentModel
  import opened LeaseModel
  import opened InvocationModel
  import opened SlotStoreModel

  /** Every write of the store. */
  datatype Step =
    | Acquire(request: SlotAcquire)
    | Complete(completion: SlotCompletion)
    | ReleaseLease(lease: LeaseId, attempt: AttemptId, epoch: nat, now: Timestamp)
    | RenewLease(lease: LeaseId, owner: DispatcherId, epoch: nat, ttl: Duration, now: Timestamp)
    | Heartbeat(dispatcher: DispatcherId, ttl: Duration, now: Timestamp, revive: bool)
    | StopDispatcher(dispatcher: DispatcherId, now: Timestamp)
    | RegisterDispatcher(record: Dispatcher)
    | ClaimForReuse(key: ReuseKey, forOwner: Option<DispatcherId>, now: Timestamp)
    | ReleaseToPool(environment: Environment, limits: PoolLimits, now: Timestamp)
    | TakeIdle(id: EnvironmentId, now: Timestamp)
    | Reclaim(pass: ReclaimRequest)
    | ConfirmTerminated(id: EnvironmentId, epoch: nat, now: Timestamp)
    | PutEnvironment(environment: Environment)
    | PutAttempt(row: Attempt)
    | PutInvocation(invocation: Invocation)

  /** An inserted row is new, an updated row passes its guard; otherwise nothing is written. */
  function AfterPutEnvironment(s: Store, env: Environment): Store {
    var id := env.identity.id;
    if id !in s.environments || EnvironmentWritable(s.environments[id], env) then
      s.(environments := s.environments[id := env])
    else s
  }

  function AfterPutAttempt(s: Store, a: Attempt): Store {
    if a.id !in s.attempts || AttemptWritable(s.attempts[a.id], a) then s.(attempts := s.attempts[a.id := a]) else s
  }

  function AfterPutInvocation(s: Store, i: Invocation, maxBytes: nat): Store {
    var id := i.request.id;
    if id !in s.invocations || InvocationWritable(s.invocations[id], i, maxBytes) then
      s.(invocations := s.invocations[id := i])
    else s
  }

  function AfterRegister(s: Store, d: Dispatcher): Store {
    if d.id in s.dispatchers then s else s.(dispatchers := s.dispatchers[d.id := d])
  }

  ghost predicate Next(s: Store, step: Step, s': Store, maxBytes: nat) {
    match step
    case Acquire(q) => !q.env.IsFenced() && s' == AfterAcquire(s, q, maxBytes)
    case Complete(c) => s' == AfterComplete(s, c, maxBytes)
    case ReleaseLease(l, a, epoch, now) => s' == AfterReleaseLease(s, l, a, epoch, now)
    case RenewLease(l, owner, epoch, ttl, now) => s' == AfterRenewLease(s, l, owner, epoch, ttl, now)
    case Heartbeat(d, ttl, now, revive) => s' == AfterHeartbeat(s, d, ttl, now, revive)
    case StopDispatcher(d, now) => s' == AfterStop(s, d, now)
    case RegisterDispatcher(d) => s' == AfterRegister(s, d)
    case ClaimForReuse(key, owner, now) => exists r :: Claimed(s, s', key, owner, now, r)
    case ReleaseToPool(env, limits, now) => s' == AfterPark(s, env, limits, now)
    case TakeIdle(id, now) => s' == AfterTakeIdle(s, id, now)
    case Reclaim(q) => Reclaimed(s, s', q)
    case ConfirmTerminated(id, epoch, now) => s' == AfterConfirm(s, id, epoch, now)
    case PutEnvironment(env) => s' == AfterPutEnvironment(s, env)
    case PutAttempt(a) => s' == AfterPutAttempt(s, a)
    case PutInvocation(i) => s' == AfterPutInvocation(s, i, maxBytes)
  }

  // ---------------------------------------------------------------- the invariant

  ghost predicate LeaseConsistent(s: Store, id: LeaseId)
    requires id in s.leases
  {
    var l := s.leases[id];
    && l.id == id && l.owner.Some?
    && l.environmentId in s.environments
    && 1 <= l.epoch <= s.environments[l.environmentId].epoch
    && l.attemptId in s.attempts && s.attempts[l.attemptId].epoch == l.epoch
    && s.attempts[l.attemptId].environmentId == l.environmentId
    && (l.releasedAt.None? ==>
          && l.epoch == s.environments[l.environmentId].epoch
          && !s.environments[l.environmentId].IsFenced()
          && l.owner == s.environments[l.environmentId].owner
          && l.owner.value in s.dispatchers && s.dispatchers[l.owner.value].reclaimedAt.None?)
  }

  ghost predicate DistinctEpochs(s: Store) {
    forall l, m :: l in s.leases && m in s.leases && l != m ==>
      s.leases[l].environmentId != s.leases[m].environmentId || s.leases[l].epoch != s.leases[m].epoch
  }

  ghost predicate Keyed(s: Store) {
    && (forall e :: e in s.environments ==> s.environments[e].identity.id == e)
    && (forall a :: a in s.attempts ==> s.attempts[a].id == a)
    && (forall d :: d in s.dispatchers ==> s.dispatchers[d].id == d)
  }

  ghost predicate Consistent(s: Store) {
    && Keyed(s)
    && (forall l :: l in s.leases ==> LeaseConsistent(s, l))
    && DistinctEpochs(s)
  }

  const EMPTY := Store(map[], map[], map[], map[], map[])

  /** A lease row only ages: its expiry may move, and it may be released once. */
  ghost predicate Ages(before: Lease, after: Lease) {
    && after.id == before.id && after.environmentId == before.environmentId && after.attemptId == before.attemptId
    && after.epoch == before.epoch && after.owner == before.owner && after.deadline == before.deadline
    && (before.releasedAt.Some? ==> after == before)
  }

  // ---------------------------------------------------------------- what time does to rows

  ghost predicate EnvironmentLater(before: Environment, after: Environment) {
    && SameEnvironment(before, after)
    && before.epoch <= after.epoch
    && (before.fencedAt.Some? ==> after.fencedAt == before.fencedAt)
    && (before.IsTerminal() ==> after == before)
  }

  ghost predicate AttemptLater(before: Attempt, after: Attempt) {
    && SameDispatch(before, after)
    && (before.status.IsTerminal() ==> after == before)
  }

  /** A new lease continues the epochs of an environment that was neither fenced
      nor ended, for a dispatcher that was still live. */
  ghost predicate NewLease(s: Store, l: Lease) {
    && (l.environmentId in s.environments ==>
          var e := s.environments[l.environmentId]; l.epoch > e.epoch && !e.IsFenced() && !e.IsTerminal())
    && (l.owner.Some? && l.owner.value in s.dispatchers ==> s.dispatchers[l.owner.value].IsLive())
  }

  ghost predicate EnvironmentsLater(m: map<EnvironmentId, Environment>, m': map<EnvironmentId, Environment>) {
    forall e :: e in m ==> e in m' && EnvironmentLater(m[e], m'[e])
  }

  ghost predicate LeasesLater(m: map<LeaseId, Lease>, m': map<LeaseId, Lease>) {
    forall l :: l in m ==> l in m' && Ages(m[l], m'[l])
  }

  ghost predicate NewLeases(s: Store, m': map<LeaseId, Lease>) {
    forall l :: l in m' && l !in s.leases ==> NewLease(s, m'[l])
  }

  ghost predicate AttemptsLater(m: map<AttemptId, Attempt>, m': map<AttemptId, Attempt>) {
    forall a :: a in m ==> a in m' && AttemptLater(m[a], m'[a])
  }

  ghost predicate InvocationsLater(m: map<InvocationId, Invocation>, m': map<InvocationId, Invocation>) {
    forall i :: i in m ==> i in m' && (m[i].status.IsTerminal() ==> m'[i] == m[i])
  }

  ghost predicate DispatchersLater(m: map<DispatcherId, Dispatcher>, m': map<DispatcherId, Dispatcher>) {
    forall d :: d in m ==>
      && d in m' && (m'[d].IsLive() ==> m[d].IsLive())
      && (m[d].stoppedAt.Some? ==> m'[d].stoppedAt == m[d].stoppedAt)
      && (m[d].reclaimedAt.Some? ==> m'[d].reclaimedAt == m[d].reclaimedAt)
  }

  ghost predicate Later(s: Store, s': Store) {
    && EnvironmentsLater(s.environments, s'.environments)
    && LeasesLater(s.leases, s'.leases) && NewLeases(s, s'.leases)
    && AttemptsLater(s.attempts, s'.attempts)
    && InvocationsLater(s.invocations, s'.invocations)
    && DispatchersLater(s.dispatchers, s'.dispatchers)
  }

  // ---------------------------------------------------------------- one step

  /** What one step owes: the invariant, and rows that only moved forward. */
  ghost predicate Forward(s: Store, s': Store) { Consistent(s') && Later(s, s') }

  lemma AcquireKeepsLease(s: Store, q: SlotAcquire, maxBytes: nat, l: LeaseId)
    requires Consistent(s) && !q.env.IsFenced() && AcquireOutcome(s, q, maxBytes).Acquired? && l in s.leases
    ensures LeaseConsistent(AfterAcquire(s, q, maxBytes), l)
  {
    assert LeaseConsistent(s, l);
    if s.leases[l].environmentId == q.env.identity.id {
      assert s.leases[l].releasedAt.Some?;
    }
  }

  /** The new lease continues the epochs of its environment. */
  lemma AcquireKeepsEpochs(s: Store, q: SlotAcquire, maxBytes: nat)
    requires Consistent(s) && AcquireOutcome(s, q, maxBytes).Acquired?
    ensures DistinctEpochs(AfterAcquire(s, q, maxBytes))
  {
    forall l | l in s.leases ensures s.leases[l].environmentId == q.env.identity.id ==> s.leases[l].epoch < q.lease.epoch {
      assert LeaseConsistent(s, l);
    }
  }

  lemma AcquireKeeps(s: Store, q: SlotAcquire, maxBytes: nat)
    requires Consistent(s) && !q.env.IsFenced()
    ensures Consistent(AfterAcquire(s, q, maxBytes))
  {
    var s' := AfterAcquire(s, q, maxBytes);
    if AcquireOutcome(s, q, maxBytes).Acquired? {
      forall l | l in s'.leases ensures LeaseConsistent(s', l) {
        if l != q.lease.id {
          AcquireKeepsLease(s, q, maxBytes, l);
        }
      }
      AcquireKeepsEpochs(s, q, maxBytes);
    }
  }

  /** The store does not look at the fence of the row an acquire writes. Runs are those
      whose acquires write unfenced rows, which `assign` makes all of them: an accepted
      acquire keeps the invariant exactly then. */
  lemma AcquireKeepsExactly(s: Store, q: SlotAcquire, maxBytes: nat)
    requires Consistent(s) && AcquireOutcome(s, q, maxBytes).Acquired?
    ensures Consistent(AfterAcquire(s, q, maxBytes)) <==> !q.env.IsFenced()
  {
    if q.env.IsFenced() {
      assert !LeaseConsistent(AfterAcquire(s, q, maxBytes), q.lease.id);
    } else {
      AcquireKeeps(s, q, maxBytes);
    }
  }

  lemma AcquireIsLater(s: Store, q: SlotAcquire, maxBytes: nat)
    requires Consistent(s) && !q.env.IsFenced()
    ensures Later(s, AfterAcquire(s, q, maxBytes))
  {
    if AcquireOutcome(s, q, maxBytes).Acquired? {
      var leases, invocations := s.leases[q.lease.id := q.lease], WithInvocation(s.invocations, q.invocation);
      assert LeasesLater(s.leases, leases) && NewLeases(s, leases);
      assert InvocationsLater(s.invocations, invocations);
      assert EnvironmentsLater(s.environments, s.environments[q.env.identity.id := q.env]);
      assert AttemptsLater(s.attempts, s.attempts[q.attempt.id := q.attempt]);
    } else {
      assert Later(s, s);
    }
  }

  lemma AcquireStep(s: Store, q: SlotAcquire, maxBytes: nat)
    requires Consistent(s) && !q.env.IsFenced()
    ensures Forward(s, AfterAcquire(s, q, maxBytes))
  {
    AcquireKeeps(s, q, maxBytes);
    AcquireIsLater(s, q, maxBytes);
  }

  lemma CompleteKeepsLease(s: Store, c: SlotCompletion, maxBytes: nat, l: LeaseId)
    requires Consistent(s) && l in s.leases
    ensures LeaseConsistent(AfterComplete(s, c, maxBytes), l)
  {
    assert LeaseConsistent(s, l);
  }

  lemma CompleteKeeps(s: Store, c: SlotCompletion, maxBytes: nat)
    requires Consistent(s)
    ensures Consistent(AfterComplete(s, c, maxBytes))
  {
    var s' := AfterComplete(s, c, maxBytes);
    forall l | l in s'.leases ensures LeaseConsistent(s', l) {
      CompleteKeepsLease(s, c, maxBytes, l);
    }
  }

  lemma CompleteIsLater(s: Store, c: SlotCompletion, maxBytes: nat)
    requires Consistent(s)
    ensures Later(s, AfterComplete(s, c, maxBytes))
  {
    if CompleteOutcome(s, c, maxBytes).Completed? {
      var released := s.leases[c.leaseId := s.leases[c.leaseId].(releasedAt := Some(c.now))];
      assert LeasesLater(s.leases, released) && NewLeases(s, released);
      assert InvocationsLater(s.invocations, WithInvocation(s.invocations, c.invocation));
      assert AttemptsLater(s.attempts, s.attempts[c.attempt.id := c.attempt]);
    } else {
      assert Later(s, s);
    }
  }

  lemma CompleteStep(s: Store, c: SlotCompletion, maxBytes: nat)
    requires Consistent(s)
    ensures Forward(s, AfterComplete(s, c, maxBytes))
  {
    CompleteKeeps(s, c, maxBytes);
    CompleteIsLater(s, c, maxBytes);
  }

  lemma AgingKeeps(s: Store, s': Store)
    requires Consistent(s) && s' == s.(leases := s'.leases) && s'.leases.Keys == s.leases.Keys
    requires forall l :: l in s.leases ==> Ages(s.leases[l], s'.leases[l])
    ensures Consistent(s')
  {
    forall l | l in s'.leases ensures LeaseConsistent(s', l) {
      assert LeaseConsistent(s, l) && Ages(s.leases[l], s'.leases[l]);
    }
    forall l, m | l in s'.leases && m in s'.leases && l != m
      ensures s'.leases[l].environmentId != s'.leases[m].environmentId || s'.leases[l].epoch != s'.leases[m].epoch
    {
      assert Ages(s.leases[l], s'.leases[l]) && Ages(s.leases[m], s'.leases[m]);
    }
  }

  lemma AgingIsLater(s: Store, s': Store)
    requires Consistent(s) && s' == s.(leases := s'.leases) && s'.leases.Keys == s.leases.Keys
    requires forall l :: l in s.leases ==> Ages(s.leases[l], s'.leases[l])
    ensures Later(s, s')
  {
  }

  lemma AgingStep(s: Store, s': Store)
    requires Consistent(s) && s' == s.(leases := s'.leases) && s'.leases.Keys == s.leases.Keys
    requires forall l :: l in s.leases ==> Ages(s.leases[l], s'.leases[l])
    ensures Forward(s, s')
  {
    AgingKeeps(s, s');
    AgingIsLater(s, s');
  }

  lemma ReleaseLeaseStep(s: Store, id: LeaseId, attempt: AttemptId, epoch: nat, now: Timestamp)
    requires Consistent(s)
    ensures Forward(s, AfterReleaseLease(s, id, attempt, epoch, now))
  {
    AgingStep(s, AfterReleaseLease(s, id, attempt, epoch, now));
  }

  lemma RenewLeaseStep(s: Store, id: LeaseId, owner: DispatcherId, epoch: nat, ttl: Duration, now: Timestamp)
    requires Consistent(s)
    ensures Forward(s, AfterRenewLease(s, id, owner, epoch, ttl, now))
  {
    AgingStep(s, AfterRenewLease(s, id, owner, epoch, ttl, now));
  }

  lemma ExtensionAges(l: Lease, id: DispatcherId, ttl: Duration, now: Timestamp, revive: bool)
    ensures Ages(l, ExtendedLease(l, id, ttl, now, revive))
  {
  }

  /** Rows outside the leases' reach: dispatchers that stay dead, settled invocations. */
  lemma SideRowsStep(s: Store, s': Store)
    requires Consistent(s)
    requires s' == s.(dispatchers := s'.dispatchers, invocations := s'.invocations)
    requires forall d :: d in s'.dispatchers ==> s'.dispatchers[d].id == d
    requires forall d :: d in s.dispatchers && d in s'.dispatchers ==>
      s'.dispatchers[d].reclaimedAt == s.dispatchers[d].reclaimedAt
    requires DispatchersLater(s.dispatchers, s'.dispatchers) && InvocationsLater(s.invocations, s'.invocations)
    ensures Forward(s, s')
  {
    forall l | l in s'.leases ensures LeaseConsistent(s', l) {
      assert LeaseConsistent(s, l);
    }
  }

  lemma HeartbeatLeasesStep(s: Store, id: DispatcherId, ttl: Duration, now: Timestamp, revive: bool)
    requires Consistent(s)
    ensures
      var aged := s.(leases := AfterHeartbeat(s, id, ttl, now, revive).leases);
      Forward(s, aged)
  {
    var aged := s.(leases := AfterHeartbeat(s, id, ttl, now, revive).leases);
    forall l | l in s.leases ensures Ages(s.leases[l], aged.leases[l]) {
      ExtensionAges(s.leases[l], id, ttl, now, revive);
    }
    AgingStep(s, aged);
  }

  lemma HeartbeatDispatcherStep(s: Store, aged: Store, id: DispatcherId, ttl: Duration, now: Timestamp, revive: bool)
    requires Consistent(aged) && aged == s.(leases := AfterHeartbeat(s, id, ttl, now, revive).leases)
    ensures Forward(aged, AfterHeartbeat(s, id, ttl, now, revive))
  {
    SideRowsStep(aged, AfterHeartbeat(s, id, ttl, now, revive));
  }

  lemma HeartbeatStep(s: Store, id: DispatcherId, ttl: Duration, now: Timestamp, revive: bool)
    requires Consistent(s)
    ensures Forward(s, AfterHeartbeat(s, id, ttl, now, revive))
  {
    var s' := AfterHeartbeat(s, id, ttl, now, revive);
    var aged := s.(leases := s'.leases);
    HeartbeatLeasesStep(s, id, ttl, now, revive);
    HeartbeatDispatcherStep(s, aged, id, ttl, now, revive);
    LaterIsTransitive(s, aged, s');
  }

  /** One environment row moved forward without touching epoch and fence, or is new. */
  ghost predicate RowAdvanced(s: Store, s': Store, id: EnvironmentId) {
    && id in s'.environments && s' == s.(environments := s.environments[id := s'.environments[id]])
    && if id in s.environments
       then EnvironmentLater(s.environments[id], s'.environments[id])
            && s.environments[id].epoch == s'.environments[id].epoch
            && s.environments[id].fencedAt == s'.environments[id].fencedAt
       else s'.environments[id].identity.id == id
  }

  lemma RowKeepsLease(s: Store, s': Store, id: EnvironmentId, l: LeaseId)
    requires Consistent(s) && RowAdvanced(s, s', id) && l in s.leases
    ensures LeaseConsistent(s', l)
  {
    assert LeaseConsistent(s, l);
  }

  lemma EnvironmentRowStep(s: Store, s': Store, id: EnvironmentId)
    requires Consistent(s) && RowAdvanced(s, s', id)
    ensures Forward(s, s')
  {
    forall l | l in s'.leases ensures LeaseConsistent(s', l) {
      RowKeepsLease(s, s', id, l);
    }
  }

  lemma ClaimStep(s: Store, s': Store, key: ReuseKey, owner: Option<DispatcherId>, now: Timestamp, r: Option<Environment>)
    requires Consistent(s) && Claimed(s, s', key, owner, now, r)
    ensures Forward(s, s')
  {
    if r.Some? {
      var id :| IsFirst(id, Matching(s, key, owner)) && Reserved(s.environments[id], now) == Success(r.value)
        && s' == s.(environments := s.environments[id := r.value]);
      EnvironmentRowStep(s, s', id);
    }
  }

  lemma ParkStep(s: Store, env: Environment, limits: PoolLimits, now: Timestamp)
    requires Consistent(s)
    ensures Forward(s, AfterPark(s, env, limits, now))
  {
    if ParkOutcome(s, env, limits, now).ParkedAs? {
      EnvironmentRowStep(s, AfterPark(s, env, limits, now), env.identity.id);
    }
  }

  lemma TakeIdleStep(s: Store, id: EnvironmentId, now: Timestamp)
    requires Consistent(s)
    ensures Forward(s, AfterTakeIdle(s, id, now))
  {
    if Drainable(s, id) {
      EnvironmentRowStep(s, AfterTakeIdle(s, id, now), id);
    }
  }

  lemma ConfirmStep(s: Store, id: EnvironmentId, epoch: nat, now: Timestamp)
    requires Consistent(s)
    ensures Forward(s, AfterConfirm(s, id, epoch, now))
  {
    if Confirmable(s, id, epoch) {
      EnvironmentRowStep(s, AfterConfirm(s, id, epoch, now), id);
    }
  }

  lemma PutEnvironmentStep(s: Store, env: Environment)
    requires Consistent(s)
    ensures Forward(s, AfterPutEnvironment(s, env))
  {
    if AfterPutEnvironment(s, env) != s {
      EnvironmentRowStep(s, AfterPutEnvironment(s, env), env.identity.id);
    }
  }

  lemma PutAttemptKeeps(s: Store, a: Attempt)
    requires Consistent(s)
    ensures Consistent(AfterPutAttempt(s, a))
  {
    var s' := AfterPutAttempt(s, a);
    forall l | l in s'.leases ensures LeaseConsistent(s', l) {
      assert LeaseConsistent(s, l);
    }
  }

  lemma PutAttemptIsLater(s: Store, a: Attempt)
    requires Consistent(s)
    ensures Later(s, AfterPutAttempt(s, a))
  {
    if a.id !in s.attempts || AttemptWritable(s.attempts[a.id], a) {
      var attempts := s.attempts[a.id := a];
      assert AttemptsLater(s.attempts, attempts);
      assert Later(s, s.(attempts := attempts));
    } else {
      assert Later(s, s);
    }
  }

  lemma PutAttemptStep(s: Store, a: Attempt)
    requires Consistent(s)
    ensures Forward(s, AfterPutAttempt(s, a))
  {
    PutAttemptKeeps(s, a);
    PutAttemptIsLater(s, a);
  }

  lemma PutInvocationStep(s: Store, i: Invocation, maxBytes: nat)
    requires Consistent(s)
    ensures Forward(s, AfterPutInvocation(s, i, maxBytes))
  {
    SideRowsStep(s, AfterPutInvocation(s, i, maxBytes));
  }

  lemma StopStep(s: Store, d: DispatcherId, now: Timestamp)
    requires Consistent(s)
    ensures Forward(s, AfterStop(s, d, now))
  {
    SideRowsStep(s, AfterStop(s, d, now));
  }

  lemma RegisterStep(s: Store, d: Dispatcher)
    requires Consistent(s)
    ensures Forward(s, AfterRegister(s, d))
  {
    SideRowsStep(s, AfterRegister(s, d));
  }

  /** A pass that fences an environment takes the lease on it: an untouched lease
      and a fenced environment never meet. */
  lemma FencingNeedsTheLease(s: Store, q: ReclaimRequest, l: LeaseId)
    requires Consistent(s) && MayReclaim(s, q) && l in s.leases && s.leases[l].releasedAt.None?
    requires var e := s.leases[l].environmentId;
      e in s.environments && (Interrupted(s, TakenLeases(s, q), e) || OwnerDead(s.environments[e].owner, Dead(s, q)))
    ensures l in TakenLeases(s, q)
  {
    assert LeaseConsistent(s, l);
    var e := s.leases[l].environmentId;
    if Interrupted(s, TakenLeases(s, q), e) {
      var m :| m in TakenLeases(s, q) && Holds(s, m, e);
      assert m == l;
    }
  }

  lemma ReclaimKeeps(s: Store, s': Store, q: ReclaimRequest)
    requires Consistent(s) && Reclaimed(s, s', q)
    ensures Consistent(s')
  {
    if MayReclaim(s, q) {
      forall l | l in s'.leases ensures LeaseConsistent(s', l) {
        ReclaimKeepsLease(s, s', q, l);
      }
    }
  }

  lemma ReclaimKeepsLease(s: Store, s': Store, q: ReclaimRequest, l: LeaseId)
    requires Consistent(s) && Reclaimed(s, s', q) && MayReclaim(s, q) && l in s'.leases
    ensures LeaseConsistent(s', l)
  {
    assert LeaseConsistent(s, l);
    var e := s.leases[l].environmentId;
    if s'.leases[l].releasedAt.None? && s'.environments[e] != s.environments[e] {
      FencingNeedsTheLease(s, q, l);
    }
  }

  lemma ReclaimStep(s: Store, s': Store, q: ReclaimRequest)
    requires Consistent(s) && Reclaimed(s, s', q)
    ensures Forward(s, s')
  {
    ReclaimKeeps(s, s', q);
    if MayReclaim(s, q) {
      ReclaimIsLater(s, s', q);
    }
  }

  lemma FencedEnvironmentsAreLater(s: Store, m: map<EnvironmentId, Environment>, q: ReclaimRequest)
    requires EnvironmentsFenced(s, m, TakenLeases(s, q), Dead(s, q), q.now)
    ensures EnvironmentsLater(s.environments, m)
  {
    forall e | e in s.environments ensures e in m && EnvironmentLater(s.environments[e], m[e]) {
    }
  }

  lemma SettledAttemptsAreLater(s: Store, m: map<AttemptId, Attempt>, q: ReclaimRequest)
    requires AttemptsSettled(s, m, TakenLeases(s, q), Dead(s, q), q.now)
    ensures AttemptsLater(s.attempts, m)
  {
    forall a | a in s.attempts ensures a in m && AttemptLater(s.attempts[a], m[a]) {
    }
  }

  lemma TakenLeasesAreLater(s: Store, m: map<LeaseId, Lease>, q: ReclaimRequest)
    requires LeasesTaken(s, m, TakenLeases(s, q), q.now)
    ensures LeasesLater(s.leases, m) && NewLeases(s, m)
  {
    forall l | l in s.leases ensures l in m && Ages(s.leases[l], m[l]) {
    }
  }

  lemma ReclaimIsLater(s: Store, s': Store, q: ReclaimRequest)
    requires Reclaimed(s, s', q) && MayReclaim(s, q)
    ensures Later(s, s')
  {
    FencedEnvironmentsAreLater(s, s'.environments, q);
    TakenLeasesAreLater(s, s'.leases, q);
    SettledAttemptsAreLater(s, s'.attempts, q);
    assert InvocationsLater(s.invocations, s'.invocations);
    assert DispatchersLater(s.dispatchers, s'.dispatchers);
  }

  /** Every write keeps the invariant and only moves rows forward. */
  lemma StepIsForward(s: Store, step: Step, s': Store, maxBytes: nat)
    requires Consistent(s) && Next(s, step, s', maxBytes)
    ensures Forward(s, s')
  {
    if OnLease(step) {
      LeaseStepIsForward(s, step, s', maxBytes);
    } else if OnPool(step) {
      PoolStepIsForward(s, step, s', maxBytes);
    } else {
      RowStepIsForward(s, step, s', maxBytes);
    }
  }

  predicate OnLease(step: Step) {
    step.Acquire? || step.Complete? || step.ReleaseLease? || step.RenewLease? || step.Heartbeat?
  }

  predicate OnPool(step: Step) {
    step.ClaimForReuse? || step.ReleaseToPool? || step.TakeIdle? || step.Reclaim? || step.ConfirmTerminated?
  }

  lemma LeaseStepIsForward(s: Store, step: Step, s': Store, maxBytes: nat)
    requires Consistent(s) && Next(s, step, s', maxBytes) && OnLease(step)
    ensures Forward(s, s')
  {
    match step
    case Acquire(q) => AcquireStep(s, q, maxBytes);
    case Complete(c) => CompleteStep(s, c, maxBytes);
    case ReleaseLease(l, a, epoch, now) => ReleaseLeaseStep(s, l, a, epoch, now);
    case RenewLease(l, owner, epoch, ttl, now) => RenewLeaseStep(s, l, owner, epoch, ttl, now);
    case Heartbeat(d, ttl, now, revive) => HeartbeatStep(s, d, ttl, now, revive);
  }

  lemma PoolStepIsForward(s: Store, step: Step, s': Store, maxBytes: nat)
    requires Consistent(s) && Next(s, step, s', maxBytes) && OnPool(step)
    ensures Forward(s, s')
  {
    match step
    case ClaimForReuse(key, owner, now) =>
      var r :| Claimed(s, s', key, owner, now, r);
      ClaimStep(s, s', key, owner, now, r);
    case ReleaseToPool(env, limits, now) => ParkStep(s, env, limits, now);
    case TakeIdle(id, now) => TakeIdleStep(s, id, now);
    case Reclaim(q) => ReclaimStep(s, s', q);
    case ConfirmTerminated(id, epoch, now) => ConfirmStep(s, id, epoch, now);
  }

  lemma RowStepIsForward(s: Store, step: Step, s': Store, maxBytes: nat)
    requires Consistent(s) && Next(s, step, s', maxBytes) && !OnLease(step) && !OnPool(step)
    ensures Forward(s, s')
  {
    match step
    case StopDispatcher(d, now) => StopStep(s, d, now);
    case RegisterDispatcher(d) => RegisterStep(s, d);
    case PutEnvironment(env) => PutEnvironmentStep(s, env);
    case PutAttempt(a) => PutAttemptStep(s, a);
    case PutInvocation(i) => PutInvocationStep(s, i, maxBytes);
  }

  lemma LaterIsReflexive(s: Store)
    ensures Later(s, s)
  {
  }

  lemma LaterIsTransitive(s: Store, t: Store, u: Store)
    requires Later(s, t) && Later(t, u)
    ensures Later(s, u)
  {
    forall l | l in s.leases ensures l in u.leases && Ages(s.leases[l], u.leases[l]) {
      assert Ages(s.leases[l], t.leases[l]) && Ages(t.leases[l], u.leases[l]);
    }
    forall l | l in u.leases && l !in s.leases ensures NewLease(s, u.leases[l]) {
      if l in t.leases {
        assert NewLease(s, t.leases[l]) && Ages(t.leases[l], u.leases[l]);
      } else {
        assert NewLease(t, u.leases[l]);
      }
    }
  }

  // ---------------------------------------------------------------- runs

  /** A run: the store's rows before and after every write. */
  ghost predicate Execution(states: seq<Store>, steps: seq<Step>, maxBytes: nat) {
    && |states| == |steps| + 1
    && forall i :: 0 <= i < |steps| ==> Next(states[i], steps[i], states[i + 1], maxBytes)
  }

  lemma {:induction false} ExecutionIsForward(states: seq<Store>, steps: seq<Step>, maxBytes: nat, from: nat, till: nat)
    requires Execution(states, steps, maxBytes) && from <= till < |states| && Consistent(states[from])
    ensures Forward(states[from], states[till])
    decreases till
  {
    if from < till {
      ExecutionIsForward(states, steps, maxBytes, from, till - 1);
      StepIsForward(states[till - 1], steps[till - 1], states[till], maxBytes);
      LaterIsTransitive(states[from], states[till - 1], states[till]);
    } else {
      assert Later(states[from], states[from]);
    }
  }

  /** Every store reached from the empty one is consistent. */
  lemma ReachableIsConsistent(states: seq<Store>, steps: seq<Step>, maxBytes: nat, at: nat)
    requires Execution(states, steps, maxBytes) && states[0] == EMPTY && at < |states|
    ensures Consistent(states[at])
  {
    ExecutionIsForward(states, steps, maxBytes, 0, at);
  }

  /** Any run goes on with an acquire whose row `assign` made from the caller's copy, accepted
      or not, and the store it leaves is consistent. */
  lemma AssignedAcquireKeeps(states: seq<Store>, steps: seq<Step>, q: SlotAcquire, copy: Environment, now: Timestamp, maxBytes: nat)
    requires Execution(states, steps, maxBytes) && states[0] == EMPTY && Assigned(copy, now) == Success(q.env)
    ensures
      var after := AfterAcquire(states[|steps|], q, maxBytes);
      Execution(states + [after], steps + [Acquire(q)], maxBytes) && Consistent(after)
  {
    var s := states[|steps|];
    ReachableIsConsistent(states, steps, maxBytes, |steps|);
    if AcquireOutcome(s, q, maxBytes).Acquired? {
      AcquireKeepsExactly(s, q, maxBytes);
    }
    OneMoreStep(states, steps, Acquire(q), AfterAcquire(s, q, maxBytes), maxBytes);
  }

  lemma OneMoreStep(states: seq<Store>, steps: seq<Step>, step: Step, after: Store, maxBytes: nat)
    requires Execution(states, steps, maxBytes) && Next(states[|steps|], step, after, maxBytes)
    ensures Execution(states + [after], steps + [step], maxBytes)
  {
  }

  /** At most one dispatcher holds an environment, at its current epoch and only
      while nobody fenced it. */
  lemma OneHolder(states: seq<Store>, steps: seq<Step>, maxBytes: nat, at: nat, l: LeaseId, m: LeaseId)
    requires Execution(states, steps, maxBytes) && states[0] == EMPTY && at < |states|
    requires var s := states[at];
      && l in s.leases && s.leases[l].releasedAt.None?
      && m in s.leases && s.leases[m].releasedAt.None?
      && s.leases[l].environmentId == s.leases[m].environmentId
    ensures l == m
    ensures var s := states[at];
      && s.leases[l].environmentId in s.environments
      && s.leases[l].epoch == s.environments[s.leases[l].environmentId].epoch
      && !s.environments[s.leases[l].environmentId].IsFenced()
  {
    ReachableIsConsistent(states, steps, maxBytes, at);
    UnreleasedIsUnique(states[at], l, m);
    assert LeaseConsistent(states[at], l);
  }

  /** Lease epochs of one environment strictly increase in the order of the
      acquisitions, so no two assignments ever share one. */
  lemma LeaseEpochsIncrease(states: seq<Store>, steps: seq<Step>, maxBytes: nat, from: nat, till: nat, l: LeaseId, m: LeaseId)
    requires Execution(states, steps, maxBytes) && states[0] == EMPTY && from <= till < |states|
    requires l in states[from].leases && m !in states[from].leases && m in states[till].leases
    requires l in states[till].leases && states[till].leases[l].environmentId == states[till].leases[m].environmentId
    ensures states[till].leases[l].epoch < states[till].leases[m].epoch
  {
    ReachableIsConsistent(states, steps, maxBytes, from);
    ExecutionIsForward(states, steps, maxBytes, from, till);
    assert LeaseConsistent(states[from], l) && Ages(states[from].leases[l], states[till].leases[l]);
    assert NewLease(states[from], states[till].leases[m]);
  }

  /** Once an attempt is settled its row never changes again, by any path. */
  lemma AttemptsSettleOnce(states: seq<Store>, steps: seq<Step>, maxBytes: nat, from: nat, till: nat, a: AttemptId)
    requires Execution(states, steps, maxBytes) && states[0] == EMPTY && from <= till < |states|
    requires a in states[from].attempts && states[from].attempts[a].status.IsTerminal()
    ensures a in states[till].attempts && states[till].attempts[a] == states[from].attempts[a]
  {
    ReachableIsConsistent(states, steps, maxBytes, from);
    ExecutionIsForward(states, steps, maxBytes, from, till);
    assert AttemptLater(states[from].attempts[a], states[till].attempts[a]);
  }

  /** The lease is the attempt's own, unreleased, at the epoch its environment still has,
      and nobody fenced the environment. */
  ghost predicate HeldBy(s: Store, l: LeaseId, a: AttemptId)
    requires a in s.attempts
  {
    && l in s.leases && s.leases[l].releasedAt.None?
    && s.leases[l].attemptId == a && s.leases[l].epoch == s.attempts[a].epoch
    && s.leases[l].environmentId in s.environments
    && s.environments[s.leases[l].environmentId].epoch == s.attempts[a].epoch
    && !s.environments[s.leases[l].environmentId].IsFenced()
  }

  /** Only three writes settle an open attempt: a completion under its own current lease, a
      reclaim that took a lease for it or covers its invocation, and a direct update of its
      row. A reclaim never reports success. */
  lemma WhatSettlesAnAttempt(s: Store, step: Step, s': Store, maxBytes: nat, a: AttemptId)
    requires Consistent(s) && Next(s, step, s', maxBytes)
    requires a in s.attempts && !s.attempts[a].status.IsTerminal()
    requires a in s'.attempts && s'.attempts[a].status.IsTerminal()
    ensures
      || (step.Complete? && step.completion.attempt.id == a && HeldBy(s, step.completion.leaseId, a))
      || (step.Reclaim? && MayReclaim(s, step.pass)
          && Ends(s, TakenLeases(s, step.pass), Dead(s, step.pass), a)
          && EndsAs(s, TakenLeases(s, step.pass), a, s'.attempts[a], step.pass.now))
      || (step.PutAttempt? && step.row.id == a)
  {
    if step.Complete? {
      var c := step.completion;
      if CompleteOutcome(s, c, maxBytes).Completed? && c.attempt.id == a {
        assert LeaseConsistent(s, c.leaseId);
      }
    }
  }

  /** Which leases a pass leaves alone: those of the reclaimer, and those whose owner is not
      dead and that did not expire beyond the skew. */
  predicate Spared(s: Store, q: ReclaimRequest, l: LeaseId)
    requires l in s.leases
  {
    var lease := s.leases[l];
    lease.owner == Some(q.reclaimer) || (!OwnerDead(lease.owner, Dead(s, q)) && !lease.IsExpired(q.now, q.skew))
  }

  /** A taken lease is for another attempt than an unreleased one the pass spares. */
  lemma SparedAttemptIsNotNamed(s: Store, q: ReclaimRequest, l: LeaseId)
    requires Consistent(s) && l in s.leases && s.leases[l].releasedAt.None? && Spared(s, q, l)
    ensures s.leases[l].attemptId in s.attempts && !Named(s, TakenLeases(s, q), s.leases[l].attemptId)
  {
    assert LeaseConsistent(s, l);
    forall m | m in TakenLeases(s, q) ensures s.leases[m].attemptId != s.leases[l].attemptId {
      assert LeaseConsistent(s, m);
    }
  }

  lemma SparedEnvironmentIsUntouched(s: Store, s': Store, q: ReclaimRequest, l: LeaseId)
    requires Consistent(s) && MayReclaim(s, q) && Reclaimed(s, s', q)
    requires l in s.leases && s.leases[l].releasedAt.None? && Spared(s, q, l)
    ensures s'.leases[l] == s.leases[l]
    ensures var e := s.leases[l].environmentId; e in s.environments && s'.environments[e] == s.environments[e]
  {
    assert LeaseConsistent(s, l);
    if s'.environments[s.leases[l].environmentId] != s.environments[s.leases[l].environmentId] {
      FencingNeedsTheLease(s, q, l);
    }
  }

  /** What a pass leaves to a live dispatcher: an unreleased lease it spares keeps its row and
      its environment stays unfenced. Attempt and invocation keep their rows when the lease
      drives the invocation and no dead dispatcher accepted it. */
  lemma LiveRowsAreUntouched(s: Store, s': Store, q: ReclaimRequest, l: LeaseId)
    requires Consistent(s) && MayReclaim(s, q) && Reclaimed(s, s', q)
    requires l in s.leases && s.leases[l].releasedAt.None? && Spared(s, q, l)
    ensures s'.leases[l] == s.leases[l]
    ensures var e := s.leases[l].environmentId; e in s.environments && s'.environments[e] == s.environments[e]
    ensures
      var a := s.leases[l].attemptId;
      a in s.attempts &&
      var i := s.attempts[a].invocationId;
      i in s.invocations && Drives(s, l, i) && !OwnerDead(s.invocations[i].request.dispatcherId, Dead(s, q)) ==>
        s'.attempts[a] == s.attempts[a] && s'.invocations[i] == s.invocations[i]
  {
    SparedEnvironmentIsUntouched(s, s', q, l);
    SparedAttemptIsNotNamed(s, q, l);
  }

  lemma CoveredSyncEnds(s: Store, s': Store, q: ReclaimRequest, a: AttemptId)
    requires MayReclaim(s, q) && Reclaimed(s, s', q)
    requires a in s.attempts && Covered(s, TakenLeases(s, q), Dead(s, q), a)
    ensures
      var i := s.attempts[a].invocationId;
      s.invocations[i].request.mode.Sync? ==> i in s'.invocations && s'.invocations[i].status.IsTerminal()
  {
  }

  /** An attempt of a spared lease is settled exactly when its open invocation was run on by
      a taken lease, as a retry under another owner, or accepted by a dead dispatcher; a
      synchronous invocation ends with it. */
  lemma SparedAttemptEndsExactly(s: Store, s': Store, q: ReclaimRequest, l: LeaseId)
    requires Consistent(s) && MayReclaim(s, q) && Reclaimed(s, s', q)
    requires l in s.leases && s.leases[l].releasedAt.None? && Spared(s, q, l)
    requires s.leases[l].attemptId in s.attempts && !s.attempts[s.leases[l].attemptId].status.IsTerminal()
    ensures
      var a := s.leases[l].attemptId;
      s'.attempts[a].status.IsTerminal() <==> Covered(s, TakenLeases(s, q), Dead(s, q), a)
    ensures
      var a := s.leases[l].attemptId;
      var i := s.attempts[a].invocationId;
      i in s.invocations && s.invocations[i].request.mode.Sync? && s'.attempts[a].status.IsTerminal() ==>
        !s.invocations[i].status.IsTerminal() && s'.invocations[i].status.IsTerminal()
  {
    SparedAttemptIsNotNamed(s, q, l);
    if Covered(s, TakenLeases(s, q), Dead(s, q), s.leases[l].attemptId) {
      CoveredSyncEnds(s, s', q, s.leases[l].attemptId);
    }
  }

  /** A completion always releases its lease, and settles its attempt exactly when the row it
      writes is settled. */
  lemma CompletionSettlesExactly(s: Store, c: SlotCompletion, maxBytes: nat)
    requires CompleteOutcome(s, c, maxBytes).Completed?
    ensures
      var s' := AfterComplete(s, c, maxBytes);
      && s'.leases[c.leaseId].releasedAt == Some(c.now)
      && !s.attempts[c.attempt.id].status.IsTerminal()
      && (s'.attempts[c.attempt.id].status.IsTerminal() <==> c.attempt.status.IsTerminal())
  {
  }

  /** A settled invocation is final, whichever attempt, dispatcher or reclaim settled it. */
  lemma InvocationsSettleOnce(states: seq<Store>, steps: seq<Step>, maxBytes: nat, from: nat, till: nat, i: InvocationId)
    requires Execution(states, steps, maxBytes) && states[0] == EMPTY && from <= till < |states|
    requires i in states[from].invocations && states[from].invocations[i].status.IsTerminal()
    ensures i in states[till].invocations && states[till].invocations[i] == states[from].invocations[i]
  {
    ReachableIsConsistent(states, steps, maxBytes, from);
    ExecutionIsForward(states, steps, maxBytes, from, till);
  }

  /** In every reachable store a completion gets past the fence exactly when its
      lease is unreleased and names its attempt and epoch: the checks of the
      environment's epoch and fence never decide anything on their own. */
  lemma FenceCheckIsImplied(s: Store, l: LeaseId, attempt: AttemptId, epoch: nat)
    requires Consistent(s)
    ensures LeaseIsCurrent(s, l, attempt, epoch) <==> l in s.leases && s.leases[l].Accepts(attempt, epoch)
  {
    if l in s.leases {
      assert LeaseConsistent(s, l);
    }
  }

  /** A completion of an earlier assignment settles nothing once the environment
      was handed out again: whatever it carries, it is stale. */
  lemma NewerAssignmentFencesOlder(s: Store, c: SlotCompletion, newer: LeaseId, maxBytes: nat)
    requires Consistent(s) && c.leaseId in s.leases && newer in s.leases
    requires s.leases[c.leaseId].environmentId == s.leases[newer].environmentId
    requires s.leases[c.leaseId].epoch < s.leases[newer].epoch
    ensures CompleteOutcome(s, c, maxBytes) == Stale && AfterComplete(s, c, maxBytes) == s
  {
    assert LeaseConsistent(s, c.leaseId) && LeaseConsistent(s, newer);
  }

  /** Each lease settles at most one attempt, its own: an accepted completion
      changes no other attempt and no lease but its own, and after it the lease
      neither completes, renews, revives nor releases, in any continuation. */
  lemma CompletionIsOnce(states: seq<Store>, steps: seq<Step>, maxBytes: nat, from: nat, till: nat, again: SlotCompletion,
                         owner: DispatcherId, ttl: Duration, now: Timestamp)
    requires Execution(states, steps, maxBytes) && states[0] == EMPTY && from < till < |states|
    requires steps[from].Complete? && CompleteOutcome(states[from], steps[from].completion, maxBytes).Completed?
    requires again.leaseId == steps[from].completion.leaseId
    ensures var c, s, t := steps[from].completion, states[from], states[from + 1];
      && s.leases[c.leaseId].attemptId == c.attempt.id
      && s.leases[c.leaseId].epoch == c.attempt.epoch == s.attempts[c.attempt.id].epoch
      && t.attempts == s.attempts[c.attempt.id := c.attempt]
      && t.leases == s.leases[c.leaseId := t.leases[c.leaseId]]
    ensures CompleteOutcome(states[till], again, maxBytes) == Stale
    ensures AfterReleaseLease(states[till], again.leaseId, again.attempt.id, again.attempt.epoch, now) == states[till]
    ensures AfterRenewLease(states[till], again.leaseId, owner, again.attempt.epoch, ttl, now) == states[till]
    ensures again.leaseId in states[till].leases
      && AfterHeartbeat(states[till], owner, ttl, now, true).leases[again.leaseId] == states[till].leases[again.leaseId]
  {
    ReachableIsConsistent(states, steps, maxBytes, from);
    var c := steps[from].completion;
    assert LeaseConsistent(states[from], c.leaseId);
    ReleasedStaysReleased(states, steps, maxBytes, from + 1, till, c.leaseId);
  }

  lemma ReleasedStaysReleased(states: seq<Store>, steps: seq<Step>, maxBytes: nat, from: nat, till: nat, l: LeaseId)
    requires Execution(states, steps, maxBytes) && states[0] == EMPTY && from <= till < |states|
    requires l in states[from].leases && states[from].leases[l].releasedAt.Some?
    ensures l in states[till].leases && states[till].leases[l] == states[from].leases[l]
  {
    ReachableIsConsistent(states, steps, maxBytes, from);
    ExecutionIsForward(states, steps, maxBytes, from, till);
    assert Ages(states[from].leases[l], states[till].leases[l]);
  }

  /** The lease a pass took never completes again. */
  lemma TakenLeaseStaysStale(s: Store, t: Store, u: Store, q: ReclaimRequest, c: SlotCompletion, maxBytes: nat)
    requires MayReclaim(s, q) && Reclaimed(s, t, q) && LeasesLater(t.leases, u.leases)
    requires c.leaseId in TakenLeases(s, q)
    ensures CompleteOutcome(u, c, maxBytes) == Stale
  {
    assert Ages(t.leases[c.leaseId], u.leases[c.leaseId]);
  }

  lemma TakenEnvironmentStaysClosed(s: Store, t: Store, u: Store, q: ReclaimRequest, taken: LeaseId)
    requires Consistent(s) && Reclaimed(s, t, q) && MayReclaim(s, q) && EnvironmentsLater(t.environments, u.environments)
    requires taken in TakenLeases(s, q)
    ensures Closed(u, s.leases[taken].environmentId)
  {
    TakenEnvironmentIsClosed(s, t, q, taken);
    var e := s.leases[taken].environmentId;
    assert EnvironmentLater(t.environments[e], u.environments[e]);
  }

  lemma NewLeaseNeedsAnOpenEnvironment(t: Store, u: Store, l: LeaseId)
    requires NewLeases(t, u.leases) && l in u.leases && Closed(t, u.leases[l].environmentId)
    ensures l in t.leases
  {
    assert l !in t.leases ==> NewLease(t, u.leases[l]);
  }

  /** No lease of that environment is held or added later. */
  lemma NoLeaseReturns(s: Store, t: Store, u: Store, q: ReclaimRequest, taken: LeaseId, l: LeaseId)
    requires Consistent(s) && Reclaimed(s, t, q) && MayReclaim(s, q) && LeasesLater(t.leases, u.leases) && NewLeases(t, u.leases)
    requires taken in TakenLeases(s, q) && l in u.leases && u.leases[l].environmentId == s.leases[taken].environmentId
    ensures l in s.leases && u.leases[l].releasedAt.Some?
  {
    TakenEnvironmentIsClosed(s, t, q, taken);
    NewLeaseNeedsAnOpenEnvironment(t, u, l);
    assert Ages(t.leases[l], u.leases[l]);
    HeldThroughReclaim(s, t.leases, u.leases, q, taken, l);
  }

  /** A reclaimed owner is fenced for good: the lease a pass took can never
      complete again, its environment is fenced or had ended, and nothing of it
      is ever handed out again. */
  lemma ReclaimedOwnerIsFencedOut(states: seq<Store>, steps: seq<Step>, maxBytes: nat, from: nat, till: nat, c: SlotCompletion)
    requires Execution(states, steps, maxBytes) && states[0] == EMPTY && from < till < |states|
    requires steps[from].Reclaim? && MayReclaim(states[from], steps[from].pass)
    requires c.leaseId in TakenLeases(states[from], steps[from].pass)
    ensures CompleteOutcome(states[till], c, maxBytes) == Stale
    ensures Closed(states[till], states[from].leases[c.leaseId].environmentId)
    ensures forall l :: l in states[till].leases
                        && states[till].leases[l].environmentId == states[from].leases[c.leaseId].environmentId ==>
      l in states[from].leases && states[till].leases[l].releasedAt.Some?
  {
    var s, t, u, q := states[from], states[from + 1], states[till], steps[from].pass;
    ReachableIsConsistent(states, steps, maxBytes, from);
    LaterThanAStep(states, steps, maxBytes, from, till);
    ReclaimOfARun(states, steps, maxBytes, from);
    FencedOutBetween(s, t, u, q, c, maxBytes);
  }

  lemma FencedOutBetween(s: Store, t: Store, u: Store, q: ReclaimRequest, c: SlotCompletion, maxBytes: nat)
    requires Consistent(s) && Reclaimed(s, t, q) && MayReclaim(s, q) && Later(t, u) && c.leaseId in TakenLeases(s, q)
    ensures CompleteOutcome(u, c, maxBytes) == Stale
    ensures Closed(u, s.leases[c.leaseId].environmentId)
    ensures forall l :: l in u.leases && u.leases[l].environmentId == s.leases[c.leaseId].environmentId ==>
      l in s.leases && u.leases[l].releasedAt.Some?
  {
    TakenLeaseStaysStale(s, t, u, q, c, maxBytes);
    TakenEnvironmentStaysClosed(s, t, u, q, c.leaseId);
    forall l | l in u.leases && u.leases[l].environmentId == s.leases[c.leaseId].environmentId
      ensures l in s.leases && u.leases[l].releasedAt.Some?
    {
      NoLeaseReturns(s, t, u, q, c.leaseId, l);
    }
  }

  /** What follows a step of a run only moves forward. */
  lemma LaterThanAStep(states: seq<Store>, steps: seq<Step>, maxBytes: nat, from: nat, till: nat)
    requires Execution(states, steps, maxBytes) && states[0] == EMPTY && from < till < |states|
    ensures Later(states[from + 1], states[till])
  {
    var after := from + 1;
    ReachableIsConsistent(states, steps, maxBytes, after);
    ExecutionIsForward(states, steps, maxBytes, after, till);
  }

  lemma ReclaimOfARun(states: seq<Store>, steps: seq<Step>, maxBytes: nat, at: nat)
    requires Execution(states, steps, maxBytes) && at < |steps| && steps[at].Reclaim?
    ensures Reclaimed(states[at], states[at + 1], steps[at].pass)
  {
    assert Next(states[at], steps[at], states[at + 1], maxBytes);
  }

  lemma HeldThroughReclaim(s: Store, m: map<LeaseId, Lease>, m': map<LeaseId, Lease>, q: ReclaimRequest, taken: LeaseId, l: LeaseId)
    requires Consistent(s) && LeasesTaken(s, m, TakenLeases(s, q), q.now) && LeasesLater(m, m')
    requires taken in TakenLeases(s, q) && l in m && m[l].environmentId == s.leases[taken].environmentId
    ensures m'[l].releasedAt.Some?
  {
    assert Ages(m[l], m'[l]);
    if s.leases[l].releasedAt.None? {
      UnreleasedIsUnique(s, l, taken);
    }
  }

  lemma UnreleasedIsUnique(s: Store, l: LeaseId, m: LeaseId)
    requires Consistent(s) && l in s.leases && m in s.leases
    requires s.leases[l].releasedAt.None? && s.leases[m].releasedAt.None?
    requires s.leases[l].environmentId == s.leases[m].environmentId
    ensures l == m
  {
    assert LeaseConsistent(s, l) && LeaseConsistent(s, m);
  }

  /** Fenced, or ended. */
  predicate Closed(s: Store, e: EnvironmentId) {
    e in s.environments && (s.environments[e].IsFenced() || s.environments[e].IsTerminal())
  }

  lemma TakenEnvironmentIsClosed(s: Store, t: Store, q: ReclaimRequest, taken: LeaseId)
    requires Consistent(s) && Reclaimed(s, t, q) && MayReclaim(s, q) && taken in TakenLeases(s, q)
    ensures Closed(t, s.leases[taken].environmentId)
  {
    assert LeaseConsistent(s, taken);
    assert Holds(s, taken, s.leases[taken].environmentId);
  }

  /** A dispatcher that stopped or was reclaimed takes no slot ever again, and its heartbeat
      extends nothing, with or without revival. */
  lemma DeadDispatchersStayDead(states: seq<Store>, steps: seq<Step>, maxBytes: nat, from: nat, till: nat,
                                d: DispatcherId, ttl: Duration, now: Timestamp, revive: bool)
    requires Execution(states, steps, maxBytes) && states[0] == EMPTY && from <= till < |states|
    requires d in states[from].dispatchers && !states[from].dispatchers[d].IsLive()
    ensures AfterHeartbeat(states[till], d, ttl, now, revive) == states[till]
    ensures forall l :: l in states[till].leases && states[till].leases[l].owner == Some(d) ==> l in states[from].leases
  {
    ReachableIsConsistent(states, steps, maxBytes, from);
    ExecutionIsForward(states, steps, maxBytes, from, till);
    forall l | l in states[till].leases && l !in states[from].leases ensures states[till].leases[l].owner != Some(d) {
      assert NewLease(states[from], states[till].leases[l]);
    }
  }

  /** The renewal of a single lease does not look at the dispatcher: one that is not live
      renews exactly the unreleased, active leases it owned when it stopped, as long as no
      reclaim reached it. */
  lemma DeadDispatcherRenewsExactly(s: Store, d: DispatcherId, l: LeaseId, epoch: nat, ttl: Duration, now: Timestamp)
    requires Consistent(s) && d in s.dispatchers && !s.dispatchers[d].IsLive()
    ensures Renewable(s, l, d, epoch, ttl, now) <==>
      && s.dispatchers[d].stoppedAt.Some? && s.dispatchers[d].reclaimedAt.None?
      && l in s.leases && s.leases[l].owner == Some(d) && s.leases[l].epoch == epoch && s.leases[l].IsActive(now)
  {
    if l in s.leases {
      assert LeaseConsistent(s, l);
    }
  }

  /** Once reclaimed, a dispatcher holds nothing and extends nothing in any continuation. */
  lemma ReclaimedDispatcherHoldsNothing(states: seq<Store>, steps: seq<Step>, maxBytes: nat, from: nat, till: nat,
                                        d: DispatcherId, l: LeaseId, epoch: nat, ttl: Duration, now: Timestamp)
    requires Execution(states, steps, maxBytes) && states[0] == EMPTY && from <= till < |states|
    requires d in states[from].dispatchers && states[from].dispatchers[d].reclaimedAt.Some?
    ensures forall m :: m in states[till].leases && states[till].leases[m].owner == Some(d) ==>
      states[till].leases[m].releasedAt.Some?
    ensures AfterRenewLease(states[till], l, d, epoch, ttl, now) == states[till]
  {
    ReachableIsConsistent(states, steps, maxBytes, from);
    ReachableIsConsistent(states, steps, maxBytes, till);
    ExecutionIsForward(states, steps, maxBytes, from, till);
    forall m | m in states[till].leases && states[till].leases[m].owner == Some(d)
      ensures states[till].leases[m].releasedAt.Some?
    {
      assert LeaseConsistent(states[till], m);
    }
  }

  /** Clocks within the skew: a lease its owner still trusts is taken exactly when
      the owner itself is dead (stopped, reclaimed, proven dead, or its own lease
      expired), never for the age of the lease. */
  lemma TrustedLeasesAreTakenExactlyFromDeadOwners(s: Store, q: ReclaimRequest, l: LeaseId, ownerClock: Timestamp)
    requires l in s.leases && s.leases[l].owner.Some? && s.leases[l].owner.value != q.reclaimer
    requires s.leases[l].IsActive(ownerClock) && q.now - ownerClock <= q.skew
    ensures l in TakenLeases(s, q) <==> s.leases[l].owner.value in Dead(s, q)
    ensures l in TakenLeases(s, q) ==> var d := s.dispatchers[s.leases[l].owner.value];
      d.reclaimedAt.Some? || d.stoppedAt.Some? || d.id in q.presumedDead || ownerClock >= d.leaseExpiresAt
  {
    if s.leases[l].expiresAt.Some? {
      NoSplitOwnershipExactly(s.leases[l], q.skew, q.skew);
    }
  }
}
