/** The slot store: who may run what on which environment right now
    (crates/application/src/repository/memory.rs, slot.rs, guard.rs, restart.rs).

    `Store` is the set of rows behind the store's lock. `InMemoryStore` is the
    object that mutates them; each method is proved against a specification of
    the rows before and after. `SlotRuns` proves what every run keeps. */
module SlotStoreModel {
  import opened Prelude
  import opened EnvironmentModel
  import opened LeaseModel
  import opened InvocationModel

  datatype Dispatcher = Dispatcher(
    id: DispatcherId, heartbeatAt: Timestamp, leaseExpiresAt: Timestamp,
    stoppedAt: Option<Timestamp>, reclaimedAt: Option<Timestamp>)
  {
    predicate IsLive() { stoppedAt.None? && reclaimedAt.None? }

    predicate IsExpired(now: Timestamp, skew: Duration) { now >= leaseExpiresAt + skew }
  }

  datatype Store = Store(
    environments: map<EnvironmentId, Environment>,
    leases: map<LeaseId, Lease>,
    attempts: map<AttemptId, Attempt>,
    invocations: map<InvocationId, Invocation>,
    dispatchers: map<DispatcherId, Dispatcher>)

  datatype RepoError = Refused | NotFound | Conflict

  // ---------------------------------------------------------------- row guards

  predicate SameEnvironment(old_: Environment, new_: Environment) {
    old_.identity == new_.identity && old_.owner == new_.owner
  }

  /** A plain environment write: never the epoch, never the fence, never into `Busy`. */
  predicate EnvironmentWritable(old_: Environment, new_: Environment) {
    && SameEnvironment(old_, new_)
    && (old_ == new_ ||
        (&& !old_.IsTerminal()
         && old_.epoch == new_.epoch
         && old_.fencedAt == new_.fencedAt
         && (new_.state.Busy? ==> old_.state.Busy?)))
  }

  /** Everything about an attempt but how it ended. */
  predicate SameDispatch(a: Attempt, b: Attempt) {
    && a.id == b.id && a.invocationId == b.invocationId && a.tenantId == b.tenantId && a.number == b.number
    && a.environmentId == b.environmentId && a.epoch == b.epoch && a.dispatchedAt == b.dispatchedAt
  }

  predicate AttemptWritable(old_: Attempt, new_: Attempt) {
    && SameDispatch(old_, new_)
    && (old_ == new_ || !old_.status.IsTerminal())
  }

  /** Inline bodies never exceed the response limit. */
  predicate BoundedOutput(i: Invocation, maxBytes: nat) {
    i.output.Some? && i.output.value.Inline? ==>
      i.output.value.size <= maxBytes && |i.output.value.bytesBase64| <= (maxBytes + 2) / 3 * 4
  }

  predicate InvocationWritable(old_: Invocation, new_: Invocation, maxBytes: nat) {
    && new_.request.(revisionId := old_.request.revisionId) == old_.request
    && (old_ == new_ || (!old_.status.IsTerminal() && BoundedOutput(new_, maxBytes)))
  }

  // ---------------------------------------------------------------- acquire

  datatype SlotAcquire = SlotAcquire(
    env: Environment, expectedEpoch: nat, lease: Lease, attempt: Attempt, invocation: Option<Invocation>)

  datatype Acquisition = Acquired | SlotLost | AcquireFailed(error: RepoError)

  predicate HasUnreleasedLease(leases: map<LeaseId, Lease>, env: EnvironmentId) {
    exists l :: l in leases && leases[l].environmentId == env && leases[l].releasedAt.None?
  }

  /** The request itself is inconsistent, whatever the store holds. */
  predicate MalformedAcquire(q: SlotAcquire) {
    || q.env.epoch != q.expectedEpoch + 1
    || q.lease.epoch != q.expectedEpoch + 1
    || q.attempt.epoch != q.expectedEpoch + 1
    || q.lease.environmentId != q.env.identity.id
    || q.attempt.environmentId != q.env.identity.id
    || q.lease.attemptId != q.attempt.id
    || q.lease.owner.None? || q.lease.expiresAt.None? || q.lease.releasedAt.Some?
    || !q.env.state.Busy?
  }

  function AcquireOutcome(s: Store, q: SlotAcquire, maxBytes: nat): Acquisition {
    var id := q.env.identity.id;
    if MalformedAcquire(q) then AcquireFailed(Refused)
    else if id !in s.environments then AcquireFailed(NotFound)
    else
      var stored := s.environments[id];
      if !SameEnvironment(stored, q.env) then AcquireFailed(Refused)
      else if stored.owner != q.lease.owner then SlotLost
      else if stored.epoch != q.expectedEpoch || !stored.IsReusable() then SlotLost
      else if q.lease.owner.value !in s.dispatchers || !s.dispatchers[q.lease.owner.value].IsLive() then SlotLost
      else if HasUnreleasedLease(s.leases, id) then SlotLost
      else if q.invocation.Some? && q.invocation.value.request.id !in s.invocations then AcquireFailed(NotFound)
      else if q.invocation.Some? && s.invocations[q.invocation.value.request.id].status.IsTerminal() then SlotLost
      else if q.invocation.Some?
              && !InvocationWritable(s.invocations[q.invocation.value.request.id], q.invocation.value, maxBytes) then
        AcquireFailed(Refused)
      else if q.attempt.id in s.attempts || q.lease.id in s.leases then AcquireFailed(Conflict)
      else if q.attempt.invocationId in s.invocations
              && s.invocations[q.attempt.invocationId].request.tenantId != q.attempt.tenantId then AcquireFailed(Refused)
      else if stored.identity.tenantId != q.lease.tenantId then AcquireFailed(Refused)
      else Acquired
  }

  function WithInvocation(invocations: map<InvocationId, Invocation>, i: Option<Invocation>): map<InvocationId, Invocation> {
    if i.Some? then invocations[i.value.request.id := i.value] else invocations
  }

  function AfterAcquire(s: Store, q: SlotAcquire, maxBytes: nat): Store {
    if AcquireOutcome(s, q, maxBytes).Acquired? then
      s.(environments := s.environments[q.env.identity.id := q.env],
         leases := s.leases[q.lease.id := q.lease],
         attempts := s.attempts[q.attempt.id := q.attempt],
         invocations := WithInvocation(s.invocations, q.invocation))
    else s
  }

  // ---------------------------------------------------------------- complete, release, renew

  datatype SlotCompletion = SlotCompletion(
    leaseId: LeaseId, attempt: Attempt, invocation: Option<Invocation>, now: Timestamp)

  datatype Completion = Completed | Stale | CompleteFailed(error: RepoError)

  /** The lease is unreleased, names `(attempt, epoch)`, and its environment is
      still at that epoch and unfenced. */
  predicate LeaseIsCurrent(s: Store, id: LeaseId, attempt: AttemptId, epoch: nat) {
    && id in s.leases
    && s.leases[id].Accepts(attempt, epoch)
    && (s.leases[id].environmentId in s.environments ==>
          var env := s.environments[s.leases[id].environmentId]; env.epoch == epoch && !env.IsFenced())
  }

  function CompleteOutcome(s: Store, c: SlotCompletion, maxBytes: nat): Completion {
    if !LeaseIsCurrent(s, c.leaseId, c.attempt.id, c.attempt.epoch) then Stale
    else if c.attempt.id !in s.attempts then CompleteFailed(NotFound)
    else if s.attempts[c.attempt.id].status.IsTerminal() then Stale
    else if !AttemptWritable(s.attempts[c.attempt.id], c.attempt) then CompleteFailed(Refused)
    else if c.invocation.Some? && c.invocation.value.request.id !in s.invocations then CompleteFailed(NotFound)
    else if c.invocation.Some? && s.invocations[c.invocation.value.request.id].status.IsTerminal() then Stale
    else if c.invocation.Some?
            && !InvocationWritable(s.invocations[c.invocation.value.request.id], c.invocation.value, maxBytes) then
      CompleteFailed(Refused)
    else Completed
  }

  function AfterComplete(s: Store, c: SlotCompletion, maxBytes: nat): Store {
    if CompleteOutcome(s, c, maxBytes).Completed? then
      s.(leases := s.leases[c.leaseId := s.leases[c.leaseId].(releasedAt := Some(c.now))],
         attempts := s.attempts[c.attempt.id := c.attempt],
         invocations := WithInvocation(s.invocations, c.invocation))
    else s
  }

  function AfterReleaseLease(s: Store, id: LeaseId, attempt: AttemptId, epoch: nat, now: Timestamp): Store {
    if LeaseIsCurrent(s, id, attempt, epoch) then
      s.(leases := s.leases[id := s.leases[id].(releasedAt := Some(now))])
    else s
  }

  predicate Renewable(s: Store, id: LeaseId, owner: DispatcherId, epoch: nat, ttl: Duration, now: Timestamp) {
    id in s.leases && s.leases[id].owner == Some(owner) && s.leases[id].epoch == epoch
    && Renewed(s.leases[id], now, ttl).Success?
  }

  function AfterRenewLease(s: Store, id: LeaseId, owner: DispatcherId, epoch: nat, ttl: Duration, now: Timestamp): Store {
    if Renewable(s, id, owner, epoch, ttl, now) then
      s.(leases := s.leases[id := Renewed(s.leases[id], now, ttl).value])
    else s
  }

  // ---------------------------------------------------------------- heartbeat

  /** A live dispatcher renews itself and what it holds; only a revival may
      come after its own expiry. */
  predicate MayRenew(s: Store, id: DispatcherId, now: Timestamp, revive: bool) {
    id in s.dispatchers && s.dispatchers[id].IsLive() && (revive || now < s.dispatchers[id].leaseExpiresAt)
  }

  function ExtendedLease(l: Lease, id: DispatcherId, ttl: Duration, now: Timestamp, revive: bool): Lease {
    if l.owner != Some(id) || l.releasedAt.Some? then l
    else
      var r := if revive then Revived(l, now, ttl) else Renewed(l, now, ttl);
      if r.Success? then r.value else l
  }

  function AfterHeartbeat(s: Store, id: DispatcherId, ttl: Duration, now: Timestamp, revive: bool): Store {
    if MayRenew(s, id, now, revive) then
      var d := s.dispatchers[id];
      s.(dispatchers := s.dispatchers[id := d.(heartbeatAt := now, leaseExpiresAt := Max(d.leaseExpiresAt, now + ttl))],
         leases := map l | l in s.leases :: ExtendedLease(s.leases[l], id, ttl, now, revive))
    else s
  }

  function AfterStop(s: Store, id: DispatcherId, now: Timestamp): Store {
    if id in s.dispatchers && s.dispatchers[id].stoppedAt.None? then
      s.(dispatchers := s.dispatchers[id := s.dispatchers[id].(stoppedAt := Some(now))])
    else s
  }

  // ---------------------------------------------------------------- pool

  function Pooled(s: Store): set<EnvironmentId> {
    set e | e in s.environments && s.environments[e].state.Idle?
  }

  function PooledWith(s: Store, key: ReuseKey): set<EnvironmentId> {
    set e | e in s.environments && s.environments[e].state.Idle? && s.environments[e].identity.reuseKey == key
  }

  function IdleCount(s: Store): nat { |Pooled(s)| }

  function IdlePerKey(s: Store, key: ReuseKey): nat { |PooledWith(s, key)| }

  datatype PoolLimits = PoolLimits(maxTotalIdle: nat, maxIdlePerKey: nat)

  /** The caller's copy, parked: through `Busy` when it was pre-started. */
  function Parked(env: Environment, now: Timestamp): Result<Environment, DomainError> {
    var busy := if env.state.Ready? then Transition(env, Busy, now) else Success(env);
    if busy.Success? then Transition(busy.value, Idle, now) else busy
  }

  predicate MayPark(s: Store, env: Environment, limits: PoolLimits, now: Timestamp) {
    var id := env.identity.id;
    && id in s.environments
    && var current := s.environments[id];
    && current.epoch == env.epoch
    && (current.state.Busy? || (current.state.Ready? && current.epoch == 0))
    && !current.IsFenced()
    && !HasUnreleasedLease(s.leases, id)
    && IdleCount(s) < limits.maxTotalIdle
    && IdlePerKey(s, env.identity.reuseKey) < limits.maxIdlePerKey
    && Parked(env, now).Success?
  }

  datatype Parking = ParkedAs(environment: Environment) | NotParked | ParkRefused

  function ParkOutcome(s: Store, env: Environment, limits: PoolLimits, now: Timestamp): Parking {
    if !MayPark(s, env, limits, now) then NotParked
    else if !EnvironmentWritable(s.environments[env.identity.id], Parked(env, now).value) then ParkRefused
    else ParkedAs(Parked(env, now).value)
  }

  function AfterPark(s: Store, env: Environment, limits: PoolLimits, now: Timestamp): Store {
    var r := ParkOutcome(s, env, limits, now);
    if r.ParkedAs? then s.(environments := s.environments[env.identity.id := r.environment]) else s
  }

  /** A pooled environment of the owner that matches the key in every field. */
  predicate Claimable(e: Environment, key: ReuseKey, owner: Option<DispatcherId>) {
    e.state.Idle? && e.identity.reuseKey == key && e.owner == owner
  }

  function Matching(s: Store, key: ReuseKey, owner: Option<DispatcherId>): set<EnvironmentId> {
    set e | e in s.environments && Claimable(s.environments[e], key, owner)
  }

  /** Only the first match by id is considered. */
  ghost predicate Claimed(s: Store, s': Store, key: ReuseKey, owner: Option<DispatcherId>, now: Timestamp, r: Option<Environment>) {
    match r
    case None =>
      s' == s && forall id :: IsFirst(id, Matching(s, key, owner)) ==> s.environments[id].IsFenced()
    case Some(env) =>
      exists id :: IsFirst(id, Matching(s, key, owner))
        && Reserved(s.environments[id], now) == Success(env)
        && s' == s.(environments := s.environments[id := env])
  }

  predicate Drainable(s: Store, id: EnvironmentId) {
    id in s.environments && s.environments[id].state.Idle?
  }

  function AfterTakeIdle(s: Store, id: EnvironmentId, now: Timestamp): Store {
    if Drainable(s, id) then
      s.(environments := s.environments[id := Transition(s.environments[id], Draining, now).value])
    else s
  }

  // ---------------------------------------------------------------- reclaim

  datatype ReclaimRequest = ReclaimRequest(
    reclaimer: DispatcherId, now: Timestamp, skew: Duration, presumedDead: set<DispatcherId>)

  /** Only a reclaimer that still holds its own lease reclaims. */
  predicate MayReclaim(s: Store, q: ReclaimRequest) {
    q.reclaimer in s.dispatchers && s.dispatchers[q.reclaimer].IsLive()
    && q.now < s.dispatchers[q.reclaimer].leaseExpiresAt
  }

  /** Reclaimed before, stopped, proven dead, or expired beyond the skew. */
  predicate IsDead(d: Dispatcher, q: ReclaimRequest) {
    d.id != q.reclaimer
    && (d.reclaimedAt.Some? || d.stoppedAt.Some? || d.id in q.presumedDead || d.IsExpired(q.now, q.skew))
  }

  function Dead(s: Store, q: ReclaimRequest): set<DispatcherId> {
    set d | d in s.dispatchers && IsDead(s.dispatchers[d], q)
  }

  function Marked(d: Dispatcher, q: ReclaimRequest): Dispatcher {
    if IsDead(d, q) && d.reclaimedAt.None? then d.(reclaimedAt := Some(q.now)) else d
  }

  /** The leases a pass takes: unreleased, of another owner, dead or expired. */
  predicate Taken(l: Lease, dead: set<DispatcherId>, q: ReclaimRequest) {
    && l.releasedAt.None? && l.owner.Some? && l.owner.value != q.reclaimer
    && (l.owner.value in dead || l.IsExpired(q.now, q.skew))
  }

  function TakenLeases(s: Store, q: ReclaimRequest): set<LeaseId> {
    set l | l in s.leases && Taken(s.leases[l], Dead(s, q), q)
  }

  predicate Fenceable(e: Environment) { !e.IsTerminal() && !e.IsFenced() }

  /** The lease was still the current assignment of the environment. */
  predicate Holds(s: Store, l: LeaseId, e: EnvironmentId)
    requires l in s.leases && e in s.environments
  {
    s.leases[l].environmentId == e && s.leases[l].epoch == s.environments[e].epoch
  }

  predicate Interrupted(s: Store, taken: set<LeaseId>, e: EnvironmentId)
    requires taken <= s.leases.Keys && e in s.environments
  {
    exists l :: l in taken && Holds(s, l, e)
  }

  predicate OwnerDead(owner: Option<DispatcherId>, dead: set<DispatcherId>) {
    owner.Some? && owner.value in dead
  }

  /** A settled row: only its status and finish time changed, to a settlement. */
  ghost predicate SettledAttempt(before: Attempt, after: Attempt, now: Timestamp) {
    && !before.status.IsTerminal() && SameDispatch(before, after) && after.finishedAt == Some(now)
    && match after.status
       case AttemptOutcomeUnknown(error) => error.errorClass.OutcomeUnknown?
       case AttemptFailed(error) => error.errorClass.PlatformError?
       case _ => false
  }

  ghost predicate SettledInvocation(before: Invocation, after: Invocation, now: Timestamp) {
    && !before.status.IsTerminal() && after.finishedAt == Some(now)
    && (if before.status.Running? then after.status.OutcomeUnknown? && after.status.error.errorClass.OutcomeUnknown?
        else after.status.Failed? && after.status.error.errorClass.PlatformError?)
    && after.request == before.request && after.deadlines == before.deadlines && after.output == before.output
    && after.httpStatus == before.httpStatus && after.startedAt == before.startedAt
    && after.attemptIds == before.attemptIds
  }

  /** The invocation a lease was running: its last attempt. */
  predicate Drives(s: Store, l: LeaseId, i: InvocationId)
    requires l in s.leases && i in s.invocations
  {
    var a, ids := s.leases[l].attemptId, s.invocations[i].attemptIds;
    a in s.attempts && s.attempts[a].invocationId == i && ids != [] && ids[|ids| - 1] == a
  }

  predicate RunUnder(s: Store, taken: set<LeaseId>, i: InvocationId)
    requires taken <= s.leases.Keys && i in s.invocations
  {
    exists l :: l in taken && Drives(s, l, i)
  }

  predicate OpenSync(i: Invocation) { !i.status.IsTerminal() && i.request.mode.Sync? }

  ghost predicate DispatchersMarked(s: Store, m: map<DispatcherId, Dispatcher>, q: ReclaimRequest) {
    m.Keys == s.dispatchers.Keys && forall d :: d in m ==> m[d] == Marked(s.dispatchers[d], q)
  }

  ghost predicate LeasesTaken(s: Store, m: map<LeaseId, Lease>, taken: set<LeaseId>, now: Timestamp) {
    && m.Keys == s.leases.Keys
    && forall l :: l in m ==>
         if l in taken then m[l] == s.leases[l].(releasedAt := Some(now)) else m[l] == s.leases[l]
  }

  /** Fenced exactly where a taken lease was current or the owner is dead. */
  ghost predicate EnvironmentsFenced(s: Store, m: map<EnvironmentId, Environment>, taken: set<LeaseId>,
                                     dead: set<DispatcherId>, now: Timestamp)
    requires taken <= s.leases.Keys
  {
    && m.Keys == s.environments.Keys
    && forall e :: e in m ==>
         if Fenceable(s.environments[e]) && (Interrupted(s, taken, e) || OwnerDead(s.environments[e].owner, dead))
         then m[e] == EnvironmentModel.Fenced(s.environments[e], now).value else m[e] == s.environments[e]
  }

  /** A taken lease is for this attempt. */
  predicate Named(s: Store, taken: set<LeaseId>, a: AttemptId)
    requires taken <= s.leases.Keys
  {
    exists l :: l in taken && s.leases[l].attemptId == a
  }

  /** The open invocation of the attempt ran under a taken lease or belongs to a dead dispatcher. */
  predicate Covered(s: Store, taken: set<LeaseId>, dead: set<DispatcherId>, a: AttemptId)
    requires taken <= s.leases.Keys && a in s.attempts
  {
    var i := s.attempts[a].invocationId;
    && i in s.invocations && !s.invocations[i].status.IsTerminal()
    && (RunUnder(s, taken, i) || OwnerDead(s.invocations[i].request.dispatcherId, dead))
  }

  /** The open attempts a pass settles. */
  predicate Ends(s: Store, taken: set<LeaseId>, dead: set<DispatcherId>, a: AttemptId)
    requires taken <= s.leases.Keys && a in s.attempts
  {
    !s.attempts[a].status.IsTerminal() && (Named(s, taken, a) || Covered(s, taken, dead, a))
  }

  predicate RunsNow(s: Store, a: AttemptId)
    requires a in s.attempts
  {
    var i := s.attempts[a].invocationId;
    i in s.invocations && s.invocations[i].status.Running?
  }

  /** The lease settles the open run of the invocation, before any taken lease for the attempt. */
  predicate Overtakes(s: Store, taken: set<LeaseId>, a: AttemptId, l: LeaseId)
    requires taken <= s.leases.Keys && a in s.attempts && s.attempts[a].invocationId in s.invocations
  {
    l in taken && Drives(s, l, s.attempts[a].invocationId) && forall m :: m in taken && s.leases[m].attemptId == a ==> l < m
  }

  /** A taken lease settles the open run of the attempt's invocation, which is not running,
      before any taken lease for the attempt itself; leases are taken in the order of their ids. */
  predicate Overtaken(s: Store, taken: set<LeaseId>, a: AttemptId)
    requires taken <= s.leases.Keys && a in s.attempts
  {
    var i := s.attempts[a].invocationId;
    && i in s.invocations && !s.invocations[i].status.IsTerminal()
    && exists l <- taken :: Overtakes(s, taken, a, l)
  }

  /** How an attempt ends: as unknown exactly when its invocation is running or a taken
      lease is for it and is not overtaken, otherwise as failed. */
  ghost predicate EndsAs(s: Store, taken: set<LeaseId>, a: AttemptId, after: Attempt, now: Timestamp)
    requires taken <= s.leases.Keys && a in s.attempts
  {
    && SettledAttempt(s.attempts[a], after, now)
    && (after.status.AttemptOutcomeUnknown? <==> RunsNow(s, a) || (Named(s, taken, a) && !Overtaken(s, taken, a)))
  }

  /** Settled exactly the open attempts of taken leases, of invocations that ran under
      them, and of open invocations of dead dispatchers. */
  ghost predicate AttemptsSettled(s: Store, m: map<AttemptId, Attempt>, taken: set<LeaseId>,
                                  dead: set<DispatcherId>, now: Timestamp)
    requires taken <= s.leases.Keys
  {
    && m.Keys == s.attempts.Keys
    && forall a :: a in m ==>
         if Ends(s, taken, dead, a) then EndsAs(s, taken, a, m[a], now) else m[a] == s.attempts[a]
  }

  /** Settled exactly the open synchronous invocations that ran under a taken
      lease or belong to a dead dispatcher. */
  ghost predicate InvocationsSettled(s: Store, m: map<InvocationId, Invocation>, taken: set<LeaseId>,
                                     dead: set<DispatcherId>, now: Timestamp)
    requires taken <= s.leases.Keys
  {
    && m.Keys == s.invocations.Keys
    && forall i :: i in m ==>
         if OpenSync(s.invocations[i]) && (RunUnder(s, taken, i) || OwnerDead(s.invocations[i].request.dispatcherId, dead))
         then SettledInvocation(s.invocations[i], m[i], now) else m[i] == s.invocations[i]
  }

  ghost predicate Reclaimed(s: Store, s': Store, q: ReclaimRequest) {
    if !MayReclaim(s, q) then s' == s
    else
      var dead, taken := Dead(s, q), TakenLeases(s, q);
      && DispatchersMarked(s, s'.dispatchers, q)
      && LeasesTaken(s, s'.leases, taken, q.now)
      && EnvironmentsFenced(s, s'.environments, taken, dead, q.now)
      && AttemptsSettled(s, s'.attempts, taken, dead, q.now)
      && InvocationsSettled(s, s'.invocations, taken, dead, q.now)
  }

  predicate Confirmable(s: Store, id: EnvironmentId, epoch: nat) {
    id in s.environments && s.environments[id].IsFenced() && !s.environments[id].IsTerminal()
    && s.environments[id].epoch == epoch
  }

  const FENCED_TERMINATED := "owner lost its lease; environment fenced and terminate confirmed"

  function AfterConfirm(s: Store, id: EnvironmentId, epoch: nat, now: Timestamp): Store {
    if Confirmable(s, id, epoch) then
      s.(environments := s.environments[id := Transition(s.environments[id], EnvironmentState.Lost(FENCED_TERMINATED), now).value])
    else s
  }
}
