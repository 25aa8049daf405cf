/** The object behind the lock: each write of the store, proved against its
    specification in `SlotStoreModel`
    (crates/application/src/repository/memory.rs). */
module InMemoryStoreModel {
  import opened Prelude
  import opened EnvironmentModel
  import opened LeaseModel
  import opened InvocationModel
  import opened SlotStoreModel

  /** Why rows are settled: the error type and the messages they get. */
  datatype Cause = Cause(errorType: string, notStarted: string, unknown: string, attempt: string)

  const RESTARTED := Cause(
    "Host.Restarted",
    "gateway restarted while the invocation was in flight",
    "gateway restarted after the invocation was dispatched; the handler may have run",
    "gateway restarted while the attempt was in flight")
  const LEASE_EXPIRED := Cause(
    "Host.LeaseExpired",
    "the dispatcher that accepted the invocation lost its lease before dispatching it",
    "the dispatcher lost its lease after the invocation was dispatched; the handler may have run",
    "the dispatcher lost its lease while the attempt was in flight")

  /** A dispatched invocation may have run; one that never was provably did not. */
  function Settle(inv: Invocation, cause: Cause, now: Timestamp): (r: Invocation)
    requires !inv.status.IsTerminal()
    ensures SettledInvocation(inv, r, now)
  {
    if inv.status.Running? then
      var unknown := InvocationModel.Try(inv, MarkOutcomeUnknown(cause.unknown), now).value;
      unknown.(status := InvocationStatus.OutcomeUnknown(unknown.status.error.(errorType := cause.errorType)))
    else
      InvocationModel.Try(inv, MarkFailed(InvocationError(PlatformError, cause.errorType, cause.notStarted)), now).value
  }

  /** Settled, as outcome unknown or as failed. */
  ghost predicate EndedAs(before: Attempt, after: Attempt, unknown: bool, now: Timestamp) {
    SettledAttempt(before, after, now) && (after.status.AttemptOutcomeUnknown? <==> unknown)
  }

  function SettleAttempt(a: Attempt, unknown: bool, cause: Cause, now: Timestamp): (r: Attempt)
    ensures if a.status.IsTerminal() then r == a else EndedAs(a, r, unknown, now)
  {
    var ended :=
      if unknown then AttemptOutcomeUnknown(InvocationError(ErrorClass.OutcomeUnknown, cause.errorType, cause.unknown))
      else AttemptFailed(InvocationError(PlatformError, cause.errorType, cause.attempt));
    var r := Finished(a, ended, now);
    if r.Success? then r.value else a
  }

  function CauseOf(d: Dispatcher, q: ReclaimRequest): Cause {
    if (d.reclaimedAt.None? && d.id in q.presumedDead) || d.stoppedAt.Some? then RESTARTED else LEASE_EXPIRED
  }

  /** A dispatcher that stopped, or was proven dead in this pass, restarted; any other lost its lease. */
  lemma CausesExactly(d: Dispatcher, q: ReclaimRequest)
    ensures CauseOf(d, q).errorType ==
      if d.stoppedAt.Some? || (d.reclaimedAt.None? && d.id in q.presumedDead) then "Host.Restarted" else "Host.LeaseExpired"
  {
  }

  // ---------------------------------------------------------------- a reclaim in progress

  lemma OneMoreLeaseTaken(s: Store, m: map<LeaseId, Lease>, done: set<LeaseId>, id: LeaseId, now: Timestamp)
    requires LeasesTaken(s, m, done, now) && id in m && id !in done && s.leases[id].releasedAt.None?
    ensures LeasesTaken(s, m[id := m[id].(releasedAt := Some(now))], done + {id}, now)
  {
  }

  lemma OneMoreInterruption(s: Store, done: set<LeaseId>, id: LeaseId, e: EnvironmentId)
    requires done <= s.leases.Keys && id in s.leases && e in s.environments
    ensures Interrupted(s, done + {id}, e) <==> Interrupted(s, done, e) || Holds(s, id, e)
  {
  }

  lemma OneMoreDriver(s: Store, done: set<LeaseId>, id: LeaseId, i: InvocationId)
    requires done <= s.leases.Keys && id in s.leases && i in s.invocations
    ensures RunUnder(s, done + {id}, i) <==> RunUnder(s, done, i) || Drives(s, id, i)
  {
  }

  lemma OneMoreName(s: Store, done: set<LeaseId>, id: LeaseId, a: AttemptId)
    requires done <= s.leases.Keys && id in s.leases
    ensures Named(s, done + {id}, a) <==> Named(s, done, a) || s.leases[id].attemptId == a
  {
  }

  /** Every open attempt of one invocation ended alike. */
  ghost predicate RunSettled(m: map<AttemptId, Attempt>, m': map<AttemptId, Attempt>, i: InvocationId, unknown: bool, now: Timestamp) {
    m'.Keys == m.Keys && forall a :: a in m ==>
      if m[a].invocationId == i && !m[a].status.IsTerminal() then EndedAs(m[a], m'[a], unknown, now) else m'[a] == m[a]
  }

  /** The attempt of a taken lease ended as unknown. */
  ghost predicate OneSettled(m: map<AttemptId, Attempt>, m': map<AttemptId, Attempt>, a: AttemptId, now: Timestamp) {
    && a in m && m'.Keys == m.Keys && (forall b :: b in m && b != a ==> m'[b] == m[b])
    && if m[a].status.IsTerminal() then m'[a] == m[a] else EndedAs(m[a], m'[a], true, now)
  }

  predicate DrivenBy(m: map<InvocationId, Invocation>, i: InvocationId, a: AttemptId) {
    && i in m && !m[i].status.IsTerminal() && m[i].attemptIds != []
    && m[i].attemptIds[|m[i].attemptIds| - 1] == a
  }

  /** What taking one lease does to the attempts: its own ends, and with it the open run
      of the invocation it drove. */
  ghost predicate LeaseRunSettled(m: map<AttemptId, Attempt>, m': map<AttemptId, Attempt>, v: map<InvocationId, Invocation>,
                                  a: AttemptId, now: Timestamp) {
    if a !in m then m' == m
    else
      exists named :: OneSettled(m, named, a, now) &&
        if DrivenBy(v, m[a].invocationId, a)
        then RunSettled(named, m', m[a].invocationId, v[m[a].invocationId].status.Running?, now) else m' == named
  }

  ghost predicate AttemptSettled(s: Store, m: map<AttemptId, Attempt>, taken: set<LeaseId>, dead: set<DispatcherId>,
                                 a: AttemptId, now: Timestamp)
    requires taken <= s.leases.Keys && a in s.attempts && a in m
  {
    if Ends(s, taken, dead, a) then EndsAs(s, taken, a, m[a], now) else m[a] == s.attempts[a]
  }

  /** An attempt that ended under earlier leases keeps the way it ended. */
  lemma KindIsDecidedEarly(s: Store, done: set<LeaseId>, id: LeaseId, a: AttemptId)
    requires done <= s.leases.Keys && id in s.leases && a in s.attempts && forall l :: l in done ==> l < id
    requires Ends(s, done, {}, a)
    ensures Named(s, done + {id}, a) && !Overtaken(s, done + {id}, a) <==> Named(s, done, a) && !Overtaken(s, done, a)
  {
  }

  /** A settled attempt keeps its row while one more lease is taken. */
  lemma SettledRowStays(m: map<AttemptId, Attempt>, m': map<AttemptId, Attempt>, v: map<InvocationId, Invocation>,
                        x: AttemptId, a: AttemptId, now: Timestamp)
    requires LeaseRunSettled(m, m', v, x, now) && a in m && m[a].status.IsTerminal()
    ensures a in m' && m'[a] == m[a]
  {
  }

  /** What ended under the leases taken so far stays as it ended. */
  lemma EndedAttemptStays(s: Store, m: map<AttemptId, Attempt>, m': map<AttemptId, Attempt>, v: map<InvocationId, Invocation>,
                          done: set<LeaseId>, id: LeaseId, a: AttemptId, now: Timestamp)
    requires done <= s.leases.Keys && id in s.leases && a in s.attempts && a in m
    requires forall l :: l in done ==> l < id
    requires Ends(s, done, {}, a) && AttemptSettled(s, m, done, {}, a, now)
    requires LeaseRunSettled(m, m', v, s.leases[id].attemptId, now)
    ensures a in m' && AttemptSettled(s, m', done + {id}, {}, a, now)
  {
    SettledRowStays(m, m', v, s.leases[id].attemptId, a, now);
    KindIsDecidedEarly(s, done, id, a);
    OneMoreName(s, done, id, a);
    var i := s.attempts[a].invocationId;
    if i in s.invocations {
      OneMoreDriver(s, done, id, i);
    }
  }

  /** What was still open ends exactly when this lease is for it or drove its open invocation. */
  lemma OpenAttemptAdvances(s: Store, m: map<AttemptId, Attempt>, m': map<AttemptId, Attempt>, v: map<InvocationId, Invocation>,
                            done: set<LeaseId>, id: LeaseId, a: AttemptId, now: Timestamp)
    requires done <= s.leases.Keys && id in s.leases && m'.Keys == m.Keys == s.attempts.Keys && a in m
    requires forall l :: l in done ==> l < id
    requires !Ends(s, done, {}, a) && m[a] == s.attempts[a] && InvocationsSettled(s, v, done, {}, now)
    requires s.leases[id].attemptId in m ==> m[s.leases[id].attemptId].invocationId == s.attempts[s.leases[id].attemptId].invocationId
    requires LeaseRunSettled(m, m', v, s.leases[id].attemptId, now)
    ensures AttemptSettled(s, m', done + {id}, {}, a, now)
  {
    OneMoreName(s, done, id, a);
    var i := s.attempts[a].invocationId;
    if i in s.invocations {
      OneMoreDriver(s, done, id, i);
    }
  }

  lemma OneMoreSettledAttempt(s: Store, m: map<AttemptId, Attempt>, m': map<AttemptId, Attempt>, v: map<InvocationId, Invocation>,
                              done: set<LeaseId>, id: LeaseId, a: AttemptId, now: Timestamp)
    requires done <= s.leases.Keys && id in s.leases && m'.Keys == m.Keys == s.attempts.Keys && a in m
    requires forall l :: l in done ==> l < id
    requires AttemptSettled(s, m, done, {}, a, now) && InvocationsSettled(s, v, done, {}, now)
    requires s.leases[id].attemptId in m ==> m[s.leases[id].attemptId].invocationId == s.attempts[s.leases[id].attemptId].invocationId
    requires LeaseRunSettled(m, m', v, s.leases[id].attemptId, now)
    ensures AttemptSettled(s, m', done + {id}, {}, a, now)
  {
    if Ends(s, done, {}, a) {
      EndedAttemptStays(s, m, m', v, done, id, a, now);
    } else {
      OpenAttemptAdvances(s, m, m', v, done, id, a, now);
    }
  }

  lemma OneMoreSettledRun(s: Store, m: map<AttemptId, Attempt>, m': map<AttemptId, Attempt>, v: map<InvocationId, Invocation>,
                          done: set<LeaseId>, id: LeaseId, now: Timestamp)
    requires done <= s.leases.Keys && id in s.leases && forall l :: l in done ==> l < id
    requires AttemptsSettled(s, m, done, {}, now) && InvocationsSettled(s, v, done, {}, now)
    requires LeaseRunSettled(m, m', v, s.leases[id].attemptId, now)
    ensures AttemptsSettled(s, m', done + {id}, {}, now)
  {
    forall a | a in m' ensures AttemptSettled(s, m', done + {id}, {}, a, now) {
      OneMoreSettledAttempt(s, m, m', v, done, id, a, now);
    }
  }

  /** Settling the run of one more lease, where it drives an open invocation. */
  lemma OneMoreSettledInvocation(s: Store, m: map<InvocationId, Invocation>, m': map<InvocationId, Invocation>,
                                 done: set<LeaseId>, id: LeaseId, now: Timestamp)
    requires done <= s.leases.Keys && id in s.leases
    requires InvocationsSettled(s, m, done, {}, now) && m'.Keys == m.Keys
    requires forall i :: i in m ==>
      if Drives(s, id, i) && OpenSync(m[i]) then SettledInvocation(m[i], m'[i], now) else m'[i] == m[i]
    ensures InvocationsSettled(s, m', done + {id}, {}, now)
  {
    forall i | i in m'
      ensures if OpenSync(s.invocations[i]) && RunUnder(s, done + {id}, i)
              then SettledInvocation(s.invocations[i], m'[i], now) else m'[i] == s.invocations[i]
    {
      OneMoreDriver(s, done, id, i);
    }
  }

  ghost predicate SyncSettled(m: map<InvocationId, Invocation>, m': map<InvocationId, Invocation>, done: set<InvocationId>, now: Timestamp) {
    m'.Keys == m.Keys && forall i :: i in m ==>
      if i in done && m[i].request.mode.Sync? then SettledInvocation(m[i], m'[i], now) else m'[i] == m[i]
  }

  lemma OneMoreSynced(m: map<InvocationId, Invocation>, m': map<InvocationId, Invocation>, m'': map<InvocationId, Invocation>,
                      done: set<InvocationId>, id: InvocationId, now: Timestamp)
    requires SyncSettled(m, m', done, now) && id in m && id !in done
    requires m''.Keys == m'.Keys && forall i :: i in m' && i != id ==> m''[i] == m'[i]
    requires if m[id].request.mode.Sync? then SettledInvocation(m[id], m''[id], now) else m''[id] == m[id]
    ensures SyncSettled(m, m'', done + {id}, now)
  {
  }

  /** The open attempts of the invocations in `done` ended like their invocation. */
  ghost predicate RunsSettled(m: map<AttemptId, Attempt>, m': map<AttemptId, Attempt>, v: map<InvocationId, Invocation>,
                              done: set<InvocationId>, now: Timestamp)
    requires done <= v.Keys
  {
    m'.Keys == m.Keys && forall a :: a in m ==>
      var i := m[a].invocationId;
      if i in done && !m[a].status.IsTerminal() then EndedAs(m[a], m'[a], v[i].status.Running?, now) else m'[a] == m[a]
  }

  lemma OneMoreRun(m: map<AttemptId, Attempt>, m': map<AttemptId, Attempt>, m'': map<AttemptId, Attempt>,
                   v: map<InvocationId, Invocation>, done: set<InvocationId>, id: InvocationId, now: Timestamp)
    requires done <= v.Keys && id in v && id !in done
    requires RunsSettled(m, m', v, done, now) && RunSettled(m', m'', id, v[id].status.Running?, now)
    ensures RunsSettled(m, m'', v, done + {id}, now)
  {
  }

  lemma OwnedRunsAreSettled(s: Store, m: map<AttemptId, Attempt>, m': map<AttemptId, Attempt>, v: map<InvocationId, Invocation>,
                            owned: set<InvocationId>, taken: set<LeaseId>, dead: set<DispatcherId>, now: Timestamp)
    requires taken <= s.leases.Keys && owned <= v.Keys
    requires AttemptsSettled(s, m, taken, {}, now) && InvocationsSettled(s, v, taken, {}, now) && RunsSettled(m, m', v, owned, now)
    requires forall i :: i in v ==>
      (i in owned <==> OwnerDead(v[i].request.dispatcherId, dead) && !v[i].status.IsTerminal())
    ensures AttemptsSettled(s, m', taken, dead, now)
  {
    forall a | a in m'
      ensures if Ends(s, taken, dead, a) then EndsAs(s, taken, a, m'[a], now) else m'[a] == s.attempts[a]
    {
      assert m[a].invocationId == s.attempts[a].invocationId;
    }
  }

  /** What ran under a taken lease was settled before; the dead dispatchers' open
      invocations follow. */
  lemma OwnedAreSettled(s: Store, m: map<InvocationId, Invocation>, m': map<InvocationId, Invocation>,
                        owned: set<InvocationId>, taken: set<LeaseId>, dead: set<DispatcherId>, now: Timestamp)
    requires taken <= s.leases.Keys && InvocationsSettled(s, m, taken, {}, now) && SyncSettled(m, m', owned, now)
    requires forall i :: i in m ==>
      (i in owned <==> OwnerDead(m[i].request.dispatcherId, dead) && !m[i].status.IsTerminal())
    ensures InvocationsSettled(s, m', taken, dead, now)
  {
    forall i | i in m'
      ensures if OpenSync(s.invocations[i]) && (RunUnder(s, taken, i) || OwnerDead(s.invocations[i].request.dispatcherId, dead))
              then SettledInvocation(s.invocations[i], m'[i], now) else m'[i] == s.invocations[i]
    {
    }
  }

  class InMemoryStore {
    const maxResponseBytes: nat
    var environments: map<EnvironmentId, Environment>
    var leases: map<LeaseId, Lease>
    var attempts: map<AttemptId, Attempt>
    var invocations: map<InvocationId, Invocation>
    var dispatchers: map<DispatcherId, Dispatcher>

    function Rows(): Store
      reads this
    {
      Store(environments, leases, attempts, invocations, dispatchers)
    }

    constructor (maxResponseBytes: nat)
      ensures Rows() == Store(map[], map[], map[], map[], map[]) && this.maxResponseBytes == maxResponseBytes
    {
      this.maxResponseBytes := maxResponseBytes;
      environments, leases, attempts, invocations, dispatchers := map[], map[], map[], map[], map[];
    }

    method Acquire(request: SlotAcquire) returns (r: Acquisition)
      modifies this
      ensures r == AcquireOutcome(old(Rows()), request, maxResponseBytes)
      ensures Rows() == AfterAcquire(old(Rows()), request, maxResponseBytes)
    {
      if MalformedAcquire(request) {
        return AcquireFailed(Refused);
      }
      var env, lease, attempt := request.env, request.lease, request.attempt;
      var id := env.identity.id;
      if id !in environments {
        return AcquireFailed(NotFound);
      }
      var stored := environments[id];
      if !SameEnvironment(stored, env) {
        return AcquireFailed(Refused);
      }
      if stored.owner != lease.owner {
        return SlotLost;
      }
      if stored.IsTerminal() || stored.IsFenced() {
        return SlotLost;
      }
      if stored.epoch != request.expectedEpoch {
        return SlotLost;
      }
      if !stored.IsReusable() {
        return SlotLost;
      }
      var owner := lease.owner.value;
      if owner !in dispatchers || !dispatchers[owner].IsLive() {
        return SlotLost;
      }
      if HasUnreleasedLease(leases, id) {
        return SlotLost;
      }
      if request.invocation.Some? {
        var inv := request.invocation.value;
        if inv.request.id !in invocations {
          return AcquireFailed(NotFound);
        }
        if invocations[inv.request.id].status.IsTerminal() {
          return SlotLost;
        }
        if !InvocationWritable(invocations[inv.request.id], inv, maxResponseBytes) {
          return AcquireFailed(Refused);
        }
      }
      if attempt.id in attempts {
        return AcquireFailed(Conflict);
      }
      if lease.id in leases {
        return AcquireFailed(Conflict);
      }
      if attempt.invocationId in invocations
         && invocations[attempt.invocationId].request.tenantId != attempt.tenantId {
        return AcquireFailed(Refused);
      }
      if stored.identity.tenantId != lease.tenantId {
        return AcquireFailed(Refused);
      }
      environments := environments[id := env];
      leases := leases[lease.id := lease];
      attempts := attempts[attempt.id := attempt];
      if request.invocation.Some? {
        invocations := invocations[request.invocation.value.request.id := request.invocation.value];
      }
      return Acquired;
    }

    method Complete(completion: SlotCompletion) returns (r: Completion)
      modifies this
      ensures r == CompleteOutcome(old(Rows()), completion, maxResponseBytes)
      ensures Rows() == AfterComplete(old(Rows()), completion, maxResponseBytes)
    {
      var id, attempt := completion.leaseId, completion.attempt;
      if !LeaseIsCurrent(Rows(), id, attempt.id, attempt.epoch) {
        return Stale;
      }
      if attempt.id !in attempts {
        return CompleteFailed(NotFound);
      }
      if attempts[attempt.id].status.IsTerminal() {
        return Stale;
      }
      if !AttemptWritable(attempts[attempt.id], attempt) {
        return CompleteFailed(Refused);
      }
      if completion.invocation.Some? {
        var inv := completion.invocation.value;
        if inv.request.id !in invocations {
          return CompleteFailed(NotFound);
        }
        if invocations[inv.request.id].status.IsTerminal() {
          return Stale;
        }
        if !InvocationWritable(invocations[inv.request.id], inv, maxResponseBytes) {
          return CompleteFailed(Refused);
        }
      }
      leases := leases[id := leases[id].(releasedAt := Some(completion.now))];
      attempts := attempts[attempt.id := attempt];
      if completion.invocation.Some? {
        invocations := invocations[completion.invocation.value.request.id := completion.invocation.value];
      }
      return Completed;
    }

    method ReleaseLease(id: LeaseId, attempt: AttemptId, epoch: nat, now: Timestamp) returns (released: bool)
      modifies this
      ensures released <==> LeaseIsCurrent(old(Rows()), id, attempt, epoch)
      ensures Rows() == AfterReleaseLease(old(Rows()), id, attempt, epoch, now)
    {
      if !LeaseIsCurrent(Rows(), id, attempt, epoch) {
        return false;
      }
      var r := Released(leases[id], now);
      leases := leases[id := r.value];
      return true;
    }

    method RenewLease(id: LeaseId, owner: DispatcherId, epoch: nat, ttl: Duration, now: Timestamp) returns (renewed: bool)
      modifies this
      ensures renewed <==> Renewable(old(Rows()), id, owner, epoch, ttl, now)
      ensures Rows() == AfterRenewLease(old(Rows()), id, owner, epoch, ttl, now)
    {
      if id !in leases {
        return false;
      }
      if leases[id].owner != Some(owner) || leases[id].epoch != epoch {
        return false;
      }
      var r := Renewed(leases[id], now, ttl);
      if r.Failure? {
        return false;
      }
      leases := leases[id := r.value];
      return true;
    }

    /** `revive` tells the renewal after a store outage from the heartbeat. */
    method RenewDispatcher(id: DispatcherId, ttl: Duration, now: Timestamp, revive: bool) returns (renewed: bool)
      modifies this
      ensures renewed <==> MayRenew(old(Rows()), id, now, revive)
      ensures Rows() == AfterHeartbeat(old(Rows()), id, ttl, now, revive)
    {
      if id !in dispatchers {
        return false;
      }
      var d := dispatchers[id];
      if !d.IsLive() || (!revive && now >= d.leaseExpiresAt) {
        return false;
      }
      dispatchers := dispatchers[id := d.(heartbeatAt := now, leaseExpiresAt := Max(d.leaseExpiresAt, now + ttl))];
      var todo := leases.Keys;
      while todo != {}
        invariant todo <= leases.Keys == old(leases).Keys
        invariant forall l :: l in leases ==>
          leases[l] == if l in todo then old(leases)[l] else ExtendedLease(old(leases)[l], id, ttl, now, revive)
        invariant environments == old(environments) && attempts == old(attempts) && invocations == old(invocations)
        invariant dispatchers == AfterHeartbeat(old(Rows()), id, ttl, now, revive).dispatchers
        decreases todo
      {
        var l :| l in todo;
        todo := todo - {l};
        var lease := leases[l];
        if lease.owner == Some(id) && lease.releasedAt.None? {
          var r := if revive then Revived(lease, now, ttl) else Renewed(lease, now, ttl);
          if r.Success? {
            leases := leases[l := r.value];
          }
        }
      }
      return true;
    }

    method StopDispatcher(id: DispatcherId, now: Timestamp)
      modifies this
      ensures Rows() == AfterStop(old(Rows()), id, now)
    {
      if id in dispatchers && dispatchers[id].stoppedAt.None? {
        dispatchers := dispatchers[id := dispatchers[id].(stoppedAt := Some(now))];
      }
    }

    method ClaimForReuse(key: ReuseKey, owner: Option<DispatcherId>, now: Timestamp) returns (r: Option<Environment>)
      modifies this
      ensures Claimed(old(Rows()), Rows(), key, owner, now, r)
    {
      var matching := Matching(Rows(), key, owner);
      if matching == {} {
        return None;
      }
      var id := FirstId(matching);
      var reserved := Reserved(environments[id], now);
      if reserved.Failure? {
        return None;
      }
      environments := environments[id := reserved.value];
      return Some(reserved.value);
    }

    method ReleaseToPool(env: Environment, limits: PoolLimits, now: Timestamp) returns (r: Parking)
      modifies this
      ensures r == ParkOutcome(old(Rows()), env, limits, now)
      ensures Rows() == AfterPark(old(Rows()), env, limits, now)
    {
      var id := env.identity.id;
      if id !in environments {
        return NotParked;
      }
      var current := environments[id];
      var prestarted := current.state.Ready? && current.epoch == 0;
      if current.epoch != env.epoch || !(current.state.Busy? || prestarted) || current.IsFenced()
         || HasUnreleasedLease(leases, id) {
        return NotParked;
      }
      if IdleCount(Rows()) >= limits.maxTotalIdle || IdlePerKey(Rows(), env.identity.reuseKey) >= limits.maxIdlePerKey {
        return NotParked;
      }
      var pooled := env;
      if pooled.state.Ready? {
        pooled := Transition(pooled, Busy, now).value;
      }
      var idle := Transition(pooled, Idle, now);
      if idle.Failure? {
        return NotParked;
      }
      if !EnvironmentWritable(current, idle.value) {
        return ParkRefused;
      }
      environments := environments[id := idle.value];
      return ParkedAs(idle.value);
    }

    method TakeIdleForTermination(id: EnvironmentId, now: Timestamp) returns (taken: bool)
      modifies this
      ensures taken <==> Drainable(old(Rows()), id)
      ensures Rows() == AfterTakeIdle(old(Rows()), id, now)
    {
      if id !in environments || !environments[id].state.Idle? {
        return false;
      }
      environments := environments[id := Transition(environments[id], Draining, now).value];
      return true;
    }

    method ConfirmTerminated(id: EnvironmentId, epoch: nat, now: Timestamp) returns (confirmed: bool)
      modifies this
      ensures confirmed <==> Confirmable(old(Rows()), id, epoch)
      ensures Rows() == AfterConfirm(old(Rows()), id, epoch, now)
    {
      if id !in environments {
        return false;
      }
      var env := environments[id];
      if !env.IsFenced() || env.IsTerminal() || env.epoch != epoch {
        return false;
      }
      environments := environments[id := Transition(env, EnvironmentState.Lost(FENCED_TERMINATED), now).value];
      return true;
    }

    /** Settle an invocation whose driver is gone (an asynchronous one survives)
        and every open attempt of it. */
    method SettleInvocationRows(id: InvocationId, cause: Cause, now: Timestamp)
      modifies this`invocations, this`attempts
      ensures id !in old(invocations) ==> Rows() == old(Rows())
      ensures id in old(invocations) ==>
        && id in invocations && invocations == old(invocations)[id := invocations[id]]
        && (if !old(invocations)[id].status.IsTerminal() && old(invocations)[id].request.mode.Sync?
            then SettledInvocation(old(invocations)[id], invocations[id], now)
            else invocations[id] == old(invocations)[id])
      ensures id in old(invocations) ==>
        var status := old(invocations)[id].status;
        RunSettled(old(attempts), attempts, id, status.Running? || status.OutcomeUnknown?, now)
    {
      if id !in invocations {
        return;
      }
      var inv := invocations[id];
      if !inv.request.mode.Async? && !inv.status.IsTerminal() {
        inv := Settle(inv, cause, now);
        invocations := invocations[id := inv];
      }
      var unknown := inv.status.OutcomeUnknown? || inv.status.Running?;
      attempts := map a | a in attempts ::
        if attempts[a].invocationId == id then SettleAttempt(attempts[a], unknown, cause, now) else attempts[a];
    }

    method ReclaimExpired(request: ReclaimRequest)
      modifies this
      ensures Reclaimed(old(Rows()), Rows(), request)
    {
      ghost var before := Rows();
      if !MayReclaim(Rows(), request) {
        return;
      }
      var dead := MarkDead(request);
      var expired := ExpiredLeases(before, dead.Keys, request);
      TakeLeases(before, request.now, dead, expired);
      SettleOwned(before, request.now, expired, dead);
      FenceOwned(before, request.now, expired, dead.Keys);
    }

    /** The dead dispatchers and why, each marked reclaimed. */
    method MarkDead(request: ReclaimRequest) returns (dead: map<DispatcherId, Cause>)
      modifies this`dispatchers
      ensures dead.Keys == Dead(old(Rows()), request)
      ensures DispatchersMarked(old(Rows()), dispatchers, request)
    {
      dead := map d | d in dispatchers && IsDead(dispatchers[d], request) :: CauseOf(dispatchers[d], request);
      dispatchers := map d | d in dispatchers :: Marked(dispatchers[d], request);
    }

    /** The unreleased leases of the dead, and those past their own expiry. */
    method ExpiredLeases(ghost before: Store, dead: set<DispatcherId>, request: ReclaimRequest) returns (expired: set<LeaseId>)
      requires leases == before.leases && dead == Dead(before, request)
      ensures expired == TakenLeases(before, request)
    {
      expired := set l | l in leases && Taken(leases[l], dead, request);
    }

    /** Release each taken lease, settle what ran under it and fence the
        environment it was still current on. */
    method TakeLeases(ghost before: Store, now: Timestamp, dead: map<DispatcherId, Cause>, expired: set<LeaseId>)
      requires Rows() == before.(dispatchers := dispatchers) && expired <= leases.Keys
      requires forall l :: l in expired ==> leases[l].releasedAt.None?
      modifies this`leases, this`environments, this`attempts, this`invocations
      ensures LeasesTaken(before, leases, expired, now)
      ensures EnvironmentsFenced(before, environments, expired, {}, now)
      ensures AttemptsSettled(before, attempts, expired, {}, now)
      ensures InvocationsSettled(before, invocations, expired, {}, now)
    {
      var todo := expired;
      ghost var done: set<LeaseId> := {};
      while todo != {}
        invariant todo !! done && todo + done == expired
        invariant forall l, m :: l in done && m in todo ==> l < m
        invariant LeasesTaken(before, leases, done, now)
        invariant EnvironmentsFenced(before, environments, done, {}, now)
        invariant AttemptsSettled(before, attempts, done, {}, now)
        invariant InvocationsSettled(before, invocations, done, {}, now)
        decreases todo
      {
        var id := FirstId(todo);
        TakeLease(before, now, dead, done, id);
        todo, done := todo - {id}, done + {id};
      }
      assert done == expired;
    }

    method TakeLease(ghost before: Store, now: Timestamp, dead: map<DispatcherId, Cause>, ghost done: set<LeaseId>, id: LeaseId)
      requires done <= before.leases.Keys && id in before.leases && before.leases[id].releasedAt.None?
      requires forall l :: l in done ==> l < id
      requires LeasesTaken(before, leases, done, now)
      requires EnvironmentsFenced(before, environments, done, {}, now)
      requires AttemptsSettled(before, attempts, done, {}, now)
      requires InvocationsSettled(before, invocations, done, {}, now)
      modifies this`leases, this`environments, this`attempts, this`invocations
      ensures LeasesTaken(before, leases, done + {id}, now)
      ensures EnvironmentsFenced(before, environments, done + {id}, {}, now)
      ensures AttemptsSettled(before, attempts, done + {id}, {}, now)
      ensures InvocationsSettled(before, invocations, done + {id}, {}, now)
    {
      var lease := leases[id];
      leases := leases[id := Released(lease, now).value];
      OneMoreLeaseTaken(before, old(leases), done, id, now);
      var cause := if OwnerDead(lease.owner, dead.Keys) then dead[lease.owner.value] else LEASE_EXPIRED;
      SettleRun(before, now, cause, done, lease, id);
      FenceIfCurrent(before, now, done, lease, id);
    }

    method SettleRun(ghost before: Store, now: Timestamp, cause: Cause, ghost done: set<LeaseId>, lease: Lease, ghost id: LeaseId)
      requires done <= before.leases.Keys && id in before.leases && lease == before.leases[id]
      requires forall l :: l in done ==> l < id
      requires AttemptsSettled(before, attempts, done, {}, now)
      requires InvocationsSettled(before, invocations, done, {}, now)
      modifies this`attempts, this`invocations
      ensures AttemptsSettled(before, attempts, done + {id}, {}, now)
      ensures InvocationsSettled(before, invocations, done + {id}, {}, now)
    {
      SettleNamed(lease.attemptId, cause, now);
      OneMoreSettledRun(before, old(attempts), attempts, old(invocations), done, id, now);
      OneMoreSettledInvocation(before, old(invocations), invocations, done, id, now);
    }

    /** End the attempt of a taken lease and the open run it was the last of. */
    method SettleNamed(attempt: AttemptId, cause: Cause, now: Timestamp)
      modifies this`attempts, this`invocations
      ensures LeaseRunSettled(old(attempts), attempts, old(invocations), attempt, now)
      ensures invocations.Keys == old(invocations).Keys
      ensures forall i :: i in invocations ==>
        var inv := old(invocations)[i];
        if attempt in old(attempts) && old(attempts)[attempt].invocationId == i
           && DrivenBy(old(invocations), i, attempt) && inv.request.mode.Sync?
        then SettledInvocation(inv, invocations[i], now) else invocations[i] == inv
    {
      if attempt in attempts {
        attempts := attempts[attempt := SettleAttempt(attempts[attempt], true, cause, now)];
        assert OneSettled(old(attempts), attempts, attempt, now);
        SettleDriven(attempt, attempts[attempt].invocationId, cause, now);
      }
    }

    /** Settle the invocation whose last attempt is `attempt`, if it is still open. */
    method SettleDriven(attempt: AttemptId, id: InvocationId, cause: Cause, now: Timestamp)
      modifies this`attempts, this`invocations
      ensures if DrivenBy(old(invocations), id, attempt)
        then RunSettled(old(attempts), attempts, id, old(invocations)[id].status.Running?, now)
        else attempts == old(attempts)
      ensures invocations.Keys == old(invocations).Keys
      ensures forall i :: i in invocations ==>
        var inv := old(invocations)[i];
        if i == id && inv.attemptIds != [] && inv.attemptIds[|inv.attemptIds| - 1] == attempt && OpenSync(inv)
        then SettledInvocation(inv, invocations[i], now) else invocations[i] == inv
    {
      if id in invocations && !invocations[id].status.IsTerminal() && invocations[id].attemptIds != []
         && invocations[id].attemptIds[|invocations[id].attemptIds| - 1] == attempt {
        SettleInvocationRows(id, cause, now);
      }
    }

    method FenceIfCurrent(ghost before: Store, now: Timestamp, ghost done: set<LeaseId>, lease: Lease, ghost id: LeaseId)
      requires done <= before.leases.Keys && id in before.leases && lease == before.leases[id]
      requires EnvironmentsFenced(before, environments, done, {}, now)
      modifies this`environments
      ensures EnvironmentsFenced(before, environments, done + {id}, {}, now)
    {
      forall e | e in before.environments
        ensures Interrupted(before, done + {id}, e) <==> Interrupted(before, done, e) || Holds(before, id, e)
      {
        OneMoreInterruption(before, done, id, e);
      }
      var e := lease.environmentId;
      if e in environments && environments[e].epoch == lease.epoch && Fenceable(environments[e]) {
        environments := environments[e := Fenced(environments[e], now).value];
      }
    }

    method FenceOwned(ghost before: Store, now: Timestamp, ghost taken: set<LeaseId>, dead: set<DispatcherId>)
      requires taken <= before.leases.Keys
      requires EnvironmentsFenced(before, environments, taken, {}, now)
      modifies this`environments
      ensures EnvironmentsFenced(before, environments, taken, dead, now)
    {
      environments := map e | e in environments ::
        if Fenceable(environments[e]) && OwnerDead(environments[e].owner, dead) then Fenced(environments[e], now).value
        else environments[e];
    }

    function Owned(dead: set<DispatcherId>): set<InvocationId>
      reads this
    {
      set i | i in invocations && OwnerDead(invocations[i].request.dispatcherId, dead) && !invocations[i].status.IsTerminal()
    }

    /** Settle what the dead dispatchers accepted and never finished. */
    method SettleOwned(ghost before: Store, now: Timestamp, ghost taken: set<LeaseId>, dead: map<DispatcherId, Cause>)
      requires taken <= before.leases.Keys
      requires AttemptsSettled(before, attempts, taken, {}, now)
      requires InvocationsSettled(before, invocations, taken, {}, now)
      modifies this`attempts, this`invocations
      ensures AttemptsSettled(before, attempts, taken, dead.Keys, now)
      ensures InvocationsSettled(before, invocations, taken, dead.Keys, now)
    {
      var todo := Owned(dead.Keys);
      ghost var owned, entry, rows := todo, invocations, attempts;
      ghost var done: set<InvocationId> := {};
      while todo != {}
        invariant todo !! done && todo + done == owned
        invariant RunsSettled(rows, attempts, entry, done, now)
        invariant SyncSettled(entry, invocations, done, now)
        decreases todo
      {
        var id :| id in todo;
        SettleOne(rows, entry, now, dead, done, id);
        todo, done := todo - {id}, done + {id};
      }
      assert done == owned;
      OwnedRunsAreSettled(before, rows, attempts, entry, owned, taken, dead.Keys, now);
      OwnedAreSettled(before, entry, invocations, owned, taken, dead.Keys, now);
    }

    method SettleOne(ghost rows: map<AttemptId, Attempt>, ghost entry: map<InvocationId, Invocation>, now: Timestamp, dead: map<DispatcherId, Cause>,
                     ghost done: set<InvocationId>, id: InvocationId)
      requires done <= entry.Keys && RunsSettled(rows, attempts, entry, done, now)
      requires SyncSettled(entry, invocations, done, now) && id in entry && id !in done
      requires !entry[id].status.IsTerminal() && OwnerDead(entry[id].request.dispatcherId, dead.Keys)
      modifies this`attempts, this`invocations
      ensures RunsSettled(rows, attempts, entry, done + {id}, now)
      ensures SyncSettled(entry, invocations, done + {id}, now)
    {
      SettleInvocationRows(id, dead[invocations[id].request.dispatcherId.value], now);
      OneMoreRun(rows, old(attempts), attempts, entry, done, id, now);
      OneMoreSynced(entry, old(invocations), invocations, done, id, now);
    }
  }
}
