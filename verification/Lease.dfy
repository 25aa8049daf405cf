/** The renewable lease that binds one attempt to one environment slot
    (crates/domain/src/environment.rs, `ExecutionLease`). */
module LeaseModel {
  import opened Prelude

  datatype Lease = Lease(
    id: LeaseId, environmentId: EnvironmentId, attemptId: AttemptId, tenantId: TenantId,
    epoch: nat, acquiredAt: Timestamp, deadline: Timestamp, releasedAt: Option<Timestamp>,
    owner: Option<DispatcherId>, expiresAt: Option<Timestamp>)
  {
    /** The instant the owner stops trusting the lease. */
    function Expiry(): Timestamp {
      match expiresAt
      case Some(expires) => expires
      case None => deadline
    }

    predicate IsActive(now: Timestamp) {
      releasedAt.None? && now < Expiry()
    }

    predicate IsExpired(now: Timestamp, skew: Duration) {
      releasedAt.None? && expiresAt.Some? && now >= expiresAt.value + skew
    }

    predicate Accepts(attempt: AttemptId, atEpoch: nat) {
      releasedAt.None? && attemptId == attempt && epoch == atEpoch
    }
  }

  const RELEASED := DomainError.Terminal("ExecutionLease", "released")
  const EXPIRED := IllegalTransition("ExecutionLease", "expired", "renewed")

  function Max(a: int, b: int): int { if a >= b then a else b }

  function Extended(l: Lease, now: Timestamp, ttl: Duration): Lease {
    l.(expiresAt := Some(if l.expiresAt.Some? then Max(l.expiresAt.value, now + ttl) else now + ttl))
  }

  function Renewed(l: Lease, now: Timestamp, ttl: Duration): Result<Lease, DomainError> {
    if l.releasedAt.Some? then Failure(RELEASED)
    else if now >= l.Expiry() then Failure(EXPIRED)
    else Success(Extended(l, now, ttl))
  }

  function Revived(l: Lease, now: Timestamp, ttl: Duration): Result<Lease, DomainError> {
    if l.releasedAt.Some? then Failure(RELEASED) else Success(Extended(l, now, ttl))
  }

  function Released(l: Lease, now: Timestamp): Result<Lease, DomainError> {
    if l.releasedAt.Some? then Failure(RELEASED) else Success(l.(releasedAt := Some(now)))
  }

  // ---------------------------------------------------------------- the object

  ghost predicate Took(spec: Result<Lease, DomainError>, before: Lease, after: Lease, r: Result<(), DomainError>) {
    match spec
    case Success(step) => r.Success? && after == step
    case Failure(error) => r == Failure(error) && after == before
  }

  class ExecutionLease {
    const id: LeaseId
    const environmentId: EnvironmentId
    const attemptId: AttemptId
    const tenantId: TenantId
    const epoch: nat
    const acquiredAt: Timestamp
    const deadline: Timestamp
    var releasedAt: Option<Timestamp>
    var owner: Option<DispatcherId>
    var expiresAt: Option<Timestamp>

    function Value(): Lease
      reads this
    {
      Lease(id, environmentId, attemptId, tenantId, epoch, acquiredAt, deadline, releasedAt, owner, expiresAt)
    }

    constructor (id: LeaseId, environmentId: EnvironmentId, attemptId: AttemptId, tenantId: TenantId,
                 epoch: nat, deadline: Timestamp, now: Timestamp)
      ensures Value() == Lease(id, environmentId, attemptId, tenantId, epoch, now, deadline, None, None, None)
    {
      this.id, this.environmentId, this.attemptId, this.tenantId := id, environmentId, attemptId, tenantId;
      this.epoch, this.acquiredAt, this.deadline := epoch, now, deadline;
      releasedAt, owner, expiresAt := None, None, None;
    }

    method OwnedBy(owner: DispatcherId, expiresAt: Timestamp)
      modifies this
      ensures Value() == old(Value()).(owner := Some(owner), expiresAt := Some(expiresAt))
      ensures forall now :: Value().IsActive(now) <==> releasedAt.None? && now < expiresAt
    {
      this.owner := Some(owner);
      this.expiresAt := Some(expiresAt);
    }

    method Renew(now: Timestamp, ttl: Duration) returns (r: Result<(), DomainError>)
      modifies this
      ensures Took(Renewed(old(Value()), now, ttl), old(Value()), Value(), r)
      ensures r.Success? <==> old(Value()).IsActive(now)
    {
      if releasedAt.Some? {
        return Failure(RELEASED);
      }
      if !Value().IsActive(now) {
        return Failure(EXPIRED);
      }
      var next := now + ttl;
      if expiresAt.None? || next > expiresAt.value {
        expiresAt := Some(next);
      }
      return Success(());
    }

    method Revive(now: Timestamp, ttl: Duration) returns (r: Result<(), DomainError>)
      modifies this
      ensures Took(Revived(old(Value()), now, ttl), old(Value()), Value(), r)
      ensures r.Success? <==> old(releasedAt).None?
    {
      if releasedAt.Some? {
        return Failure(RELEASED);
      }
      var next := now + ttl;
      if expiresAt.None? || next > expiresAt.value {
        expiresAt := Some(next);
      }
      return Success(());
    }

    method Release(now: Timestamp) returns (r: Result<(), DomainError>)
      modifies this
      ensures Took(Released(old(Value()), now), old(Value()), Value(), r)
    {
      if releasedAt.Some? {
        return Failure(RELEASED);
      }
      releasedAt := Some(now);
      return Success(());
    }
  }

  // ---------------------------------------------------------------- ownership

  /** Some pair of clock readings, the reclaimer ahead by at most `ahead`, at
      which the owner still acts under the lease and the reclaimer may take it. */
  ghost predicate SplitPossible(l: Lease, skew: Duration, ahead: Duration) {
    exists owner: Timestamp, reclaimer: Timestamp ::
      reclaimer - owner <= ahead && l.IsActive(owner) && l.IsExpired(reclaimer, skew)
  }

  /** Clocks that differ by no more than the tolerated skew never split an owned
      lease between two dispatchers, and no larger difference is tolerated. */
  lemma NoSplitOwnershipExactly(l: Lease, skew: Duration, ahead: Duration)
    requires l.releasedAt.None? && l.expiresAt.Some?
    ensures SplitPossible(l, skew, ahead) <==> ahead > skew
  {
    if ahead > skew {
      var owner, reclaimer := l.expiresAt.value - 1, l.expiresAt.value + skew;
      assert reclaimer - owner <= ahead && l.IsActive(owner) && l.IsExpired(reclaimer, skew);
    }
  }

  datatype Op = Renew(ttl: Duration) | Revive(ttl: Duration) | Release

  datatype Event = Event(op: Op, now: Timestamp)

  function Try(l: Lease, event: Event): Result<Lease, DomainError> {
    match event.op
    case Renew(ttl) => Renewed(l, event.now, ttl)
    case Revive(ttl) => Revived(l, event.now, ttl)
    case Release => Released(l, event.now)
  }

  function After(l: Lease, event: Event): Lease {
    var r := Try(l, event);
    if r.Success? then r.value else l
  }

  function Run(l: Lease, events: seq<Event>): Lease
    decreases |events|
  {
    if events == [] then l else Run(After(l, events[0]), events[1..])
  }

  /** Along any run the ownership expiry never moves back, a released lease is
      frozen, and the binding of attempt, epoch and owner never changes. */
  lemma {:induction false} RunNeverGivesBack(l: Lease, events: seq<Event>)
    ensures var m := Run(l, events);
      && (l.expiresAt.Some? ==> m.expiresAt.Some? && m.expiresAt.value >= l.expiresAt.value)
      && (l.releasedAt.Some? ==> m == l)
      && m == l.(expiresAt := m.expiresAt, releasedAt := m.releasedAt)
    decreases |events|
  {
    if events != [] {
      RunNeverGivesBack(After(l, events[0]), events[1..]);
    }
  }

  /** Once released (by its owner or by a reclaim), nothing succeeds any more:
      no renewal, no revival, no second release, no completion. */
  lemma ReleaseIsFinal(l: Lease, at: Event, events: seq<Event>, next: Event, attempt: AttemptId, epoch: nat)
    requires at.op.Release?
    ensures var m := Run(After(l, at), events);
      Try(m, next) == Failure(RELEASED) && !m.Accepts(attempt, epoch) && !m.IsActive(next.now)
  {
    RunNeverGivesBack(After(l, at), events);
  }

  /** A renewal never brings back an expired lease: once an owner whose clock
      does not run backwards has seen the expiry pass, every later renewal is
      refused and the lease stays expired, until somebody revives it. */
  lemma {:induction false} RenewalNeverRevives(l: Lease, events: seq<Event>, seen: Timestamp, now: Timestamp)
    requires l.releasedAt.None? && seen >= l.Expiry()
    requires forall i :: 0 <= i < |events| ==> !events[i].op.Revive? && events[i].now >= seen
    requires now >= seen
    ensures var m := Run(l, events);
      !m.IsActive(now) && m.expiresAt == l.expiresAt && forall ttl :: Renewed(m, now, ttl).Failure?
    decreases |events|
  {
    if events != [] {
      if !events[0].op.Release? {
        RenewalNeverRevives(l, events[1..], seen, now);
      } else {
        RunNeverGivesBack(After(l, events[0]), events[1..]);
      }
    }
  }

  /** The instant the owner trusts the lease until never moves back either, with
      one exception: the first extension of a lease that carried no ownership
      expiry replaces its execution deadline, even by an earlier instant. */
  lemma ExpiryMovesBackExactly(l: Lease, now: Timestamp, ttl: Duration)
    ensures Extended(l, now, ttl).Expiry() < l.Expiry() <==> l.expiresAt.None? && now + ttl < l.deadline
    ensures Extended(l, now, ttl).Expiry() >= now + ttl
    ensures var legacy := Lease(1, 1, 1, 1, 1, 0, 600, None, None, None);
      && legacy.IsActive(500) && Renewed(legacy, 0, 10).Success? && !Renewed(legacy, 0, 10).value.IsActive(500)
  {
  }

  /** How far an extension goes: to `ttl` from now, or to the ownership expiry when that is
      later; nothing else of the lease changes. A renewal needs an unreleased lease whose expiry,
      or without one whose deadline, is ahead; a revival only an unreleased one. */
  lemma ExtendsExactly(l: Lease, now: Timestamp, ttl: Duration)
    ensures Renewed(l, now, ttl).Success? <==>
      l.releasedAt.None? && now < if l.expiresAt.Some? then l.expiresAt.value else l.deadline
    ensures Revived(l, now, ttl).Success? <==> l.releasedAt.None?
    ensures forall r | (r == Renewed(l, now, ttl) || r == Revived(l, now, ttl)) && r.Success? ::
      r.value == l.(expiresAt := Some(
        if l.expiresAt.Some? && l.expiresAt.value > now + ttl then l.expiresAt.value else now + ttl))
  {
  }

  /** Who may act when: the owner before the expiry, or without one before the deadline; a
      reclaimer once the expiry is past by the skew; a completion for the same attempt and epoch. */
  lemma TrustedExactly(l: Lease, now: Timestamp, skew: Duration, attempt: AttemptId, epoch: nat)
    ensures l.IsActive(now) <==> l.releasedAt.None? && now < if l.expiresAt.Some? then l.expiresAt.value else l.deadline
    ensures l.IsExpired(now, skew) <==> l.releasedAt.None? && l.expiresAt.Some? && now - skew >= l.expiresAt.value
    ensures l.Accepts(attempt, epoch) <==> l.releasedAt.None? && l.attemptId == attempt && l.epoch == epoch
    ensures Released(l, now).Success? <==> l.releasedAt.None?
    ensures l.releasedAt.None? ==> Released(l, now).value == l.(releasedAt := Some(now))
  {
  }
}
