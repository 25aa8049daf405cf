/** The life of an execution environment and the epoch that fences its
    assignments (crates/domain/src/environment.rs).

    `Environment` is the record; every operation has a specification function
    from the record before to the record after, or to the error that leaves it
    as it was. `ExecutionEnvironment` is the object the source updates in
    place; each method is proved against its function. The promises over whole
    runs are lemmas about the functions. */
module EnvironmentModel {
  import opened Prelude

  datatype EnvironmentState =
    | Requested | Provisioning | Initializing | Ready | Busy | Idle | Draining
    | Stopped | Failed(reason: string) | Lost(reason: string)
  {
    predicate IsTerminal() { Stopped? || Failed? || Lost? }

    function Name(): string {
      match this
      case Requested => "requested"
      case Provisioning => "provisioning"
      case Initializing => "initializing"
      case Ready => "ready"
      case Busy => "busy"
      case Idle => "idle"
      case Draining => "draining"
      case Stopped => "stopped"
      case Failed(_) => "failed"
      case Lost(_) => "lost"
    }
  }

  datatype BootEvidence = BootEvidence(guestBootId: Option<string>, hostPid: Option<nat>)

  datatype ReuseKey = ReuseKey(
    tenantId: TenantId, revisionId: RevisionId, executionRoleVersion: nat,
    configurationVersion: nat, resourceProfileDigest: string, runtimeProfile: string,
    networkPolicyVersion: nat, secretBindingGeneration: nat)

  /** What no operation ever writes. */
  datatype Identity = Identity(
    id: EnvironmentId, tenantId: TenantId, revisionId: RevisionId, provider: string,
    reuseKey: ReuseKey, createdAt: Timestamp)

  datatype Environment = Environment(
    identity: Identity, state: EnvironmentState, epoch: nat, owner: Option<DispatcherId>,
    fencedAt: Option<Timestamp>, evidence: BootEvidence, readyAt: Option<Timestamp>,
    idleSince: Option<Timestamp>, stoppedAt: Option<Timestamp>, updatedAt: Timestamp)
  {
    predicate IsReusable() { fencedAt.None? && (state.Ready? || state.Idle?) }

    predicate IsFenced() { fencedAt.Some? }

    predicate IsTerminal() { state.IsTerminal() }

    predicate IdleExpired(now: Timestamp, ttl: Duration) {
      match idleSince
      case Some(since) => now - since >= ttl
      case None => false
    }
  }

  function Request(identity: Identity): Environment {
    Environment(identity, Requested, 0, None, None, BootEvidence(None, None), None, None, None, identity.createdAt)
  }

  // ---------------------------------------------------------------- operations

  /** The life cycle as a graph; every non-terminal state may also end. */
  predicate Edge(from: EnvironmentState, to: EnvironmentState) {
    || (from.Requested? && to.Provisioning?)
    || (from.Provisioning? && to.Initializing?)
    || (from.Initializing? && to.Ready?)
    || (from.Ready? && to.Busy?)
    || (from.Busy? && to.Idle?)
    || (from.Idle? && to.Ready?)
    || ((from.Ready? || from.Busy? || from.Idle?) && to.Draining?)
    || to.IsTerminal()
  }

  function TerminalError(e: Environment): DomainError {
    DomainError.Terminal("ExecutionEnvironment", e.state.Name())
  }

  function Illegal(from: string, to: string): DomainError {
    IllegalTransition("ExecutionEnvironment", from, to)
  }

  function Transition(e: Environment, to: EnvironmentState, now: Timestamp): Result<Environment, DomainError> {
    if e.IsTerminal() then Failure(TerminalError(e))
    else if !Edge(e.state, to) then Failure(Illegal(e.state.Name(), to.Name()))
    else Success(e.(
      state := to,
      readyAt := if to.Ready? && e.readyAt.None? then Some(now) else e.readyAt,
      idleSince := if to.Idle? then Some(now) else None,
      stoppedAt := if to.IsTerminal() then Some(now) else e.stoppedAt,
      updatedAt := now))
  }

  function Initialized(e: Environment, evidence: BootEvidence, now: Timestamp): Result<Environment, DomainError> {
    match Transition(e, Initializing, now)
    case Success(f) => Success(f.(evidence := evidence))
    case Failure(error) => Failure(error)
  }

  function Reserved(e: Environment, now: Timestamp): Result<Environment, DomainError> {
    if e.state.Idle? && e.fencedAt.None? then Transition(e, Ready, now)
    else Failure(Illegal(e.state.Name(), "ready"))
  }

  /** One atomic hand-out, whether or not it passes through `Ready`. */
  function Assigned(e: Environment, now: Timestamp): Result<Environment, DomainError> {
    if e.IsReusable() then
      Success(e.(
        state := Busy,
        epoch := e.epoch + 1,
        readyAt := if e.state.Idle? && e.readyAt.None? then Some(now) else e.readyAt,
        idleSince := None,
        updatedAt := now))
    else Failure(Illegal(if e.IsFenced() then "fenced" else e.state.Name(), "busy"))
  }

  function Fenced(e: Environment, now: Timestamp): Result<Environment, DomainError> {
    if e.IsTerminal() then Failure(TerminalError(e))
    else Success(e.(
      state := Draining,
      idleSince := None,
      epoch := e.epoch + 1,
      fencedAt := if e.fencedAt.None? then Some(now) else e.fencedAt,
      updatedAt := now))
  }

  /** The object took the specified step, or reported its error and kept every field. */
  ghost predicate Took<T>(spec: Result<Environment, DomainError>, before: Environment, after: Environment, r: Result<T, DomainError>) {
    match spec
    case Success(step) => r.Success? && after == step
    case Failure(error) => r == Failure(error) && after == before
  }

  // ---------------------------------------------------------------- the object

  class ExecutionEnvironment {
    const identity: Identity
    var state: EnvironmentState
    var epoch: nat
    var owner: Option<DispatcherId>
    var fencedAt: Option<Timestamp>
    var evidence: BootEvidence
    var readyAt: Option<Timestamp>
    var idleSince: Option<Timestamp>
    var stoppedAt: Option<Timestamp>
    var updatedAt: Timestamp

    function Value(): Environment
      reads this
    {
      Environment(identity, state, epoch, owner, fencedAt, evidence, readyAt, idleSince, stoppedAt, updatedAt)
    }

    constructor (identity: Identity)
      ensures Value() == Request(identity)
    {
      this.identity := identity;
      state, epoch, owner, fencedAt := Requested, 0, None, None;
      evidence := BootEvidence(None, None);
      readyAt, idleSince, stoppedAt, updatedAt := None, None, None, identity.createdAt;
    }

    method TransitionTo(to: EnvironmentState, now: Timestamp) returns (r: Result<(), DomainError>)
      modifies this
      ensures Took(Transition(old(Value()), to, now), old(Value()), Value(), r)
    {
      if state.IsTerminal() {
        return Failure(TerminalError(Value()));
      }
      if !Edge(state, to) {
        return Failure(Illegal(state.Name(), to.Name()));
      }
      if to.Ready? && readyAt.None? {
        readyAt := Some(now);
      }
      idleSince := if to.Idle? then Some(now) else None;
      if to.IsTerminal() {
        stoppedAt := Some(now);
      }
      state := to;
      updatedAt := now;
      return Success(());
    }

    method MarkInitializing(evidence: BootEvidence, now: Timestamp) returns (r: Result<(), DomainError>)
      modifies this
      ensures Took(Initialized(old(Value()), evidence, now), old(Value()), Value(), r)
    {
      r := TransitionTo(Initializing, now);
      if r.Success? {
        this.evidence := evidence;
      }
    }

    method RecordGuestBootId(bootId: string)
      modifies this
      ensures Value() == old(Value()).(evidence := old(evidence).(guestBootId := Some(bootId)))
    {
      evidence := evidence.(guestBootId := Some(bootId));
    }

    method Reserve(now: Timestamp) returns (r: Result<(), DomainError>)
      modifies this
      ensures Took(Reserved(old(Value()), now), old(Value()), Value(), r)
    {
      if !state.Idle? || fencedAt.Some? {
        return Failure(Illegal(state.Name(), "ready"));
      }
      r := TransitionTo(Ready, now);
    }

    method Assign(now: Timestamp) returns (r: Result<nat, DomainError>)
      modifies this
      ensures Took(Assigned(old(Value()), now), old(Value()), Value(), r)
      ensures r.Success? ==> r.value == epoch == old(epoch) + 1
    {
      if !Value().IsReusable() {
        return Failure(Illegal(if fencedAt.Some? then "fenced" else state.Name(), "busy"));
      }
      if state.Idle? {
        var ready := TransitionTo(Ready, now);
        assert ready.Success?;
      }
      var busy := TransitionTo(Busy, now);
      assert busy.Success?;
      epoch := epoch + 1;
      return Success(epoch);
    }

    method Fence(now: Timestamp) returns (r: Result<nat, DomainError>)
      modifies this
      ensures Took(Fenced(old(Value()), now), old(Value()), Value(), r)
      ensures r.Success? ==> r.value == epoch == old(epoch) + 1
    {
      if state.IsTerminal() {
        return Failure(TerminalError(Value()));
      }
      state := Draining;
      idleSince := None;
      epoch := epoch + 1;
      if fencedAt.None? {
        fencedAt := Some(now);
      }
      updatedAt := now;
      return Success(epoch);
    }
  }

  // ---------------------------------------------------------------- runs

  datatype Op =
    | Mark(to: EnvironmentState)
    | MarkInitializing(evidence: BootEvidence)
    | RecordBootId(bootId: string)
    | Reserve
    | Assign
    | Fence

  datatype Event = Event(op: Op, now: Timestamp)

  function Try(e: Environment, event: Event): Result<Environment, DomainError> {
    match event.op
    case Mark(to) => Transition(e, to, event.now)
    case MarkInitializing(evidence) => Initialized(e, evidence, event.now)
    case RecordBootId(bootId) => Success(e.(evidence := e.evidence.(guestBootId := Some(bootId))))
    case Reserve => Reserved(e, event.now)
    case Assign => Assigned(e, event.now)
    case Fence => Fenced(e, event.now)
  }

  function After(e: Environment, event: Event): Environment {
    var r := Try(e, event);
    if r.Success? then r.value else e
  }

  function Run(e: Environment, events: seq<Event>): Environment
    decreases |events|
  {
    if events == [] then e else Run(After(e, events[0]), events[1..])
  }

  /** The epochs handed out along a run, in order. */
  function Issued(e: Environment, events: seq<Event>): seq<nat>
    decreases |events|
  {
    if events == [] then []
    else
      var after := After(e, events[0]);
      (if (events[0].op.Assign? || events[0].op.Fence?) && Try(e, events[0]).Success? then [after.epoch] else [])
      + Issued(after, events[1..])
  }

  ghost predicate WellFormed(e: Environment) {
    && (e.idleSince.Some? <==> e.state.Idle?)
    && (e.stoppedAt.Some? <==> e.IsTerminal())
    && (e.IsFenced() ==> e.state.Draining? || e.IsTerminal())
    && (e.state.Ready? || e.state.Busy? || e.state.Idle? ==> e.readyAt.Some?)
  }

  lemma {:induction false} ReachableIsWellFormed(identity: Identity, events: seq<Event>)
    ensures WellFormed(Run(Request(identity), events))
  {
    RunKeepsWellFormed(Request(identity), events);
  }

  lemma {:induction false} RunKeepsWellFormed(e: Environment, events: seq<Event>)
    requires WellFormed(e)
    ensures WellFormed(Run(e, events))
    decreases |events|
  {
    if events != [] {
      RunKeepsWellFormed(After(e, events[0]), events[1..]);
    }
  }

  /** Every epoch ever handed out is the next integer: no two assignments share
      one, none is skipped, and the record always shows the last. */
  lemma {:induction false} IssuedEpochsAreConsecutive(e: Environment, events: seq<Event>)
    ensures forall i :: 0 <= i < |Issued(e, events)| ==> Issued(e, events)[i] == e.epoch + 1 + i
    ensures Run(e, events).epoch == e.epoch + |Issued(e, events)|
    decreases |events|
  {
    if events != [] {
      IssuedEpochsAreConsecutive(After(e, events[0]), events[1..]);
    }
  }

  /** What a run never rewrites. */
  lemma {:induction false} RunKeepsWhatIsSet(e: Environment, events: seq<Event>)
    ensures var f := Run(e, events);
      && f.identity == e.identity && f.owner == e.owner
      && (e.readyAt.Some? ==> f.readyAt == e.readyAt)
      && (e.fencedAt.Some? ==> f.fencedAt == e.fencedAt)
      && (e.IsTerminal() ==> f == e.(evidence := f.evidence))
    decreases |events|
  {
    if events != [] {
      RunKeepsWhatIsSet(After(e, events[0]), events[1..]);
    }
  }

  /** A fenced environment is never handed out again, whatever follows. */
  lemma FenceIsForever(e: Environment, before: Event, events: seq<Event>, now: Timestamp)
    requires before.op.Fence? && Try(e, before).Success?
    ensures var f := Run(After(e, before), events);
      !f.IsReusable() && Reserved(f, now).Failure? && Assigned(f, now).Failure?
  {
    RunKeepsWhatIsSet(After(e, before), events);
  }

  ghost predicate Parks(event: Event) { event.op == Mark(Idle) }

  /** An assigned environment is not handed out a second time before it was
      parked: until then it is neither reserved nor assigned. */
  lemma {:induction false} AssignedUntilParked(e: Environment, events: seq<Event>, now: Timestamp)
    requires e.state.Busy? || e.state.Draining? || e.IsTerminal()
    requires forall i :: 0 <= i < |events| ==> !Parks(events[i])
    ensures var f := Run(e, events);
      !f.IsReusable() && Reserved(f, now).Failure? && Assigned(f, now).Failure?
    decreases |events|
  {
    if events != [] {
      AssignedUntilParked(After(e, events[0]), events[1..], now);
    }
  }

  /** A draining environment can only end. */
  lemma {:induction false} DrainingOnlyEnds(e: Environment, events: seq<Event>)
    requires e.state.Draining? || e.IsTerminal()
    ensures Run(e, events).state.Draining? || Run(e, events).IsTerminal()
    decreases |events|
  {
    if events != [] {
      DrainingOnlyEnds(After(e, events[0]), events[1..]);
    }
  }

  ghost predicate Initializes(event: Event) { event.op.MarkInitializing? || event.op == Mark(Initializing) }

  /** Nothing is handed out before the guest booted: without an initialization
      step an environment that has not initialized is never ready. */
  lemma {:induction false} NothingBeforeInitialization(e: Environment, events: seq<Event>)
    requires !(e.state.Initializing? || e.state.Ready? || e.state.Busy? || e.state.Idle?)
    requires forall i :: 0 <= i < |events| ==> !Initializes(events[i])
    ensures !Run(e, events).IsReusable() && !Run(e, events).state.Busy?
    decreases |events|
  {
    if events != [] {
      NothingBeforeInitialization(After(e, events[0]), events[1..]);
    }
  }

  lemma {:induction false} RunsOneMore(e: Environment, events: seq<Event>)
    requires events != []
    ensures Run(e, events) == After(Run(e, events[..|events| - 1]), events[|events| - 1])
    decreases |events|
  {
    if |events| > 1 {
      RunsOneMore(After(e, events[0]), events[1..]);
      assert events[1..][..|events| - 2] == events[..|events| - 1][1..];
    }
  }

  predicate IdleAt(e: Environment, events: seq<Event>, j: nat)
    requires j <= |events|
  {
    Run(e, events[..j]).state.Idle?
  }

  ghost predicate ParksAt(e: Environment, events: seq<Event>, k: nat)
    requires k < |events|
  {
    Parks(events[k]) && Try(Run(e, events[..k]), events[k]).Success?
  }

  /** The environment parked at event `k` and stayed idle ever since. */
  ghost predicate ParkedLast(e: Environment, events: seq<Event>, k: nat) {
    k < |events| && ParksAt(e, events, k) && forall j: nat :: k < j <= |events| ==> IdleAt(e, events, j)
  }

  lemma EarlierIsAlike(e: Environment, events: seq<Event>, j: nat)
    requires j < |events|
    ensures IdleAt(e, events[..|events| - 1], j) == IdleAt(e, events, j)
    ensures j < |events| - 1 ==> ParksAt(e, events[..|events| - 1], j) == ParksAt(e, events, j)
  {
    assert events[..|events| - 1][..j] == events[..j];
  }

  lemma ParkedLastBefore(e: Environment, events: seq<Event>, k: nat)
    requires k < |events| - 1 && IdleAt(e, events, |events|)
    ensures ParkedLast(e, events, k) <==> ParkedLast(e, events[..|events| - 1], k)
  {
    var before := events[..|events| - 1];
    EarlierIsAlike(e, events, k);
    if ParkedLast(e, events, k) {
      forall j: nat | k < j <= |before| ensures IdleAt(e, before, j) {
        assert IdleAt(e, events, j);
        EarlierIsAlike(e, events, j);
      }
    }
    if ParkedLast(e, before, k) {
      forall j: nat | k < j <= |events| ensures IdleAt(e, events, j) {
        if j < |events| {
          assert IdleAt(e, before, j);
          EarlierIsAlike(e, events, j);
        }
      }
    }
  }

  /** Only a park leads to the pool, and whatever stays there keeps its idle time. */
  lemma IntoThePool(f: Environment, event: Event)
    requires After(f, event).state.Idle?
    ensures !f.state.Idle? ==> Parks(event) && Try(f, event).Success?
    ensures f.state.Idle? ==> After(f, event).idleSince == f.idleSince
    ensures Parks(event) && Try(f, event).Success? ==> After(f, event).idleSince == Some(event.now)
  {
  }

  lemma {:induction false} IdleWasParked(e: Environment, events: seq<Event>)
    requires !e.state.Idle? && Run(e, events).state.Idle?
    ensures exists k: nat :: ParkedLast(e, events, k)
    decreases |events|
  {
    var last := |events| - 1;
    RunsOneMore(e, events);
    IntoThePool(Run(e, events[..last]), events[last]);
    assert events[..|events|] == events;
    if Run(e, events[..last]).state.Idle? {
      IdleWasParked(e, events[..last]);
      var k: nat :| ParkedLast(e, events[..last], k);
      ParkedLastBefore(e, events, k);
    } else {
      assert ParkedLast(e, events, last);
    }
  }

  lemma {:induction false} IdleSinceTheLastPark(e: Environment, events: seq<Event>, k: nat)
    requires ParkedLast(e, events, k)
    ensures Run(e, events).state.Idle? && Run(e, events).idleSince == Some(events[k].now)
    decreases |events|
  {
    var last := |events| - 1;
    assert events[..|events|] == events;
    assert IdleAt(e, events, |events|);
    RunsOneMore(e, events);
    IntoThePool(Run(e, events[..last]), events[last]);
    if k < last {
      ParkedLastBefore(e, events, k);
      IdleSinceTheLastPark(e, events[..last], k);
    }
  }

  /** Only pooled environments outlive their time: the idle time of a reachable environment
      has run out exactly when it parked at least `ttl` ago and nothing moved it since. */
  lemma {:induction false} OnlyIdleExpires(identity: Identity, events: seq<Event>, now: Timestamp, ttl: Duration)
    ensures Run(Request(identity), events).IdleExpired(now, ttl) <==>
      exists k: nat :: ParkedLast(Request(identity), events, k) && now - events[k].now >= ttl
    ensures Run(Request(identity), events).IdleExpired(now, ttl) ==> Run(Request(identity), events).state.Idle?
  {
    var start := Request(identity);
    ReachableIsWellFormed(identity, events);
    if Run(start, events).IdleExpired(now, ttl) {
      IdleWasParked(start, events);
      var k: nat :| ParkedLast(start, events, k);
      IdleSinceTheLastPark(start, events, k);
    }
    if k: nat :| ParkedLast(start, events, k) && now - events[k].now >= ttl {
      IdleSinceTheLastPark(start, events, k);
    }
  }

  // ---------------------------------------------------------------- the life cycle, state by state

  /** Where a record may go from each state by `transition`, and from which it may not move at all. */
  predicate Leads(from: EnvironmentState, to: EnvironmentState) {
    match from
    case Requested => to == Provisioning || to.Stopped? || to.Failed? || to.Lost?
    case Provisioning => to == Initializing || to.Stopped? || to.Failed? || to.Lost?
    case Initializing => to == Ready || to.Stopped? || to.Failed? || to.Lost?
    case Ready => to == Busy || to == Draining || to.Stopped? || to.Failed? || to.Lost?
    case Busy => to == Idle || to == Draining || to.Stopped? || to.Failed? || to.Lost?
    case Idle => to == Ready || to == Draining || to.Stopped? || to.Failed? || to.Lost?
    case Draining => to.Stopped? || to.Failed? || to.Lost?
    case _ => false
  }

  /** A move is taken exactly when the state leads there. It writes the state and its own
      instant, the idle time exactly in the pool, the first ready time and the stop time. */
  lemma MovesExactly(e: Environment, to: EnvironmentState, now: Timestamp)
    ensures Transition(e, to, now).Success? <==> Leads(e.state, to)
    ensures Leads(e.state, to) ==>
      var f := Transition(e, to, now).value;
      && f == e.(state := to, updatedAt := now, idleSince := f.idleSince, readyAt := f.readyAt, stoppedAt := f.stoppedAt)
      && f.idleSince == (if to == Idle then Some(now) else None)
      && f.readyAt == (if to == Ready && e.readyAt.None? then Some(now) else e.readyAt)
      && f.stoppedAt == (if to.Stopped? || to.Failed? || to.Lost? then Some(now) else e.stoppedAt)
  {
  }

  /** The other operations, by the state they find: a reservation takes an idle unfenced record
      out of the pool, a hand-out takes a ready or idle unfenced one to the next epoch, a fence
      takes any that did not end to the next epoch, and an initialization records its evidence. */
  lemma OperationsByState(e: Environment, evidence: BootEvidence, now: Timestamp)
    ensures
      var r := Reserved(e, now);
      if e.state == Idle && e.fencedAt.None?
      then r == Success(e.(state := Ready, idleSince := None, updatedAt := now,
                           readyAt := if e.readyAt.None? then Some(now) else e.readyAt))
      else r.Failure?
    ensures
      var r := Assigned(e, now);
      if (e.state == Ready || e.state == Idle) && e.fencedAt.None?
      then r == Success(e.(state := Busy, epoch := e.epoch + 1, idleSince := None, updatedAt := now,
                           readyAt := if e.state == Idle && e.readyAt.None? then Some(now) else e.readyAt))
      else r.Failure?
    ensures
      var r := Fenced(e, now);
      if e.state.Stopped? || e.state.Failed? || e.state.Lost? then r.Failure?
      else r == Success(e.(state := Draining, epoch := e.epoch + 1, idleSince := None, updatedAt := now,
                           fencedAt := if e.fencedAt.None? then Some(now) else e.fencedAt))
    ensures
      var r := Initialized(e, evidence, now);
      if e.state == Provisioning
      then r == Success(e.(state := Initializing, idleSince := None, updatedAt := now, evidence := evidence))
      else r.Failure?
  {
  }

  /** A refused operation says so: an ended record is terminal, any other move is illegal. */
  lemma RefusalsAreNamed(e: Environment, to: EnvironmentState, now: Timestamp)
    requires !Leads(e.state, to)
    ensures
      var error := Transition(e, to, now).error;
      if e.state.Stopped? || e.state.Failed? || e.state.Lost? then error.Terminal? && error.state == e.state.Name()
      else error.IllegalTransition? && error.from == e.state.Name() && error.to == to.Name()
  {
  }
}
