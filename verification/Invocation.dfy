/** One logical request and its execution tries (crates/domain/src/invocation.rs). */
module InvocationModel {
  import opened Prelude

  datatype InvocationMode = Sync | Async

  datatype ErrorClass =
    | UserError | Crash | InitError | Timeout | QueueTimeout | PlatformError | Cancelled | OutcomeUnknown

  datatype InvocationError = InvocationError(errorClass: ErrorClass, errorType: string, message: string)

  datatype InvocationStatus =
    | Accepted | Queued | Running | Succeeded | Failed(error: InvocationError) | Cancelled
    | OutcomeUnknown(error: InvocationError)
  {
    predicate IsTerminal() { Succeeded? || Failed? || Cancelled? || OutcomeUnknown? }

    function Name(): string {
      match this
      case Accepted => "accepted"
      case Queued => "queued"
      case Running => "running"
      case Succeeded => "succeeded"
      case Failed(_) => "failed"
      case Cancelled => "cancelled"
      case OutcomeUnknown(_) => "outcome_unknown"
    }
  }

  datatype Deadlines = Deadlines(
    queueDeadline: Timestamp, initDeadline: Option<Timestamp>,
    executionDeadline: Option<Timestamp>, clientDeadline: Timestamp)

  datatype PayloadRef = Inline(bytesBase64: string, size: nat) | Digest(digest: string, sizeBytes: nat)

  /** What acceptance fixes for good. */
  datatype Request = Request(
    id: InvocationId, tenantId: TenantId, functionId: string, alias: Option<string>, revisionId: RevisionId,
    mode: InvocationMode, eventKind: string, idempotencyKey: Option<string>, inputDigest: string,
    inputSizeBytes: nat, traceId: string, acceptedAt: Timestamp, dispatcherId: Option<DispatcherId>)

  datatype Invocation = Invocation(
    request: Request, status: InvocationStatus, deadlines: Deadlines, output: Option<PayloadRef>,
    httpStatus: Option<nat>, startedAt: Option<Timestamp>, finishedAt: Option<Timestamp>,
    attemptIds: seq<AttemptId>)

  function Accept(request: Request, deadlines: Deadlines, now: Timestamp): Result<Invocation, DomainError> {
    if request.idempotencyKey.Some? && !(1 <= |request.idempotencyKey.value| <= 256) then
      Failure(Validation("idempotency_key", "must be 1..=256 chars"))
    else if deadlines.clientDeadline < now then
      Failure(Validation("client_deadline", "already elapsed at acceptance"))
    else
      Success(Invocation(request.(acceptedAt := now), Accepted, deadlines, None, None, None, None, []))
  }

  // ---------------------------------------------------------------- operations

  datatype Op =
    | MarkQueued
    | MarkRunning(attempt: AttemptId, executionDeadline: Timestamp, initDeadline: Timestamp)
    | MarkRetry(attempt: AttemptId, executionDeadline: Timestamp, initDeadline: Timestamp)
    | MarkRequeued
    | MarkSucceeded(output: Option<PayloadRef>, httpStatus: Option<nat>)
    | MarkFailed(error: InvocationError)
    | MarkCancelled
    | MarkOutcomeUnknown(reason: string)

  function Target(op: Op): string {
    match op
    case MarkQueued => "queued"
    case MarkRunning(_, _, _) => "running"
    case MarkRetry(_, _, _) => "retry"
    case MarkRequeued => "requeued"
    case MarkSucceeded(_, _) => "succeeded"
    case MarkFailed(_) => "failed"
    case MarkCancelled => "cancelled"
    case MarkOutcomeUnknown(_) => "outcome_unknown"
  }

  /** Which operations a non-terminal invocation takes. */
  predicate Allowed(i: Invocation, op: Op) {
    match op
    case MarkQueued => i.status.Accepted?
    case MarkRunning(_, _, _) => i.status.Accepted? || i.status.Queued?
    case MarkRequeued => i.request.mode.Async?
    case MarkFailed(_) => true
    case MarkCancelled => true
    case _ => i.status.Running?
  }

  function Refusal(i: Invocation, op: Op): Option<DomainError> {
    if i.status.IsTerminal() then Some(DomainError.Terminal("Invocation", i.status.Name()))
    else if !Allowed(i, op) then Some(IllegalTransition("Invocation", i.status.Name(), Target(op)))
    else if op.MarkFailed? && op.error.errorClass.OutcomeUnknown? then
      Some(Validation("error.class", "use mark_outcome_unknown for OutcomeUnknown"))
    else if op.MarkFailed? && op.error.errorClass.Cancelled? then
      Some(Validation("error.class", "use mark_cancelled for Cancelled"))
    else None
  }

  function Dispatched(i: Invocation, attempt: AttemptId, execution: Timestamp, init: Timestamp): Invocation {
    i.(deadlines := i.deadlines.(executionDeadline := Some(execution), initDeadline := Some(init)),
       attemptIds := i.attemptIds + [attempt])
  }

  function Effect(i: Invocation, op: Op, now: Timestamp): Invocation {
    match op
    case MarkQueued => i.(status := Queued)
    case MarkRunning(attempt, execution, init) =>
      Dispatched(i, attempt, execution, init).(
        status := Running, startedAt := if i.startedAt.Some? then i.startedAt else Some(now))
    case MarkRetry(attempt, execution, init) => Dispatched(i, attempt, execution, init)
    case MarkRequeued =>
      i.(status := Queued, deadlines := i.deadlines.(executionDeadline := None, initDeadline := None))
    case MarkSucceeded(output, httpStatus) =>
      i.(status := Succeeded, output := output, httpStatus := httpStatus, finishedAt := Some(now))
    case MarkFailed(error) => i.(status := Failed(error), finishedAt := Some(now))
    case MarkCancelled => i.(status := InvocationStatus.Cancelled, finishedAt := Some(now))
    case MarkOutcomeUnknown(reason) =>
      i.(status := InvocationStatus.OutcomeUnknown(InvocationError(ErrorClass.OutcomeUnknown, "Host.OutcomeUnknown", reason)),
         finishedAt := Some(now))
  }

  function Try(i: Invocation, op: Op, now: Timestamp): Result<Invocation, DomainError> {
    var refusal := Refusal(i, op);
    if refusal.Some? then Failure(refusal.value) else Success(Effect(i, op, now))
  }

  ghost predicate Took(spec: Result<Invocation, DomainError>, before: Invocation, after: Invocation, r: Result<(), DomainError>) {
    match spec
    case Success(step) => r.Success? && after == step
    case Failure(error) => r == Failure(error) && after == before
  }

  // ---------------------------------------------------------------- the object

  class InvocationLedgerEntry {
    const request: Request
    var status: InvocationStatus
    var deadlines: Deadlines
    var output: Option<PayloadRef>
    var httpStatus: Option<nat>
    var startedAt: Option<Timestamp>
    var finishedAt: Option<Timestamp>
    var attemptIds: seq<AttemptId>

    function Value(): Invocation
      reads this
    {
      Invocation(request, status, deadlines, output, httpStatus, startedAt, finishedAt, attemptIds)
    }

    constructor (accepted: Invocation)
      ensures Value() == accepted
    {
      request, status, deadlines := accepted.request, accepted.status, accepted.deadlines;
      output, httpStatus := accepted.output, accepted.httpStatus;
      startedAt, finishedAt, attemptIds := accepted.startedAt, accepted.finishedAt, accepted.attemptIds;
    }

    function EnsureNotTerminal(): Result<(), DomainError>
      reads this
    {
      if status.IsTerminal() then Failure(DomainError.Terminal("Invocation", status.Name())) else Success(())
    }

    function Illegal(to: string): DomainError
      reads this
    {
      IllegalTransition("Invocation", status.Name(), to)
    }

    method MarkQueued(now: Timestamp) returns (r: Result<(), DomainError>)
      modifies this
      ensures Took(Try(old(Value()), Op.MarkQueued, now), old(Value()), Value(), r)
    {
      if status.IsTerminal() {
        return EnsureNotTerminal();
      }
      match status {
        case Accepted =>
          status := Queued;
          return Success(());
        case _ =>
          return Failure(Illegal("queued"));
      }
    }

    method MarkRunning(attempt: AttemptId, executionDeadline: Timestamp, initDeadline: Timestamp, now: Timestamp)
      returns (r: Result<(), DomainError>)
      modifies this
      ensures Took(Try(old(Value()), Op.MarkRunning(attempt, executionDeadline, initDeadline), now), old(Value()), Value(), r)
    {
      if status.IsTerminal() {
        return EnsureNotTerminal();
      }
      if status.Accepted? || status.Queued? {
        status := Running;
        if startedAt.None? {
          startedAt := Some(now);
        }
        deadlines := deadlines.(executionDeadline := Some(executionDeadline));
        deadlines := deadlines.(initDeadline := Some(initDeadline));
        attemptIds := attemptIds + [attempt];
        return Success(());
      }
      return Failure(Illegal("running"));
    }

    method MarkRetry(attempt: AttemptId, executionDeadline: Timestamp, initDeadline: Timestamp, ghost now: Timestamp)
      returns (r: Result<(), DomainError>)
      modifies this
      ensures Took(Try(old(Value()), Op.MarkRetry(attempt, executionDeadline, initDeadline), now), old(Value()), Value(), r)
    {
      if status.IsTerminal() {
        return EnsureNotTerminal();
      }
      if status.Running? {
        deadlines := deadlines.(executionDeadline := Some(executionDeadline));
        deadlines := deadlines.(initDeadline := Some(initDeadline));
        attemptIds := attemptIds + [attempt];
        return Success(());
      }
      return Failure(Illegal("retry"));
    }

    method MarkRequeued(ghost now: Timestamp) returns (r: Result<(), DomainError>)
      modifies this
      ensures Took(Try(old(Value()), Op.MarkRequeued, now), old(Value()), Value(), r)
    {
      if status.IsTerminal() {
        return EnsureNotTerminal();
      }
      if request.mode != Async {
        return Failure(Illegal("requeued"));
      }
      status := Queued;
      deadlines := deadlines.(executionDeadline := None);
      deadlines := deadlines.(initDeadline := None);
      return Success(());
    }

    method MarkSucceeded(output: Option<PayloadRef>, httpStatus: Option<nat>, now: Timestamp)
      returns (r: Result<(), DomainError>)
      modifies this
      ensures Took(Try(old(Value()), Op.MarkSucceeded(output, httpStatus), now), old(Value()), Value(), r)
    {
      if status.IsTerminal() {
        return EnsureNotTerminal();
      }
      if status.Running? {
        status := Succeeded;
        this.output := output;
        this.httpStatus := httpStatus;
        finishedAt := Some(now);
        return Success(());
      }
      return Failure(Illegal("succeeded"));
    }

    method MarkFailed(error: InvocationError, now: Timestamp) returns (r: Result<(), DomainError>)
      modifies this
      ensures Took(Try(old(Value()), Op.MarkFailed(error), now), old(Value()), Value(), r)
    {
      if status.IsTerminal() {
        return EnsureNotTerminal();
      }
      if error.errorClass == ErrorClass.OutcomeUnknown {
        return Failure(Validation("error.class", "use mark_outcome_unknown for OutcomeUnknown"));
      }
      if error.errorClass == ErrorClass.Cancelled {
        return Failure(Validation("error.class", "use mark_cancelled for Cancelled"));
      }
      status := Failed(error);
      finishedAt := Some(now);
      return Success(());
    }

    method MarkCancelled(now: Timestamp) returns (r: Result<(), DomainError>)
      modifies this
      ensures Took(Try(old(Value()), Op.MarkCancelled, now), old(Value()), Value(), r)
    {
      if status.IsTerminal() {
        return EnsureNotTerminal();
      }
      status := InvocationStatus.Cancelled;
      finishedAt := Some(now);
      return Success(());
    }

    method MarkOutcomeUnknown(reason: string, now: Timestamp) returns (r: Result<(), DomainError>)
      modifies this
      ensures Took(Try(old(Value()), Op.MarkOutcomeUnknown(reason), now), old(Value()), Value(), r)
    {
      if status.IsTerminal() {
        return EnsureNotTerminal();
      }
      if status.Running? {
        status := InvocationStatus.OutcomeUnknown(
          InvocationError(ErrorClass.OutcomeUnknown, "Host.OutcomeUnknown", reason));
        finishedAt := Some(now);
        return Success(());
      }
      return Failure(Illegal("outcome_unknown"));
    }
  }

  // ---------------------------------------------------------------- runs

  datatype Event = Event(op: Op, now: Timestamp)

  function After(i: Invocation, event: Event): Invocation {
    var r := Try(i, event.op, event.now);
    if r.Success? then r.value else i
  }

  function Run(i: Invocation, events: seq<Event>): Invocation
    decreases |events|
  {
    if events == [] then i else Run(After(i, events[0]), events[1..])
  }

  /** How many times the status changes along a run. */
  function StatusChanges(i: Invocation, events: seq<Event>): nat
    decreases |events|
  {
    if events == [] then 0
    else
      (if After(i, events[0]).status != i.status then 1 else 0) + StatusChanges(After(i, events[0]), events[1..])
  }

  ghost predicate WellFormed(i: Invocation) {
    && (i.finishedAt.Some? <==> i.status.IsTerminal())
    && (i.startedAt.Some? <==> i.attemptIds != [])
    && (i.status.Running? || i.status.Succeeded? || i.status.OutcomeUnknown? ==> i.attemptIds != [])
    && (i.status.Failed? ==> !i.status.error.errorClass.Cancelled? && !i.status.error.errorClass.OutcomeUnknown?)
    && (i.status.OutcomeUnknown? ==> i.status.error.errorClass.OutcomeUnknown?)
    && (i.output.Some? || i.httpStatus.Some? ==> i.status.Succeeded?)
  }

  /** Every invocation reachable from acceptance: a finish time exactly when it
      is settled, a start exactly when something was dispatched, a success or an
      unknown outcome only after a dispatch, and no failure that hides a
      cancellation or an unknown outcome. */
  lemma {:induction false} ReachableIsWellFormed(request: Request, deadlines: Deadlines, now: Timestamp, events: seq<Event>)
    requires Accept(request, deadlines, now).Success?
    ensures WellFormed(Run(Accept(request, deadlines, now).value, events))
  {
    RunKeepsWellFormed(Accept(request, deadlines, now).value, events);
  }

  lemma {:induction false} RunKeepsWellFormed(i: Invocation, events: seq<Event>)
    requires WellFormed(i)
    ensures WellFormed(Run(i, events))
    decreases |events|
  {
    if events != [] {
      RunKeepsWellFormed(After(i, events[0]), events[1..]);
    }
  }

  /** What a run never rewrites: the request and its revision, the first start,
      the attempts already recorded, and everything once settled. */
  lemma {:induction false} RunKeepsWhatIsSet(i: Invocation, events: seq<Event>)
    ensures var j := Run(i, events);
      && j.request == i.request
      && (i.startedAt.Some? ==> j.startedAt == i.startedAt)
      && i.attemptIds <= j.attemptIds
      && (i.status.IsTerminal() ==> j == i)
    decreases |events|
  {
    if events != [] {
      RunKeepsWhatIsSet(After(i, events[0]), events[1..]);
    }
  }

  /** The dispatches that took effect along a run, in order. */
  function Dispatches(i: Invocation, events: seq<Event>): seq<Op>
    ensures forall k :: 0 <= k < |Dispatches(i, events)| ==> Dispatches(i, events)[k].MarkRunning? || Dispatches(i, events)[k].MarkRetry?
    decreases |events|
  {
    if events == [] then []
    else
      var op := events[0].op;
      (if (op.MarkRunning? || op.MarkRetry?) && Try(i, op, events[0].now).Success? then [op] else [])
      + Dispatches(After(i, events[0]), events[1..])
  }

  /** The attempts on record are exactly the dispatches that took effect, in order. */
  lemma {:induction false} RecordFollowsTheDispatches(i: Invocation, events: seq<Event>)
    ensures var j, d := Run(i, events), Dispatches(i, events);
      && |j.attemptIds| == |i.attemptIds| + |d|
      && i.attemptIds <= j.attemptIds
      && forall k :: 0 <= k < |d| ==> j.attemptIds[|i.attemptIds| + k] == d[k].attempt
    decreases |events|
  {
    if events != [] {
      var next := After(i, events[0]);
      RecordFollowsTheDispatches(next, events[1..]);
      assert i.attemptIds <= next.attemptIds;
    }
  }

  ghost predicate Waiting(i: Invocation) { i.status.Accepted? || i.status.Queued? }

  ghost predicate NoRunDeadlines(i: Invocation) {
    i.deadlines.executionDeadline.None? && i.deadlines.initDeadline.None?
  }

  /** A running invocation carries the deadlines of its last dispatch, a waiting
      one none of a run that ended (unless acceptance set one); the queue
      and client deadlines stay those of acceptance. */
  lemma {:induction false} DeadlinesFollowTheLastDispatch(i: Invocation, events: seq<Event>)
    ensures var j, d := Run(i, events), Dispatches(i, events);
      && (j.status.Running? && d != [] ==>
            && j.deadlines.executionDeadline == Some(d[|d| - 1].executionDeadline)
            && j.deadlines.initDeadline == Some(d[|d| - 1].initDeadline))
      && (j.status.Running? && d == [] ==> i.status.Running? && j.deadlines == i.deadlines)
      && (Waiting(j) && (Waiting(i) ==> NoRunDeadlines(i)) ==> NoRunDeadlines(j))
      && j.deadlines.queueDeadline == i.deadlines.queueDeadline
      && j.deadlines.clientDeadline == i.deadlines.clientDeadline
    decreases |events|
  {
    if events != [] {
      DeadlinesFollowTheLastDispatch(After(i, events[0]), events[1..]);
    }
  }

  /** Distance to the end of a synchronous invocation. */
  function Rank(status: InvocationStatus): nat {
    if status.Accepted? then 3 else if status.Queued? then 2 else if status.Running? then 1 else 0
  }

  /** A synchronous invocation is never put back: its status changes at most
      three times, once per rank it leaves. */
  lemma {:induction false} SyncChangesAreBounded(i: Invocation, events: seq<Event>)
    requires i.request.mode.Sync?
    ensures StatusChanges(i, events) + Rank(Run(i, events).status) <= Rank(i.status)
    decreases |events|
  {
    if events != [] {
      SyncChangesAreBounded(After(i, events[0]), events[1..]);
    }
  }

  /** A requeue needs an asynchronous invocation, and nothing else ever leads
      back to the queue once it was left. */
  lemma {:induction false} OnlyAsyncReturnsToTheQueue(i: Invocation, events: seq<Event>)
    requires i.status.Running? || i.status.IsTerminal()
    requires Run(i, events).status.Queued? || Run(i, events).status.Accepted?
    ensures i.request.mode.Async? && exists k :: 0 <= k < |events| && events[k].op.MarkRequeued?
    decreases |events|
  {
    RunKeepsWhatIsSet(i, events);
    if events != [] && After(i, events[0]).status.Queued? {
      assert events[0].op.MarkRequeued?;
    } else if events != [] {
      OnlyAsyncReturnsToTheQueue(After(i, events[0]), events[1..]);
      var k :| 0 <= k < |events| - 1 && events[1..][k].op.MarkRequeued?;
      assert events[k + 1].op.MarkRequeued?;
    }
  }

  // ---------------------------------------------------------------- operation by operation

  /** Acceptance needs a key of 1 to 256 characters, or none, and a client deadline that is not
      past; it records the instant and starts with nothing else. */
  lemma AcceptsExactly(request: Request, deadlines: Deadlines, now: Timestamp)
    ensures Accept(request, deadlines, now).Success? <==>
      && (request.idempotencyKey.Some? ==> 1 <= |request.idempotencyKey.value| <= 256)
      && now <= deadlines.clientDeadline
    ensures Accept(request, deadlines, now).Success? ==>
      Accept(request, deadlines, now).value ==
        Invocation(request.(acceptedAt := now), Accepted, deadlines, None, None, None, None, [])
  {
  }

  predicate Settled(i: Invocation) { i.status.Succeeded? || i.status.Failed? || i.status.Cancelled? || i.status.OutcomeUnknown? }

  /** Which operation is taken in which status; a settled invocation takes none. */
  lemma TakenExactly(i: Invocation, op: Op, now: Timestamp)
    ensures Settled(i) ==> Try(i, op, now).Failure? && Try(i, op, now).error.Terminal?
    ensures !Settled(i) ==>
      (Try(i, op, now).Success? <==>
        match op
        case MarkQueued => i.status == Accepted
        case MarkRunning(_, _, _) => i.status == Accepted || i.status == Queued
        case MarkRetry(_, _, _) => i.status == Running
        case MarkRequeued => i.request.mode == Async
        case MarkSucceeded(_, _) => i.status == Running
        case MarkFailed(error) => error.errorClass != ErrorClass.Cancelled && error.errorClass != ErrorClass.OutcomeUnknown
        case MarkCancelled => true
        case MarkOutcomeUnknown(_) => i.status == Running)
  {
  }

  /** What an operation that settles nothing writes. */
  lemma MovesExactly(i: Invocation, op: Op, now: Timestamp)
    requires Try(i, op, now).Success?
    ensures
      var j := Try(i, op, now).value;
      match op
      case MarkQueued => j == i.(status := Queued)
      case MarkRunning(a, execution, init) =>
        && j == i.(status := Running, attemptIds := i.attemptIds + [a], deadlines := j.deadlines, startedAt := j.startedAt)
        && j.deadlines == i.deadlines.(executionDeadline := Some(execution), initDeadline := Some(init))
        && j.startedAt == (if i.startedAt.Some? then i.startedAt else Some(now))
      case MarkRetry(a, execution, init) =>
        && j == i.(attemptIds := i.attemptIds + [a], deadlines := j.deadlines)
        && j.deadlines == i.deadlines.(executionDeadline := Some(execution), initDeadline := Some(init))
      case MarkRequeued =>
        && j == i.(status := Queued, deadlines := j.deadlines)
        && j.deadlines == i.deadlines.(executionDeadline := None, initDeadline := None)
      case _ => SettledBy(i, Event(op, now), j)
  {
  }

  /** The row an event leaves that settles the invocation: its status, what it carries, and its
      instant. */
  predicate SettledBy(before: Invocation, event: Event, after: Invocation) {
    match event.op
    case MarkSucceeded(output, httpStatus) =>
      after == before.(status := Succeeded, output := output, httpStatus := httpStatus, finishedAt := Some(event.now))
    case MarkFailed(error) => after == before.(status := Failed(error), finishedAt := Some(event.now))
    case MarkCancelled => after == before.(status := InvocationStatus.Cancelled, finishedAt := Some(event.now))
    case MarkOutcomeUnknown(reason) =>
      after == before.(
        status := InvocationStatus.OutcomeUnknown(InvocationError(ErrorClass.OutcomeUnknown, "Host.OutcomeUnknown", reason)),
        finishedAt := Some(event.now))
    case _ => false
  }

  ghost predicate SettledAt(i: Invocation, events: seq<Event>, k: nat) {
    && k < |events| && !Settled(Run(i, events[..k]))
    && SettledBy(Run(i, events[..k]), events[k], Run(i, events))
  }

  /** A settled record is the work of one event: it carries the output, the error and the
      instant of the event that settled it, and nothing that came later. */
  lemma {:induction false} SettledByOneEvent(i: Invocation, events: seq<Event>)
    requires !Settled(i) && Settled(Run(i, events))
    ensures exists k: nat :: SettledAt(i, events, k)
    decreases |events|
  {
    var next := After(i, events[0]);
    if Settled(next) {
      RunKeepsWhatIsSet(next, events[1..]);
      MovesExactly(i, events[0].op, events[0].now);
      assert events[..0] == [];
      assert SettledAt(i, events, 0);
    } else {
      SettledByOneEvent(next, events[1..]);
      var k: nat :| SettledAt(next, events[1..], k);
      assert events[..k + 1][1..] == events[1..][..k];
      assert SettledAt(i, events, k + 1);
    }
  }

  // ---------------------------------------------------------------- attempts

  datatype AttemptStatus =
    | AttemptDispatched | AttemptSucceeded | AttemptFailed(error: InvocationError)
    | AttemptOutcomeUnknown(error: InvocationError)
  {
    predicate IsTerminal() { !AttemptDispatched? }

    function Name(): string {
      match this
      case AttemptDispatched => "dispatched"
      case AttemptSucceeded => "succeeded"
      case AttemptFailed(_) => "failed"
      case AttemptOutcomeUnknown(_) => "outcome_unknown"
    }
  }

  datatype Attempt = Attempt(
    id: AttemptId, invocationId: InvocationId, tenantId: TenantId, number: nat, environmentId: EnvironmentId,
    epoch: nat, dispatchedAt: Timestamp, status: AttemptStatus, finishedAt: Option<Timestamp>)

  function Dispatch(id: AttemptId, invocationId: InvocationId, tenantId: TenantId, number: nat,
                    environmentId: EnvironmentId, epoch: nat, now: Timestamp): Attempt {
    Attempt(id, invocationId, tenantId, number, environmentId, epoch, now, AttemptDispatched, None)
  }

  function Finished(a: Attempt, status: AttemptStatus, now: Timestamp): Result<Attempt, DomainError> {
    if a.status.IsTerminal() then Failure(DomainError.Terminal("InvocationAttempt", a.status.Name()))
    else Success(a.(status := status, finishedAt := Some(now)))
  }

  /** A dispatched attempt takes any end and its instant, a finished one none. */
  lemma FinishesOnce(a: Attempt, status: AttemptStatus, now: Timestamp)
    ensures Finished(a, status, now) ==
      if a.status == AttemptDispatched then Success(a.(status := status, finishedAt := Some(now)))
      else Failure(DomainError.Terminal("InvocationAttempt", a.status.Name()))
  {
  }

  class InvocationAttempt {
    const dispatched: Attempt
    var status: AttemptStatus
    var finishedAt: Option<Timestamp>

    function Value(): Attempt
      reads this
    {
      dispatched.(status := status, finishedAt := finishedAt)
    }

    constructor (dispatched: Attempt)
      ensures Value() == dispatched
    {
      this.dispatched, status, finishedAt := dispatched, dispatched.status, dispatched.finishedAt;
    }

    method Finish(status: AttemptStatus, now: Timestamp) returns (r: Result<(), DomainError>)
      modifies this
      ensures match Finished(old(Value()), status, now)
        case Success(step) => r.Success? && Value() == step
        case Failure(error) => r == Failure(error) && Value() == old(Value())
    {
      if this.status.IsTerminal() {
        return Failure(DomainError.Terminal("InvocationAttempt", this.status.Name()));
      }
      this.status := status;
      finishedAt := Some(now);
      return Success(());
    }
  }
}
