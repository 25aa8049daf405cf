/** Properties of whole runs of one bridge session: which frame settles which
    attempt, what a drain keeps out, what is counted, what a probe proves. */
module SessionRuns {
  import opened Prelude
  import opened BridgeSessionModel
  import opened Texts

  datatype Call =
    | Arrive(items: seq<Item>)
    | WaitResult
    | DrainStale
    | ProbeReady(nonce: nat, pingWrite: Option<ProtocolError>, arrivals: seq<Item>)
    | RearmFor(epoch: nat)
    | SendInvoke(attempt: AttemptId, atEpoch: nat, encode: Option<ProtocolError>, write: Option<ProtocolError>)
    | ShutdownWith(lastWrite: Option<ProtocolError>)

  function After(s: Session, c: Call): (t: Session)
    requires s.Valid()
    ensures t.Valid()
  {
    match c
    case Arrive(items) => s.(stream := s.stream + items)
    case WaitResult => Wait(s).session
    case DrainStale => Drain(s).session
    case ProbeReady(nonce, write, arrivals) => Probe(s, nonce, write, arrivals).session
    case RearmFor(epoch) => Rearm(s, epoch)
    case SendInvoke(attempt, epoch, encode, write) => Send(s, attempt, epoch, encode, write).session
    case ShutdownWith(write) => ShutDown(s, write).session
  }

  function Run(s: Session, calls: seq<Call>): (t: Session)
    requires s.Valid()
    ensures t.Valid()
  {
    if calls == [] then s else After(Run(s, calls[..|calls| - 1]), calls[|calls| - 1])
  }

  /** The session as the call at `i` finds it. */
  function Before(s: Session, calls: seq<Call>, i: nat): (t: Session)
    requires s.Valid() && i <= |calls|
    ensures t.Valid()
  {
    Run(s, calls[..i])
  }

  lemma NextCall(s: Session, calls: seq<Call>, i: nat)
    requires s.Valid() && i < |calls|
    ensures Before(s, calls, i + 1) == After(Before(s, calls, i), calls[i])
  {
    assert calls[..i + 1][..i] == calls[..i];
  }

  // ---------------------------------------------------------------- one call

  lemma {:induction false} TallySplits(kind: Kind, stream: seq<Item>, from: nat, mid: nat, till: nat)
    requires from <= mid <= till <= |stream|
    ensures Tally(kind, stream, from, till) == Tally(kind, stream, from, mid) + Tally(kind, stream, mid, till)
    decreases till
  {
    if mid < till {
      TallySplits(kind, stream, from, mid, till - 1);
    }
  }

  lemma {:induction false} TallyIgnoresArrivals(kind: Kind, stream: seq<Item>, items: seq<Item>, from: nat, till: nat)
    requires from <= till <= |stream|
    ensures Tally(kind, stream + items, from, till) == Tally(kind, stream, from, till)
    decreases till
  {
    if from < till {
      TallyIgnoresArrivals(kind, stream, items, from, till - 1);
    }
  }

  /** The position where a `wait_result` stops. */
  function WaitStop(s: Session): (k: nat)
    requires s.Valid()
    ensures s.read <= k <= |s.stream|
  {
    FirstStop(s.stream, s.read, ForResult(s.lease))
  }

  /** A `wait_result` on this session ends with a frame of this kind as its outcome. */
  predicate EndsWith(s: Session, kind: Kind)
    requires s.Valid()
  {
    !s.disconnected && WaitStop(s) < |s.stream| && Is(kind, s.stream[WaitStop(s)])
  }

  /** Time only adds to the stream and only moves the read position forward. */
  predicate Forward(s: Session, t: Session) {
    s.stream <= t.stream && s.read <= t.read && s.sent <= t.sent
  }

  lemma CallIsForward(s: Session, c: Call)
    requires s.Valid()
    ensures Forward(s, After(s, c))
  {
  }

  lemma {:induction false} RunIsForward(s: Session, calls: seq<Call>, i: nat, j: nat)
    requires s.Valid() && i <= j <= |calls|
    ensures Forward(Before(s, calls, i), Before(s, calls, j))
    decreases j
  {
    if i < j {
      RunIsForward(s, calls, i, j - 1);
      NextCall(s, calls, j - 1);
      CallIsForward(Before(s, calls, j - 1), calls[j - 1]);
    }
  }

  // ---------------------------------------------------------------- what a wait returns

  /** A result frame of the pair the session is armed with. */
  predicate IsAnswer(item: Item, lease: Option<Armed>) {
    item.Frame? && lease.Some? &&
    match item.message
    case Response(attempt, epoch, _, _) => attempt == lease.value.attempt && epoch == lease.value.epoch
    case Error(attempt, epoch, _, _, _, _, _) => attempt == lease.value.attempt && epoch == lease.value.epoch
    case _ => false
  }

  /** An item that ends a wait: the end of the stream or of its frames, an exit, or an answer. */
  predicate Concludes(item: Item, lease: Option<Armed>) {
    item == Closed || item == Undecodable || item.Broken? || (item.Frame? && item.message.Exited?) || IsAnswer(item, lease)
  }

  /** The first unread item that ends a wait is at `k`. */
  ghost predicate ConcludesAt(s: Session, k: nat)
    requires s.Valid()
  {
    && s.read <= k < |s.stream| && Concludes(s.stream[k], s.lease)
    && forall i :: s.read <= i < k ==> !Concludes(s.stream[i], s.lease)
  }

  ghost predicate NothingConcludes(s: Session)
    requires s.Valid()
  {
    forall i :: s.read <= i < |s.stream| ==> !Concludes(s.stream[i], s.lease)
  }

  lemma ConcludesIsEnds(item: Item, lease: Option<Armed>)
    ensures Concludes(item, lease) <==> Ends(ForResult(lease), item)
  {
  }

  lemma StopConcludes(s: Session)
    requires s.Valid()
    ensures WaitStop(s) < |s.stream| ==> ConcludesAt(s, WaitStop(s))
    ensures WaitStop(s) == |s.stream| ==> NothingConcludes(s)
  {
    forall i | s.read <= i < |s.stream| ensures Concludes(s.stream[i], s.lease) <==> Ends(ForResult(s.lease), s.stream[i]) {
      ConcludesIsEnds(s.stream[i], s.lease);
    }
    forall i | s.read <= i < WaitStop(s) ensures !Ends(ForResult(s.lease), s.stream[i]) {
      NothingEndsBeforeFirstStop(s.stream, s.read, ForResult(s.lease), i);
    }
  }

  /** The wait ends with this item. */
  ghost predicate EndedBy(s: Session, item: Item)
    requires s.Valid()
  {
    exists k: nat :: ConcludesAt(s, k) && s.stream[k] == item
  }

  lemma ConcludesOnce(s: Session, j: nat, k: nat)
    requires s.Valid() && ConcludesAt(s, j) && ConcludesAt(s, k)
    ensures j == k
  {
  }

  lemma EndedByTheStop(s: Session, item: Item)
    requires s.Valid()
    ensures EndedBy(s, item) <==> WaitStop(s) < |s.stream| && s.stream[WaitStop(s)] == item
  {
    StopConcludes(s);
    if EndedBy(s, item) {
      var k: nat :| ConcludesAt(s, k) && s.stream[k] == item;
      assert !NothingConcludes(s);
      ConcludesOnce(s, k, WaitStop(s));
    }
  }

  /** The outcome an item that ends a wait stands for. */
  predicate Means(item: Item, outcome: Outcome) {
    match item
    case Frame(Response(_, _, payload, ms)) => outcome == ResponseOutcome(payload, ms)
    case Frame(Error(_, _, kind, errorType, message, trace, ms)) =>
      outcome == GuestError(kind, errorType, message, trace, ms)
    case Frame(Exited(code, signal)) =>
      outcome == GuestError(Crash(code, signal), "Runtime.Exited", ExitMessage(code, signal), None, None)
    case _ => outcome == DisconnectedOutcome
  }

  /** The answer of a wait: at once when disconnected, a timeout when nothing unread ends it,
      and otherwise what the item that ends it stands for. */
  lemma WaitAnswersExactly(s: Session, item: Item)
    requires s.Valid()
    ensures s.disconnected ==> Wait(s).outcome == DisconnectedOutcome
    ensures !s.disconnected && NothingConcludes(s) ==> Wait(s).outcome == TimeoutOutcome
    ensures !s.disconnected && EndedBy(s, item) ==> Concludes(item, s.lease) && Means(item, Wait(s).outcome)
  {
    StopConcludes(s);
    EndedByTheStop(s, item);
  }

  /** The frame of the pair that carries exactly this response. */
  function ResponseFrame(armed: Armed, outcome: Outcome): Item
    requires outcome.ResponseOutcome?
  {
    Frame(Response(armed.attempt, armed.epoch, outcome.payload, outcome.guestHandlerMs))
  }

  /** The frame of the pair that carries exactly this error. */
  function ErrorFrame(armed: Armed, outcome: Outcome): Item
    requires outcome.GuestError?
  {
    Frame(Error(armed.attempt, armed.epoch, outcome.kind, outcome.errorType, outcome.message, outcome.stackTrace, outcome.guestHandlerMs))
  }

  /** A response comes only from a `Response` of the armed pair, an error only from an `Error`
      of it or from an exit. */
  lemma MeaningIsExact(item: Item, lease: Option<Armed>, outcome: Outcome)
    requires Concludes(item, lease) && Means(item, outcome)
    ensures outcome.ResponseOutcome? ==> lease.Some? && item == ResponseFrame(lease.value, outcome)
    ensures outcome.GuestError? ==>
      || (lease.Some? && item == ErrorFrame(lease.value, outcome))
      || (outcome.kind.Crash? && item == Frame(Exited(outcome.kind.exitCode, outcome.kind.signal)))
    ensures outcome.DisconnectedOutcome? <==> !item.Frame?
    ensures !outcome.TimeoutOutcome?
  {
  }

  /** What the wait ended with, if anything did. */
  lemma WaitEnds(s: Session)
    requires s.Valid()
    ensures NothingConcludes(s) || (WaitStop(s) < |s.stream| && EndedBy(s, s.stream[WaitStop(s)]))
  {
    StopConcludes(s);
  }

  /** A wait returns a response exactly when a `Response` of the armed pair with that payload
      and time ended it: no error, exit or foreign result is ever reported as a success. */
  lemma ResponseExactly(s: Session, payload: string, ms: Option<nat>)
    requires s.Valid()
    ensures Wait(s).outcome == ResponseOutcome(payload, ms) <==>
      !s.disconnected && s.lease.Some? && EndedBy(s, Frame(Response(s.lease.value.attempt, s.lease.value.epoch, payload, ms)))
  {
    WaitEnds(s);
    if s.lease.Some? {
      WaitAnswersExactly(s, Frame(Response(s.lease.value.attempt, s.lease.value.epoch, payload, ms)));
    }
    if Wait(s).outcome == ResponseOutcome(payload, ms) {
      ItemOfTheOutcome(s);
    }
  }

  lemma ItemOfTheOutcome(s: Session)
    requires s.Valid() && (Wait(s).outcome.ResponseOutcome? || Wait(s).outcome.GuestError?)
    ensures
      && !s.disconnected && WaitStop(s) < |s.stream|
      && var item := s.stream[WaitStop(s)];
         EndedBy(s, item) && Concludes(item, s.lease) && Means(item, Wait(s).outcome)
    ensures
      var item, outcome := s.stream[WaitStop(s)], Wait(s).outcome;
      && (outcome.ResponseOutcome? ==> s.lease.Some? && item == ResponseFrame(s.lease.value, outcome))
      && (outcome.GuestError? ==>
            || (s.lease.Some? && item == ErrorFrame(s.lease.value, outcome))
            || (outcome.kind.Crash? && item == Frame(Exited(outcome.kind.exitCode, outcome.kind.signal))))
  {
    WaitEnds(s);
    StopConcludes(s);
    if NothingConcludes(s) {
      WaitAnswersExactly(s, Closed);
    }
    var item := s.stream[WaitStop(s)];
    WaitAnswersExactly(s, item);
    MeaningIsExact(item, s.lease, Wait(s).outcome);
  }

  ghost predicate ErrorEnded(s: Session, outcome: Outcome)
    requires s.Valid() && outcome.GuestError?
  {
    s.lease.Some? && EndedBy(s, ErrorFrame(s.lease.value, outcome))
  }

  ghost predicate ExitEnded(s: Session, outcome: Outcome)
    requires s.Valid() && outcome.GuestError?
  {
    && outcome.kind.Crash? && EndedBy(s, Frame(Exited(outcome.kind.exitCode, outcome.kind.signal)))
    && outcome.errorType == "Runtime.Exited" && outcome.message == ExitMessage(outcome.kind.exitCode, outcome.kind.signal)
    && outcome.stackTrace.None? && outcome.guestHandlerMs.None?
  }

  /** A wait returns a guest error exactly when an `Error` of the armed pair with these five
      fields ended it, or an exit with this code and signal. */
  lemma GuestErrorExactly(s: Session, outcome: Outcome)
    requires s.Valid() && outcome.GuestError?
    ensures Wait(s).outcome == outcome <==> !s.disconnected && (ErrorEnded(s, outcome) || ExitEnded(s, outcome))
  {
    if ErrorEnded(s, outcome) {
      WaitAnswersExactly(s, ErrorFrame(s.lease.value, outcome));
    }
    if ExitEnded(s, outcome) {
      WaitAnswersExactly(s, Frame(Exited(outcome.kind.exitCode, outcome.kind.signal)));
    }
    if Wait(s).outcome == outcome {
      ItemOfTheOutcome(s);
    }
  }

  ghost predicate EndedByNoFrame(s: Session)
    requires s.Valid()
  {
    exists item :: EndedBy(s, item) && !item.Frame?
  }

  /** It times out exactly when nothing unread ends it, and reports a disconnection exactly
      when the session was disconnected or an item that is no frame ended it. */
  lemma NoAnswerExactly(s: Session)
    requires s.Valid()
    ensures Wait(s).outcome == TimeoutOutcome <==> !s.disconnected && NothingConcludes(s)
    ensures Wait(s).outcome == DisconnectedOutcome <==> s.disconnected || EndedByNoFrame(s)
  {
    WaitEnds(s);
    WaitAnswersExactly(s, Closed);
    forall item | EndedBy(s, item) && !s.disconnected
      ensures Wait(s).outcome != TimeoutOutcome && (Wait(s).outcome == DisconnectedOutcome <==> !item.Frame?) && !NothingConcludes(s)
    {
      WaitAnswersExactly(s, item);
      MeaningIsExact(item, s.lease, Wait(s).outcome);
    }
  }

  /** How the parts of the exit message are written. */
  lemma ExitMessageParts(code: Option<int>, signal: Option<int>)
    ensures ExitMessage(code, signal) ==
      "user process exited without a result (exit_code=" + ShowOption(code) + ", signal=" + ShowOption(signal) + ")"
    ensures ShowOption(None) == "None" && ShowOption(Some(7)) == "Some(7)" && ShowOption(Some(-9)) == "Some(-9)"
  {
    assert Decimal(7) == "7" && Decimal(9) == "9";
    assert ShowInt(-9) == "-9";
  }

  // ---------------------------------------------------------------- what the other calls do

  /** The error a failed encoding or write is reported as. */
  predicate Reports(error: ProtocolError, r: Result<(), SessionError>) {
    match error
    case Io => r == Failure(SessionError.Disconnected)
    case TooLarge(size) => r == Failure(FrameTooLarge(size))
    case Malformed => r == Failure(Protocol)
  }

  /** An invoke by what becomes of its frame: nothing happens on a closed side or when it
      cannot be encoded; otherwise the pair is armed, and the frame is the last one sent, or
      its failed write closes the write side. */
  lemma SendsExactly(s: Session, attempt: AttemptId, epoch: nat, encode: Option<ProtocolError>, write: Option<ProtocolError>)
    ensures
      var r := Send(s, attempt, epoch, encode, write);
      if s.disconnected || s.writeClosed then r.session == s && r.result == Failure(SessionError.Disconnected)
      else if encode.Some? then r.session == s && Reports(encode.value, r.result)
      else if write.Some? then
        r.session == s.(lease := Some(Armed(attempt, epoch)), writeClosed := true) && Reports(write.value, r.result)
      else r.session == s.(lease := Some(Armed(attempt, epoch)), sent := s.sent + [Invoke(attempt, epoch)]) && r.result.Success?
  {
  }

  /** A shutdown disconnects in every case, and says whether the guest was told. */
  lemma ShutsDownExactly(s: Session, write: Option<ProtocolError>)
    ensures
      var r := ShutDown(s, write);
      if s.disconnected || s.writeClosed then
        r.session == s.(disconnected := true) && r.result == Failure(SessionError.Disconnected)
      else if write.Some? then
        r.session == s.(disconnected := true, writeClosed := true) && Reports(write.value, r.result)
      else r.session == s.(disconnected := true, sent := s.sent + [HostMessage.Shutdown]) && r.result.Success?
  {
  }

  /** A probe by what becomes of its ping: an unusable session is left alone, a failed ping
      closes the write side, and otherwise the ping is the last message sent. Only then can the
      probe succeed. */
  lemma ProbesExactly(s: Session, nonce: nat, write: Option<ProtocolError>, arrivals: seq<Item>)
    requires s.Valid()
    ensures
      var r := Probe(s, nonce, write, arrivals);
      if s.disconnected || s.writeClosed || s.guestExited then r.session == s && !r.ready
      else if write.Some? then r.session == s.(writeClosed := true) && !r.ready
      else r.session.sent == s.sent + [Ping(nonce)] && r.session.stream == s.stream + arrivals
           && r.session.lease == s.lease && r.session.epoch == s.epoch && !r.session.writeClosed
  {
  }

  /** A rearm records the epoch and forgets the armed pair, and nothing else. */
  lemma RearmsExactly(s: Session, epoch: nat)
    ensures Rearm(s, epoch) == s.(lease := None, epoch := epoch)
  {
  }

  /** A drain of a usable session reports the frames it read: all the items it read but an
      unreadable one, which disconnects; it marks the session exactly when it read an exit. */
  lemma DrainCounts(s: Session)
    requires s.Valid()
    ensures
      var r := Drain(s);
      if s.disconnected || s.writeClosed || s.guestExited then r.session == s && r.frames == 0
      else
        var t := r.session;
        && r.frames == t.read - s.read - (if t.disconnected then 1 else 0)
        && (t.guestExited <==> s.read < t.read && s.stream[t.read - 1].Frame? && s.stream[t.read - 1].message.Exited?)
        && (t.disconnected <==> s.read < t.read && !s.stream[t.read - 1].Frame?)
        && t == s.(read := t.read, disconnected := t.disconnected, guestExited := t.guestExited, staleResults := t.staleResults)
  {
    DrainStopsAtTheEnd(s);
  }

  lemma DrainStopsAtTheEnd(s: Session)
    requires s.Valid()
    ensures
      var k := FirstStop(s.stream, s.read, ForNothing);
      s.read < k ==> s.stream[k - 1].Frame? && !s.stream[k - 1].message.Exited?
  {
    var k := FirstStop(s.stream, s.read, ForNothing);
    if s.read < k {
      NothingEndsBeforeFirstStop(s.stream, s.read, ForNothing, k - 1);
    }
  }

  // ---------------------------------------------------------------- attribution

  predicate Arms(s: Session, c: Call) {
    c.SendInvoke? && s.Writable() && c.encode.None?
  }

  lemma LeaseAfter(s: Session, c: Call)
    requires s.Valid()
    ensures After(s, c).lease ==
      if Arms(s, c) then Some(Armed(c.attempt, c.atEpoch)) else if c.RearmFor? then None else s.lease
  {
  }

  /** The call at `i` is the `send_invoke` that armed (attempt, epoch), and no later
      call before `j` armed another pair or dropped the lease. */
  ghost predicate LastArmed(s: Session, calls: seq<Call>, i: nat, j: nat, armed: Armed)
    requires s.Valid() && i < j <= |calls|
  {
    && Arms(Before(s, calls, i), calls[i])
    && armed == Armed(calls[i].attempt, calls[i].atEpoch)
    && forall m :: i < m < j ==> !calls[m].RearmFor? && !Arms(Before(s, calls, m), calls[m])
  }

  lemma ArmedLast(s: Session, calls: seq<Call>, i: nat, j: nat)
    requires s.Valid() && i < j < |calls| && Before(s, calls, j).lease.Some?
    requires LastArmed(s, calls, i, j, Before(s, calls, j).lease.value)
    requires !Arms(Before(s, calls, j), calls[j]) && !calls[j].RearmFor?
    ensures LastArmed(s, calls, i, j + 1, Before(s, calls, j).lease.value)
  {
  }

  lemma {:induction false} LeaseIsTheLastInvoke(s: Session, calls: seq<Call>, j: nat) returns (i: nat)
    requires s.Valid() && s.lease.None? && j <= |calls|
    requires Before(s, calls, j).lease.Some?
    ensures i < j && LastArmed(s, calls, i, j, Before(s, calls, j).lease.value)
    decreases j
  {
    assert j > 0;
    NextCall(s, calls, j - 1);
    LeaseAfter(Before(s, calls, j - 1), calls[j - 1]);
    if Arms(Before(s, calls, j - 1), calls[j - 1]) {
      i := j - 1;
    } else {
      i := LeaseIsTheLastInvoke(s, calls, j - 1);
      ArmedLast(s, calls, i, j - 1);
    }
  }

  /** In every run, an outcome taken from a `Response` or `Error` frame is that frame's,
      and the frame names exactly the attempt and epoch of the latest `send_invoke`
      that armed the session, with no `rearm` in between. */
  lemma OutcomeBelongsToTheLastInvoke(epoch: nat, calls: seq<Call>, j: nat) returns (i: nat)
    requires j < |calls| && calls[j].WaitResult?
    requires EndsWith(Before(Fresh(epoch), calls, j), AResult)
    ensures
      var s := Before(Fresh(epoch), calls, j);
      var frame := s.stream[WaitStop(s)];
      && i < j
      && LastArmed(Fresh(epoch), calls, i, j, Armed(frame.message.attemptId, frame.message.epoch))
      && Wait(s).outcome == OutcomeOf(frame)
  {
    i := LeaseIsTheLastInvoke(Fresh(epoch), calls, j);
  }

  // ---------------------------------------------------------------- the drain barrier

  lemma UsableDrainReadsEverything(s: Session)
    requires s.Valid() && Drain(s).session.IsUsable()
    ensures Drain(s).session.read == |s.stream| && Drain(s).session.stream == s.stream
    ensures Tally(AnExit, s.stream, s.read, |s.stream|) == 0
    ensures Drain(s).session.staleResults == s.staleResults + Tally(AResult, s.stream, s.read, |s.stream|)
  {
    var k := FirstStop(s.stream, s.read, ForNothing);
    assert k == |s.stream|;
    NoneBeforeStop(s.stream, s.read, ForNothing, k);
  }

  lemma {:induction false} NoneBeforeStop(stream: seq<Item>, from: nat, reader: Reader, k: nat)
    requires from <= k <= |stream| && k <= FirstStop(stream, from, reader)
    ensures Tally(AnExit, stream, from, k) == 0
    decreases k
  {
    if from < k {
      NoneBeforeStop(stream, from, reader, k - 1);
      NothingEndsBeforeFirstStop(stream, from, reader, k - 1);
    }
  }

  /** Once a drain left the session usable, no frame that was there when it ended is
      ever an outcome again, whatever is called afterwards: the item that ends any
      later wait arrived after the drain. This covers `Exited`, which names no attempt. */
  lemma DrainIsABarrier(epoch: nat, calls: seq<Call>, d: nat, j: nat)
    requires d < j < |calls| && calls[d].DrainStale? && calls[j].WaitResult?
    requires Before(Fresh(epoch), calls, d + 1).IsUsable()
    ensures
      var s := Before(Fresh(epoch), calls, j);
      && |Before(Fresh(epoch), calls, d).stream| <= s.read <= WaitStop(s)
      && Before(Fresh(epoch), calls, d).stream <= s.stream
  {
    NextCall(Fresh(epoch), calls, d);
    UsableDrainReadsEverything(Before(Fresh(epoch), calls, d));
    RunIsForward(Fresh(epoch), calls, d + 1, j);
  }

  lemma InvokedAfterTheRearm(s: Session, calls: seq<Call>, r: nat, i: nat, j: nat, armed: Armed)
    requires s.Valid() && i < j <= |calls| && r < j && calls[r].RearmFor? && LastArmed(s, calls, i, j, armed)
    ensures r < i
  {
    assert Arms(Before(s, calls, i), calls[i]);
  }

  /** One reuse of a pooled session: drain, rearm, invoke, wait. A result that settles
      the new attempt arrived after the drain and names an invoke sent after the rearm. */
  lemma NextAttemptIsSettledByItsOwnFrame(epoch: nat, calls: seq<Call>, d: nat, r: nat, j: nat) returns (i: nat)
    requires d < r < j < |calls|
    requires calls[d].DrainStale? && calls[r].RearmFor? && calls[j].WaitResult?
    requires Before(Fresh(epoch), calls, d + 1).IsUsable()
    requires EndsWith(Before(Fresh(epoch), calls, j), AResult)
    ensures
      var s := Before(Fresh(epoch), calls, j);
      var frame := s.stream[WaitStop(s)];
      && r < i < j
      && LastArmed(Fresh(epoch), calls, i, j, Armed(frame.message.attemptId, frame.message.epoch))
      && |Before(Fresh(epoch), calls, d).stream| <= WaitStop(s)
      && Wait(s).outcome == OutcomeOf(frame)
  {
    DrainIsABarrier(epoch, calls, d, j);
    i := OutcomeBelongsToTheLastInvoke(epoch, calls, j);
    var message := Before(Fresh(epoch), calls, j).stream[WaitStop(Before(Fresh(epoch), calls, j))].message;
    InvokedAfterTheRearm(Fresh(epoch), calls, r, i, j, Armed(message.attemptId, message.epoch));
  }

  lemma Appended(s: Session, calls: seq<Call>, c: Call)
    requires s.Valid()
    ensures Run(s, calls + [c]) == After(Run(s, calls), c)
  {
    assert (calls + [c])[..|calls|] == calls;
  }

  /** The result of the attempt, and the exit of the guest behind it. */
  function ResultThenExit(a: AttemptId): seq<Item> {
    [Frame(Response(a, 1, "ok", None)), Frame(Exited(Some(1), None))]
  }

  function FirstAttempt(a: AttemptId): seq<Call> {
    [SendInvoke(a, 1, None, None)] + [Arrive(ResultThenExit(a))] + [WaitResult]
  }

  /** The session after the first wait: the exit is still unread. */
  function ExitUnread(a: AttemptId): Session {
    Session(ResultThenExit(a), 1, [Invoke(a, 1)], Some(Armed(a, 1)), 1, 0, false, false, false)
  }

  lemma FirstWaitReadsTheResult(a: AttemptId)
    ensures
      var s := Session(ResultThenExit(a), 0, [Invoke(a, 1)], Some(Armed(a, 1)), 1, 0, false, false, false);
      After(s, WaitResult) == ExitUnread(a)
  {
    assert Ends(ForResult(Some(Armed(a, 1))), ResultThenExit(a)[0]);
  }

  lemma ExitStaysUnread(a: AttemptId)
    ensures Run(Fresh(1), FirstAttempt(a)) == ExitUnread(a)
  {
    var invoke := SendInvoke(a, 1, None, None);
    Appended(Fresh(1), [], invoke);
    assert [] + [invoke] == [invoke];
    Appended(Fresh(1), [invoke], Arrive(ResultThenExit(a)));
    Appended(Fresh(1), [invoke] + [Arrive(ResultThenExit(a))], WaitResult);
    assert [] + ResultThenExit(a) == ResultThenExit(a);
    FirstWaitReadsTheResult(a);
  }

  lemma UnreadExitIsReported(s: Session, a: AttemptId)
    requires s.stream == ResultThenExit(a) && s.read == 1 && !s.disconnected
    ensures Wait(s).outcome == GuestError(Crash(Some(1), None), "Runtime.Exited", ExitMessage(Some(1), None), None, None)
  {
    assert Ends(ForResult(s.lease), s.stream[1]);
  }

  /** Without the drain, the `Exited` a finished attempt left behind is reported as
      the crash of the next attempt, although the first wait left the session usable. */
  lemma WithoutDrainExitIsMisattributed(a: AttemptId, b: AttemptId)
    ensures
      var first := FirstAttempt(a);
      var second := first + [RearmFor(2)] + [SendInvoke(b, 2, None, None)];
      && Run(Fresh(1), first).IsUsable()
      && Wait(Run(Fresh(1), second)).outcome ==
           GuestError(Crash(Some(1), None), "Runtime.Exited", ExitMessage(Some(1), None), None, None)
  {
    ExitStaysUnread(a);
    Appended(Fresh(1), FirstAttempt(a), RearmFor(2));
    Appended(Fresh(1), FirstAttempt(a) + [RearmFor(2)], SendInvoke(b, 2, None, None));
    UnreadExitIsReported(Run(Fresh(1), FirstAttempt(a) + [RearmFor(2)] + [SendInvoke(b, 2, None, None)]), a);
  }

  lemma {:induction false} ArrivalsOnlyExtend(s: Session, calls: seq<Call>, i: nat, j: nat)
    requires s.Valid() && i <= j <= |calls|
    requires forall m :: i <= m < j ==> calls[m].Arrive?
    ensures
      var t := Before(s, calls, j);
      && t == Before(s, calls, i).(stream := t.stream)
      && Before(s, calls, i).stream <= t.stream
    decreases j
  {
    if i < j {
      ArrivalsOnlyExtend(s, calls, i, j - 1);
      NextCall(s, calls, j - 1);
    }
  }

  lemma {:induction false} StopsAtOrBefore(stream: seq<Item>, from: nat, reader: Reader, k: nat)
    requires from <= k < |stream| && Ends(reader, stream[k])
    ensures FirstStop(stream, from, reader) <= k
    decreases |stream| - from
  {
    if from < k && !Ends(reader, stream[from]) {
      StopsAtOrBefore(stream, from + 1, reader, k);
    }
  }

  /** An item left unread when the new attempt was invoked that the wait takes for an answer
      to it: an exit, an item that is no frame, or a result naming the new pair. */
  predicate Misleads(s: Session, k: nat)
    requires s.Valid()
  {
    s.read <= k < |s.stream| && Ends(ForResult(s.lease), s.stream[k])
  }

  /** Without a drain, exactly when an earlier attempt's leftovers settle the next one: the
      first wait after an invoke ends with an item that was there before it if and only if
      one of the unread leftovers misleads it. */
  lemma LeftoversSettleExactly(epoch: nat, calls: seq<Call>, i: nat, j: nat)
    requires i < j < |calls| && calls[j].WaitResult?
    requires Arms(Before(Fresh(epoch), calls, i), calls[i])
    requires forall m :: i < m < j ==> calls[m].Arrive?
    ensures
      var invoked := Before(Fresh(epoch), calls, i + 1);
      var s := Before(Fresh(epoch), calls, j);
      && !s.disconnected && s.lease == Some(Armed(calls[i].attempt, calls[i].atEpoch))
      && (WaitStop(s) < |invoked.stream| <==> exists k: nat :: Misleads(invoked, k))
      && (forall k: nat :: k == WaitStop(s) && Misleads(invoked, k) ==> Wait(s).outcome == OutcomeOf(invoked.stream[k]))
  {
    var invoked := Before(Fresh(epoch), calls, i + 1);
    var s := Before(Fresh(epoch), calls, j);
    NextCall(Fresh(epoch), calls, i);
    ArrivalsOnlyExtend(Fresh(epoch), calls, i + 1, j);
    if k: nat :| Misleads(invoked, k) {
      assert s.stream[k] == invoked.stream[k];
      StopsAtOrBefore(s.stream, s.read, ForResult(s.lease), k);
    }
    if WaitStop(s) < |invoked.stream| {
      assert s.stream[WaitStop(s)] == invoked.stream[WaitStop(s)];
      assert Misleads(invoked, WaitStop(s));
    }
  }

  // ---------------------------------------------------------------- conservation

  /** How many `wait_result` calls of the run ended with a frame of this kind. */
  function Reported(s: Session, calls: seq<Call>, kind: Kind): nat
    requires s.Valid()
  {
    if calls == [] then 0
    else
      var before := calls[..|calls| - 1];
      Reported(s, before, kind) +
      if calls[|calls| - 1].WaitResult? && EndsWith(Run(s, before), kind) then 1 else 0
  }

  /** Frames of one kind the session has consumed so far. */
  function Consumed(s: Session, kind: Kind): nat
    requires s.Valid()
  {
    Tally(kind, s.stream, 0, s.read)
  }

  lemma ReadingConserves(s: Session, k: nat, kind: Kind)
    requires s.Valid() && s.read <= k <= |s.stream|
    ensures Consumed(ReadThrough(s, k), kind) ==
      Consumed(s, kind) + Tally(kind, s.stream, s.read, k) +
      if k < |s.stream| && Is(kind, s.stream[k]) then 1 else 0
  {
    TallySplits(kind, s.stream, 0, s.read, k);
  }

  lemma CallConservesResults(s: Session, c: Call)
    requires s.Valid()
    ensures
      var t := After(s, c);
      Consumed(t, AResult) - Consumed(s, AResult) ==
      t.staleResults - s.staleResults + if c.WaitResult? && EndsWith(s, AResult) then 1 else 0
  {
    match c {
      case Arrive(items) =>
        TallyIgnoresArrivals(AResult, s.stream, items, 0, s.read);
      case WaitResult =>
        ReadingConserves(s, WaitStop(s), AResult);
      case DrainStale =>
        ReadingConserves(s, FirstStop(s.stream, s.read, ForNothing), AResult);
      case ProbeReady(nonce, write, arrivals) =>
        TallyIgnoresArrivals(AResult, s.stream, arrivals, 0, s.read);
        var t := s.(sent := s.sent + [Ping(nonce)], stream := s.stream + arrivals);
        ReadingConserves(t, FirstStop(t.stream, t.read, ForPong(nonce)), AResult);
      case _ =>
    }
  }

  /** Every `Response` and `Error` frame a run consumed was either the outcome of one
      `wait_result` or counted as stale, never both and never neither. */
  lemma {:induction false} EveryResultIsReportedOrStale(epoch: nat, calls: seq<Call>)
    ensures
      var t := Run(Fresh(epoch), calls);
      Consumed(t, AResult) == Reported(Fresh(epoch), calls, AResult) + t.staleResults
  {
    if calls != [] {
      var before := calls[..|calls| - 1];
      EveryResultIsReportedOrStale(epoch, before);
      CallConservesResults(Run(Fresh(epoch), before), calls[|calls| - 1]);
    }
  }

  lemma CallConservesExits(s: Session, c: Call)
    requires s.Valid()
    ensures
      var t := After(s, c);
      && (s.guestExited ==> t.guestExited)
      && Consumed(t, AnExit) - Consumed(s, AnExit) ==
         (if t.guestExited && !s.guestExited then 1 else 0) + if c.WaitResult? && EndsWith(s, AnExit) then 1 else 0
  {
    match c {
      case Arrive(items) =>
        TallyIgnoresArrivals(AnExit, s.stream, items, 0, s.read);
      case WaitResult =>
        ReadingConserves(s, WaitStop(s), AnExit);
        NoneBeforeStop(s.stream, s.read, ForResult(s.lease), WaitStop(s));
      case DrainStale =>
        var k := FirstStop(s.stream, s.read, ForNothing);
        ReadingConserves(s, k, AnExit);
        NoneBeforeStop(s.stream, s.read, ForNothing, k);
      case ProbeReady(nonce, write, arrivals) =>
        TallyIgnoresArrivals(AnExit, s.stream, arrivals, 0, s.read);
        var t := s.(sent := s.sent + [Ping(nonce)], stream := s.stream + arrivals);
        var k := FirstStop(t.stream, t.read, ForPong(nonce));
        ReadingConserves(t, k, AnExit);
        NoneBeforeStop(t.stream, t.read, ForPong(nonce), k);
      case _ =>
    }
  }

  /** `guest_exited` is set exactly when some consumed `Exited` was not the outcome of a
      `wait_result`: an exit that `wait_result` reports leaves no mark on the session. */
  lemma {:induction false} ExitIsMarkedExactlyWhenWaitDidNotReportIt(epoch: nat, calls: seq<Call>)
    ensures
      var t := Run(Fresh(epoch), calls);
      && (t.guestExited <==> Consumed(t, AnExit) > Reported(Fresh(epoch), calls, AnExit))
      && Consumed(t, AnExit) == Reported(Fresh(epoch), calls, AnExit) + if t.guestExited then 1 else 0
  {
    if calls != [] {
      var before := calls[..|calls| - 1];
      ExitIsMarkedExactlyWhenWaitDidNotReportIt(epoch, before);
      CallConservesExits(Run(Fresh(epoch), before), calls[|calls| - 1]);
    }
  }

  /** A wait reports the exit of the guest, and the session still passes for usable. */
  lemma ReportedExitLeavesTheSessionUsable(a: AttemptId)
    ensures
      var calls := [SendInvoke(a, 1, None, None)] + [Arrive([Frame(Exited(Some(1), None))])];
      && Wait(Run(Fresh(1), calls)).outcome ==
           GuestError(Crash(Some(1), None), "Runtime.Exited", ExitMessage(Some(1), None), None, None)
      && Run(Fresh(1), calls + [WaitResult]).IsUsable()
  {
    var calls := [SendInvoke(a, 1, None, None)] + [Arrive([Frame(Exited(Some(1), None))])];
    Appended(Fresh(1), [SendInvoke(a, 1, None, None)], Arrive([Frame(Exited(Some(1), None))]));
    assert Run(Fresh(1), calls).stream == [Frame(Exited(Some(1), None))];
    Appended(Fresh(1), calls, WaitResult);
  }

  // ---------------------------------------------------------------- unusable for good

  /** An unusable session stays unusable; a broken write side writes nothing more; a
      disconnected session neither reads nor writes and every wait ends disconnected. */
  lemma {:induction false} UnusableForever(s: Session, calls: seq<Call>)
    requires s.Valid() && !s.IsUsable()
    ensures
      var t := Run(s, calls);
      && !t.IsUsable()
      && (!s.Writable() ==> !t.Writable() && t.sent == s.sent)
      && (s.disconnected ==> t.disconnected && t.read == s.read && t.staleResults == s.staleResults
                             && Wait(t).outcome == DisconnectedOutcome)
  {
    if calls != [] {
      var before := calls[..|calls| - 1];
      UnusableForever(s, before);
      StaysUnusable(Run(s, before), calls[|calls| - 1]);
    }
  }

  lemma StaysUnusable(s: Session, c: Call)
    requires s.Valid() && !s.IsUsable()
    ensures
      var t := After(s, c);
      && !t.IsUsable()
      && (!s.Writable() ==> !t.Writable() && t.sent == s.sent)
      && (s.disconnected ==> t.disconnected && t.read == s.read && t.staleResults == s.staleResults)
  {
  }

  // ---------------------------------------------------------------- failed sends

  predicate OnlyReads(calls: seq<Call>) {
    forall i :: 0 <= i < |calls| ==> calls[i].Arrive? || calls[i].WaitResult?
  }

  /** Two sessions that a reader cannot tell apart. */
  predicate ReadAlike(s: Session, t: Session) {
    s.stream == t.stream && s.read == t.read && s.lease == t.lease && s.disconnected == t.disconnected
  }

  /** When the frame could not be encoded nothing changes. When it could not be written,
      the guest's frames are still read one after the other, with the outcomes a
      successful write would have had. */
  lemma {:induction false} FailedSendLosesNoFrame(s: Session, a: AttemptId, e: nat, error: ProtocolError, calls: seq<Call>)
    requires s.Valid() && OnlyReads(calls)
    ensures Send(s, a, e, Some(error), None).session == s
    ensures
      var written := Run(Send(s, a, e, None, None).session, calls);
      var failed := Run(Send(s, a, e, None, Some(error)).session, calls);
      ReadAlike(written, failed) && Wait(written).outcome == Wait(failed).outcome
  {
    if calls != [] {
      var before := calls[..|calls| - 1];
      FailedSendLosesNoFrame(s, a, e, error, before);
    }
  }

  // ---------------------------------------------------------------- what a probe proves

  /** A probe succeeds exactly when its own pong is readable before any exit, EOF or
      undecodable frame. */
  lemma ReadyExactly(s: Session, nonce: nat, write: Option<ProtocolError>, arrivals: seq<Item>)
    requires s.Valid()
    ensures
      Probe(s, nonce, write, arrivals).ready <==>
      && s.IsUsable() && write.None?
      && var stream := s.stream + arrivals;
         exists k :: s.read <= k < |stream| && stream[k] == Frame(Pong(nonce))
                     && forall i :: s.read <= i < k ==> stream[i].Frame? && !stream[i].message.Exited?
  {
    if s.IsUsable() && write.None? {
      var stream := s.stream + arrivals;
      var first := FirstStop(stream, s.read, ForPong(nonce));
      forall i | s.read <= i < first ensures !Ends(ForPong(nonce), stream[i]) {
        NothingEndsBeforeFirstStop(stream, s.read, ForPong(nonce), i);
      }
      if k :| s.read <= k < |stream| && stream[k] == Frame(Pong(nonce))
              && forall i :: s.read <= i < k ==> stream[i].Frame? && !stream[i].message.Exited? {
        assert Ends(ForPong(nonce), stream[k]);
        assert first <= k;
        assert first < k ==> Ends(ForPong(nonce), stream[first]);
      }
    }
  }

  ghost predicate Echoes(items: seq<Item>, sent: seq<HostMessage>) {
    forall n: nat :: Frame(Pong(n)) in items ==> Ping(n) in sent
  }

  /** The guest answers only pings it was sent, and never before. */
  ghost predicate HonestCall(s: Session, c: Call) {
    match c
    case Arrive(items) => Echoes(items, s.sent)
    case ProbeReady(nonce, _, arrivals) => Echoes(arrivals, s.sent + [Ping(nonce)])
    case _ => true
  }

  ghost predicate HonestGuest(s: Session, calls: seq<Call>)
    requires s.Valid()
  {
    forall i :: 0 <= i < |calls| ==> HonestCall(Before(s, calls, i), calls[i])
  }

  /** The nonces a shared counter hands out: later probes carry larger ones. */
  predicate CountedNonces(calls: seq<Call>) {
    forall i, j :: 0 <= i < j < |calls| && calls[i].ProbeReady? && calls[j].ProbeReady? ==> calls[i].nonce < calls[j].nonce
  }

  lemma CallKeepsEchoes(s: Session, c: Call)
    requires s.Valid() && HonestCall(s, c) && Echoes(s.stream, s.sent)
    ensures Echoes(After(s, c).stream, After(s, c).sent)
  {
    var t := After(s, c);
    forall n: nat | Frame(Pong(n)) in t.stream ensures Ping(n) in t.sent {
      CallIsForward(s, c);
      if Frame(Pong(n)) in s.stream {
        assert Ping(n) in s.sent;
      }
    }
  }

  lemma {:induction false} PongsEchoPings(epoch: nat, calls: seq<Call>, j: nat)
    requires j <= |calls| && HonestGuest(Fresh(epoch), calls)
    ensures Echoes(Before(Fresh(epoch), calls, j).stream, Before(Fresh(epoch), calls, j).sent)
    decreases j
  {
    if j > 0 {
      PongsEchoPings(epoch, calls, j - 1);
      NextCall(Fresh(epoch), calls, j - 1);
      CallKeepsEchoes(Before(Fresh(epoch), calls, j - 1), calls[j - 1]);
    }
  }

  lemma NewPingIsTheProbes(s: Session, c: Call, n: nat)
    requires s.Valid()
    requires Ping(n) in After(s, c).sent && Ping(n) !in s.sent
    ensures c.ProbeReady? && c.nonce == n
  {
  }

  lemma {:induction false} PingsComeFromProbes(epoch: nat, calls: seq<Call>, j: nat, n: nat)
    requires j <= |calls|
    requires Ping(n) in Before(Fresh(epoch), calls, j).sent
    ensures exists i :: 0 <= i < j && calls[i].ProbeReady? && calls[i].nonce == n
    decreases j
  {
    assert j > 0;
    NextCall(Fresh(epoch), calls, j - 1);
    if Ping(n) in Before(Fresh(epoch), calls, j - 1).sent {
      PingsComeFromProbes(epoch, calls, j - 1, n);
    } else {
      NewPingIsTheProbes(Before(Fresh(epoch), calls, j - 1), calls[j - 1], n);
    }
  }

  /** In a run with counted nonces and a guest that answers only what it was sent, a
      probe that succeeds consumed a pong the guest wrote after this probe's ping: no
      pong, log or result buffered before the probe can make it succeed. */
  lemma ReadyMeansAnsweredNow(epoch: nat, calls: seq<Call>, j: nat) returns (k: nat)
    requires j < |calls| && calls[j].ProbeReady?
    requires HonestGuest(Fresh(epoch), calls) && CountedNonces(calls)
    requires
      var s := Before(Fresh(epoch), calls, j);
      Probe(s, calls[j].nonce, calls[j].pingWrite, calls[j].arrivals).ready
    ensures
      var s := Before(Fresh(epoch), calls, j);
      var t := After(s, calls[j]);
      && k < |calls[j].arrivals| && calls[j].arrivals[k] == Frame(Pong(calls[j].nonce))
      && t.read == |s.stream| + k + 1
      && t.sent == s.sent + [Ping(calls[j].nonce)]
  {
    var s := Before(Fresh(epoch), calls, j);
    var nonce := calls[j].nonce;
    var stream := s.stream + calls[j].arrivals;
    var at := FirstStop(stream, s.read, ForPong(nonce));
    if at < |s.stream| {
      assert s.stream[at] == Frame(Pong(nonce));
      PongsEchoPings(epoch, calls, j);
      PingsComeFromProbes(epoch, calls, j, nonce);
      assert false;
    }
    k := at - |s.stream|;
  }
}
