/** Host side of the bridge protocol (crates/application/src/bridge_session.rs).

    The read side of the stream is the sequence of everything the guest ever
    wrote, plus how far the host has read. Reading takes the next item; when
    there is none the wait ends at its deadline. */
module BridgeSessionModel {
  import opened Prelude
  import opened Texts

  datatype GuestErrorKind =
    | Handler | Panic | Crash(exitCode: Option<int>, signal: Option<int>) | ProtocolViolation
    | ResponseTooLarge(sizeBytes: nat, maxBytes: nat)

  datatype GuestMessage =
    | Hello
    | Ready(initMs: nat)
    | InitError(errorType: string, message: string, exitCode: Option<int>)
    | Log(line: string)
    | Response(attemptId: AttemptId, epoch: nat, payload: string, handlerMs: Option<nat>)
    | Error(attemptId: AttemptId, epoch: nat, kind: GuestErrorKind, errorType: string, message: string,
            stackTrace: Option<string>, handlerMs: Option<nat>)
    | Exited(exitCode: Option<int>, signal: Option<int>)
    | Heartbeat
    | Pong(nonce: nat)
    | CheckpointWaiting
    | Reconnect
  {
    predicate IsResult() { Response? || Error? }
  }

  datatype HostMessage =
    | Invoke(attemptId: AttemptId, epoch: nat)
    | Ping(nonce: nat)
    | Cancel(attemptId: AttemptId)
    | Shutdown

  datatype ProtocolError = Io | TooLarge(size: nat) | Malformed

  datatype SessionError = Disconnected | Timeout | Protocol | FrameTooLarge(size: nat)

  function From(e: ProtocolError): SessionError {
    match e
    case Io => SessionError.Disconnected
    case TooLarge(size) => FrameTooLarge(size)
    case Malformed => Protocol
  }

  /** What one read of the stream yields. */
  datatype Item = Frame(message: GuestMessage) | Undecodable | Broken(error: ProtocolError) | Closed

  datatype Outcome =
    | ResponseOutcome(payload: string, guestHandlerMs: Option<nat>)
    | GuestError(kind: GuestErrorKind, errorType: string, message: string, stackTrace: Option<string>,
                 guestHandlerMs: Option<nat>)
    | DisconnectedOutcome
    | TimeoutOutcome

  datatype Armed = Armed(attempt: AttemptId, epoch: nat)

  datatype Session = Session(
    stream: seq<Item>, read: nat, sent: seq<HostMessage>, lease: Option<Armed>, epoch: nat,
    staleResults: nat, disconnected: bool, writeClosed: bool, guestExited: bool)
  {
    ghost predicate Valid() { read <= |stream| }

    predicate IsUsable() { !disconnected && !writeClosed && !guestExited }

    predicate Writable() { !disconnected && !writeClosed }
  }

  function Fresh(epoch: nat): Session {
    Session([], 0, [], None, epoch, 0, false, false, false)
  }

  // ---------------------------------------------------------------- reading up to a stop

  /** What a loop over the stream is waiting for. */
  datatype Reader = ForResult(lease: Option<Armed>) | ForNothing | ForPong(nonce: nat)

  predicate Matches(m: GuestMessage, lease: Option<Armed>) {
    m.IsResult() && lease == Some(Armed(m.attemptId, m.epoch))
  }

  /** The item ends the loop of `reader`. */
  predicate Ends(reader: Reader, item: Item) {
    || !item.Frame?
    || item.message.Exited?
    || (reader.ForResult? && Matches(item.message, reader.lease))
    || (reader.ForPong? && item.message == Pong(reader.nonce))
  }

  /** The first position at or after `from` that ends the loop; the end of the stream if there is none. */
  function FirstStop(stream: seq<Item>, from: nat, reader: Reader): (k: nat)
    requires from <= |stream|
    ensures from <= k <= |stream|
    ensures k < |stream| ==> Ends(reader, stream[k])
    decreases |stream| - from
  {
    if from == |stream| || Ends(reader, stream[from]) then from else FirstStop(stream, from + 1, reader)
  }

  lemma {:induction false} NothingEndsBeforeFirstStop(stream: seq<Item>, from: nat, reader: Reader, i: nat)
    requires from <= |stream|
    requires from <= i < FirstStop(stream, from, reader)
    ensures !Ends(reader, stream[i])
    decreases |stream| - from
  {
    if i > from {
      NothingEndsBeforeFirstStop(stream, from + 1, reader, i);
    }
  }

  datatype Kind = AResult | AnExit

  predicate Is(kind: Kind, item: Item) {
    item.Frame? && match kind case AResult => item.message.IsResult() case AnExit => item.message.Exited?
  }

  /** Items of one kind in `stream[from..till]`. */
  function Tally(kind: Kind, stream: seq<Item>, from: nat, till: nat): nat
    requires from <= till <= |stream|
    decreases till
  {
    if from == till then 0
    else Tally(kind, stream, from, till - 1) + if Is(kind, stream[till - 1]) then 1 else 0
  }

  function ShowOption(n: Option<int>): string {
    match n case None => "None" case Some(i) => "Some(" + ShowInt(i) + ")"
  }

  /** The message of an exit that ended a wait. */
  function ExitMessage(code: Option<int>, signal: Option<int>): string {
    "user process exited without a result (exit_code=" + ShowOption(code) + ", signal=" + ShowOption(signal) + ")"
  }

  function OutcomeOf(item: Item): Outcome
    requires item.Frame? ==> item.message.IsResult() || item.message.Exited?
  {
    if !item.Frame? then DisconnectedOutcome
    else
      match item.message
      case Response(_, _, payload, ms) => ResponseOutcome(payload, ms)
      case Error(_, _, kind, errorType, message, trace, ms) => GuestError(kind, errorType, message, trace, ms)
      case Exited(code, signal) => GuestError(Crash(code, signal), "Runtime.Exited", ExitMessage(code, signal), None, None)
  }

  // ---------------------------------------------------------------- operations

  /** The session once the items before `k` were read and, if there is one, the item at `k`. */
  function ReadThrough(s: Session, k: nat): Session
    requires s.read <= k <= |s.stream|
  {
    s.(read := if k < |s.stream| then k + 1 else k,
       disconnected := k < |s.stream| && !s.stream[k].Frame?,
       staleResults := s.staleResults + Tally(AResult, s.stream, s.read, k))
  }

  lemma EndsHere(stream: seq<Item>, at: nat, reader: Reader)
    requires at <= |stream|
    ensures at == |stream| || Ends(reader, stream[at]) ==> FirstStop(stream, at, reader) == at
  {
  }

  lemma PassesOver(stream: seq<Item>, from: nat, at: nat, reader: Reader)
    requires from <= at < |stream| && !Ends(reader, stream[at])
    ensures FirstStop(stream, at, reader) == FirstStop(stream, at + 1, reader)
    ensures Tally(AResult, stream, from, at + 1) == Tally(AResult, stream, from, at) + if Is(AResult, stream[at]) then 1 else 0
  {
  }

  datatype Waited = Waited(session: Session, outcome: Outcome)

  function Wait(s: Session): Waited
    requires s.Valid()
  {
    if s.disconnected then Waited(s, DisconnectedOutcome)
    else
      var k := FirstStop(s.stream, s.read, ForResult(s.lease));
      Waited(ReadThrough(s, k), if k < |s.stream| then OutcomeOf(s.stream[k]) else TimeoutOutcome)
  }

  predicate Exits(s: Session, k: nat)
    requires k <= |s.stream|
  {
    k < |s.stream| && s.stream[k].Frame? && s.stream[k].message.Exited?
  }

  datatype Drained = Drained(session: Session, frames: nat)

  function Drain(s: Session): Drained
    requires s.Valid()
  {
    if !s.IsUsable() then Drained(s, 0)
    else
      var k := FirstStop(s.stream, s.read, ForNothing);
      Drained(ReadThrough(s, k).(guestExited := Exits(s, k)), k - s.read + if Exits(s, k) then 1 else 0)
  }

  datatype Probed = Probed(session: Session, ready: bool)

  function AwaitPong(s: Session, nonce: nat): Probed
    requires s.Valid()
  {
    var k := FirstStop(s.stream, s.read, ForPong(nonce));
    Probed(ReadThrough(s, k).(guestExited := s.guestExited || Exits(s, k)),
           k < |s.stream| && s.stream[k] == Frame(Pong(nonce)))
  }

  /** `write` is the fate of the ping; `arrivals` is what the guest writes between
      the ping and the deadline. */
  function Probe(s: Session, nonce: nat, write: Option<ProtocolError>, arrivals: seq<Item>): Probed
    requires s.Valid()
  {
    if !s.IsUsable() then Probed(s, false)
    else if write.Some? then Probed(s.(writeClosed := true), false)
    else AwaitPong(s.(sent := s.sent + [Ping(nonce)], stream := s.stream + arrivals), nonce)
  }

  datatype Sent = Sent(session: Session, result: Result<(), SessionError>)

  /** `encode` and `write` are the fates of the frame. */
  function Send(s: Session, attempt: AttemptId, epoch: nat, encode: Option<ProtocolError>, write: Option<ProtocolError>): Sent {
    if !s.Writable() then Sent(s, Failure(SessionError.Disconnected))
    else if encode.Some? then Sent(s, Failure(From(encode.value)))
    else
      var t := s.(lease := Some(Armed(attempt, epoch)));
      if write.Some? then Sent(t.(writeClosed := true), Failure(From(write.value)))
      else Sent(t.(sent := t.sent + [Invoke(attempt, epoch)]), Success(()))
  }

  function Rearm(s: Session, epoch: nat): Session {
    s.(epoch := epoch, lease := None)
  }

  function ShutDown(s: Session, write: Option<ProtocolError>): Sent {
    if !s.Writable() then Sent(s.(disconnected := true), Failure(SessionError.Disconnected))
    else if write.Some? then Sent(s.(writeClosed := true, disconnected := true), Failure(From(write.value)))
    else Sent(s.(sent := s.sent + [HostMessage.Shutdown], disconnected := true), Success(()))
  }

  // ---------------------------------------------------------------- the object

  /** Source of the probe nonces of one process, shared by all its sessions. */
  class ProbeNonces {
    var next: nat

    constructor ()
      ensures next == 1
    {
      next := 1;
    }

    method FetchAdd() returns (nonce: nat)
      modifies this
      ensures nonce == old(next) && next == old(next) + 1
    {
      nonce := next;
      next := next + 1;
    }
  }

  class BridgeSession {
    var stream: seq<Item>
    var read: nat
    var sent: seq<HostMessage>
    var lease: Option<Armed>
    var epoch: nat
    var staleResults: nat
    var disconnected: bool
    var writeClosed: bool
    var guestExited: bool

    function Value(): Session
      reads this
    {
      Session(stream, read, sent, lease, epoch, staleResults, disconnected, writeClosed, guestExited)
    }

    constructor (epoch: nat)
      ensures Value() == Fresh(epoch)
    {
      stream, read, sent, lease, this.epoch := [], 0, [], None, epoch;
      staleResults, disconnected, writeClosed, guestExited := 0, false, false, false;
    }

    /** The guest writes: nothing but the stream changes. */
    method Arrive(items: seq<Item>)
      requires Value().Valid()
      modifies this`stream
      ensures Value() == old(Value()).(stream := old(stream) + items)
    {
      stream := stream + items;
    }

    method NextMessage() returns (r: Result<GuestMessage, SessionError>)
      requires Value().Valid()
      modifies this`read, this`disconnected
      ensures old(disconnected) ==> r == Failure(SessionError.Disconnected) && Value() == old(Value())
      ensures !old(disconnected) && old(read) == |stream| ==> r == Failure(SessionError.Timeout) && Value() == old(Value())
      ensures !old(disconnected) && old(read) < |stream| ==>
        && read == old(read) + 1
        && match stream[old(read)]
           case Frame(m) => r == Success(m) && !disconnected
           case Undecodable => r == Failure(Protocol) && disconnected
           case Broken(e) => r == Failure(From(e)) && disconnected
           case Closed => r == Failure(SessionError.Disconnected) && disconnected
    {
      if disconnected {
        return Failure(SessionError.Disconnected);
      }
      if read == |stream| {
        return Failure(SessionError.Timeout);
      }
      var item := stream[read];
      read := read + 1;
      match item {
        case Frame(m) =>
          return Success(m);
        case Undecodable =>
          disconnected := true;
          return Failure(Protocol);
        case Broken(e) =>
          disconnected := true;
          return Failure(From(e));
        case Closed =>
          disconnected := true;
          return Failure(SessionError.Disconnected);
      }
    }

    method Accepts(attempt: AttemptId, atEpoch: nat) returns (ok: bool)
      modifies this`staleResults
      ensures ok <==> lease == Some(Armed(attempt, atEpoch))
      ensures staleResults == old(staleResults) + if ok then 0 else 1
    {
      ok := lease.Some? && lease.value.attempt == attempt && lease.value.epoch == atEpoch;
      if !ok {
        staleResults := staleResults + 1;
      }
    }

    method WaitResult() returns (outcome: Outcome)
      requires Value().Valid()
      modifies this`read, this`disconnected, this`staleResults
      ensures Waited(Value(), outcome) == Wait(old(Value()))
    {
      ghost var from, reader := read, ForResult(lease);
      while true
        invariant from <= read <= |stream| && disconnected == old(disconnected)
        invariant disconnected ==> read == from
        invariant FirstStop(stream, from, reader) == FirstStop(stream, read, reader)
        invariant staleResults == old(staleResults) + Tally(AResult, stream, from, read)
        decreases |stream| - read
      {
        ghost var at := read;
        var next := NextMessage();
        if next.Failure? {
          EndsHere(stream, at, reader);
          return if next.error.Timeout? then TimeoutOutcome else DisconnectedOutcome;
        }
        var m := next.value;
        if m.IsResult() {
          var ok := Accepts(m.attemptId, m.epoch);
          if ok {
            EndsHere(stream, at, reader);
            return if m.Response? then ResponseOutcome(m.payload, m.handlerMs)
              else GuestError(m.kind, m.errorType, m.message, m.stackTrace, m.handlerMs);
          }
        } else if m.Exited? {
          EndsHere(stream, at, reader);
          return GuestError(Crash(m.exitCode, m.signal), "Runtime.Exited", ExitMessage(m.exitCode, m.signal), None, None);
        }
        PassesOver(stream, from, at, reader);
      }
    }

    method DrainStale() returns (drained: nat)
      requires Value().Valid()
      modifies this`read, this`disconnected, this`staleResults, this`guestExited
      ensures Drained(Value(), drained) == Drain(old(Value()))
    {
      ghost var from := read;
      drained := 0;
      while Value().IsUsable()
        invariant from <= read <= |stream| && drained == read - from
        invariant disconnected == old(disconnected) && guestExited == old(guestExited)
        invariant FirstStop(stream, from, ForNothing) == FirstStop(stream, read, ForNothing)
        invariant staleResults == old(staleResults) + Tally(AResult, stream, from, read)
        invariant !Value().IsUsable() ==> read == from
        decreases |stream| - read
      {
        ghost var at := read;
        var next := NextMessage();
        if next.Failure? {
          return;
        }
        drained := drained + 1;
        if next.value.Exited? {
          guestExited := true;
          return;
        }
        if next.value.IsResult() {
          staleResults := staleResults + 1;
        }
        PassesOver(stream, from, at, ForNothing);
      }
    }

    method ProbeReady(nonces: ProbeNonces, write: Option<ProtocolError>, arrivals: seq<Item>) returns (ready: bool)
      requires Value().Valid()
      modifies this, nonces
      ensures Probed(Value(), ready) == Probe(old(Value()), old(nonces.next), write, arrivals)
      ensures nonces.next == old(nonces.next) + if old(Value()).IsUsable() then 1 else 0
    {
      if !Value().IsUsable() {
        return false;
      }
      var nonce := nonces.FetchAdd();
      if write.Some? {
        writeClosed := true;
        return false;
      }
      sent := sent + [Ping(nonce)];
      stream := stream + arrivals;
      ready := WaitPong(nonce);
    }

    /** The loop of `probe_ready`. */
    method WaitPong(nonce: nat) returns (ready: bool)
      requires Value().Valid() && !disconnected
      modifies this`read, this`disconnected, this`staleResults, this`guestExited
      ensures Probed(Value(), ready) == AwaitPong(old(Value()), nonce)
    {
      ghost var from, reader := read, ForPong(nonce);
      while true
        invariant from <= read <= |stream| && !disconnected && guestExited == old(guestExited)
        invariant FirstStop(stream, from, reader) == FirstStop(stream, read, reader)
        invariant staleResults == old(staleResults) + Tally(AResult, stream, from, read)
        decreases |stream| - read
      {
        ghost var at := read;
        var next := NextMessage();
        if next.Failure? {
          return false;
        }
        if next.value == Pong(nonce) {
          return true;
        }
        if next.value.Exited? {
          guestExited := true;
          return false;
        }
        if next.value.IsResult() {
          staleResults := staleResults + 1;
        }
        PassesOver(stream, from, at, reader);
      }
    }

    method RearmFor(epoch: nat)
      modifies this`epoch, this`lease
      ensures Value() == Rearm(old(Value()), epoch)
    {
      this.epoch := epoch;
      lease := None;
    }

    method WriteFrame(message: HostMessage, write: Option<ProtocolError>) returns (r: Result<(), SessionError>)
      modifies this`sent, this`writeClosed
      ensures if !old(Value()).Writable() then r == Failure(SessionError.Disconnected) && Value() == old(Value())
              else if write.Some? then r == Failure(From(write.value)) && Value() == old(Value()).(writeClosed := true)
              else r == Success(()) && Value() == old(Value()).(sent := old(sent) + [message])
    {
      if disconnected || writeClosed {
        return Failure(SessionError.Disconnected);
      }
      if write.Some? {
        writeClosed := true;
        return Failure(From(write.value));
      }
      sent := sent + [message];
      return Success(());
    }

    method SendInvoke(attempt: AttemptId, epoch: nat, encode: Option<ProtocolError>, write: Option<ProtocolError>)
      returns (r: Result<(), SessionError>)
      modifies this`lease, this`sent, this`writeClosed
      ensures Sent(Value(), r) == Send(old(Value()), attempt, epoch, encode, write)
    {
      if disconnected || writeClosed {
        return Failure(SessionError.Disconnected);
      }
      if encode.Some? {
        return Failure(From(encode.value));
      }
      lease := Some(Armed(attempt, epoch));
      r := WriteFrame(Invoke(attempt, epoch), write);
    }

    method ShutdownWith(write: Option<ProtocolError>) returns (r: Result<(), SessionError>)
      modifies this`sent, this`writeClosed, this`disconnected
      ensures Sent(Value(), r) == ShutDown(old(Value()), write)
    {
      r := WriteFrame(HostMessage.Shutdown, write);
      disconnected := true;
    }
  }
}
