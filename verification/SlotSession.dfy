/** The session and the store together: what a guest frame may settle. */
module SlotSession {
  import opened Prelude
  import opened SlotStoreModel
  import B = BridgeSessionModel
  import S = SessionRuns
  import R = SlotRuns

  /** The completion is for the attempt and epoch a result frame names. */
  predicate BuiltFrom(c: SlotCompletion, frame: B.Item)
    requires B.Is(B.AResult, frame)
  {
    c.attempt.id == frame.message.attemptId && c.attempt.epoch == frame.message.epoch
  }

  /** In every run of a session and every run of the store: a completion built from the
      result frame that ended a wait is for the pair of the latest invoke on that session,
      and the store accepts it only under that attempt's own unreleased lease, at the epoch
      the environment still has, when no newer lease on the environment exists. */
  lemma FrameSettlesOnlyUnderItsLease(
      epoch: nat, calls: seq<S.Call>, j: nat, states: seq<Store>, steps: seq<R.Step>, maxBytes: nat, at: nat, c: SlotCompletion)
    returns (i: nat)
    requires j < |calls| && calls[j].WaitResult?
    requires S.EndsWith(S.Before(B.Fresh(epoch), calls, j), B.AResult)
    requires
      var s := S.Before(B.Fresh(epoch), calls, j);
      BuiltFrom(c, s.stream[S.WaitStop(s)])
    requires R.Execution(states, steps, maxBytes) && states[0] == R.EMPTY && at < |states|
    requires CompleteOutcome(states[at], c, maxBytes).Completed?
    ensures i < j && S.LastArmed(B.Fresh(epoch), calls, i, j, B.Armed(c.attempt.id, c.attempt.epoch))
    ensures c.attempt.id in states[at].attempts && R.HeldBy(states[at], c.leaseId, c.attempt.id)
    ensures
      var leases := states[at].leases;
      && leases[c.leaseId].epoch == c.attempt.epoch
      && forall l :: l in leases && leases[l].environmentId == leases[c.leaseId].environmentId ==>
           leases[l].epoch <= c.attempt.epoch
  {
    i := S.OutcomeBelongsToTheLastInvoke(epoch, calls, j);
    R.ReachableIsConsistent(states, steps, maxBytes, at);
    assert R.LeaseConsistent(states[at], c.leaseId);
    forall l | l in states[at].leases && states[at].leases[l].environmentId == states[at].leases[c.leaseId].environmentId
      ensures states[at].leases[l].epoch <= c.attempt.epoch
    {
      assert R.LeaseConsistent(states[at], l);
    }
  }

  // ---------------------------------------------------------------- joint runs

  /** One event of a host that serves an environment: a call of its session, or a write of the store. */
  datatype Event = OnSession(call: S.Call) | OnStore(step: R.Step)

  /** The session of the environment before event `k`. */
  function SessionAt(epoch: nat, events: seq<Event>, k: nat): (s: B.Session)
    requires k <= |events|
    ensures s.Valid()
  {
    if k == 0 then B.Fresh(epoch)
    else if events[k - 1].OnSession? then S.After(SessionAt(epoch, events, k - 1), events[k - 1].call)
    else SessionAt(epoch, events, k - 1)
  }

  /** The session and the store in one run; any dispatcher may write to the store in between. */
  ghost predicate JointRun(events: seq<Event>, stores: seq<Store>, maxBytes: nat) {
    && |stores| == |events| + 1 && stores[0] == R.EMPTY
    && forall k :: 0 <= k < |events| ==>
         if events[k].OnStore? then R.Next(stores[k], events[k].step, stores[k + 1], maxBytes) else stores[k + 1] == stores[k]
  }

  /** The event is a `send_invoke` that arms the session. */
  predicate Invokes(epoch: nat, events: seq<Event>, k: nat)
    requires k < |events|
  {
    events[k].OnSession? && S.Arms(SessionAt(epoch, events, k), events[k].call)
  }

  /** The store holds the lease of this assignment. */
  ghost predicate Leased(s: Store, env: EnvironmentId, attempt: AttemptId, epoch: nat) {
    exists l :: l in s.leases && s.leases[l].environmentId == env
                && s.leases[l].attemptId == attempt && s.leases[l].epoch == epoch
  }

  /** The assignment invoked at `i` drained the session at `d`, which stayed usable, and
      rearmed it at `r`; nothing was invoked in between. */
  ghost predicate PreparedBy(epoch: nat, events: seq<Event>, d: nat, r: nat, i: nat)
    requires i < |events| && Invokes(epoch, events, i)
  {
    && d < r < i
    && events[d] == OnSession(S.DrainStale) && SessionAt(epoch, events, d + 1).IsUsable()
    && events[r] == OnSession(S.RearmFor(events[i].call.atEpoch))
    && forall k :: d < k < i ==> !Invokes(epoch, events, k)
  }

  /** The first assignment of the session, or one that drained and rearmed it. */
  ghost predicate Prepared(epoch: nat, events: seq<Event>, i: nat)
    requires i < |events| && Invokes(epoch, events, i)
  {
    (forall k :: 0 <= k < i ==> !Invokes(epoch, events, k)) || exists d, r :: PreparedBy(epoch, events, d, r, i)
  }

  /** How an attempt is run: the slot is acquired first, a reused session is drained and
      rearmed, and only then is the attempt invoked. */
  ghost predicate Disciplined(epoch: nat, env: EnvironmentId, events: seq<Event>, stores: seq<Store>)
    requires |stores| == |events| + 1
  {
    forall i :: 0 <= i < |events| && Invokes(epoch, events, i) ==>
      Prepared(epoch, events, i) && Leased(stores[i], env, events[i].call.attempt, events[i].call.atEpoch)
  }

  lemma {:induction false} JointIsForward(events: seq<Event>, stores: seq<Store>, maxBytes: nat, from: nat, till: nat)
    requires JointRun(events, stores, maxBytes) && from <= till < |stores| && R.Consistent(stores[from])
    ensures R.Forward(stores[from], stores[till])
    decreases till
  {
    if from < till {
      JointIsForward(events, stores, maxBytes, from, till - 1);
      JointStepIsForward(events, stores, maxBytes, till - 1);
      R.LaterIsTransitive(stores[from], stores[till - 1], stores[till]);
    } else {
      R.LaterIsReflexive(stores[from]);
    }
  }

  lemma JointStepIsForward(events: seq<Event>, stores: seq<Store>, maxBytes: nat, k: nat)
    requires JointRun(events, stores, maxBytes) && k < |events| && R.Consistent(stores[k])
    ensures R.Forward(stores[k], stores[k + 1])
  {
    if events[k].OnStore? {
      R.StepIsForward(stores[k], events[k].step, stores[k + 1], maxBytes);
    } else {
      R.LaterIsReflexive(stores[k]);
    }
  }

  lemma JointIsConsistent(events: seq<Event>, stores: seq<Store>, maxBytes: nat, at: nat)
    requires JointRun(events, stores, maxBytes) && at < |stores|
    ensures R.Consistent(stores[at])
  {
    JointIsForward(events, stores, maxBytes, 0, at);
  }

  lemma {:induction false} SessionIsForward(epoch: nat, events: seq<Event>, from: nat, till: nat)
    requires from <= till <= |events|
    ensures S.Forward(SessionAt(epoch, events, from), SessionAt(epoch, events, till))
    decreases till
  {
    if from < till {
      SessionIsForward(epoch, events, from, till - 1);
      if events[till - 1].OnSession? {
        S.CallIsForward(SessionAt(epoch, events, till - 1), events[till - 1].call);
      }
    }
  }

  /** The invoke at `i` armed the session with this pair, and nothing armed or disarmed it
      again before `w`. */
  ghost predicate ArmedSince(epoch: nat, events: seq<Event>, i: nat, w: nat, armed: B.Armed)
    requires i < w <= |events|
  {
    && Invokes(epoch, events, i) && armed == B.Armed(events[i].call.attempt, events[i].call.atEpoch)
    && forall k :: i < k < w ==> !Invokes(epoch, events, k) && !(events[k].OnSession? && events[k].call.RearmFor?)
  }

  lemma StillArmed(epoch: nat, events: seq<Event>, i: nat, w: nat, armed: B.Armed)
    requires i < w < |events| && ArmedSince(epoch, events, i, w, armed)
    requires !Invokes(epoch, events, w) && !(events[w].OnSession? && events[w].call.RearmFor?)
    ensures ArmedSince(epoch, events, i, w + 1, armed)
  {
  }

  lemma {:induction false} LastInvoke(epoch: nat, events: seq<Event>, w: nat) returns (i: nat)
    requires w <= |events| && SessionAt(epoch, events, w).lease.Some?
    ensures i < w && ArmedSince(epoch, events, i, w, SessionAt(epoch, events, w).lease.value)
    decreases w
  {
    assert w > 0;
    var last := w - 1;
    if events[last].OnSession? {
      S.LeaseAfter(SessionAt(epoch, events, last), events[last].call);
    }
    if Invokes(epoch, events, last) {
      i := last;
    } else {
      i := LastInvoke(epoch, events, last);
      StillArmed(epoch, events, i, last, SessionAt(epoch, events, w).lease.value);
    }
  }

  /** What a usable drain had before it is never read again. */
  lemma DrainedIsBehind(epoch: nat, events: seq<Event>, d: nat, w: nat)
    requires d < w < |events| && events[d] == OnSession(S.DrainStale) && SessionAt(epoch, events, d + 1).IsUsable()
    ensures |SessionAt(epoch, events, d).stream| <= S.WaitStop(SessionAt(epoch, events, w))
  {
    S.UsableDrainReadsEverything(SessionAt(epoch, events, d));
    SessionIsForward(epoch, events, d + 1, w);
  }

  /** The host settles the attempt it invoked, whatever ended the wait: a result, an exit, the
      end of the stream or the deadline. */
  predicate BuiltAt(epoch: nat, events: seq<Event>, w: nat, c: SlotCompletion)
    requires w < |events|
  {
    && events[w] == OnSession(S.WaitResult)
    && SessionAt(epoch, events, w).lease == Some(B.Armed(c.attempt.id, c.attempt.epoch))
  }

  /** The lease an accepted completion releases is the one its attempt was invoked under. */
  lemma LeaseOfTheInvoke(s: Store, t: Store, env: EnvironmentId, c: SlotCompletion, maxBytes: nat)
    requires R.Consistent(t) && R.LeasesLater(s.leases, t.leases) && Leased(s, env, c.attempt.id, c.attempt.epoch)
    requires CompleteOutcome(t, c, maxBytes).Completed?
    ensures c.leaseId in s.leases && s.leases[c.leaseId].environmentId == env
  {
    var l :| l in s.leases && s.leases[l].environmentId == env
      && s.leases[l].attemptId == c.attempt.id && s.leases[l].epoch == c.attempt.epoch;
    assert R.Ages(s.leases[l], t.leases[l]);
    assert R.LeaseConsistent(t, l) && R.LeaseConsistent(t, c.leaseId);
    assert l == c.leaseId;
  }

  lemma CompletedUnderItsLease(s: Store, c: SlotCompletion, maxBytes: nat)
    requires R.Consistent(s) && CompleteOutcome(s, c, maxBytes).Completed?
    ensures c.attempt.id in s.attempts && R.HeldBy(s, c.leaseId, c.attempt.id)
  {
    assert R.LeaseConsistent(s, c.leaseId);
  }

  /** Drain, store and session together: an accepted completion, whatever outcome it was built
      from, is for the attempt invoked last, under the lease that was held when it was invoked,
      and the item that ended the wait, if any did, arrived after the drain of that very
      assignment, unless it is the first one of the session. */
  lemma CompletionRestsOnItsOwnAssignment(
      epoch: nat, env: EnvironmentId, events: seq<Event>, stores: seq<Store>, maxBytes: nat, w: nat, m: nat, c: SlotCompletion)
    returns (i: nat)
    requires JointRun(events, stores, maxBytes) && Disciplined(epoch, env, events, stores)
    requires w < m < |events| && BuiltAt(epoch, events, w, c) && events[m] == OnStore(R.Complete(c))
    requires CompleteOutcome(stores[m], c, maxBytes).Completed?
    ensures i < w && ArmedSince(epoch, events, i, w, B.Armed(c.attempt.id, c.attempt.epoch))
    ensures c.leaseId in stores[i].leases && stores[i].leases[c.leaseId].environmentId == env
    ensures c.attempt.id in stores[m].attempts && R.HeldBy(stores[m], c.leaseId, c.attempt.id)
    ensures
      || (forall k :: 0 <= k < i ==> !Invokes(epoch, events, k))
      || exists d, r :: PreparedBy(epoch, events, d, r, i)
                        && |SessionAt(epoch, events, d).stream| <= S.WaitStop(SessionAt(epoch, events, w))
  {
    i := LastInvoke(epoch, events, w);
    JointIsConsistent(events, stores, maxBytes, i);
    JointIsForward(events, stores, maxBytes, i, m);
    LeaseOfTheInvoke(stores[i], stores[m], env, c, maxBytes);
    CompletedUnderItsLease(stores[m], c, maxBytes);
    assert Prepared(epoch, events, i);
    if !(forall k :: 0 <= k < i ==> !Invokes(epoch, events, k)) {
      var d, r :| PreparedBy(epoch, events, d, r, i);
      DrainedIsBehind(epoch, events, d, w);
    }
  }

  lemma NewerLeaseFences(s: Store, env: EnvironmentId, attempt: AttemptId, epoch: nat, c: SlotCompletion, maxBytes: nat)
    requires R.Consistent(s) && Leased(s, env, attempt, epoch) && c.attempt.epoch < epoch
    requires c.leaseId in s.leases ==> s.leases[c.leaseId].environmentId == env
    ensures CompleteOutcome(s, c, maxBytes) == Stale && AfterComplete(s, c, maxBytes) == s
  {
    if c.leaseId in s.leases && s.leases[c.leaseId].epoch < epoch {
      var l :| l in s.leases && s.leases[l].environmentId == env && s.leases[l].attemptId == attempt && s.leases[l].epoch == epoch;
      R.NewerAssignmentFencesOlder(s, c, l, maxBytes);
    }
  }

  lemma LeasedStays(s: Store, t: Store, env: EnvironmentId, attempt: AttemptId, epoch: nat)
    requires Leased(s, env, attempt, epoch) && R.LeasesLater(s.leases, t.leases)
    ensures Leased(t, env, attempt, epoch)
  {
    var l :| l in s.leases && s.leases[l].environmentId == env && s.leases[l].attemptId == attempt && s.leases[l].epoch == epoch;
    assert R.Ages(s.leases[l], t.leases[l]);
  }

  lemma LeasedSinceTheInvoke(epoch: nat, env: EnvironmentId, events: seq<Event>, stores: seq<Store>, maxBytes: nat, w: nat, m: nat)
    requires JointRun(events, stores, maxBytes) && Disciplined(epoch, env, events, stores)
    requires w <= |events| && w <= m < |stores| && SessionAt(epoch, events, w).lease.Some?
    ensures
      var armed := SessionAt(epoch, events, w).lease.value;
      R.Consistent(stores[m]) && Leased(stores[m], env, armed.attempt, armed.epoch)
  {
    var armed := SessionAt(epoch, events, w).lease.value;
    var i := LastInvoke(epoch, events, w);
    JointIsConsistent(events, stores, maxBytes, i);
    JointIsForward(events, stores, maxBytes, i, m);
    LeasedStays(stores[i], stores[m], env, armed.attempt, armed.epoch);
  }

  /** A result frame of an earlier assignment settles nothing on either side: once a later
      attempt is armed, no wait ends with it, and a completion built from it for this
      environment is stale in every later store. */
  lemma LateFrameIsStale(epoch: nat, env: EnvironmentId, events: seq<Event>, stores: seq<Store>, maxBytes: nat, w: nat, m: nat,
                         frame: B.Item, c: SlotCompletion)
    requires JointRun(events, stores, maxBytes) && Disciplined(epoch, env, events, stores)
    requires w <= m < |stores| && w <= |events| && SessionAt(epoch, events, w).lease.Some?
    requires B.Is(B.AResult, frame) && frame.message.epoch < SessionAt(epoch, events, w).lease.value.epoch
    requires BuiltFrom(c, frame) && (c.leaseId in stores[m].leases ==> stores[m].leases[c.leaseId].environmentId == env)
    ensures !B.Ends(B.ForResult(SessionAt(epoch, events, w).lease), frame)
    ensures CompleteOutcome(stores[m], c, maxBytes) == Stale && AfterComplete(stores[m], c, maxBytes) == stores[m]
  {
    var armed := SessionAt(epoch, events, w).lease.value;
    LeasedSinceTheInvoke(epoch, env, events, stores, maxBytes, w, m);
    NewerLeaseFences(stores[m], env, armed.attempt, armed.epoch, c, maxBytes);
  }
}
