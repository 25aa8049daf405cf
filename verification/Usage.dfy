/** The de-duplicating usage sink (crates/application/src/local_ports.rs,
    crates/domain/src/usage.rs). */
module UsageModel {
  import opened Prelude

  datatype EventType = EnvironmentStarted | HandlerStarted | HandlerFinished | AttemptSettled | EnvironmentStopped

  datatype UsageEvent = UsageEvent(
    eventId: string, environment: string, invocation: Option<InvocationId>, eventType: EventType,
    duration: Option<nat>, bytesIn: nat, bytesOut: nat)

  datatype UsageTotals = UsageTotals(handlerMs: nat, environmentMs: nat, bytesIn: nat, bytesOut: nat, events: nat) {
    function Plus(o: UsageTotals): UsageTotals {
      UsageTotals(handlerMs + o.handlerMs, environmentMs + o.environmentMs, bytesIn + o.bytesIn,
                  bytesOut + o.bytesOut, events + o.events)
    }
  }

  const NOTHING := UsageTotals(0, 0, 0, 0, 0)

  // ---------------------------------------------------------------- totals

  /** What one event adds to the totals of the wanted invocations. */
  function Share(e: UsageEvent, wanted: set<InvocationId>): UsageTotals {
    if e.invocation.None? || e.invocation.value !in wanted then NOTHING
    else
      var ms := if e.duration.Some? then e.duration.value else 0;
      match e.eventType
      case HandlerFinished => UsageTotals(ms, 0, e.bytesIn, e.bytesOut, 1)
      case EnvironmentStopped => UsageTotals(0, ms, 0, 0, 1)
      case _ => UsageTotals(0, 0, 0, 0, 1)
  }

  function Totals(events: seq<UsageEvent>, wanted: set<InvocationId>): UsageTotals {
    if events == [] then NOTHING
    else Totals(events[..|events| - 1], wanted).Plus(Share(events[|events| - 1], wanted))
  }

  /** The events of one kind that count for the wanted invocations. */
  predicate CountsAs(e: UsageEvent, kind: EventType, wanted: set<InvocationId>) {
    e.invocation.Some? && e.invocation.value in wanted && e.eventType == kind
  }

  function Milliseconds(events: seq<UsageEvent>, kind: EventType, wanted: set<InvocationId>): nat {
    if events == [] then 0
    else
      var e := events[|events| - 1];
      Milliseconds(events[..|events| - 1], kind, wanted) +
      if CountsAs(e, kind, wanted) && e.duration.Some? then e.duration.value else 0
  }

  function Bytes(events: seq<UsageEvent>, inbound: bool, wanted: set<InvocationId>): nat {
    if events == [] then 0
    else
      var e := events[|events| - 1];
      Bytes(events[..|events| - 1], inbound, wanted) +
      if CountsAs(e, HandlerFinished, wanted) then (if inbound then e.bytesIn else e.bytesOut) else 0
  }

  function Wanted(events: seq<UsageEvent>, wanted: set<InvocationId>): nat {
    if events == [] then 0
    else
      var e := events[|events| - 1];
      Wanted(events[..|events| - 1], wanted) + if e.invocation.Some? && e.invocation.value in wanted then 1 else 0
  }

  /** Which fact adds to which total: finished handlers their time and bytes, stopped
      environments theirs, and every wanted event to the count. */
  lemma {:induction false} TotalsByField(events: seq<UsageEvent>, wanted: set<InvocationId>)
    ensures
      var t := Totals(events, wanted);
      && t.handlerMs == Milliseconds(events, HandlerFinished, wanted)
      && t.environmentMs == Milliseconds(events, EnvironmentStopped, wanted)
      && t.bytesIn == Bytes(events, true, wanted) && t.bytesOut == Bytes(events, false, wanted)
      && t.events == Wanted(events, wanted)
  {
    if events != [] {
      TotalsByField(events[..|events| - 1], wanted);
    }
  }

  lemma DropThenInit<T>(s: seq<T>, i: nat)
    requires i < |s| - 1
    ensures
      var rest := s[..i] + s[i + 1..];
      && rest[..|rest| - 1] == s[..|s| - 1][..i] + s[..|s| - 1][i + 1..]
      && rest[|rest| - 1] == s[|s| - 1]
  {
  }

  lemma {:induction false} TotalsWithout(events: seq<UsageEvent>, i: nat, wanted: set<InvocationId>)
    requires i < |events|
    ensures Totals(events, wanted) == Totals(events[..i] + events[i + 1..], wanted).Plus(Share(events[i], wanted))
  {
    var n := |events| - 1;
    if i == n {
      assert events[..i] + events[i + 1..] == events[..n];
    } else {
      TotalsWithout(events[..n], i, wanted);
      DropThenInit(events, i);
    }
  }

  lemma Removed<T>(s: seq<T>, i: nat)
    requires i < |s|
    ensures multiset(s) == multiset(s[..i] + s[i + 1..]) + multiset{s[i]}
  {
    assert s == s[..i] + ([s[i]] + s[i + 1..]);
  }

  lemma RemovedLast<T>(s: seq<T>)
    requires s != []
    ensures multiset(s) == multiset(s[..|s| - 1]) + multiset{s[|s| - 1]}
  {
    assert s == s[..|s| - 1] + [s[|s| - 1]];
  }

  /** Totals do not depend on the order of the events. */
  lemma {:induction false} TotalsOfSameEvents(a: seq<UsageEvent>, b: seq<UsageEvent>, wanted: set<InvocationId>)
    requires multiset(a) == multiset(b)
    ensures Totals(a, wanted) == Totals(b, wanted)
    decreases |a|
  {
    if a == [] {
      assert |multiset(b)| == 0;
    } else {
      var last := a[|a| - 1];
      RemovedLast(a);
      assert last in multiset(b);
      var i :| 0 <= i < |b| && b[i] == last;
      Removed(b, i);
      SameRest(multiset(a[..|a| - 1]), multiset(b[..i] + b[i + 1..]), last);
      TotalsOfSameEvents(a[..|a| - 1], b[..i] + b[i + 1..], wanted);
      TotalsWithout(b, i, wanted);
    }
  }

  lemma SameRest<T>(a: multiset<T>, b: multiset<T>, x: T)
    requires a + multiset{x} == b + multiset{x}
    ensures a == b
  {
    assert a == (a + multiset{x}) - multiset{x};
    assert b == (b + multiset{x}) - multiset{x};
  }

  // ---------------------------------------------------------------- first arrivals

  predicate HasId(events: seq<UsageEvent>, id: string) {
    exists i :: 0 <= i < |events| && events[i].eventId == id
  }

  /** The events whose id no earlier event carries. */
  function First(arrivals: seq<UsageEvent>): seq<UsageEvent> {
    if arrivals == [] then []
    else
      var before, last := arrivals[..|arrivals| - 1], arrivals[|arrivals| - 1];
      if HasId(before, last.eventId) then First(before) else First(before) + [last]
  }

  predicate DistinctIds(events: seq<UsageEvent>) {
    forall i, j :: 0 <= i < j < |events| ==> events[i].eventId != events[j].eventId
  }

  /** Equal ids mean equal events, as re-sent facts have. */
  predicate Consistent(arrivals: seq<UsageEvent>) {
    forall i, j :: 0 <= i < j < |arrivals| && arrivals[i].eventId == arrivals[j].eventId ==> arrivals[i] == arrivals[j]
  }

  lemma {:induction false} FirstHasTheIds(arrivals: seq<UsageEvent>, id: string)
    ensures HasId(First(arrivals), id) <==> HasId(arrivals, id)
  {
    if arrivals != [] {
      var before, last := arrivals[..|arrivals| - 1], arrivals[|arrivals| - 1];
      FirstHasTheIds(before, id);
      OneMoreArrival(before, last);
      OneMoreArrival(First(before), last);
      assert before + [last] == arrivals;
    }
  }

  lemma {:induction false} FirstIsDistinct(arrivals: seq<UsageEvent>)
    ensures DistinctIds(First(arrivals))
  {
    if arrivals != [] {
      var before, last := arrivals[..|arrivals| - 1], arrivals[|arrivals| - 1];
      FirstIsDistinct(before);
      FirstHasTheIds(before, last.eventId);
    }
  }

  /** The stored event of an id is the one that arrived first. */
  lemma {:induction false} FirstIsTheEarliest(arrivals: seq<UsageEvent>, i: nat)
    requires i < |arrivals| && !HasId(arrivals[..i], arrivals[i].eventId)
    ensures arrivals[i] in First(arrivals)
  {
    var n := |arrivals| - 1;
    if i < n {
      assert arrivals[..n][..i] == arrivals[..i];
      FirstIsTheEarliest(arrivals[..n], i);
    }
  }

  lemma {:induction false} FirstArrived(arrivals: seq<UsageEvent>, e: UsageEvent)
    requires e in First(arrivals)
    ensures e in arrivals
  {
    var before := arrivals[..|arrivals| - 1];
    if e in First(before) {
      FirstArrived(before, e);
    }
  }

  lemma OneMoreArrival(arrivals: seq<UsageEvent>, e: UsageEvent)
    ensures forall id :: HasId(arrivals + [e], id) <==> HasId(arrivals, id) || id == e.eventId
  {
    var more := arrivals + [e];
    forall id ensures HasId(more, id) <==> HasId(arrivals, id) || id == e.eventId {
      assert forall i :: 0 <= i < |arrivals| ==> more[i] == arrivals[i];
      assert more[|arrivals|] == e;
    }
  }

  lemma {:induction false} EarliestOf(arrivals: seq<UsageEvent>, id: string) returns (i: nat)
    requires HasId(arrivals, id)
    ensures i < |arrivals| && arrivals[i].eventId == id && !HasId(arrivals[..i], id)
  {
    var n := |arrivals| - 1;
    OneMoreArrival(arrivals[..n], arrivals[n]);
    assert arrivals[..n] + [arrivals[n]] == arrivals;
    if HasId(arrivals[..n], id) {
      i := EarliestOf(arrivals[..n], id);
      assert arrivals[..n][..i] == arrivals[..i];
    } else {
      i := n;
    }
  }

  lemma FirstOfConsistent(arrivals: seq<UsageEvent>, e: UsageEvent)
    requires Consistent(arrivals)
    ensures e in First(arrivals) <==> e in arrivals
  {
    if e in First(arrivals) {
      FirstArrived(arrivals, e);
    }
    if e in arrivals {
      var k :| 0 <= k < |arrivals| && arrivals[k] == e;
      var i := EarliestOf(arrivals, e.eventId);
      assert arrivals[i] == arrivals[k];
      FirstIsTheEarliest(arrivals, i);
    }
  }

  lemma {:induction false} DistinctOccurOnce(events: seq<UsageEvent>, e: UsageEvent)
    requires DistinctIds(events)
    ensures multiset(events)[e] == if e in events then 1 else 0
  {
    if events != [] {
      var before, last := events[..|events| - 1], events[|events| - 1];
      DistinctOccurOnce(before, e);
      assert events == before + [last];
      if e == last {
        forall k | 0 <= k < |before| ensures before[k] != e {
          assert before[k] == events[k];
        }
      }
    }
  }

  /** At least once becomes exactly once: whatever the order and however often facts are
      sent again, the totals are those of the distinct facts. */
  lemma TotalsIgnoreOrderAndResends(a: seq<UsageEvent>, b: seq<UsageEvent>, wanted: set<InvocationId>)
    requires Consistent(a) && Consistent(b) && forall e :: e in a <==> e in b
    ensures Totals(First(a), wanted) == Totals(First(b), wanted)
  {
    FirstIsDistinct(a);
    FirstIsDistinct(b);
    forall e: UsageEvent ensures multiset(First(a))[e] == multiset(First(b))[e] {
      FirstOfConsistent(a, e);
      FirstOfConsistent(b, e);
      DistinctOccurOnce(First(a), e);
      DistinctOccurOnce(First(b), e);
    }
    assert multiset(First(a)) == multiset(First(b));
    TotalsOfSameEvents(First(a), First(b), wanted);
  }

  // ---------------------------------------------------------------- competing stops

  const STOPPED_SUFFIX := ":environment-stopped"

  function StoppedEventId(environment: string): string {
    environment + STOPPED_SUFFIX
  }

  /** Where the suffix starts is where the environment's name ends. */
  lemma StoppedEventIdShows(environment: string)
    ensures StoppedEventId(environment)[..|environment|] == environment
    ensures StoppedEventId(environment)[|environment|..] == ":environment-stopped"
  {
  }

  lemma StoppedEventIdIsInjective(a: string, b: string)
    ensures StoppedEventId(a) == StoppedEventId(b) <==> a == b
  {
    if StoppedEventId(a) == StoppedEventId(b) {
      assert |a| == |b|;
      assert StoppedEventId(a)[..|a|] == a && StoppedEventId(b)[..|b|] == b;
    }
  }

  /** Every emitter of a stop uses the one id of the environment. */
  predicate StopsAreNamed(arrivals: seq<UsageEvent>) {
    forall i :: 0 <= i < |arrivals| && arrivals[i].eventType.EnvironmentStopped? ==>
      arrivals[i].eventId == StoppedEventId(arrivals[i].environment)
  }

  function Stops(events: seq<UsageEvent>, environment: string): seq<UsageEvent> {
    if events == [] then []
    else
      var before, last := events[..|events| - 1], events[|events| - 1];
      Stops(before, environment) +
      if last.eventType.EnvironmentStopped? && last.environment == environment then [last] else []
  }

  lemma {:induction false} StopsHave(events: seq<UsageEvent>, environment: string, e: UsageEvent)
    ensures e in Stops(events, environment) <==>
      e in events && e.eventType.EnvironmentStopped? && e.environment == environment
  {
    if events != [] {
      StopsHave(events[..|events| - 1], environment, e);
      assert events == events[..|events| - 1] + [events[|events| - 1]];
    }
  }

  lemma {:induction false} NoStops(events: seq<UsageEvent>, environment: string)
    requires forall k :: 0 <= k < |events| ==> !(events[k].eventType.EnvironmentStopped? && events[k].environment == environment)
    ensures Stops(events, environment) == []
  {
    if events != [] {
      NoStops(events[..|events| - 1], environment);
    }
  }

  lemma {:induction false} StopOfDistinct(events: seq<UsageEvent>, environment: string)
    requires DistinctIds(events) && StopsAreNamed(events)
    ensures |Stops(events, environment)| <= 1
  {
    if events != [] {
      var before, last := events[..|events| - 1], events[|events| - 1];
      StopOfDistinct(before, environment);
      if last.eventType.EnvironmentStopped? && last.environment == environment {
        forall k | 0 <= k < |before|
          ensures !(before[k].eventType.EnvironmentStopped? && before[k].environment == environment)
        {
          assert before[k] == events[k];
        }
        NoStops(before, environment);
      }
    }
  }

  lemma {:induction false} FirstStaysNamed(arrivals: seq<UsageEvent>)
    requires StopsAreNamed(arrivals)
    ensures StopsAreNamed(First(arrivals))
  {
    if arrivals != [] {
      FirstStaysNamed(arrivals[..|arrivals| - 1]);
    }
  }

  lemma OnlyStop(events: seq<UsageEvent>, e: UsageEvent)
    requires DistinctIds(events) && StopsAreNamed(events)
    requires e in events && e.eventType.EnvironmentStopped?
    ensures Stops(events, e.environment) == [e]
  {
    StopOfDistinct(events, e.environment);
    StopsHave(events, e.environment, e);
  }

  /** Competing stops of one environment count once, as the one that arrived first, when no
      other kind of event took the stop's id before. */
  lemma CompetingStopsCountOnce(arrivals: seq<UsageEvent>, i: nat)
    requires StopsAreNamed(arrivals) && i < |arrivals| && arrivals[i].eventType.EnvironmentStopped?
    requires !HasId(arrivals[..i], arrivals[i].eventId)
    ensures Stops(First(arrivals), arrivals[i].environment) == [arrivals[i]]
  {
    FirstIsDistinct(arrivals);
    FirstStaysNamed(arrivals);
    FirstIsTheEarliest(arrivals, i);
    OnlyStop(First(arrivals), arrivals[i]);
  }

  // ---------------------------------------------------------------- the sink

  lemma OneMoreShare(events: seq<UsageEvent>, k: nat, wanted: set<InvocationId>)
    requires k < |events|
    ensures Totals(events[..k + 1], wanted) == Totals(events[..k], wanted).Plus(Share(events[k], wanted))
  {
    assert events[..k + 1][..k] == events[..k];
  }

  /** The body of the loop: an event of another invocation is skipped. */
  method Count(t: UsageTotals, e: UsageEvent, wanted: set<InvocationId>) returns (sum: UsageTotals)
    ensures sum == t.Plus(Share(e, wanted))
  {
    if e.invocation.None? || e.invocation.value !in wanted {
      return t;
    }
    sum := t.(events := t.events + 1);
    var ms := if e.duration.Some? then e.duration.value else 0;
    match e.eventType {
      case HandlerFinished =>
        sum := sum.(handlerMs := sum.handlerMs + ms, bytesIn := sum.bytesIn + e.bytesIn, bytesOut := sum.bytesOut + e.bytesOut);
      case EnvironmentStopped =>
        sum := sum.(environmentMs := sum.environmentMs + ms);
      case _ =>
    }
  }

  method TotalsOf(events: seq<UsageEvent>, wanted: set<InvocationId>) returns (t: UsageTotals)
    ensures t == Totals(events, wanted)
  {
    t := NOTHING;
    for k := 0 to |events|
      invariant t == Totals(events[..k], wanted)
    {
      OneMoreShare(events, k, wanted);
      t := Count(t, events[k], wanted);
    }
    assert events[..|events|] == events;
  }

  class InMemoryUsageSink {
    var events: seq<UsageEvent>
    var seen: set<string>

    /** Every record call so far. */
    ghost var arrivals: seq<UsageEvent>

    ghost predicate Valid()
      reads this
    {
      && events == First(arrivals)
      && forall id :: id in seen <==> HasId(arrivals, id)
    }

    constructor ()
      ensures Valid() && arrivals == []
    {
      events, seen, arrivals := [], {}, [];
    }

    method Record(event: UsageEvent)
      requires Valid()
      modifies this
      ensures Valid() && arrivals == old(arrivals) + [event]
    {
      arrivals := arrivals + [event];
      assert arrivals[..|arrivals| - 1] == old(arrivals);
      OneMoreArrival(old(arrivals), event);
      if event.eventId in seen {
        return;
      }
      seen := seen + {event.eventId};
      events := events + [event];
    }

    method TotalsFor(invocations: seq<InvocationId>) returns (t: UsageTotals)
      requires Valid()
      ensures t == Totals(First(arrivals), set i | i in invocations)
    {
      var wanted := set i | i in invocations;
      t := TotalsOf(events, wanted);
    }
  }

  // ---------------------------------------------------------------- concurrent records

  /** `record` takes its two locks one after the other: first the id is marked seen, later
      the event is stored. Between the two steps other calls may run. */
  datatype Sink = Sink(seen: set<string>, pending: seq<UsageEvent>, stored: seq<UsageEvent>)

  datatype Step = Mark(event: UsageEvent) | Store(index: nat)

  function Next(s: Sink, step: Step): Sink {
    match step
    case Mark(e) =>
      if e.eventId in s.seen then s else s.(seen := s.seen + {e.eventId}, pending := s.pending + [e])
    case Store(i) =>
      if i >= |s.pending| then s
      else s.(pending := s.pending[..i] + s.pending[i + 1..], stored := s.stored + [s.pending[i]])
  }

  function After(steps: seq<Step>): Sink {
    if steps == [] then Sink({}, [], []) else Next(After(steps[..|steps| - 1]), steps[|steps| - 1])
  }

  /** The events in the order their ids were marked. */
  function Marked(steps: seq<Step>): seq<UsageEvent> {
    if steps == [] then []
    else
      Marked(steps[..|steps| - 1]) + if steps[|steps| - 1].Mark? then [steps[|steps| - 1].event] else []
  }

  lemma {:induction false} SeenAreMarked(steps: seq<Step>)
    ensures forall id :: id in After(steps).seen <==> HasId(Marked(steps), id)
  {
    if steps != [] {
      var before, last := steps[..|steps| - 1], steps[|steps| - 1];
      SeenAreMarked(before);
      if last.Mark? {
        OneMoreArrival(Marked(before), last.event);
      } else {
        assert Marked(before) + [] == Marked(before);
      }
    }
  }

  function Held(s: Sink): multiset<UsageEvent> {
    multiset(s.stored) + multiset(s.pending)
  }

  lemma StoringMoves(s: Sink, i: nat)
    ensures Held(Next(s, Store(i))) == Held(s)
  {
    if i < |s.pending| {
      Removed(s.pending, i);
      var t := Next(s, Store(i));
      assert multiset(t.stored) == multiset(s.stored) + multiset{s.pending[i]};
    }
  }

  lemma {:induction false} MarkedIsStoredOrPending(steps: seq<Step>)
    ensures Held(After(steps)) == multiset(First(Marked(steps)))
  {
    if steps != [] {
      var before, last := steps[..|steps| - 1], steps[|steps| - 1];
      MarkedIsStoredOrPending(before);
      var s := After(before);
      match last {
        case Mark(e) =>
          SeenAreMarked(before);
          assert Marked(steps)[..|Marked(before)|] == Marked(before);
          assert multiset(s.pending + [e]) == multiset(s.pending) + multiset{e};
        case Store(i) =>
          assert Marked(before) + [] == Marked(before);
          StoringMoves(s, i);
      }
    }
  }

  /** In every interleaving of concurrent records the stored ids are pairwise distinct, and
      once no record is half done the totals are those of the first arrivals. */
  lemma ConcurrentRecordsCountOnce(steps: seq<Step>, wanted: set<InvocationId>)
    ensures DistinctIds(After(steps).stored)
    ensures After(steps).pending == [] ==> Totals(After(steps).stored, wanted) == Totals(First(Marked(steps)), wanted)
  {
    MarkedIsStoredOrPending(steps);
    var s := After(steps);
    var first := First(Marked(steps));
    FirstIsDistinct(Marked(steps));
    SubsetIsDistinct(s.stored, first);
    if s.pending == [] {
      assert multiset(s.stored) + multiset(s.pending) == multiset(s.stored);
      TotalsOfSameEvents(s.stored, first, wanted);
    }
  }

  lemma SubsetIsDistinct(a: seq<UsageEvent>, b: seq<UsageEvent>)
    requires DistinctIds(b) && multiset(a) <= multiset(b)
    ensures DistinctIds(a)
  {
    forall i, j | 0 <= i < j < |a| ensures a[i].eventId != a[j].eventId {
      assert a[i] in multiset(a) && a[j] in multiset(a);
      assert a[i] in b && a[j] in b;
      DistinctOccurOnce(b, a[i]);
      if a[i] == a[j] {
        TwiceInside(a, i, j);
      }
    }
  }

  lemma TwiceInside(a: seq<UsageEvent>, i: nat, j: nat)
    requires i < j < |a| && a[i] == a[j]
    ensures multiset(a)[a[i]] >= 2
  {
    assert a == a[..i] + ([a[i]] + a[i + 1..j] + ([a[j]] + a[j + 1..]));
  }
}
