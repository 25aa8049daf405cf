/** Two scans of the load report (apps/load/src/report.rs): the highest number of
    requests in flight at once, and the restarts of the sampled gateway. */
module ReportModel {
  import opened Prelude

  /** The two times of a recorded request, absent when the line does not carry them. */
  datatype Request = Request(sent: Option<nat>, done: Option<nat>) {
    predicate Timed() { sent.Some? && done.Some? }
  }

  datatype Event = Event(time: nat, delta: int)

  predicate Before(a: Event, b: Event) {
    a.time < b.time || (a.time == b.time && a.delta <= b.delta)
  }

  predicate Sorted(es: seq<Event>) {
    forall i, j :: 0 <= i < j < |es| ==> Before(es[i], es[j])
  }

  // ---------------------------------------------------------------- what is counted

  function Weight(e: Event, t: nat): int {
    if e.time <= t then e.delta else 0
  }

  /** Sum of the deltas of the events up to the instant `t`. */
  function Net(es: seq<Event>, t: nat): int {
    if es == [] then 0 else Net(es[..|es| - 1], t) + Weight(es[|es| - 1], t)
  }

  /** Sum of the first `k` deltas. */
  function Sum(es: seq<Event>, k: nat): int
    requires k <= |es|
  {
    if k == 0 then 0 else Sum(es, k - 1) + es[k - 1].delta
  }

  /** Requests sent by `t` less requests done by `t`, among those with both times. */
  function Load(rs: seq<Request>, t: nat): int {
    if rs == [] then 0
    else
      var r := rs[|rs| - 1];
      Load(rs[..|rs| - 1], t) +
      if r.Timed() then (if r.sent.value <= t then 1 else 0) - (if r.done.value <= t then 1 else 0) else 0
  }

  /** Requests with `sent <= t < done`. */
  function InFlight(rs: seq<Request>, t: nat): nat {
    if rs == [] then 0
    else
      var r := rs[|rs| - 1];
      InFlight(rs[..|rs| - 1], t) + if r.Timed() && r.sent.value <= t < r.done.value then 1 else 0
  }

  /** A request counts when it has both times: in flight from its sending until it is done, and
      for the load also when it was done before. */
  lemma OneMoreRequest(rs: seq<Request>, r: Request, t: nat)
    ensures InFlight(rs + [r], t) == InFlight(rs, t) +
      if r.sent.Some? && r.done.Some? && r.sent.value <= t < r.done.value then 1 else 0
    ensures Load(rs + [r], t) == Load(rs, t) +
      if r.sent.None? || r.done.None? then 0
      else if r.sent.value <= t < r.done.value then 1 else if r.done.value <= t < r.sent.value then -1 else 0
  {
    assert (rs + [r])[..|rs|] == rs;
  }

  predicate InOrder(rs: seq<Request>) {
    forall r <- rs :: r.Timed() ==> r.sent.value <= r.done.value
  }

  lemma {:induction false} LoadIsInFlight(rs: seq<Request>, t: nat)
    requires InOrder(rs)
    ensures Load(rs, t) == InFlight(rs, t)
  {
    if rs != [] {
      LoadIsInFlight(rs[..|rs| - 1], t);
      assert rs[|rs| - 1] in rs;
    }
  }

  // ---------------------------------------------------------------- events and sorting

  function EventsOf(rs: seq<Request>): seq<Event> {
    if rs == [] then []
    else
      var r := rs[|rs| - 1];
      EventsOf(rs[..|rs| - 1]) + if r.Timed() then [Event(r.sent.value, 1), Event(r.done.value, -1)] else []
  }

  predicate UnitSteps(es: seq<Event>) {
    forall i :: 0 <= i < |es| ==> es[i].delta == 1 || es[i].delta == -1
  }

  lemma NetOfTwo(es: seq<Event>, a: Event, b: Event, t: nat)
    ensures Net(es + [a, b], t) == Net(es, t) + Weight(a, t) + Weight(b, t)
  {
    assert (es + [a, b])[..|es| + 1] == es + [a];
    assert (es + [a])[..|es|] == es;
  }

  lemma {:induction false} NetOfEvents(rs: seq<Request>, t: nat)
    ensures Net(EventsOf(rs), t) == Load(rs, t) && UnitSteps(EventsOf(rs))
  {
    if rs != [] {
      var rest, r := rs[..|rs| - 1], rs[|rs| - 1];
      NetOfEvents(rest, t);
      if r.Timed() {
        NetOfTwo(EventsOf(rest), Event(r.sent.value, 1), Event(r.done.value, -1), t);
      } else {
        assert EventsOf(rest) + [] == EventsOf(rest);
      }
    }
  }

  function Insert(e: Event, es: seq<Event>): seq<Event> {
    if es == [] || Before(es[|es| - 1], e) then es + [e]
    else Insert(e, es[..|es| - 1]) + [es[|es| - 1]]
  }

  /** The one sorted arrangement of the events: by time, then ends before starts. */
  function Sort(es: seq<Event>): seq<Event> {
    if es == [] then [] else Insert(es[|es| - 1], Sort(es[..|es| - 1]))
  }

  lemma NetOfOne(es: seq<Event>, e: Event, t: nat)
    ensures Net(es + [e], t) == Net(es, t) + Weight(e, t)
  {
    assert (es + [e])[..|es|] == es;
  }

  lemma {:induction false} InsertAdds(e: Event, es: seq<Event>, t: nat)
    ensures Net(Insert(e, es), t) == Net(es, t) + Weight(e, t)
  {
    if es == [] || Before(es[|es| - 1], e) {
      NetOfOne(es, e, t);
    } else {
      InsertAdds(e, es[..|es| - 1], t);
      NetOfOne(Insert(e, es[..|es| - 1]), es[|es| - 1], t);
    }
  }

  predicate AllBefore(es: seq<Event>, last: Event) {
    forall i :: 0 <= i < |es| ==> Before(es[i], last)
  }

  lemma {:induction false} InsertStaysBefore(e: Event, es: seq<Event>, last: Event)
    requires AllBefore(es, last) && Before(e, last)
    ensures AllBefore(Insert(e, es), last)
  {
    if es != [] && !Before(es[|es| - 1], e) {
      InsertStaysBefore(e, es[..|es| - 1], last);
    }
  }

  lemma SortedAppend(es: seq<Event>, e: Event)
    requires Sorted(es) && (es != [] ==> Before(es[|es| - 1], e))
    ensures Sorted(es + [e])
  {
    assert forall i :: 0 <= i < |es| ==> Before(es[i], es[|es| - 1]);
  }

  lemma {:induction false} InsertSorts(e: Event, es: seq<Event>)
    requires Sorted(es)
    ensures Sorted(Insert(e, es))
  {
    if es == [] || Before(es[|es| - 1], e) {
      SortedAppend(es, e);
    } else {
      var rest, last := es[..|es| - 1], es[|es| - 1];
      InsertSorts(e, rest);
      assert AllBefore(rest, last);
      InsertStaysBefore(e, rest, last);
      SortedAppend(Insert(e, rest), last);
    }
  }

  lemma {:induction false} InsertKeepsSteps(e: Event, es: seq<Event>)
    requires UnitSteps(es) && UnitSteps([e])
    ensures UnitSteps(Insert(e, es))
  {
    assert [e][0].delta == e.delta;
    if es != [] && !Before(es[|es| - 1], e) {
      InsertKeepsSteps(e, es[..|es| - 1]);
    }
  }

  lemma {:induction false} SortSorts(es: seq<Event>)
    requires UnitSteps(es)
    ensures Sorted(Sort(es)) && UnitSteps(Sort(es))
  {
    if es != [] {
      var rest, last := es[..|es| - 1], es[|es| - 1];
      SortSorts(rest);
      InsertSorts(last, Sort(rest));
      InsertKeepsSteps(last, Sort(rest));
    }
  }

  lemma {:induction false} SortKeepsNet(es: seq<Event>, t: nat)
    ensures Net(Sort(es), t) == Net(es, t)
  {
    if es != [] {
      SortKeepsNet(es[..|es| - 1], t);
      InsertAdds(es[|es| - 1], Sort(es[..|es| - 1]), t);
    }
  }

  // ---------------------------------------------------------------- prefixes and instants

  lemma {:induction false} SumOfInit(es: seq<Event>, k: nat)
    requires k < |es|
    ensures Sum(es[..|es| - 1], k) == Sum(es, k)
  {
    if k > 0 {
      SumOfInit(es, k - 1);
    }
  }

  /** In a sorted list the load at an instant is one of the prefix sums. */
  lemma {:induction false} NetIsAPrefixSum(es: seq<Event>, t: nat) returns (k: nat)
    requires Sorted(es)
    ensures k <= |es| && Net(es, t) == Sum(es, k)
  {
    if es == [] || es[|es| - 1].time <= t {
      AllCounted(es, t);
      k := |es|;
    } else {
      k := NetIsAPrefixSum(es[..|es| - 1], t);
      SumOfInit(es, k);
    }
  }

  lemma {:induction false} AllCounted(es: seq<Event>, t: nat)
    requires Sorted(es) && (es != [] ==> es[|es| - 1].time <= t)
    ensures Net(es, t) == Sum(es, |es|)
  {
    if es != [] {
      AllCounted(es[..|es| - 1], t);
      SumOfInit(es, |es| - 1);
    }
  }

  /** After a start, the load at its instant is at least the prefix sum: what follows at
      the same instant are starts too, because ends sort before starts. */
  lemma {:induction false} StartReachesItsPrefixSum(es: seq<Event>, i: nat)
    requires Sorted(es) && UnitSteps(es) && i < |es| && es[i].delta == 1
    ensures Net(es, es[i].time) >= Sum(es, i + 1)
    decreases |es|
  {
    var t := es[i].time;
    if i == |es| - 1 {
      AllCounted(es, t);
    } else {
      StartReachesItsPrefixSum(es[..|es| - 1], i);
      SumOfInit(es, i + 1);
      assert Before(es[i], es[|es| - 1]);
    }
  }

  // ---------------------------------------------------------------- max_overlap

  /** When no request is done before it was sent, exactly the highest number of requests
      in flight at one instant. For every list, the largest value of `Load` over all
      instants, or 0 when it is never positive. */
  method MaxOverlap(requests: seq<Request>) returns (max: nat)
    ensures forall t: nat :: Load(requests, t) <= max
    ensures max > 0 ==> exists t: nat :: Load(requests, t) == max
    ensures InOrder(requests) ==>
      (forall t: nat :: InFlight(requests, t) <= max) && exists t: nat :: InFlight(requests, t) == max
  {
    var events: seq<Event> := [];
    for i := 0 to |requests|
      invariant events == EventsOf(requests[..i])
    {
      var r := requests[i];
      assert requests[..i + 1][..i] == requests[..i];
      if r.sent.Some? && r.done.Some? {
        events := events + [Event(r.sent.value, 1)];
        events := events + [Event(r.done.value, -1)];
      }
    }
    assert requests[..|requests|] == requests;
    var sorted := Sort(events);
    SortedEvents(requests, sorted);
    max := HighestPrefix(sorted);
    if InOrder(requests) {
      forall t: nat ensures Load(requests, t) == InFlight(requests, t) {
        LoadIsInFlight(requests, t);
      }
      assert InFlight(requests, 0) <= max;
    }
  }

  /** The sweep of `max_overlap` over the sorted events. */
  method HighestPrefix(sorted: seq<Event>) returns (max: nat)
    requires Sorted(sorted) && UnitSteps(sorted)
    ensures forall t: nat :: Net(sorted, t) <= max
    ensures max > 0 ==> exists t: nat :: Net(sorted, t) == max
  {
    var cur, best := 0, 0;
    ghost var at: nat := 0;
    for i := 0 to |sorted|
      invariant cur == Sum(sorted, i) && best >= 0
      invariant forall k :: 0 <= k <= i ==> Sum(sorted, k) <= best
      invariant best > 0 ==> Net(sorted, at) >= best
    {
      cur := cur + sorted[i].delta;
      if cur > best {
        StartReachesItsPrefixSum(sorted, i);
        best, at := cur, sorted[i].time;
      }
    }
    max := if best > 0 then best else 0;
    forall t: nat ensures Net(sorted, t) <= max {
      var k := NetIsAPrefixSum(sorted, t);
      assert Sum(sorted, k) <= best;
    }
    assert max > 0 ==> Net(sorted, at) == max;
  }

  lemma SortedEvents(requests: seq<Request>, sorted: seq<Event>)
    requires sorted == Sort(EventsOf(requests))
    ensures Sorted(sorted) && UnitSteps(sorted)
    ensures forall t: nat :: Net(sorted, t) == Load(requests, t)
  {
    NetOfEvents(requests, 0);
    SortSorts(EventsOf(requests));
    forall t: nat ensures Net(sorted, t) == Load(requests, t) {
      SortKeepsNet(EventsOf(requests), t);
      NetOfEvents(requests, t);
    }
  }

  // ---------------------------------------------------------------- restarts

  datatype Point = Point(time: nat, up: bool)

  datatype Gap = Gap(from: nat, till: nat)

  /** The samples `from..till` are a maximal run of down samples, the first sample of
      all left aside, and the sample at `till` is up again. */
  predicate IsGap(points: seq<Point>, g: Gap) {
    && 1 <= g.from < g.till < |points|
    && (forall k :: g.from <= k < g.till ==> !points[k].up)
    && points[g.till].up
    && (g.from == 1 || points[g.from - 1].up)
  }

  predicate InSequence(gaps: seq<Gap>) {
    forall a, b :: 0 <= a < b < |gaps| ==> gaps[a].till < gaps[b].from
  }

  predicate EndBefore(gaps: seq<Gap>, n: nat) {
    forall a :: 0 <= a < |gaps| ==> gaps[a].till < n
  }

  /** The pair reported for a gap: its first down time, and the time of the next up sample. */
  predicate Reports(points: seq<Point>, g: Gap, r: (nat, nat)) {
    IsGap(points, g) && r == (points[g.from].time, points[g.till].time)
  }

  ghost predicate Complete(points: seq<Point>, gaps: seq<Gap>, n: nat) {
    forall g: Gap :: IsGap(points, g) && g.till < n ==> g in gaps
  }

  /** The restarts are exactly the gaps, in order and disjoint, each with its two times. */
  ghost predicate AreRestarts(points: seq<Point>, restarts: seq<(nat, nat)>, gaps: seq<Gap>) {
    && |restarts| == |gaps| && InSequence(gaps)
    && (forall a :: 0 <= a < |gaps| ==> Reports(points, gaps[a], restarts[a]))
    && (forall g: Gap :: IsGap(points, g) ==> g in gaps)
  }

  method Restarts(points: seq<Point>) returns (restarts: seq<(nat, nat)>)
    ensures exists gaps :: AreRestarts(points, restarts, gaps)
  {
    restarts := [];
    ghost var gaps: seq<Gap> := [];
    var gapStart: Option<nat> := None;
    ghost var from := 0;
    for i := 0 to |points|
      invariant gapStart.Some? ==>
        1 <= from < i && gapStart.value == points[from].time && (from == 1 || points[from - 1].up)
      invariant gapStart.Some? ==> forall k :: from <= k < i ==> !points[k].up
      invariant gapStart.None? ==> i <= 1 || points[i - 1].up
      invariant |restarts| == |gaps| && InSequence(gaps)
      invariant EndBefore(gaps, if gapStart.Some? then from else i)
      invariant forall a :: 0 <= a < |gaps| ==> Reports(points, gaps[a], restarts[a])
      invariant Complete(points, gaps, i)
    {
      var p := points[i];
      if !p.up && gapStart.None? && i > 0 {
        gapStart := Some(p.time);
        from := i;
      } else if p.up && gapStart.Some? {
        OneGapEndsHere(points, Gap(from, i));
        restarts := restarts + [(gapStart.value, p.time)];
        gaps := gaps + [Gap(from, i)];
        gapStart := None;
      }
    }
    assert AreRestarts(points, restarts, gaps);
  }

  lemma OneGapEndsHere(points: seq<Point>, g: Gap)
    requires IsGap(points, g)
    ensures forall h: Gap :: IsGap(points, h) && h.till == g.till ==> h == g
  {
    forall h: Gap | IsGap(points, h) && h.till == g.till ensures h == g {
      FirstOfRun(points, g, h);
      FirstOfRun(points, h, g);
    }
  }

  lemma FirstOfRun(points: seq<Point>, g: Gap, h: Gap)
    requires IsGap(points, g) && IsGap(points, h) && g.till == h.till
    ensures g.from <= h.from
  {
    var k := g.from - 1;
    assert points[k].up || k == 0;
  }
}
