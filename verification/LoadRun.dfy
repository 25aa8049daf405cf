/** The workers that execute a checked plan, in every interleaving, and the budget
    kept over repeated runs (apps/load/src/run.rs). */
module LoadRunModel {
  import opened Prelude
  import opened LoadPlanModel

  // ---------------------------------------------------------------- the workers of one phase

  /** Where a worker is: about to take an index, holding one before its send decision,
      waiting for a response, or returned. */
  datatype Worker = Looping | Holding(index: nat) | Sending(index: nat) | Returned {
    predicate Busy() { Holding? || Sending? }
  }

  /** The shared counters of a phase and its workers; `claimed` lists the indices handed
      out so far, in order. */
  datatype Crew = Crew(next: nat, sent: nat, refused: nat, workers: seq<Worker>, claimed: seq<nat>)

  function Hire(phase: Phase): Crew {
    Crew(0, 0, 0, seq(phase.Workers(), _ => Looping), [])
  }

  /** No request starts this close to the deadline. */
  const MARGIN := 500

  /** One worker takes its next step. */
  function Step(c: Crew, requests: nat, deadline: nat, w: nat, now: nat): (d: Crew)
    ensures |d.workers| == |c.workers|
  {
    if w >= |c.workers| then c
    else
      match c.workers[w]
      case Looping =>
        if c.next >= requests then c.(next := c.next + 1, workers := c.workers[w := Returned])
        else c.(next := c.next + 1, workers := c.workers[w := Holding(c.next)], claimed := c.claimed + [c.next])
      case Holding(i) =>
        if now + MARGIN >= deadline then c.(refused := c.refused + 1, workers := c.workers[w := Looping])
        else c.(sent := c.sent + 1, workers := c.workers[w := Sending(i)])
      case Sending(_) => c.(workers := c.workers[w := Looping])
      case Returned => c
  }

  function Holders(ws: seq<Worker>): nat {
    if ws == [] then 0 else Holders(ws[..|ws| - 1]) + if ws[|ws| - 1].Holding? then 1 else 0
  }

  function Senders(ws: seq<Worker>): (n: nat)
    ensures n <= |ws|
  {
    if ws == [] then 0 else Senders(ws[..|ws| - 1]) + if ws[|ws| - 1].Sending? then 1 else 0
  }

  lemma {:induction false} HoldersUpdate(ws: seq<Worker>, w: nat, x: Worker)
    requires w < |ws|
    ensures Holders(ws[w := x]) ==
      Holders(ws) - (if ws[w].Holding? then 1 else 0) + if x.Holding? then 1 else 0
  {
    var n := |ws| - 1;
    if w < n {
      HoldersUpdate(ws[..n], w, x);
      assert ws[w := x][..n] == ws[..n][w := x];
    } else {
      assert ws[w := x][..n] == ws[..n];
    }
  }

  /** What every interleaving keeps. */
  predicate Orderly(c: Crew, phase: Phase) {
    && |c.workers| == phase.Workers()
    && |c.claimed| == (if c.next < phase.Requests() then c.next else phase.Requests())
    && (forall k :: 0 <= k < |c.claimed| ==> c.claimed[k] == k)
    && c.sent + c.refused + Holders(c.workers) == |c.claimed|
    && (forall k :: 0 <= k < |c.workers| && c.workers[k].Returned? ==> c.next >= phase.Requests())
    && (forall k :: 0 <= k < |c.workers| && c.workers[k].Busy() ==> c.workers[k].index < |c.claimed|)
    && (forall j, k :: 0 <= j < k < |c.workers| && c.workers[j].Busy() && c.workers[k].Busy() ==>
          c.workers[j].index != c.workers[k].index)
  }

  lemma {:induction false} NobodyHolds(n: nat)
    ensures Holders(seq(n, _ => Looping)) == 0
  {
    if n > 0 {
      NobodyHolds(n - 1);
      assert seq(n, _ => Looping)[..n - 1] == seq(n - 1, _ => Looping);
    }
  }

  lemma HiredIsOrderly(phase: Phase)
    ensures Orderly(Hire(phase), phase)
  {
    NobodyHolds(phase.Workers());
  }

  lemma StepKeepsOrder(c: Crew, phase: Phase, deadline: nat, w: nat, now: nat)
    requires Orderly(c, phase)
    ensures Orderly(Step(c, phase.Requests(), deadline, w, now), phase)
  {
    if w < |c.workers| {
      HoldersUpdate(c.workers, w, Step(c, phase.Requests(), deadline, w, now).workers[w]);
    }
  }

  // ---------------------------------------------------------------- the phases of one wave

  /** One step of one worker of one phase, at a wall-clock time. */
  datatype Turn = Turn(phase: nat, worker: nat, now: nat)

  /** The crews of a wave after any schedule of turns. */
  function Work(phases: seq<Phase>, deadline: nat, turns: seq<Turn>): (crews: seq<Crew>)
    ensures |crews| == |phases|
  {
    if turns == [] then seq(|phases|, k requires 0 <= k < |phases| => Hire(phases[k]))
    else
      var crews := Work(phases, deadline, turns[..|turns| - 1]);
      var t := turns[|turns| - 1];
      if t.phase >= |phases| then crews
      else crews[t.phase := Step(crews[t.phase], phases[t.phase].Requests(), deadline, t.worker, t.now)]
  }

  lemma {:induction false} EveryScheduleIsOrderly(phases: seq<Phase>, deadline: nat, turns: seq<Turn>)
    ensures forall k :: 0 <= k < |phases| ==> Orderly(Work(phases, deadline, turns)[k], phases[k])
  {
    if turns == [] {
      forall k | 0 <= k < |phases| ensures Orderly(Work(phases, deadline, turns)[k], phases[k]) {
        HiredIsOrderly(phases[k]);
      }
    } else {
      var before := turns[..|turns| - 1];
      var t := turns[|turns| - 1];
      EveryScheduleIsOrderly(phases, deadline, before);
      if t.phase < |phases| {
        StepKeepsOrder(Work(phases, deadline, before)[t.phase], phases[t.phase], deadline, t.worker, t.now);
      }
    }
  }

  function InFlight(crews: seq<Crew>): nat {
    if crews == [] then 0 else InFlight(crews[..|crews| - 1]) + Senders(crews[|crews| - 1].workers)
  }

  lemma {:induction false} InFlightWithinWorkers(phases: seq<Phase>, crews: seq<Crew>)
    requires |phases| == |crews|
    requires forall k :: 0 <= k < |phases| ==> Orderly(crews[k], phases[k])
    ensures InFlight(crews) <= Workers(phases)
  {
    if crews != [] {
      InFlightWithinWorkers(phases[..|phases| - 1], crews[..|crews| - 1]);
    }
  }

  /** An accepted plan never has more than `max_concurrency` requests in flight, in any
      wave, after any schedule of its workers. */
  lemma InFlightIsBounded(phases: seq<Phase>, limits: LoadLimits, alreadySent: nat, w: Wave, deadline: nat, turns: seq<Turn>)
    requires Acceptable(phases, limits, alreadySent) && IsWave(phases, w)
    ensures InFlight(Work(Slice(phases, w), deadline, turns)) <= limits.maxConcurrency
  {
    var wave := Slice(phases, w);
    EveryScheduleIsOrderly(wave, deadline, turns);
    InFlightWithinWorkers(wave, Work(wave, deadline, turns));
    assert Fits(phases, w, limits);
  }

  predicate AllReturned(c: Crew) {
    forall k :: 0 <= k < |c.workers| ==> c.workers[k].Returned?
  }

  lemma {:induction false} NoneHoldsWhenReturned(ws: seq<Worker>)
    requires forall k :: 0 <= k < |ws| ==> ws[k].Returned?
    ensures Holders(ws) == 0
  {
    if ws != [] {
      NoneHoldsWhenReturned(ws[..|ws| - 1]);
    }
  }

  /** When a phase's workers have returned, every index below `requests` was handed out
      once, in order, and each was either sent or refused. A phase without workers
      hands out nothing. */
  lemma EveryIndexExactlyOnce(phases: seq<Phase>, deadline: nat, turns: seq<Turn>, k: nat)
    requires k < |phases| && AllReturned(Work(phases, deadline, turns)[k])
    ensures
      var c := Work(phases, deadline, turns)[k];
      var due := if phases[k].Workers() == 0 then c.claimed else seq(phases[k].Requests(), i => i);
      && c.claimed == due
      && c.sent + c.refused == |c.claimed|
      && c.sent <= phases[k].Requests()
  {
    EveryScheduleIsOrderly(phases, deadline, turns);
    var c := Work(phases, deadline, turns)[k];
    NoneHoldsWhenReturned(c.workers);
    if phases[k].Workers() > 0 {
      assert c.workers[0].Returned?;
    }
  }

  /** What one step counts: a looping worker takes the next index, a holding one sends when
      the deadline is more than half a second away and is refused otherwise. */
  lemma StepCounts(c: Crew, requests: nat, deadline: nat, w: nat, now: nat)
    ensures
      var d := Step(c, requests, deadline, w, now);
      var holds, loops := w < |c.workers| && c.workers[w].Holding?, w < |c.workers| && c.workers[w] == Looping;
      && d.sent == c.sent + (if holds && now + 500 < deadline then 1 else 0)
      && d.refused == c.refused + (if holds && now + 500 >= deadline then 1 else 0)
      && d.next == c.next + (if loops then 1 else 0)
      && d.claimed == c.claimed + (if loops && c.next < requests then [c.next] else [])
  {
  }

  /** No request is sent in the last half second before the deadline or after it. */
  lemma {:induction false} NothingIsSentNearTheDeadline(phases: seq<Phase>, deadline: nat, turns: seq<Turn>)
    requires forall t <- turns :: t.now + 500 >= deadline
    ensures forall k :: 0 <= k < |phases| ==> Work(phases, deadline, turns)[k].sent == 0
  {
    if turns != [] {
      var before, t := turns[..|turns| - 1], turns[|turns| - 1];
      assert t in turns;
      NothingIsSentNearTheDeadline(phases, deadline, before);
      if t.phase < |phases| {
        StepCounts(Work(phases, deadline, before)[t.phase], phases[t.phase].Requests(), deadline, t.worker, t.now);
      }
    }
  }

  // ---------------------------------------------------------------- the bound is reached

  /** The first `n` workers of the crew wait for responses, the others did nothing yet. */
  predicate Started(c: Crew, phase: Phase, n: nat) {
    && |c.workers| == phase.Workers() && n <= |c.workers| && c.next == n
    && (forall w :: 0 <= w < n ==> c.workers[w].Sending?)
    && (forall w :: n <= w < |c.workers| ==> c.workers[w] == Looping)
  }

  lemma OneMoreStarts(c: Crew, phase: Phase, n: nat, deadline: nat)
    requires Started(c, phase, n) && n < phase.Workers() <= phase.Requests() && deadline > 500
    ensures
      var once := Step(c, phase.Requests(), deadline, n, 0);
      Started(Step(once, phase.Requests(), deadline, n, 0), phase, n + 1)
  {
  }

  lemma WorkOneMore(phases: seq<Phase>, deadline: nat, turns: seq<Turn>, t: Turn)
    requires t.phase < |phases|
    ensures
      var crews := Work(phases, deadline, turns);
      Work(phases, deadline, turns + [t]) ==
        crews[t.phase := Step(crews[t.phase], phases[t.phase].Requests(), deadline, t.worker, t.now)]
  {
    assert (turns + [t])[..|turns|] == turns;
  }

  /** The schedule starts the first `n` workers of phase `k`, and all of the phases before. */
  ghost predicate StartsUpTo(phases: seq<Phase>, deadline: nat, turns: seq<Turn>, k: nat, n: nat)
    requires k <= |phases|
  {
    forall j :: 0 <= j < |phases| ==>
      Started(Work(phases, deadline, turns)[j], phases[j], if j < k then phases[j].Workers() else if j == k then n else 0)
  }

  lemma StartsOneMore(phases: seq<Phase>, deadline: nat, turns: seq<Turn>, k: nat, n: nat)
    requires k < |phases| && StartsUpTo(phases, deadline, turns, k, n)
    requires n < phases[k].Workers() <= phases[k].Requests() && deadline > 500
    ensures StartsUpTo(phases, deadline, turns + [Turn(k, n, 0)] + [Turn(k, n, 0)], k, n + 1)
  {
    assert Started(Work(phases, deadline, turns)[k], phases[k], n);
    OneMoreStarts(Work(phases, deadline, turns)[k], phases[k], n, deadline);
    WorkOneMore(phases, deadline, turns, Turn(k, n, 0));
    WorkOneMore(phases, deadline, turns + [Turn(k, n, 0)], Turn(k, n, 0));
  }

  lemma {:induction false} StartPhase(phases: seq<Phase>, deadline: nat, turns: seq<Turn>, k: nat, n: nat) returns (more: seq<Turn>)
    requires k < |phases| && n <= phases[k].Workers() <= phases[k].Requests() && deadline > 500
    requires StartsUpTo(phases, deadline, turns, k, 0)
    ensures StartsUpTo(phases, deadline, more, k, n)
    decreases n
  {
    if n == 0 {
      more := turns;
    } else {
      var most := StartPhase(phases, deadline, turns, k, n - 1);
      StartsOneMore(phases, deadline, most, k, n - 1);
      more := most + [Turn(k, n - 1, 0)] + [Turn(k, n - 1, 0)];
    }
  }

  lemma NextPhase(phases: seq<Phase>, deadline: nat, turns: seq<Turn>, k: nat)
    requires k < |phases| && StartsUpTo(phases, deadline, turns, k, phases[k].Workers())
    ensures StartsUpTo(phases, deadline, turns, k + 1, 0)
  {
  }

  lemma {:induction false} StartAll(phases: seq<Phase>, deadline: nat, k: nat) returns (turns: seq<Turn>)
    requires k <= |phases| && deadline > 500
    requires forall j :: 0 <= j < |phases| ==> phases[j].Workers() <= phases[j].Requests()
    ensures StartsUpTo(phases, deadline, turns, k, 0)
    decreases k
  {
    if k == 0 {
      turns := [];
    } else {
      var most := StartAll(phases, deadline, k - 1);
      turns := StartPhase(phases, deadline, most, k - 1, phases[k - 1].Workers());
      NextPhase(phases, deadline, turns, k - 1);
    }
  }

  lemma {:induction false} AllSend(ws: seq<Worker>)
    requires forall w :: 0 <= w < |ws| ==> ws[w].Sending?
    ensures Senders(ws) == |ws|
  {
    if ws != [] {
      AllSend(ws[..|ws| - 1]);
    }
  }

  lemma {:induction false} AllInFlight(phases: seq<Phase>, crews: seq<Crew>)
    requires |phases| == |crews| && forall j :: 0 <= j < |phases| ==> Started(crews[j], phases[j], phases[j].Workers())
    ensures InFlight(crews) == Workers(phases)
  {
    if crews != [] {
      AllInFlight(phases[..|phases| - 1], crews[..|crews| - 1]);
      AllSend(crews[|crews| - 1].workers);
    }
  }

  /** The bound of a wave is reached: when no phase has more workers than requests, some
      schedule has every worker of the wave in flight at once. */
  lemma BoundIsReached(phases: seq<Phase>, deadline: nat)
    requires deadline > 500 && forall j :: 0 <= j < |phases| ==> phases[j].Workers() <= phases[j].Requests()
    ensures exists turns :: InFlight(Work(phases, deadline, turns)) == Workers(phases)
  {
    var turns := StartAll(phases, deadline, |phases|);
    AllInFlight(phases, Work(phases, deadline, turns));
  }

  // ---------------------------------------------------------------- a run

  /** What a phase's workers counted, and whether `run_phase` returned it or an error. */
  datatype PhaseEnd = PhaseEnd(sent: nat, refused: nat, ok: bool)

  datatype Budget = Budget(sent: nat, refused: nat)

  const NO_BUDGET := Budget(0, 0)

  /** `read_budget`: whatever keeps the file from being read, the run starts from nothing. */
  function ReadBudget(file: Budget, readable: bool): Budget {
    if readable then file else NO_BUDGET
  }

  /** How writing the budget after a wave ended: stored, refused with the old file in place,
      or broken off, which leaves a file the next run reads as no budget. */
  datatype Write = Stored | Refused | Torn

  /** What phases `i..j` sent. */
  function Sent(ends: seq<PhaseEnd>, i: nat, j: nat): nat
    requires i <= j <= |ends|
  {
    if i == j then 0 else Sent(ends, i, j - 1) + ends[j - 1].sent
  }

  function NotSent(ends: seq<PhaseEnd>, i: nat, j: nat): nat
    requires i <= j <= |ends|
  {
    if i == j then 0 else NotSent(ends, i, j - 1) + ends[j - 1].refused
  }

  lemma {:induction false} SentSplits(ends: seq<PhaseEnd>, i: nat, j: nat)
    requires i <= j <= |ends|
    ensures Sent(ends, 0, j) == Sent(ends, 0, i) + Sent(ends, i, j)
    decreases j
  {
    if i < j {
      SentSplits(ends, i, j - 1);
    }
  }

  /** The budget once phases `..k` are added. */
  function Plus(start: Budget, ends: seq<PhaseEnd>, k: nat): Budget
    requires k <= |ends|
  {
    Budget(start.sent + Sent(ends, 0, k), start.refused + NotSent(ends, 0, k))
  }

  predicate AllOk(ends: seq<PhaseEnd>, i: nat, j: nat)
    requires i <= j <= |ends|
  {
    forall k :: i <= k < j ==> ends[k].ok
  }

  /** One run: its plan, whether it could read the budget, how each phase ended, the waves it
      executed and how the budget was written after each. Only the last wave may have ended
      the run with an error. */
  datatype RunRecord = RunRecord(
    phases: seq<Phase>, readable: bool, ends: seq<PhaseEnd>, waves: seq<Wave>, writes: seq<Write>)
  {
    function Till(): nat { if waves == [] then 0 else waves[|waves| - 1].till }

    predicate Shaped() {
      && |ends| == |phases| && |writes| == |waves|
      && AreWaves(phases, waves) && Cuts(waves, 0, Till())
    }

    predicate EndedWell(k: nat)
      requires Shaped() && k < |waves|
    {
      IsWave(phases, waves[k]) && AllOk(ends, waves[k].from, waves[k].till)
    }

    /** The counts of the wave reached the file. */
    predicate Recorded(k: nat)
      requires Shaped() && k < |waves|
    {
      EndedWell(k) && writes[k].Stored?
    }

    predicate Completed()
      requires Shaped()
    {
      waves == [] || Recorded(|waves| - 1)
    }

    predicate Valid() {
      && Shaped()
      && (forall k :: 0 <= k < |waves| - 1 ==> Recorded(k))
      && (Completed() ==> Till() == |phases|)
    }

    function RecordedTill(): (n: nat)
      requires Shaped()
      ensures n <= Till() <= |phases|
    {
      if waves == [] then 0
      else
        var last := |waves| - 1;
        assert IsWave(phases, waves[last]);
        if Completed() then waves[last].till else waves[last].from
    }

    /** The last wave ended well and its budget was broken off. */
    predicate TornOff()
      requires Shaped()
    {
      !Completed() && EndedWell(|waves| - 1) && writes[|waves| - 1].Torn?
    }

    /** The run stored a budget that does not build on the file. */
    predicate Overwrites()
      requires Shaped()
    {
      !readable && !TornOff() && RecordedTill() > 0
    }

    /** The budget in the file afterwards. */
    function FileAfter(file: Budget): Budget
      requires Shaped()
    {
      if TornOff() then NO_BUDGET
      else if RecordedTill() == 0 then file
      else Plus(ReadBudget(file, readable), ends, RecordedTill())
    }
  }

  /** The executed part of a run: waves one after the other, all recorded so far. */
  predicate SoFar(phases: seq<Phase>, ends: seq<PhaseEnd>, waves: seq<Wave>, writes: seq<Write>, till: nat) {
    && |ends| == |phases| && |writes| == |waves| && till <= |phases|
    && AreWaves(phases, waves) && Cuts(waves, 0, till)
    && forall k :: 0 <= k < |waves| ==> IsWave(phases, waves[k]) && AllOk(ends, waves[k].from, waves[k].till) && writes[k].Stored?
  }

  lemma OneMoreWave(waves: seq<Wave>, w: Wave)
    requires Cuts(waves, 0, w.from)
    ensures Cuts(waves + [w], 0, w.till)
  {
    assert (waves + [w])[..|waves|] == waves;
  }

  lemma OneMoreStored(phases: seq<Phase>, ends: seq<PhaseEnd>, waves: seq<Wave>, writes: seq<Write>, w: Wave)
    requires SoFar(phases, ends, waves, writes, w.from) && IsWave(phases, w) && AllOk(ends, w.from, w.till)
    ensures SoFar(phases, ends, waves + [w], writes + [Stored], w.till)
  {
    OneMoreWave(waves, w);
  }

  lemma StopsInError(phases: seq<Phase>, readable: bool, ends: seq<PhaseEnd>, waves: seq<Wave>, writes: seq<Write>,
                     w: Wave, write: Write)
    requires SoFar(phases, ends, waves, writes, w.from) && IsWave(phases, w)
    requires !(AllOk(ends, w.from, w.till) && write.Stored?)
    ensures
      var r := RunRecord(phases, readable, ends, waves + [w], writes + [write]);
      && r.Valid() && !r.Completed() && r.RecordedTill() == w.from
      && (r.TornOff() <==> AllOk(ends, w.from, w.till) && write.Torn?)
  {
    var r := RunRecord(phases, readable, ends, waves + [w], writes + [write]);
    OneMoreWave(waves, w);
    assert r.Till() == w.till && r.Shaped();
    assert r.EndedWell(|waves|) <==> AllOk(ends, w.from, w.till);
  }

  lemma StopsAtTheEnd(phases: seq<Phase>, readable: bool, ends: seq<PhaseEnd>, waves: seq<Wave>, writes: seq<Write>)
    requires SoFar(phases, ends, waves, writes, |phases|)
    ensures
      var r := RunRecord(phases, readable, ends, waves, writes);
      r.Valid() && r.Completed() && r.RecordedTill() == |phases| && !r.TornOff()
  {
    var r := RunRecord(phases, readable, ends, waves, writes);
    assert r.Till() == |phases| && r.Shaped();
  }

  /** The writes of the record are those the waves met. */
  predicate MetFates(waves: seq<Wave>, writes: seq<Write>, fates: seq<Write>) {
    |writes| == |waves| && forall k :: 0 <= k < |waves| ==> waves[k].from < |fates| && writes[k] == fates[waves[k].from]
  }

  lemma OneMoreFate(waves: seq<Wave>, writes: seq<Write>, fates: seq<Write>, w: Wave)
    requires MetFates(waves, writes, fates) && w.from < |fates|
    ensures MetFates(waves + [w], writes + [fates[w.from]], fates)
  {
  }

  /** `r` is the run of this plan, with this reading, these ends and writes, and left this
      result and file. */
  predicate Executed(r: RunRecord, phases: seq<Phase>, ends: seq<PhaseEnd>, fates: seq<Write>, readable: bool, before: Budget,
                     ok: bool, file: Budget)
  {
    && r.phases == phases && r.ends == ends && r.readable == readable && r.Valid()
    && MetFates(r.waves, r.writes, fates)
    && (ok <==> r.Completed())
    && file == r.FileAfter(before)
  }

  ghost predicate Ran(phases: seq<Phase>, ends: seq<PhaseEnd>, fates: seq<Write>, readable: bool, before: Budget,
                      ok: bool, file: Budget)
  {
    exists r :: Executed(r, phases, ends, fates, readable, before, ok, file)
  }

  /** What the file holds while no wave ended the run: untouched before the first wave. */
  function FileSoFar(before: Budget, readable: bool, ends: seq<PhaseEnd>, i: nat): Budget
    requires i <= |ends|
  {
    if i == 0 then before else Plus(ReadBudget(before, readable), ends, i)
  }

  lemma RanIntoAnError(phases: seq<Phase>, ends: seq<PhaseEnd>, fates: seq<Write>, readable: bool, before: Budget,
                       waves: seq<Wave>, writes: seq<Write>, w: Wave)
    requires |fates| == |phases| && SoFar(phases, ends, waves, writes, w.from) && IsWave(phases, w)
    requires MetFates(waves, writes, fates) && !(AllOk(ends, w.from, w.till) && fates[w.from].Stored?)
    ensures
      var file := if AllOk(ends, w.from, w.till) && fates[w.from].Torn? then NO_BUDGET else FileSoFar(before, readable, ends, w.from);
      Ran(phases, ends, fates, readable, before, false, file)
  {
    StopsInError(phases, readable, ends, waves, writes, w, fates[w.from]);
    var r := RunRecord(phases, readable, ends, waves + [w], writes + [fates[w.from]]);
    assert Executed(r, phases, ends, fates, readable, before, false, r.FileAfter(before));
  }

  lemma RanToTheEnd(phases: seq<Phase>, ends: seq<PhaseEnd>, fates: seq<Write>, readable: bool, before: Budget,
                    waves: seq<Wave>, writes: seq<Write>)
    requires |fates| == |phases| && SoFar(phases, ends, waves, writes, |phases|) && MetFates(waves, writes, fates)
    ensures Ran(phases, ends, fates, readable, before, true, FileSoFar(before, readable, ends, |phases|))
  {
    StopsAtTheEnd(phases, readable, ends, waves, writes);
    var r := RunRecord(phases, readable, ends, waves, writes);
    assert Executed(r, phases, ends, fates, readable, before, true, r.FileAfter(before));
  }

  /** The wave loop of `run`: `before` is the budget in the file and `readable` whether it can
      be read, `ends[k]` is how phase `k` ends when it is executed, and `fates[i]` how the
      budget is written after the wave that starts at `i`. The executed waves are cut like
      the checked ones. */
  method RunWaves(phases: seq<Phase>, ends: seq<PhaseEnd>, fates: seq<Write>, readable: bool, before: Budget)
    returns (ok: bool, file: Budget)
    requires |ends| == |fates| == |phases|
    ensures Ran(phases, ends, fates, readable, before, ok, file)
  {
    file := before;
    var budget := ReadBudget(before, readable);
    ghost var waves, writes: seq<Write> := [], [];
    var i := 0;
    while i < |phases|
      invariant SoFar(phases, ends, waves, writes, i) && MetFates(waves, writes, fates)
      invariant i == 0 || i == |phases| || phases[i].wave.None? || phases[i - 1].wave != phases[i].wave
      invariant budget == Plus(ReadBudget(before, readable), ends, i)
      invariant file == FileSoFar(before, readable, ends, i)
    {
      var j := WaveEnd(phases, i);
      ghost var w := Wave(i, j);
      var failed;
      failed, budget := CollectWave(ends, i, j, budget, ReadBudget(before, readable));
      if failed {
        RanIntoAnError(phases, ends, fates, readable, before, waves, writes, w);
        return false, file;
      }
      if fates[i] != Stored {
        RanIntoAnError(phases, ends, fates, readable, before, waves, writes, w);
        return false, if fates[i] == Torn then NO_BUDGET else file;
      }
      OneMoreStored(phases, ends, waves, writes, w);
      OneMoreFate(waves, writes, fates, w);
      file, waves, writes := budget, waves + [w], writes + [fates[i]];
      i := j;
    }
    RanToTheEnd(phases, ends, fates, readable, before, waves, writes);
    return true, file;
  }

  lemma OneMoreCounted(start: Budget, ends: seq<PhaseEnd>, k: nat)
    requires k < |ends|
    ensures
      var at := Plus(start, ends, k);
      Plus(start, ends, k + 1) == Budget(at.sent + ends[k].sent, at.refused + ends[k].refused)
  {
  }

  /** `for r in results` with its `?`: stops at the first phase that ended in an error. */
  method CollectWave(ends: seq<PhaseEnd>, i: nat, j: nat, at: Budget, ghost start: Budget)
    returns (failed: bool, budget: Budget)
    requires i < j <= |ends|
    requires at == Plus(start, ends, i)
    ensures failed <==> !AllOk(ends, i, j)
    ensures !failed ==> budget == Plus(start, ends, j)
  {
    budget := at;
    for k := i to j
      invariant AllOk(ends, i, k)
      invariant budget == Plus(start, ends, k)
    {
      if !ends[k].ok {
        return true, budget;
      }
      OneMoreCounted(start, ends, k);
      budget := Budget(budget.sent + ends[k].sent, budget.refused + ends[k].refused);
    }
    return false, budget;
  }

  /** The executed waves of a run that completed are the checked ones. */
  lemma ExecutedAsChecked(r: RunRecord, checked: seq<Wave>)
    requires r.Valid() && r.Completed()
    requires Cuts(checked, 0, |r.phases|) && AreWaves(r.phases, checked)
    ensures checked == r.waves
  {
    WavesAreUnique(r.phases, checked, r.waves, |r.phases|);
  }

  // ---------------------------------------------------------------- what the workers sent

  /** The counts of a phase are those of its crew, all of whose workers returned unless the
      phase ended in an error. */
  predicate CountedBy(c: Crew, e: PhaseEnd) {
    e.sent == c.sent && e.refused == c.refused && (e.ok ==> AllReturned(c))
  }

  /** The phases of a wave were worked by its crews under this schedule. */
  predicate WaveWorked(phases: seq<Phase>, ends: seq<PhaseEnd>, w: Wave, deadline: nat, turns: seq<Turn>)
    requires w.from <= w.till <= |phases| && |ends| == |phases|
  {
    forall p :: 0 <= p < w.till - w.from ==> CountedBy(Work(Slice(phases, w), deadline, turns)[p], ends[w.from + p])
  }

  /** Every executed wave was worked by its crews under some schedule. */
  ghost predicate Worked(r: RunRecord)
    requires r.Shaped()
  {
    forall k :: 0 <= k < |r.waves| ==>
      IsWave(r.phases, r.waves[k]) && exists deadline, turns :: WaveWorked(r.phases, r.ends, r.waves[k], deadline, turns)
  }

  lemma {:induction false} WaveOf(waves: seq<Wave>, till: nat, p: nat) returns (k: nat)
    requires Cuts(waves, 0, till) && p < till
    ensures k < |waves| && waves[k].from <= p < waves[k].till
    decreases |waves|
  {
    var last := |waves| - 1;
    if waves[last].from <= p {
      k := last;
    } else {
      k := WaveOf(waves[..last], waves[last].from, p);
    }
  }

  lemma CrewSendsWithinRequests(phases: seq<Phase>, deadline: nat, turns: seq<Turn>, k: nat)
    requires k < |phases|
    ensures Work(phases, deadline, turns)[k].sent <= phases[k].Requests()
  {
    EveryScheduleIsOrderly(phases, deadline, turns);
    OrderlySendsWithinRequests(Work(phases, deadline, turns)[k], phases[k]);
  }

  lemma OrderlySendsWithinRequests(c: Crew, phase: Phase)
    requires Orderly(c, phase)
    ensures c.sent <= phase.Requests()
  {
  }

  lemma WaveSendsWithinRequests(phases: seq<Phase>, ends: seq<PhaseEnd>, w: Wave, deadline: nat, turns: seq<Turn>, p: nat)
    requires w.from <= p < w.till <= |phases| && |ends| == |phases| && WaveWorked(phases, ends, w, deadline, turns)
    ensures ends[p].sent <= phases[p].Requests()
  {
    CrewSendsWithinRequests(Slice(phases, w), deadline, turns, p - w.from);
  }

  lemma PhaseSendsWithinRequests(r: RunRecord, p: nat)
    requires r.Valid() && Worked(r) && p < r.Till()
    ensures r.ends[p].sent <= r.phases[p].Requests()
  {
    var k := WaveOf(r.waves, r.Till(), p);
    var deadline, turns :| WaveWorked(r.phases, r.ends, r.waves[k], deadline, turns);
    WaveSendsWithinRequests(r.phases, r.ends, r.waves[k], deadline, turns, p);
  }

  lemma {:induction false} RunSendsWithinRequests(r: RunRecord, n: nat)
    requires r.Valid() && Worked(r) && n <= r.Till()
    ensures Sent(r.ends, 0, n) <= Requests(r.phases[..n])
    decreases n
  {
    if n > 0 {
      RunSendsWithinRequests(r, n - 1);
      PhaseSendsWithinRequests(r, n - 1);
      PrefixGrows(r.phases, n - 1);
    }
  }

  // ---------------------------------------------------------------- repeated runs

  predicate AllValid(runs: seq<RunRecord>) {
    forall k :: 0 <= k < |runs| ==> runs[k].Valid()
  }

  /** The budget in the file after these runs of one scenario. */
  function File(runs: seq<RunRecord>): Budget
    requires AllValid(runs)
  {
    if runs == [] then NO_BUDGET else runs[|runs| - 1].FileAfter(File(runs[..|runs| - 1]))
  }

  function ReallySent(runs: seq<RunRecord>): nat
    requires AllValid(runs)
  {
    if runs == [] then 0
    else
      var r := runs[|runs| - 1];
      ReallySent(runs[..|runs| - 1]) + Sent(r.ends, 0, r.Till())
  }

  /** Requests one run sent, or had found in the file, that the file does not show afterwards. */
  function LostBy(r: RunRecord, file: nat): nat
    requires r.Valid()
  {
    if r.TornOff() then file + Sent(r.ends, 0, r.Till())
    else (if r.Overwrites() then file else 0) + Sent(r.ends, r.RecordedTill(), r.Till())
  }

  function Lost(runs: seq<RunRecord>): nat
    requires AllValid(runs)
  {
    if runs == [] then 0
    else
      var before := runs[..|runs| - 1];
      Lost(before) + LostBy(runs[|runs| - 1], File(before).sent)
  }

  /** The run was checked against the budget it read and worked by its crews. */
  ghost predicate CheckedAgainst(limits: LoadLimits, r: RunRecord, file: Budget)
    requires r.Shaped()
  {
    Acceptable(r.phases, limits, ReadBudget(file, r.readable).sent) && Worked(r)
  }

  /** Each run was checked when it started; a refused run leaves no record. */
  ghost predicate Checked(limits: LoadLimits, runs: seq<RunRecord>)
    requires AllValid(runs)
  {
    if runs == [] then true
    else
      var before := runs[..|runs| - 1];
      Checked(limits, before) && CheckedAgainst(limits, runs[|runs| - 1], File(before))
  }

  lemma {:induction false} PrefixWithin(phases: seq<Phase>, n: nat)
    requires n <= |phases|
    ensures Requests(phases[..n]) <= Requests(phases)
    decreases |phases| - n
  {
    if n < |phases| {
      PrefixGrows(phases, n);
      PrefixWithin(phases, n + 1);
    } else {
      assert phases[..n] == phases;
    }
  }

  lemma OneRunStaysWithin(limits: LoadLimits, r: RunRecord, file: Budget)
    requires r.Valid() && CheckedAgainst(limits, r, file) && file.sent <= limits.maxRequests
    ensures r.FileAfter(file).sent <= limits.maxRequests
  {
    RunSendsWithinRequests(r, r.RecordedTill());
    PrefixWithin(r.phases, r.RecordedTill());
  }

  lemma OneRunBalances(r: RunRecord, file: Budget)
    requires r.Valid()
    ensures r.FileAfter(file).sent + LostBy(r, file.sent) == file.sent + Sent(r.ends, 0, r.Till())
  {
    SentSplits(r.ends, r.RecordedTill(), r.Till());
  }

  /** Over any number of runs with the same limits the budget on disk stays within
      `max_requests`, and the requests really sent exceed it by exactly the lost ones. */
  lemma {:induction false} BudgetOverRepeatedRuns(limits: LoadLimits, runs: seq<RunRecord>)
    requires AllValid(runs) && Checked(limits, runs)
    ensures File(runs).sent <= limits.maxRequests
    ensures ReallySent(runs) == File(runs).sent + Lost(runs)
  {
    if runs != [] {
      var r, before := runs[|runs| - 1], runs[..|runs| - 1];
      BudgetOverRepeatedRuns(limits, before);
      OneRunStaysWithin(limits, r, File(before));
      OneRunBalances(r, File(before));
    }
  }

  /** A run loses nothing exactly when a last wave that did not reach the file sent nothing,
      a broken write had nothing to lose at all, and a run that could not read the budget and
      stored its own had nothing to overwrite. */
  lemma RunLosesNothingExactly(r: RunRecord, file: nat)
    requires r.Valid()
    ensures LostBy(r, file) == 0 <==>
      && (!r.Completed() ==> Sent(r.ends, r.RecordedTill(), r.Till()) == 0)
      && (r.TornOff() ==> file + Sent(r.ends, 0, r.RecordedTill()) == 0)
      && (r.Overwrites() ==> file == 0)
  {
    SentSplits(r.ends, r.RecordedTill(), r.Till());
  }

  ghost predicate NothingOverwritten(runs: seq<RunRecord>)
    requires AllValid(runs)
  {
    forall k :: 0 <= k < |runs| && runs[k].Overwrites() ==> File(runs[..k]).sent == 0
  }

  lemma OneMoreOverwritesNothing(runs: seq<RunRecord>)
    requires AllValid(runs) && runs != []
    ensures
      var r, before := runs[|runs| - 1], runs[..|runs| - 1];
      NothingOverwritten(runs) <==> NothingOverwritten(before) && (r.Overwrites() ==> File(before).sent == 0)
  {
    var before := runs[..|runs| - 1];
    forall k | 0 <= k < |before| ensures before[..k] == runs[..k] {
    }
  }

  /** Over runs that completed, everything sent is in the budget exactly when every run that
      could not read the file, and stored a budget of its own, found nothing in it. So
      completed runs that all read the budget lose nothing. */
  lemma {:induction false} CompletedRunsLoseNothingExactly(runs: seq<RunRecord>)
    requires AllValid(runs) && forall k :: 0 <= k < |runs| ==> runs[k].Completed()
    ensures Lost(runs) == 0 <==> NothingOverwritten(runs)
    ensures (forall k :: 0 <= k < |runs| ==> runs[k].readable) ==> Lost(runs) == 0
  {
    if runs != [] {
      CompletedRunsLoseNothingExactly(runs[..|runs| - 1]);
      RunLosesNothingExactly(runs[|runs| - 1], File(runs[..|runs| - 1]).sent);
      OneMoreOverwritesNothing(runs);
    }
  }

  // ---------------------------------------------------------------- what completed runs counted

  /** The requests of a phase that somebody works on. */
  function DueOf(p: Phase): nat { if p.Workers() == 0 then 0 else p.Requests() }

  function Due(phases: seq<Phase>, n: nat): nat
    requires n <= |phases|
  {
    if n == 0 then 0 else Due(phases, n - 1) + DueOf(phases[n - 1])
  }

  function AllDue(runs: seq<RunRecord>): nat {
    if runs == [] then 0
    else AllDue(runs[..|runs| - 1]) + Due(runs[|runs| - 1].phases, |runs[|runs| - 1].phases|)
  }

  lemma {:induction false} NobodyClaims(phases: seq<Phase>, deadline: nat, turns: seq<Turn>, k: nat)
    requires k < |phases| && phases[k].Workers() == 0
    ensures Work(phases, deadline, turns)[k].claimed == []
  {
    if turns != [] {
      EveryScheduleIsOrderly(phases, deadline, turns[..|turns| - 1]);
      assert Orderly(Work(phases, deadline, turns[..|turns| - 1])[k], phases[k]);
      NobodyClaims(phases, deadline, turns[..|turns| - 1], k);
    }
  }

  lemma CrewCountsItsDue(phases: seq<Phase>, deadline: nat, turns: seq<Turn>, k: nat)
    requires k < |phases| && AllReturned(Work(phases, deadline, turns)[k])
    ensures
      var c := Work(phases, deadline, turns)[k];
      c.sent + c.refused == DueOf(phases[k])
  {
    EveryIndexExactlyOnce(phases, deadline, turns, k);
    if phases[k].Workers() == 0 {
      NobodyClaims(phases, deadline, turns, k);
    }
  }

  lemma PhaseCountsItsDue(phases: seq<Phase>, ends: seq<PhaseEnd>, w: Wave, deadline: nat, turns: seq<Turn>, p: nat)
    requires w.from <= p < w.till <= |phases| && |ends| == |phases| && WaveWorked(phases, ends, w, deadline, turns)
    requires ends[p].ok
    ensures ends[p].sent + ends[p].refused == DueOf(phases[p])
  {
    CrewCountsItsDue(Slice(phases, w), deadline, turns, p - w.from);
  }

  lemma EndCountsItsDue(r: RunRecord, p: nat)
    requires r.Valid() && Worked(r) && r.Completed() && p < |r.phases|
    ensures r.ends[p].sent + r.ends[p].refused == DueOf(r.phases[p])
  {
    var k := WaveOf(r.waves, r.Till(), p);
    assert r.Recorded(k);
    var deadline, turns :| WaveWorked(r.phases, r.ends, r.waves[k], deadline, turns);
    PhaseCountsItsDue(r.phases, r.ends, r.waves[k], deadline, turns, p);
  }

  lemma {:induction false} EndsCountTheirDue(r: RunRecord, n: nat)
    requires r.Valid() && Worked(r) && r.Completed() && n <= |r.phases|
    ensures Sent(r.ends, 0, n) + NotSent(r.ends, 0, n) == Due(r.phases, n)
    decreases n
  {
    if n > 0 {
      EndsCountTheirDue(r, n - 1);
      EndCountsItsDue(r, n - 1);
    }
  }

  /** Over completed runs that all read the budget, it accounts for every request of every
      plan: each was sent or refused, and counted once. */
  lemma {:induction false} CompletedRunsCountEverything(limits: LoadLimits, runs: seq<RunRecord>)
    requires AllValid(runs) && Checked(limits, runs)
    requires forall k :: 0 <= k < |runs| ==> runs[k].Completed() && runs[k].readable
    ensures File(runs).sent + File(runs).refused == AllDue(runs)
  {
    if runs != [] {
      var r, before := runs[|runs| - 1], runs[..|runs| - 1];
      CompletedRunsCountEverything(limits, before);
      EndsCountTheirDue(r, |r.phases|);
    }
  }

  // ---------------------------------------------------------------- runs that lose requests

  const BURST := [Phase("burst", None, Invoke(1, 1))]
  const ONE := LoadLimits(1, 1, 1)
  const TURN := Turn(0, 0, 0)

  lemma OneMoreTurn(turns: seq<Turn>, c: Crew)
    requires Work(BURST, 1000, turns) == [c]
    ensures Work(BURST, 1000, turns + [TURN]) == [Step(c, 1, 1000, 0, 0)]
  {
    assert (turns + [TURN])[..|turns|] == turns;
  }

  /** One worker takes the one request, sends it and returns. */
  lemma OneRequestIsSent() returns (turns: seq<Turn>)
    ensures Work(BURST, 1000, turns) == [Crew(2, 1, 0, [Returned], [0])]
  {
    var idle := Crew(0, 0, 0, [Looping], []);
    assert Hire(BURST[0]) == idle;
    assert Work(BURST, 1000, []) == [idle];
    OneMoreTurn([], idle);
    var holding := Step(idle, 1, 1000, 0, 0);
    assert holding == Crew(1, 0, 0, [Holding(0)], [0]);
    OneMoreTurn([] + [TURN], holding);
    var sending := Step(holding, 1, 1000, 0, 0);
    assert sending == Crew(1, 1, 0, [Sending(0)], [0]);
    OneMoreTurn([] + [TURN] + [TURN], sending);
    var looping := Step(sending, 1, 1000, 0, 0);
    assert looping == Crew(1, 1, 0, [Looping], [0]);
    OneMoreTurn([] + [TURN] + [TURN] + [TURN], looping);
    turns := [] + [TURN] + [TURN] + [TURN] + [TURN];
    assert Step(looping, 1, 1000, 0, 0) == Crew(2, 1, 0, [Returned], [0]);
  }

  /** The one wave of the burst. */
  function BurstRun(readable: bool, ok: bool, write: Write): RunRecord {
    RunRecord(BURST, readable, [PhaseEnd(1, 0, ok)], [Wave(0, 1)], [write])
  }

  lemma BurstIsShaped(readable: bool, ok: bool, write: Write)
    ensures
      var r := BurstRun(readable, ok, write);
      r.Shaped() && r.Till() == 1 && IsWave(BURST, Wave(0, 1)) && (r.EndedWell(0) <==> ok)
  {
    assert [Wave(0, 1)][..0] == [];
    assert BurstRun(readable, ok, write).Shaped();
    assert [PhaseEnd(1, 0, ok)][0].ok == ok;
  }

  lemma BurstIsWorked(r: RunRecord, ok: bool)
    requires r.Shaped() && IsWave(BURST, Wave(0, 1))
    requires r.phases == BURST && r.ends == [PhaseEnd(1, 0, ok)] && r.waves == [Wave(0, 1)]
    ensures Worked(r)
  {
    var turns := OneRequestIsSent();
    assert Slice(BURST, Wave(0, 1)) == BURST;
    assert WaveWorked(BURST, r.ends, Wave(0, 1), 1000, turns);
  }

  lemma BurstIsAcceptable()
    ensures Acceptable(BURST, ONE, 0)
  {
    assert BURST[..0] == [];
    assert Requests(BURST) == 1 && Workers(BURST) == 1;
    forall w: Wave | IsWave(BURST, w) ensures Fits(BURST, w, ONE) {
      assert Slice(BURST, w) == BURST;
    }
  }

  /** The burst is checked whenever the budget it reads is empty, sends one request, and
      leaves it in the file only when its wave ended well and its budget was stored. */
  lemma BurstIsARun(readable: bool, ok: bool, write: Write, file: Budget)
    requires ReadBudget(file, readable) == NO_BUDGET
    ensures
      var r := BurstRun(readable, ok, write);
      && r.Valid() && CheckedAgainst(ONE, r, file) && Sent(r.ends, 0, r.Till()) == 1
      && (r.Completed() <==> ok && write.Stored?)
      && (write.Refused? ==> r.FileAfter(file) == file)
  {
    var r := BurstRun(readable, ok, write);
    BurstIsShaped(readable, ok, write);
    BurstIsWorked(r, ok);
    BurstIsAcceptable();
    assert Sent(r.ends, 0, 0) == 0;
  }

  lemma AllButTheLast(runs: seq<RunRecord>, r: RunRecord)
    ensures (runs + [r])[..|runs + [r]| - 1] == runs && (runs + [r])[|runs + [r]| - 1] == r
  {
  }

  lemma OneMoreIsValid(runs: seq<RunRecord>, r: RunRecord)
    requires AllValid(runs) && r.Valid()
    ensures AllValid(runs + [r])
  {
  }

  lemma OneMoreFile(runs: seq<RunRecord>, r: RunRecord)
    requires AllValid(runs) && AllValid(runs + [r]) && r.Valid()
    ensures File(runs + [r]) == r.FileAfter(File(runs))
  {
    AllButTheLast(runs, r);
  }

  lemma OneMoreSent(runs: seq<RunRecord>, r: RunRecord)
    requires AllValid(runs) && AllValid(runs + [r]) && r.Valid()
    ensures ReallySent(runs + [r]) == ReallySent(runs) + Sent(r.ends, 0, r.Till())
  {
    AllButTheLast(runs, r);
  }

  lemma OneMoreChecked(limits: LoadLimits, runs: seq<RunRecord>, r: RunRecord)
    requires AllValid(runs) && AllValid(runs + [r]) && r.Valid() && Checked(limits, runs) && CheckedAgainst(limits, r, File(runs))
    ensures Checked(limits, runs + [r])
  {
    AllButTheLast(runs, r);
  }

  /** One more run on what earlier ones left. */
  lemma OneMoreRun(limits: LoadLimits, runs: seq<RunRecord>, r: RunRecord)
    requires AllValid(runs) && Checked(limits, runs) && r.Valid() && CheckedAgainst(limits, r, File(runs))
    ensures AllValid(runs + [r]) && Checked(limits, runs + [r]) && File(runs + [r]) == r.FileAfter(File(runs))
    ensures ReallySent(runs + [r]) == ReallySent(runs) + Sent(r.ends, 0, r.Till())
  {
    OneMoreIsValid(runs, r);
    OneMoreFile(runs, r);
    OneMoreSent(runs, r);
    OneMoreChecked(limits, runs, r);
  }

  /** Runs that were all checked, and still sent more than the limit. */
  ghost predicate Exceed(limits: LoadLimits, runs: seq<RunRecord>) {
    AllValid(runs) && Checked(limits, runs) && ReallySent(runs) > limits.maxRequests
  }

  lemma TwoRunsExceed(first: RunRecord, second: RunRecord)
    requires first.Valid() && CheckedAgainst(ONE, first, NO_BUDGET) && Sent(first.ends, 0, first.Till()) == 1
    requires second.Valid() && CheckedAgainst(ONE, second, first.FileAfter(NO_BUDGET)) && Sent(second.ends, 0, second.Till()) == 1
    ensures Exceed(ONE, [first] + [second])
  {
    OneMoreRun(ONE, [], first);
    assert [] + [first] == [first];
    OneMoreRun(ONE, [first], second);
  }

  /** Whether the wave ended in an error or only its budget could not be written, it can be
      repeated beyond the limit: its request was sent but never reached the budget. */
  lemma LostWavesEscapeTheLimit(ok: bool)
    ensures exists runs :: Exceed(ONE, runs) && forall k :: 0 <= k < |runs| ==> runs[k] == BurstRun(true, ok, Refused)
  {
    var r := BurstRun(true, ok, Refused);
    BurstIsARun(true, ok, Refused, NO_BUDGET);
    TwoRunsExceed(r, r);
    var runs := [r] + [r];
    assert forall k :: 0 <= k < |runs| ==> runs[k] == r;
  }

  predicate CompletedAndStored(r: RunRecord) {
    r.Valid() && r.Completed() && forall k :: 0 <= k < |r.writes| ==> r.writes[k].Stored?
  }

  lemma BurstIsStored(readable: bool)
    requires BurstRun(readable, true, Stored).Valid() && BurstRun(readable, true, Stored).Completed()
    ensures CompletedAndStored(BurstRun(readable, true, Stored))
  {
  }

  /** Two runs that both complete with every write stored send more than the limit, because
      the second could not read what the first had stored. */
  lemma UnreadBudgetEscapesTheLimit()
    ensures exists runs :: Exceed(ONE, runs) && forall k :: 0 <= k < |runs| ==> CompletedAndStored(runs[k])
  {
    var first, second := BurstRun(true, true, Stored), BurstRun(false, true, Stored);
    BurstIsARun(true, true, Stored, NO_BUDGET);
    BurstIsARun(false, true, Stored, first.FileAfter(NO_BUDGET));
    BurstIsStored(true);
    BurstIsStored(false);
    TwoRunsExceed(first, second);
    var runs := [first] + [second];
    assert forall k :: 0 <= k < |runs| ==> CompletedAndStored(runs[k]);
  }
}
