/** The load harness's plan check and the workers it bounds
    (apps/load/src/plan.rs, apps/load/src/limits.rs, apps/load/src/run.rs). */
module LoadPlanModel {
  import opened Prelude

  datatype PhaseKind =
    | Invoke(concurrency: nat, requests: nat)
    | IdleUntilZero(timeout: nat)
    | Pause(length: nat)

  datatype Phase = Phase(name: string, wave: Option<nat>, kind: PhaseKind) {
    function Workers(): nat { if kind.Invoke? then kind.concurrency else 0 }
    function Requests(): nat { if kind.Invoke? then kind.requests else 0 }
  }

  /** Only a phase that invokes has workers and requests. */
  lemma PhaseCounts(p: Phase)
    ensures p.kind.Invoke? ==> p.Workers() == p.kind.concurrency && p.Requests() == p.kind.requests
    ensures !p.kind.Invoke? ==> p.Workers() == 0 && p.Requests() == 0
  {
  }

  // ---------------------------------------------------------------- limits

  const CEILING_CONCURRENCY := 64
  const CEILING_REQUESTS := 2000
  const CEILING_DURATION_SECONDS := 1800

  datatype LoadLimits = LoadLimits(maxConcurrency: nat, maxRequests: nat, maxDurationSeconds: nat)

  datatype PlanError =
    | BadConcurrency | BadRequests | BadDuration
    | TooWide(name: string, workers: nat)
    | TooMany(total: nat)

  function ValidateLimits(l: LoadLimits): Result<(), PlanError> {
    if l.maxConcurrency == 0 || l.maxConcurrency > CEILING_CONCURRENCY then Failure(BadConcurrency)
    else if l.maxRequests == 0 || l.maxRequests > CEILING_REQUESTS then Failure(BadRequests)
    else if l.maxDurationSeconds == 0 || l.maxDurationSeconds > CEILING_DURATION_SECONDS then Failure(BadDuration)
    else Success(())
  }

  /** Limits are accepted within 1 to 64 at once, 1 to 2000 requests and 1 to 1800 seconds; the
      first that is not says why. */
  lemma LimitsExactly(l: LoadLimits)
    ensures ValidateLimits(l).Success? <==>
      1 <= l.maxConcurrency <= 64 && 1 <= l.maxRequests <= 2000 && 1 <= l.maxDurationSeconds <= 1800
    ensures ValidateLimits(l) == Failure(BadConcurrency) <==> !(1 <= l.maxConcurrency <= 64)
    ensures ValidateLimits(l) == Failure(BadRequests) <==> 1 <= l.maxConcurrency <= 64 && !(1 <= l.maxRequests <= 2000)
  {
  }

  // ---------------------------------------------------------------- waves

  function Workers(phases: seq<Phase>): nat {
    if phases == [] then 0 else Workers(phases[..|phases| - 1]) + phases[|phases| - 1].Workers()
  }

  function Requests(phases: seq<Phase>): nat {
    if phases == [] then 0 else Requests(phases[..|phases| - 1]) + phases[|phases| - 1].Requests()
  }

  datatype Wave = Wave(from: nat, till: nat)

  /** Phases `from..till` run at once: a phase without a wave alone, otherwise a longest
      stretch of consecutive phases with the same wave. */
  predicate IsWave(phases: seq<Phase>, w: Wave) {
    && w.from < w.till <= |phases|
    && (forall k :: w.from <= k < w.till ==> phases[k].wave == phases[w.from].wave)
    && (phases[w.from].wave.None? ==> w.till == w.from + 1)
    && (phases[w.from].wave.Some? ==>
          && (w.till == |phases| || phases[w.till].wave != phases[w.from].wave)
          && (w.from == 0 || phases[w.from - 1].wave != phases[w.from].wave))
  }

  /** The waves cut `phases[from..]` into consecutive pieces, none left out. */
  predicate Cuts(waves: seq<Wave>, from: nat, till: nat) {
    if waves == [] then from == till
    else waves[|waves| - 1].till == till && Cuts(waves[..|waves| - 1], from, waves[|waves| - 1].from)
  }

  predicate AreWaves(phases: seq<Phase>, waves: seq<Wave>) {
    forall k :: 0 <= k < |waves| ==> IsWave(phases, waves[k])
  }

  /** The end of the wave that starts at `i`. */
  method WaveEnd(phases: seq<Phase>, i: nat) returns (j: nat)
    requires i < |phases|
    requires i == 0 || phases[i].wave.None? || phases[i - 1].wave != phases[i].wave
    ensures IsWave(phases, Wave(i, j))
    ensures j == |phases| || phases[j].wave.None? || phases[j - 1].wave != phases[j].wave
  {
    var wave := phases[i].wave;
    j := i + 1;
    while wave.Some? && j < |phases| && phases[j].wave == wave
      invariant i < j <= |phases|
      invariant wave.None? ==> j == i + 1
      invariant forall k :: i <= k < j ==> phases[k].wave == wave
    {
      j := j + 1;
    }
  }

  function Slice(phases: seq<Phase>, w: Wave): seq<Phase>
    requires w.from <= w.till <= |phases|
  {
    phases[w.from..w.till]
  }

  predicate Fits(phases: seq<Phase>, w: Wave, limits: LoadLimits)
    requires w.from <= w.till <= |phases|
  {
    Workers(Slice(phases, w)) <= limits.maxConcurrency
  }

  /** There is only one way to cut a plan into waves. */
  lemma {:induction false} WavesAreUnique(phases: seq<Phase>, a: seq<Wave>, b: seq<Wave>, till: nat)
    requires till <= |phases|
    requires Cuts(a, 0, till) && AreWaves(phases, a) && Cuts(b, 0, till) && AreWaves(phases, b)
    ensures a == b
    decreases |a|
  {
    if a != [] && b != [] {
      var x, y := a[|a| - 1], b[|b| - 1];
      assert IsWave(phases, x) && IsWave(phases, y) && x.till == y.till == till;
      SameEndSameWave(phases, x, y);
      WavesAreUnique(phases, a[..|a| - 1], b[..|b| - 1], x.from);
      assert a == a[..|a| - 1] + [x] && b == b[..|b| - 1] + [y];
    }
  }

  lemma SameEndSameWave(phases: seq<Phase>, x: Wave, y: Wave)
    requires IsWave(phases, x) && IsWave(phases, y) && x.till == y.till
    ensures x == y
  {
    StartsNoLater(phases, x, y);
    StartsNoLater(phases, y, x);
  }

  lemma StartsNoLater(phases: seq<Phase>, x: Wave, y: Wave)
    requires IsWave(phases, x) && IsWave(phases, y) && x.till == y.till
    ensures x.from <= y.from
  {
    var last := phases[x.till - 1];
    assert last.wave == phases[x.from].wave == phases[y.from].wave;
    var before := if x.from > 0 then phases[x.from - 1].wave else None;
  }

  /** What an accepted plan promises. */
  ghost predicate Acceptable(phases: seq<Phase>, limits: LoadLimits, alreadySent: nat) {
    && ValidateLimits(limits).Success?
    && (forall w: Wave :: IsWave(phases, w) ==> Fits(phases, w, limits))
    && alreadySent + Requests(phases) <= limits.maxRequests
  }

  lemma PrefixGrows(phases: seq<Phase>, k: nat)
    requires k < |phases|
    ensures Requests(phases[..k + 1]) == Requests(phases[..k]) + phases[k].Requests()
  {
    assert phases[..k + 1][..k] == phases[..k];
  }

  /** A wave that ends inside a piece is that piece. */
  lemma NoWaveEndsInside(phases: seq<Phase>, piece: Wave, w: Wave)
    requires IsWave(phases, piece) && IsWave(phases, w) && piece.from < w.till <= piece.till
    ensures w == piece
  {
    var last := phases[w.till - 1].wave;
    if w.till == piece.till {
      SameEndSameWave(phases, w, piece);
    }
  }

  ghost predicate EarlierFit(phases: seq<Phase>, limits: LoadLimits, i: nat) {
    forall w: Wave :: IsWave(phases, w) && w.till <= i ==> Fits(phases, w, limits)
  }

  lemma OneMoreFits(phases: seq<Phase>, limits: LoadLimits, piece: Wave)
    requires IsWave(phases, piece) && Fits(phases, piece, limits) && EarlierFit(phases, limits, piece.from)
    ensures EarlierFit(phases, limits, piece.till)
  {
    forall w: Wave | IsWave(phases, w) && w.till <= piece.till ensures Fits(phases, w, limits) {
      if piece.from < w.till {
        NoWaveEndsInside(phases, piece, w);
      }
    }
  }

  lemma SliceGrows(phases: seq<Phase>, i: nat, k: nat)
    requires i <= k < |phases|
    ensures Workers(phases[i..k + 1]) == Workers(phases[i..k]) + phases[k].Workers()
  {
    assert phases[i..k + 1][..k - i] == phases[i..k];
  }

  lemma NothingInAnEmptySlice(phases: seq<Phase>, i: nat)
    requires i <= |phases|
    ensures Workers(phases[i..i]) == 0
  {
  }

  /** The workers and the requests of the phases of one wave. */
  method WaveTotals(phases: seq<Phase>, i: nat, j: nat) returns (concurrent: nat, requests: nat)
    requires i <= j <= |phases|
    ensures concurrent == Workers(Slice(phases, Wave(i, j)))
    ensures Requests(phases[..j]) == Requests(phases[..i]) + requests
  {
    concurrent, requests := 0, 0;
    NothingInAnEmptySlice(phases, i);
    for k := i to j
      invariant concurrent == Workers(phases[i..k])
      invariant Requests(phases[..k]) == Requests(phases[..i]) + requests
    {
      SliceGrows(phases, i, k);
      PrefixGrows(phases, k);
      if phases[k].kind.Invoke? {
        concurrent := concurrent + phases[k].kind.concurrency;
        requests := requests + phases[k].kind.requests;
      }
    }
  }

  /** The plan is accepted exactly when it is `Acceptable`; the error names the first
      wave that is too wide, or the total when every wave fits. */
  method CheckPlan(phases: seq<Phase>, limits: LoadLimits, alreadySent: nat)
    returns (r: Result<(), PlanError>, ghost waves: seq<Wave>)
    ensures r.Success? <==> Acceptable(phases, limits, alreadySent)
    ensures r.Success? ==> Cuts(waves, 0, |phases|) && AreWaves(phases, waves)
    ensures ValidateLimits(limits).Failure? ==> r == ValidateLimits(limits)
    ensures ValidateLimits(limits).Success? && r.Failure? ==> r.error.TooWide? || r.error.TooMany?
    ensures r.Failure? && r.error.TooWide? ==>
      exists w: Wave :: IsWave(phases, w) && !Fits(phases, w, limits) && EarlierFit(phases, limits, w.from)
                        && r.error == TooWide(phases[w.from].name, Workers(Slice(phases, w)))
    ensures r.Failure? && r.error.TooMany? ==>
      EarlierFit(phases, limits, |phases|) && r.error.total == alreadySent + Requests(phases) > limits.maxRequests
  {
    waves := [];
    var valid := ValidateLimits(limits);
    if valid.Failure? {
      return valid, waves;
    }
    var total := alreadySent;
    var i := 0;
    while i < |phases|
      invariant i <= |phases| && Cuts(waves, 0, i) && AreWaves(phases, waves)
      invariant i == 0 || i == |phases| || phases[i].wave.None? || phases[i - 1].wave != phases[i].wave
      invariant total == alreadySent + Requests(phases[..i])
      invariant EarlierFit(phases, limits, i)
    {
      var j := WaveEnd(phases, i);
      var concurrent, requests := WaveTotals(phases, i, j);
      total := total + requests;
      ghost var piece := Wave(i, j);
      if concurrent > limits.maxConcurrency {
        assert !Fits(phases, piece, limits);
        return Failure(TooWide(phases[i].name, concurrent)), waves;
      }
      OneMoreFits(phases, limits, piece);
      waves := waves + [piece];
      i := j;
    }
    assert phases[..|phases|] == phases;
    if total > limits.maxRequests {
      return Failure(TooMany(total)), waves;
    }
    return Success(()), waves;
  }
}
