/** One behaviour entry, and what its queues and moments say about the visits it has seen. */
module Baselines {
  import opened RateWindow
  import opened SlidingQueue
  import opened Welford
  import opened Numbers

  const NANOS := 1_000_000_000

  function Secs(n: nat): nat {
    n * NANOS
  }

  datatype BehaviorState = BehaviorState(
    rps: Moments, body: Moments,
    hits: seq<Stamped<()>>, objectIds: seq<Stamped<string>>, attempts: seq<Stamped<string>>)

  const FRESH := BehaviorState(EMPTY, EMPTY, [], [], [])

  /** The windows and the cap that apply to one entry, in clock ticks and in ids. */
  datatype Settings = Settings(objectWindow: nat, authWindow: nat, maxIds: nat)

  datatype Visit =
    | Request(now: nat, bodySize: nat)
    | Objects(now: nat, ids: seq<string>)
    | Attempt(now: nat, subject: string)

  /** The number of requests within the last minute, this one included. */
  function CurrentRps(hits: seq<Stamped<()>>, now: nat): real {
    |Purge(hits, now, Secs(60)) + Stamp(now, [()])| as real
  }

  function Apply(st: BehaviorState, v: Visit, s: Settings): BehaviorState {
    match v
    case Request(now, bodySize) =>
      BehaviorState(
        Update(st.rps, CurrentRps(st.hits, now)),
        Update(st.body, bodySize as real),
        Purge(st.hits, now, Secs(60)) + Stamp(now, [()]),
        Purge(st.objectIds, now, s.objectWindow),
        st.attempts)
    case Objects(now, ids) =>
      st.(objectIds := Last(Purge(st.objectIds, now, s.objectWindow) + Stamp(now, ids), s.maxIds))
    case Attempt(now, subject) =>
      st.(attempts := Purge(st.attempts, now, s.authWindow) + Stamp(now, [subject]))
  }

  function Replay(log: seq<Visit>, s: Settings): BehaviorState {
    if log == [] then FRESH else Apply(Replay(log[..|log| - 1], s), log[|log| - 1], s)
  }

  // The history, item by item.

  function Hits(log: seq<Visit>): seq<Stamped<()>> {
    if log == [] then []
    else Hits(log[..|log| - 1]) + if log[|log| - 1].Request? then Stamp(log[|log| - 1].now, [()]) else []
  }

  function ObjectIds(log: seq<Visit>): seq<Stamped<string>> {
    if log == [] then []
    else ObjectIds(log[..|log| - 1]) +
         if log[|log| - 1].Objects? then Stamp(log[|log| - 1].now, log[|log| - 1].ids) else []
  }

  function Attempts(log: seq<Visit>): seq<Stamped<string>> {
    if log == [] then []
    else Attempts(log[..|log| - 1]) +
         if log[|log| - 1].Attempt? then Stamp(log[|log| - 1].now, [log[|log| - 1].subject]) else []
  }

  function BodySizes(log: seq<Visit>): seq<real> {
    if log == [] then []
    else BodySizes(log[..|log| - 1]) + if log[|log| - 1].Request? then [log[|log| - 1].bodySize as real] else []
  }

  /** For each request, how many requests had come within the minute up to it. */
  function RpsSamples(log: seq<Visit>): seq<real> {
    if log == [] then []
    else RpsSamples(log[..|log| - 1]) +
         if log[|log| - 1].Request? then [|InWindow(Hits(log), log[|log| - 1].now, Secs(60))| as real] else []
  }

  function LastRequest(log: seq<Visit>): nat {
    if log == [] then 0 else if log[|log| - 1].Request? then log[|log| - 1].now else LastRequest(log[..|log| - 1])
  }

  /** When the object ids were last purged: requests do it too. */
  function LastPurge(log: seq<Visit>): nat {
    if log == [] then 0 else if log[|log| - 1].Attempt? then LastPurge(log[..|log| - 1]) else log[|log| - 1].now
  }

  function LastAttempt(log: seq<Visit>): nat {
    if log == [] then 0 else if log[|log| - 1].Attempt? then log[|log| - 1].now else LastAttempt(log[..|log| - 1])
  }

  ghost predicate InOrder(log: seq<Visit>, clock: nat) {
    && (forall i, j :: 0 <= i < j < |log| ==> log[i].now <= log[j].now)
    && (forall v :: v in log ==> v.now <= clock)
  }

  lemma InOrderPrefix(log: seq<Visit>, clock: nat)
    requires InOrder(log, clock) && log != []
    ensures InOrder(log[..|log| - 1], log[|log| - 1].now) && log[|log| - 1].now <= clock
  {
    var before, v := log[..|log| - 1], log[|log| - 1];
    assert v in log;
    forall x | x in before
      ensures x.now <= v.now
    {
      var i :| 0 <= i < |before| && before[i] == x;
    }
  }

  ghost predicate OrderedUpTo<T>(h: seq<Stamped<T>>, clock: nat) {
    Ordered(h) && forall i :: 0 <= i < |h| ==> h[i].0 <= clock
  }

  lemma StampedLast<T>(h: seq<Stamped<T>>, now: nat, items: seq<T>)
    requires OrderedUpTo(h, now)
    ensures OrderedUpTo(h + Stamp(now, items), now)
  {
  }

  lemma {:induction false} HistoryInOrder(log: seq<Visit>, clock: nat)
    requires InOrder(log, clock)
    ensures OrderedUpTo(Hits(log), clock) && OrderedUpTo(ObjectIds(log), clock) && OrderedUpTo(Attempts(log), clock)
    ensures LastRequest(log) <= clock && LastPurge(log) <= clock && LastAttempt(log) <= clock
  {
    if log == [] {
    } else {
      var before, v := log[..|log| - 1], log[|log| - 1];
      InOrderPrefix(log, clock);
      HistoryInOrder(before, v.now);
      HistoryAppend(before, v);
      assert log == before + [v];
      match v
      case Request(now, _) => StampedLast(Hits(before), now, [()]);
      case Objects(now, ids) => StampedLast(ObjectIds(before), now, ids);
      case Attempt(now, subject) => StampedLast(Attempts(before), now, [subject]);
    }
  }

  lemma FoldAppend(xs: seq<real>, x: real)
    ensures Fold(xs + [x]) == Update(Fold(xs), x)
  {
    assert (xs + [x])[..|xs|] == xs;
  }

  /** The minute's request count is read off the full history. */
  lemma HitsAfterRequest(before: seq<Visit>, now: nat)
    requires InOrder(before, now)
    ensures Purge(InWindow(Hits(before), LastRequest(before), Secs(60)), now, Secs(60)) + Stamp(now, [()])
         == InWindow(Hits(before) + Stamp(now, [()]), now, Secs(60))
  {
    HistoryInOrder(before, now);
    PurgeUncapped(Hits(before), LastRequest(before), now, Secs(60));
    InWindowOfFresh(Hits(before), now, Secs(60), [()]);
  }

  lemma HistoryAppend(before: seq<Visit>, v: Visit)
    ensures var log := before + [v];
      && Hits(log) == (if v.Request? then Hits(before) + Stamp(v.now, [()]) else Hits(before))
      && ObjectIds(log) == (if v.Objects? then ObjectIds(before) + Stamp(v.now, v.ids) else ObjectIds(before))
      && Attempts(log) == (if v.Attempt? then Attempts(before) + Stamp(v.now, [v.subject]) else Attempts(before))
      && LastRequest(log) == (if v.Request? then v.now else LastRequest(before))
      && LastPurge(log) == (if v.Attempt? then LastPurge(before) else v.now)
      && LastAttempt(log) == (if v.Attempt? then v.now else LastAttempt(before))
  {
    assert (before + [v])[..|before|] == before;
  }

  lemma SamplesAppend(before: seq<Visit>, v: Visit)
    ensures var log := before + [v];
      && BodySizes(log) == (if v.Request? then BodySizes(before) + [v.bodySize as real] else BodySizes(before))
      && RpsSamples(log) ==
           (if v.Request? then RpsSamples(before) + [|InWindow(Hits(log), v.now, Secs(60))| as real]
            else RpsSamples(before))
  {
    assert (before + [v])[..|before|] == before;
  }

  ghost predicate QueuesRefine(st: BehaviorState, log: seq<Visit>, s: Settings) {
    && st.hits == InWindow(Hits(log), LastRequest(log), Secs(60))
    && st.objectIds == Last(InWindow(ObjectIds(log), LastPurge(log), s.objectWindow), s.maxIds)
    && st.attempts == InWindow(Attempts(log), LastAttempt(log), s.authWindow)
  }

  ghost predicate MomentsRefine(st: BehaviorState, log: seq<Visit>) {
    st.rps == Fold(RpsSamples(log)) && st.body == Fold(BodySizes(log))
  }

  lemma QueuesAfterVisit(st: BehaviorState, before: seq<Visit>, v: Visit, s: Settings)
    requires InOrder(before, v.now) && QueuesRefine(st, before, s)
    ensures QueuesRefine(Apply(st, v, s), before + [v], s)
  {
    HistoryInOrder(before, v.now);
    HistoryAppend(before, v);
    match v
    case Request(now, bodySize) =>
      HitsAfterRequest(before, now);
      PurgeOfCapped(ObjectIds(before), LastPurge(before), now, s.objectWindow, s.maxIds);
    case Objects(now, ids) =>
      PurgeAppendCap(ObjectIds(before), LastPurge(before), now, s.objectWindow, s.maxIds, ids);
    case Attempt(now, subject) =>
      PurgeUncapped(Attempts(before), LastAttempt(before), now, s.authWindow);
      InWindowOfFresh(Attempts(before), now, s.authWindow, [subject]);
  }

  lemma MomentsAfterRequest(st: BehaviorState, before: seq<Visit>, now: nat, bodySize: nat, s: Settings)
    requires InOrder(before, now) && MomentsRefine(st, before)
    requires st.hits == InWindow(Hits(before), LastRequest(before), Secs(60))
    ensures MomentsRefine(Apply(st, Request(now, bodySize), s), before + [Request(now, bodySize)])
  {
    var v := Request(now, bodySize);
    HistoryAppend(before, v);
    SamplesAppend(before, v);
    HitsAfterRequest(before, now);
    FoldAppend(RpsSamples(before), CurrentRps(st.hits, now));
    FoldAppend(BodySizes(before), bodySize as real);
  }

  lemma AfterVisit(st: BehaviorState, before: seq<Visit>, v: Visit, s: Settings)
    requires InOrder(before, v.now) && QueuesRefine(st, before, s) && MomentsRefine(st, before)
    ensures QueuesRefine(Apply(st, v, s), before + [v], s) && MomentsRefine(Apply(st, v, s), before + [v])
  {
    QueuesAfterVisit(st, before, v, s);
    if v.Request? {
      MomentsAfterRequest(st, before, v.now, v.bodySize, s);
    } else {
      SamplesAppend(before, v);
    }
  }

  lemma LastOfLog(log: seq<Visit>)
    requires log != []
    ensures log == log[..|log| - 1] + [log[|log| - 1]]
  {
  }

  /** Over every chronological run of visits the entry refines its history. */
  lemma {:induction false} ReplayRefines(log: seq<Visit>, s: Settings, clock: nat)
    requires InOrder(log, clock)
    ensures QueuesRefine(Replay(log, s), log, s) && MomentsRefine(Replay(log, s), log)
  {
    if log == [] {
    } else {
      var before, v := log[..|log| - 1], log[|log| - 1];
      InOrderPrefix(log, clock);
      ReplayRefines(before, s, v.now);
      AfterVisit(Replay(before, s), before, v, s);
      LastOfLog(log);
    }
  }

  /** The ids a check looks at: the last `maxIds` of those within the window, over the whole history. */
  function RecentIds(log: seq<Visit>, now: nat, s: Settings): seq<Stamped<string>> {
    Last(InWindow(ObjectIds(log), now, s.objectWindow), s.maxIds)
  }

  /** With a threshold above the cap the enumeration finding can never fire. */
  lemma ThresholdAboveCapNeverFires(log: seq<Visit>, now: nat, s: Settings, threshold: nat)
    requires threshold > s.maxIds
    ensures Distinct(RecentIds(log, now, s)) < threshold
  {
    DistinctAtMostLength(RecentIds(log, now, s));
  }

  datatype SpikeConfig = SpikeConfig(rpsZ: real, bodyZ: real)

  function WarmZ(m: Moments, value: real, warmup: nat, sqrt: real -> real): real {
    if m.samples >= warmup then ZScore(value, m.mean, StdDev(m, sqrt)) else 0.0
  }

  predicate ZeroVarianceJump(m: Moments, value: real, warmup: nat, factor: real, margin: real, sqrt: real -> real) {
    && m.samples >= warmup
    && StdDev(m, sqrt) <= 0.0001
    && m.mean >= 1.0
    && value >= Max(m.mean * factor, m.mean + margin)
  }

  /** The anomaly test, on the moments before this request is folded in. */
  predicate Anomaly(rps: Moments, body: Moments, currentRps: real, bodySize: real,
                    warmup: nat, spike: SpikeConfig, sqrt: real -> real) {
    || WarmZ(rps, currentRps, warmup, sqrt) >= spike.rpsZ
    || WarmZ(body, bodySize, warmup, sqrt) >= spike.bodyZ
    || ZeroVarianceJump(rps, currentRps, warmup, 2.0, 3.0, sqrt)
    || ZeroVarianceJump(body, bodySize, warmup, 1.8, 24.0, sqrt)
  }

  /**
   * When `n` samples with this mean and deviation make a value a spike: above the mean by `limit` deviations;
   * without spread, by a jump to `factor` times the mean and at least `margin` more; before warm-up, never,
   * unless the limit is not positive.
   */
  predicate SpikeAt(n: nat, mean: real, sd: real, value: real, warmup: nat, limit: real, factor: real, margin: real) {
    if n < warmup then limit <= 0.0
    else if sd > 0.0001 then value >= mean + limit * sd
    else limit <= 0.0 || (mean >= 1.0 && value >= mean * factor && value >= mean + margin)
  }

  ghost predicate Spikes(xs: seq<real>, value: real, warmup: nat, limit: real, factor: real, margin: real) {
    exists mean, sd :: MeanAndDeviation(xs, mean, sd) && SpikeAt(|xs|, mean, sd, value, warmup, limit, factor, margin)
  }

  lemma ReachesBoth(value: real, a: real, b: real)
    ensures value >= Max(a, b) <==> value >= a && value >= b
  {
  }

  lemma SpikeOfMoments(m: Moments, value: real, warmup: nat, limit: real, factor: real, margin: real, sqrt: real -> real)
    ensures SpikeAt(m.samples, m.mean, StdDev(m, sqrt), value, warmup, limit, factor, margin) <==>
      WarmZ(m, value, warmup, sqrt) >= limit || ZeroVarianceJump(m, value, warmup, factor, margin, sqrt)
  {
    var sd := StdDev(m, sqrt);
    if sd > 0.0001 {
      ZScoreExactly(value, m.mean, sd, limit);
    } else {
      ReachesBoth(value, m.mean * factor, m.mean + margin);
    }
  }

  lemma SpikesIffAt(xs: seq<real>, value: real, warmup: nat, limit: real, factor: real, margin: real, mean: real, sd: real)
    requires MeanAndDeviation(xs, mean, sd)
    ensures Spikes(xs, value, warmup, limit, factor, margin) <==> SpikeAt(|xs|, mean, sd, value, warmup, limit, factor, margin)
  {
    if Spikes(xs, value, warmup, limit, factor, margin) {
      var a, s :| MeanAndDeviation(xs, a, s) && SpikeAt(|xs|, a, s, value, warmup, limit, factor, margin);
      MeasuresAgree(xs, mean, sd, a, s);
    }
  }

  lemma SpikesExactly(xs: seq<real>, value: real, warmup: nat, limit: real, factor: real, margin: real, sqrt: real -> real)
    requires IsSqrt(sqrt)
    ensures Spikes(xs, value, warmup, limit, factor, margin) <==>
      WarmZ(Fold(xs), value, warmup, sqrt) >= limit || ZeroVarianceJump(Fold(xs), value, warmup, factor, margin, sqrt)
  {
    var m := Fold(xs);
    FoldMean(xs);
    FoldMeasures(xs, sqrt);
    SpikesIffAt(xs, value, warmup, limit, factor, margin, m.mean, StdDev(m, sqrt));
    SpikeOfMoments(m, value, warmup, limit, factor, margin, sqrt);
  }

  /** A request is an anomaly exactly when its rate or its size is a spike over the samples so far. */
  lemma AnomalyExactly(rps: seq<real>, body: seq<real>, r: real, b: real, warmup: nat, spike: SpikeConfig, sqrt: real -> real)
    requires IsSqrt(sqrt)
    ensures Anomaly(Fold(rps), Fold(body), r, b, warmup, spike, sqrt) <==>
      Spikes(rps, r, warmup, spike.rpsZ, 2.0, 3.0) || Spikes(body, b, warmup, spike.bodyZ, 1.8, 24.0)
  {
    SpikesExactly(rps, r, warmup, spike.rpsZ, 2.0, 3.0, sqrt);
    SpikesExactly(body, b, warmup, spike.bodyZ, 1.8, 24.0, sqrt);
  }

  /** The visit is an anomaly over the visits before it: its rate, over the last minute, or its size is a spike. */
  ghost predicate Anomalous(before: seq<Visit>, now: nat, bodySize: nat, warmup: nat, spike: SpikeConfig) {
    var rate := |InWindow(Hits(before) + Stamp(now, [()]), now, 60 * 1_000_000_000)| as real;
    || Spikes(RpsSamples(before), rate, warmup, spike.rpsZ, 2.0, 3.0)
    || Spikes(BodySizes(before), bodySize as real, warmup, spike.bodyZ, 1.8, 24.0)
  }

  lemma AnomalousExactly(before: seq<Visit>, now: nat, bodySize: nat, warmup: nat, spike: SpikeConfig, sqrt: real -> real)
    requires IsSqrt(sqrt)
    ensures Anomaly(Fold(RpsSamples(before)), Fold(BodySizes(before)),
                    |InWindow(Hits(before) + Stamp(now, [()]), now, Secs(60))| as real, bodySize as real, warmup, spike, sqrt)
      <==> Anomalous(before, now, bodySize, warmup, spike)
  {
    var rate := |InWindow(Hits(before) + Stamp(now, [()]), now, Secs(60))| as real;
    AnomalyExactly(RpsSamples(before), BodySizes(before), rate, bodySize as real, warmup, spike, sqrt);
  }

  /** A larger value never withdraws a spike. */
  lemma LargerStillSpikes(xs: seq<real>, value: real, larger: real, warmup: nat, limit: real, factor: real, margin: real)
    requires value <= larger && Spikes(xs, value, warmup, limit, factor, margin)
    ensures Spikes(xs, larger, warmup, limit, factor, margin)
  {
    var mean, sd :| MeanAndDeviation(xs, mean, sd) && SpikeAt(|xs|, mean, sd, value, warmup, limit, factor, margin);
    assert SpikeAt(|xs|, mean, sd, larger, warmup, limit, factor, margin);
  }

  /** Until there are enough samples, positive limits raise nothing. */
  lemma NoSpikeBeforeWarmup(xs: seq<real>, value: real, warmup: nat, limit: real, factor: real, margin: real)
    requires |xs| < warmup && limit > 0.0
    ensures !Spikes(xs, value, warmup, limit, factor, margin)
  {
  }

  lemma ConstantHasNoSpread(xs: seq<real>, c: real, warmup: nat, sqrt: real -> real)
    requires IsSqrt(sqrt) && Constant(xs, c) && c >= 0.0
    ensures WarmZ(Fold(xs), c, warmup, sqrt) == 0.0
    ensures !ZeroVarianceJump(Fold(xs), c, warmup, 2.0, 3.0, sqrt)
    ensures !ZeroVarianceJump(Fold(xs), c, warmup, 1.8, 24.0, sqrt)
  {
    FoldIsExact(xs);
    if xs != [] {
      FoldOfConstant(xs, c);
      assert sqrt(0.0) * sqrt(0.0) == 0.0;
      assert Variance(Fold(xs)) == 0.0;
    }
  }

  /** Traffic that repeats its own rate and size is reported exactly when a threshold is not positive. */
  lemma SteadyTraffic(rps: seq<real>, body: seq<real>, r: real, b: real,
                      warmup: nat, spike: SpikeConfig, sqrt: real -> real)
    requires IsSqrt(sqrt) && Constant(rps, r) && Constant(body, b) && r >= 0.0 && b >= 0.0
    ensures Anomaly(Fold(rps), Fold(body), r, b, warmup, spike, sqrt) <==> spike.rpsZ <= 0.0 || spike.bodyZ <= 0.0
  {
    ConstantHasNoSpread(rps, r, warmup, sqrt);
    ConstantHasNoSpread(body, b, warmup, sqrt);
  }

  /** An entry is the replay of its log. */
  ghost predicate Agrees(st: BehaviorState, log: seq<Visit>, s: Settings, clock: nat) {
    InOrder(log, clock) && st == Replay(log, s)
  }

  lemma AgreesLater(st: BehaviorState, log: seq<Visit>, s: Settings, clock: nat, later: nat)
    requires Agrees(st, log, s, clock) && clock <= later
    ensures Agrees(st, log, s, later)
  {
  }

  lemma AgreesAfterVisit(st: BehaviorState, log: seq<Visit>, v: Visit, s: Settings, clock: nat)
    requires Agrees(st, log, s, clock) && clock <= v.now
    ensures Agrees(Apply(st, v, s), log + [v], s, v.now)
  {
    assert (log + [v])[..|log|] == log;
  }

  lemma AgreesRefines(st: BehaviorState, log: seq<Visit>, s: Settings, clock: nat)
    requires Agrees(st, log, s, clock)
    ensures QueuesRefine(st, log, s) && MomentsRefine(st, log)
  {
    ReplayRefines(log, s, clock);
  }
}
