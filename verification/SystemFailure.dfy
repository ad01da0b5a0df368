// Dead bands and per-host scoring of detection/system_failure.py: each counter's own state
// decides which threshold its next sample is compared with.
module SystemFailure {
  import opened Hysteresis
  import opened Options
  import opened Reals

  // High bands breach on large values, low bands on small ones.
  datatype Side = High | Low

  datatype DeadBand = DeadBand(side: Side, threshold: real, clearRatio: real) {
    ghost predicate Valid() {
      threshold > 0.0 && 0.0 < clearRatio <= 1.0
    }

    // The level at which an active condition stops being in breach.
    function ClearLevel(): real
      requires clearRatio > 0.0
    {
      if side.High? then threshold * clearRatio else threshold / clearRatio
    }

    predicate Breach(active: bool, value: real)
      requires clearRatio > 0.0
    {
      var level := if active then ClearLevel() else threshold;
      if side.High? then value >= level else value <= level
    }
  }

  datatype Sample = Sample(value: real, window: real)

  // One sample through the feedback loop.
  function Watched(l: Limits, band: DeadBand, s: State, sample: Sample): State
    requires band.clearRatio > 0.0
  {
    Observed(l, s, band.Breach(s.counts.active, sample.value), sample.window)
  }

  function Watch(l: Limits, band: DeadBand, samples: seq<Sample>): State
    requires band.clearRatio > 0.0
  {
    if samples == [] then START
    else Watched(l, band, Watch(l, band, samples[..|samples| - 1]), samples[|samples| - 1])
  }

  // ------------------------------------------------------------------ domination

  // b breaches whenever a does: the same side, b's threshold easier, b's value further out.
  ghost predicate Easier(a: DeadBand, x: real, b: DeadBand, y: real) {
    && a.side == b.side && a.clearRatio == b.clearRatio
    && if a.side.High? then b.threshold <= a.threshold && x <= y else a.threshold <= b.threshold && y <= x
  }

  // The order the feedback loop keeps: longer breach runs, shorter clear runs, active if a is.
  ghost predicate Dominated(a: State, b: State) {
    && a.lastWindow == b.lastWindow
    && a.counts.breaches <= b.counts.breaches
    && b.counts.clears <= a.counts.clears
    && (a.counts.active ==> b.counts.active)
  }

  lemma EasierBreaches(a: DeadBand, x: real, b: DeadBand, y: real, activeA: bool, activeB: bool)
    requires a.Valid() && b.Valid() && Easier(a, x, b, y)
    requires activeA ==> activeB
    requires a.Breach(activeA, x)
    ensures b.Breach(activeB, y)
  {
    ClearLevels(a, b);
    var clearA, clearB := a.ClearLevel(), b.ClearLevel();
    hide DeadBand.ClearLevel;
  }

  lemma ClearLevels(a: DeadBand, b: DeadBand)
    requires a.Valid() && b.Valid() && a.side == b.side && a.clearRatio == b.clearRatio
    ensures a.side.High? && b.threshold <= a.threshold ==>
              b.ClearLevel() <= a.ClearLevel() && b.ClearLevel() <= b.threshold
    ensures a.side.Low? && a.threshold <= b.threshold ==>
              a.ClearLevel() <= b.ClearLevel() && b.threshold <= b.ClearLevel()
  {
    var r := a.clearRatio;
    RatioShrinks(b.threshold, r);
    ProductOrder(b.threshold, a.threshold, r);
    QuotientOrder(a.threshold, b.threshold, r);
  }

  lemma DominationStep(l: Limits, a: DeadBand, s: State, x: Sample, b: DeadBand, t: State, y: Sample)
    requires a.Valid() && b.Valid() && Easier(a, x.value, b, y.value) && x.window == y.window
    requires Dominated(s, t)
    ensures Dominated(Watched(l, a, s, x), Watched(l, b, t, y))
  {
    if a.Breach(s.counts.active, x.value) {
      EasierBreaches(a, x.value, b, y.value, s.counts.active, t.counts.active);
    }
  }

  // Over every run, the condition that is easier to breach is active whenever the other is,
  // although each one's threshold moves with its own state.
  lemma {:induction false} Domination(l: Limits, a: DeadBand, xs: seq<Sample>, b: DeadBand, ys: seq<Sample>)
    requires a.Valid() && b.Valid()
    requires |xs| == |ys|
    requires forall k | 0 <= k < |xs| ::
               Easier(a, xs[k].value, b, ys[k].value) && xs[k].window == ys[k].window
    ensures Dominated(Watch(l, a, xs), Watch(l, b, ys))
  {
    if xs != [] {
      var last := |xs| - 1;
      Domination(l, a, xs[..last], b, ys[..last]);
      DominationStep(l, a, Watch(l, a, xs[..last]), xs[last], b, Watch(l, b, ys[..last]), ys[last]);
    }
  }

  // A stream inside the dead band, enough to keep a condition active and not to trigger it, never
  // changes the active state.
  lemma {:induction false} DeadBandHolds(l: Limits, band: DeadBand, samples: seq<Sample>, quiet: seq<Sample>)
    requires l.Valid() && band.Valid()
    requires forall k | 0 <= k < |quiet| :: KeepsActive(band, quiet[k].value) && !Triggers(band, quiet[k].value)
    ensures Watch(l, band, samples + quiet).counts.active == Watch(l, band, samples).counts.active
    ensures var before, after := Watch(l, band, samples).counts, Watch(l, band, samples + quiet).counts;
            if before.active then after.clears <= before.clears else after.breaches <= before.breaches
    decreases |quiet|
  {
    if quiet == [] {
      assert samples + quiet == samples;
    } else {
      var init, last := quiet[..|quiet| - 1], quiet[|quiet| - 1];
      assert (samples + quiet)[..|samples + quiet| - 1] == samples + init;
      DeadBandHolds(l, band, samples, init);
      WatchBelowLimits(l, band, samples);
    }
  }

  // Between samples neither count has reached its limit without having flipped the state.
  lemma {:induction false} WatchBelowLimits(l: Limits, band: DeadBand, samples: seq<Sample>)
    requires l.Valid() && band.Valid()
    ensures var c := Watch(l, band, samples).counts;
            if c.active then c.clears < l.clear else c.breaches < l.breach
  {
    if samples != [] {
      WatchBelowLimits(l, band, samples[..|samples| - 1]);
    }
  }

  // ------------------------------------------------------------------ the band in numbers

  // While a condition is active a value at least the ratio's share of the threshold keeps it in
  // breach on the high side, and one at most the threshold's quotient on the low side.
  predicate KeepsActive(band: DeadBand, value: real)
    requires band.clearRatio > 0.0
  {
    match band.side
    case High => value >= band.threshold * band.clearRatio
    case Low => value <= band.threshold / band.clearRatio
  }

  // Otherwise only the threshold itself counts.
  predicate Triggers(band: DeadBand, value: real) {
    match band.side
    case High => value >= band.threshold
    case Low => value <= band.threshold
  }

  // A run of samples is a run of observations, each in breach by the level that the state so far
  // selects.
  ghost predicate Feedback(l: Limits, band: DeadBand, samples: seq<Sample>, obs: seq<Observation>)
    requires band.clearRatio > 0.0
  {
    && |obs| == |samples|
    && forall k | 0 <= k < |samples| :: FedBack(band, Watch(l, band, samples[..k]).counts.active, samples[k], obs[k])
  }

  predicate FedBack(band: DeadBand, active: bool, sample: Sample, o: Observation)
    requires band.clearRatio > 0.0
  {
    && o.window == sample.window
    && (o.inBreach <==> if active then KeepsActive(band, sample.value) else Triggers(band, sample.value))
  }

  lemma {:induction false} WatchIsFeedback(l: Limits, band: DeadBand, samples: seq<Sample>, obs: seq<Observation>)
    requires band.Valid() && Feedback(l, band, samples, obs)
    ensures Watch(l, band, samples) == Run(l, obs)
  {
    if samples != [] {
      var last := |samples| - 1;
      var init := samples[..last];
      assert forall k | 0 <= k < last :: init[..k] == samples[..k] && init[k] == samples[k] && obs[..last][k] == obs[k];
      WatchIsFeedback(l, band, init, obs[..last]);
      assert FedBack(band, Watch(l, band, samples[..last]).counts.active, samples[last], obs[last]);
    }
  }

  // New windows, each later than the one before and than all seen so far.
  ghost predicate NewWindows(s: State, samples: seq<Sample>) {
    && (forall k | 0 <= k < |samples| :: IsNew(s, samples[k].window))
    && (forall a, b | 0 <= a < b < |samples| :: samples[a].window < samples[b].window)
  }

  // An active condition stays so through any values that keep it active, in whatever windows.
  lemma {:induction false} ActiveIsKept(l: Limits, band: DeadBand, samples: seq<Sample>, more: seq<Sample>)
    requires l.Valid() && band.Valid() && Watch(l, band, samples).counts.active
    requires forall k | 0 <= k < |more| :: KeepsActive(band, more[k].value)
    ensures Watch(l, band, samples + more).counts.active
    decreases |more|
  {
    if more == [] {
      assert samples + more == samples;
    } else {
      var init := more[..|more| - 1];
      assert (samples + more)[..|samples + more| - 1] == samples + init;
      ActiveIsKept(l, band, samples, init);
    }
  }

  // And it is cleared after as many new windows without such a value as the setting demands.
  lemma ActiveIsCleared(l: Limits, band: DeadBand, samples: seq<Sample>, more: seq<Sample>)
    requires l.Valid() && band.Valid() && Watch(l, band, samples).counts.active
    requires NewWindows(Watch(l, band, samples), more) && |more| == l.clear
    requires forall k | 0 <= k < |more| :: !KeepsActive(band, more[k].value)
    ensures !Watch(l, band, samples + more).counts.active
  {
    ClearsCount(l, band, samples, more);
  }

  lemma {:induction false} ClearsCount(l: Limits, band: DeadBand, samples: seq<Sample>, more: seq<Sample>)
    requires l.Valid() && band.Valid() && Watch(l, band, samples).counts.active
    requires NewWindows(Watch(l, band, samples), more) && |more| <= l.clear
    requires forall k | 0 <= k < |more| :: !KeepsActive(band, more[k].value)
    ensures var s := Watch(l, band, samples + more);
            && (|more| == l.clear ==> !s.counts.active)
            && (s.counts.active ==> s.counts.clears >= |more|)
            && (|more| > 0 ==> s.lastWindow == Some(more[|more| - 1].window))
            && (more == [] ==> s == Watch(l, band, samples))
    decreases |more|
  {
    if more == [] {
      assert samples + more == samples;
    } else {
      var init := more[..|more| - 1];
      assert (samples + more)[..|samples + more| - 1] == samples + init;
      assert forall k | 0 <= k < |init| :: init[k] == more[k];
      ClearsCount(l, band, samples, init);
      ClearStep(l, band, Watch(l, band, samples + init), more[|more| - 1]);
      hide Watched, Triggers, KeepsActive;
    }
  }

  lemma ClearStep(l: Limits, band: DeadBand, s: State, x: Sample)
    requires band.Valid() && IsNew(s, x.window) && !KeepsActive(band, x.value)
    ensures Watched(l, band, s, x) == State(Advance(l, s.counts, false), Some(x.window))
  {
    if Triggers(band, x.value) {
      KeepsWhatTriggers(band, x.value);
    }
  }

  // An inactive condition stays so through values that do not reach the threshold,
  lemma {:induction false} InactiveIsKept(l: Limits, band: DeadBand, samples: seq<Sample>, more: seq<Sample>)
    requires l.Valid() && band.Valid() && !Watch(l, band, samples).counts.active
    requires forall k | 0 <= k < |more| :: !Triggers(band, more[k].value)
    ensures !Watch(l, band, samples + more).counts.active
    decreases |more|
  {
    if more == [] {
      assert samples + more == samples;
    } else {
      var init := more[..|more| - 1];
      assert (samples + more)[..|samples + more| - 1] == samples + init;
      InactiveIsKept(l, band, samples, init);
    }
  }

  // and it is triggered after as many new windows with such values as the setting demands.
  lemma InactiveIsTriggered(l: Limits, band: DeadBand, samples: seq<Sample>, more: seq<Sample>)
    requires l.Valid() && band.Valid() && !Watch(l, band, samples).counts.active
    requires NewWindows(Watch(l, band, samples), more) && |more| == l.breach
    requires forall k | 0 <= k < |more| :: Triggers(band, more[k].value)
    ensures Watch(l, band, samples + more).counts.active
  {
    BreachesCount(l, band, samples, more);
  }

  lemma {:induction false} BreachesCount(l: Limits, band: DeadBand, samples: seq<Sample>, more: seq<Sample>)
    requires l.Valid() && band.Valid() && !Watch(l, band, samples).counts.active
    requires NewWindows(Watch(l, band, samples), more) && |more| <= l.breach
    requires forall k | 0 <= k < |more| :: Triggers(band, more[k].value)
    ensures var s := Watch(l, band, samples + more);
            && (|more| == l.breach ==> s.counts.active)
            && s.counts.breaches >= |more|
            && (|more| > 0 ==> s.lastWindow == Some(more[|more| - 1].window))
            && (more == [] ==> s == Watch(l, band, samples))
    decreases |more|
  {
    if more == [] {
      assert samples + more == samples;
    } else {
      var init := more[..|more| - 1];
      assert (samples + more)[..|samples + more| - 1] == samples + init;
      assert forall k | 0 <= k < |init| :: init[k] == more[k];
      BreachesCount(l, band, samples, init);
      BreachStep(l, band, Watch(l, band, samples + init), more[|more| - 1]);
      hide Watched, Triggers, KeepsActive;
    }
  }

  lemma BreachStep(l: Limits, band: DeadBand, s: State, x: Sample)
    requires band.Valid() && IsNew(s, x.window) && Triggers(band, x.value)
    ensures Watched(l, band, s, x) == State(Advance(l, s.counts, true), Some(x.window))
  {
    KeepsWhatTriggers(band, x.value);
  }

  // The band is on the far side of the threshold: what triggers also keeps.
  lemma KeepsWhatTriggers(band: DeadBand, value: real)
    requires band.Valid() && Triggers(band, value)
    ensures KeepsActive(band, value)
  {
    RatioShrinks(band.threshold, band.clearRatio);
  }

  // ------------------------------------------------------------------ one host

  datatype Settings = Settings(limits: Limits, memoryHigh: real, memoryMedium: real, memoryMinAvailable: real,
                               cpuHigh: real, diskFull: real, clearRatio: real) {
    // The constraints configuration loading enforces.
    ghost predicate Valid() {
      && limits.Valid()
      && memoryHigh > 0.0 && memoryMedium > 0.0 && memoryMinAvailable > 0.0 && cpuHigh > 0.0 && diskFull > 0.0
      && memoryMedium < memoryHigh
      && 0.0 < clearRatio <= 1.0
    }
  }

  // A reading is None when the collector did not report it.
  datatype Reading = Reading(memPercent: Option<real>, memAvailable: Option<real>,
                             cpuPercent: Option<real>, diskPercent: Option<real>)

  datatype Host = Host(memHigh: State, memMedium: State, memAvailable: State, cpuHigh: State, diskFull: State)

  datatype Condition = DiskFull | MemoryPressureHigh | MemoryPressureMedium | MemoryAvailableLow | CpuPressureHigh
  datatype Finding = Finding(condition: Condition, consecutiveWindows: nat)

  const NEW_HOST := Host(START, START, START, START, START)

  // A missing reading is unknown: the counter is not observed at all.
  function IfRead(l: Limits, band: DeadBand, s: State, reading: Option<real>, window: real): State
    requires band.clearRatio > 0.0
  {
    if reading.Some? then Watched(l, band, s, Sample(reading.value, window)) else s
  }

  function Scored(cfg: Settings, h: Host, r: Reading, window: real): Host
    requires cfg.clearRatio > 0.0
  {
    var l, ratio := cfg.limits, cfg.clearRatio;
    Host(IfRead(l, DeadBand(High, cfg.memoryHigh, ratio), h.memHigh, r.memPercent, window),
         IfRead(l, DeadBand(High, cfg.memoryMedium, ratio), h.memMedium, r.memPercent, window),
         IfRead(l, DeadBand(Low, cfg.memoryMinAvailable, ratio), h.memAvailable, r.memAvailable, window),
         IfRead(l, DeadBand(High, cfg.cpuHigh, ratio), h.cpuHigh, r.cpuPercent, window),
         IfRead(l, DeadBand(High, cfg.diskFull, ratio), h.diskFull, r.diskPercent, window))
  }

  function Report(condition: Condition, s: State, reading: Option<real>): seq<Finding> {
    if reading.Some? && s.counts.active then [Finding(condition, s.counts.breaches)] else []
  }

  // What a host in state h reports for a reading: the high memory finding hides the medium one.
  function Findings(h: Host, r: Reading): seq<Finding> {
    Report(DiskFull, h.diskFull, r.diskPercent)
    + (if h.memHigh.counts.active then Report(MemoryPressureHigh, h.memHigh, r.memPercent)
       else Report(MemoryPressureMedium, h.memMedium, r.memPercent))
    + Report(MemoryAvailableLow, h.memAvailable, r.memAvailable)
    + Report(CpuPressureHigh, h.cpuHigh, r.cpuPercent)
  }

  class HostState {
    const memHigh: HysteresisCounter
    const memMedium: HysteresisCounter
    const memAvailable: HysteresisCounter
    const cpuHigh: HysteresisCounter
    const diskFull: HysteresisCounter

    ghost const counters: set<HysteresisCounter>

    ghost predicate Valid(l: Limits) {
      && counters == {memHigh, memMedium, memAvailable, cpuHigh, diskFull}
      && memHigh != memMedium && memHigh != memAvailable && memHigh != cpuHigh && memHigh != diskFull
      && memMedium != memAvailable && memMedium != cpuHigh && memMedium != diskFull
      && memAvailable != cpuHigh && memAvailable != diskFull && cpuHigh != diskFull
      && forall c | c in counters :: c.limits == l
    }

    ghost function Value(): Host
      reads memHigh, memMedium, memAvailable, cpuHigh, diskFull
    {
      Host(memHigh.Value(), memMedium.Value(), memAvailable.Value(), cpuHigh.Value(), diskFull.Value())
    }

    constructor (cfg: Settings)
      requires cfg.limits.Valid()
      ensures Valid(cfg.limits) && fresh(counters)
      ensures Value() == NEW_HOST
    {
      var a := new HysteresisCounter(cfg.limits.breach, cfg.limits.clear);
      var b := new HysteresisCounter(cfg.limits.breach, cfg.limits.clear);
      var c := new HysteresisCounter(cfg.limits.breach, cfg.limits.clear);
      var d := new HysteresisCounter(cfg.limits.breach, cfg.limits.clear);
      var e := new HysteresisCounter(cfg.limits.breach, cfg.limits.clear);
      memHigh, memMedium, memAvailable, cpuHigh, diskFull := a, b, c, d, e;
      counters := {a, b, c, d, e};
    }

    // Compares one reading with the threshold the counter's own state selects.
    static method ObserveReading(counter: HysteresisCounter, band: DeadBand, condition: Condition,
                                 reading: Option<real>, window: real)
      returns (report: seq<Finding>)
      requires band.Valid()
      modifies counter
      ensures counter.Value() == IfRead(counter.limits, band, old(counter.Value()), reading, window)
      ensures report == Report(condition, counter.Value(), reading)
    {
      if reading.None? {
        return [];
      }
      var breach := band.Breach(counter.active, reading.value);
      var active, cleared := counter.Observe(breach, window);
      report := if active then [Finding(condition, counter.breachCount)] else [];
    }

    method ScoreHost(cfg: Settings, r: Reading, window: real) returns (findings: seq<Finding>)
      requires cfg.Valid() && Valid(cfg.limits)
      modifies counters
      ensures Value() == Scored(cfg, old(Value()), r, window)
      ensures findings == Findings(Value(), r)
    {
      var ratio := cfg.clearRatio;
      var disk := ObserveReading(diskFull, DeadBand(High, cfg.diskFull, ratio), DiskFull, r.diskPercent, window);
      var high := ObserveReading(memHigh, DeadBand(High, cfg.memoryHigh, ratio), MemoryPressureHigh,
                                 r.memPercent, window);
      var medium := ObserveReading(memMedium, DeadBand(High, cfg.memoryMedium, ratio), MemoryPressureMedium,
                                   r.memPercent, window);
      var memory := if high != [] then high else medium;
      var available := ObserveReading(memAvailable, DeadBand(Low, cfg.memoryMinAvailable, ratio), MemoryAvailableLow,
                                      r.memAvailable, window);
      var cpu := ObserveReading(cpuHigh, DeadBand(High, cfg.cpuHigh, ratio), CpuPressureHigh, r.cpuPercent, window);
      findings := disk + memory + available + cpu;
    }
  }

  datatype Scoring = Scoring(reading: Reading, window: real)

  function ScoreRun(cfg: Settings, run: seq<Scoring>): Host
    requires cfg.clearRatio > 0.0
  {
    if run == [] then NEW_HOST
    else
      var last := run[|run| - 1];
      Scored(cfg, ScoreRun(cfg, run[..|run| - 1]), last.reading, last.window)
  }

  // In every reachable state high memory pressure is also medium memory pressure.
  lemma {:induction false} HighImpliesMedium(cfg: Settings, run: seq<Scoring>)
    requires cfg.Valid()
    ensures Dominated(ScoreRun(cfg, run).memHigh, ScoreRun(cfg, run).memMedium)
  {
    if run != [] {
      var h, last := ScoreRun(cfg, run[..|run| - 1]), run[|run| - 1];
      HighImpliesMedium(cfg, run[..|run| - 1]);
      if last.reading.memPercent.Some? {
        var sample := Sample(last.reading.memPercent.value, last.window);
        DominationStep(cfg.limits, DeadBand(High, cfg.memoryHigh, cfg.clearRatio), h.memHigh, sample,
                       DeadBand(High, cfg.memoryMedium, cfg.clearRatio), h.memMedium, sample);
      }
    }
  }

  ghost predicate Reports(findings: seq<Finding>, condition: Condition) {
    exists k :: 0 <= k < |findings| && findings[k].condition == condition
  }

  // Hiding the medium finding behind the high one loses nothing: after any run a memory
  // finding is reported exactly when the medium condition is active, and never both.
  lemma MemoryReportedOnce(cfg: Settings, run: seq<Scoring>)
    requires cfg.Valid() && run != []
    ensures var h, r := ScoreRun(cfg, run), run[|run| - 1].reading;
            && (Reports(Findings(h, r), MemoryPressureHigh) || Reports(Findings(h, r), MemoryPressureMedium)
                <==> r.memPercent.Some? && h.memMedium.counts.active)
            && !(Reports(Findings(h, r), MemoryPressureHigh) && Reports(Findings(h, r), MemoryPressureMedium))
  {
    var h, r := ScoreRun(cfg, run), run[|run| - 1].reading;
    HighImpliesMedium(cfg, run);
    ReportsMember(h, r, MemoryPressureHigh);
    ReportsMember(h, r, MemoryPressureMedium);
  }

  lemma ReportsMember(h: Host, r: Reading, condition: Condition)
    requires condition.MemoryPressureHigh? || condition.MemoryPressureMedium?
    ensures Reports(Findings(h, r), condition) <==>
            r.memPercent.Some?
            && if condition.MemoryPressureHigh? then h.memHigh.counts.active
               else h.memMedium.counts.active && !h.memHigh.counts.active
  {
    var disk := Report(DiskFull, h.diskFull, r.diskPercent);
    var memory := if h.memHigh.counts.active then Report(MemoryPressureHigh, h.memHigh, r.memPercent)
                  else Report(MemoryPressureMedium, h.memMedium, r.memPercent);
    if memory != [] {
      assert Findings(h, r)[|disk|] == memory[0];
    }
  }

  // ------------------------------------------------------------------ which reading decides what

  datatype Metric = MemoryPercent | MemoryAvailable | CpuPercent | DiskPercent

  function ReadingOf(m: Metric, r: Reading): Option<real> {
    match m
    case MemoryPercent => r.memPercent
    case MemoryAvailable => r.memAvailable
    case CpuPercent => r.cpuPercent
    case DiskPercent => r.diskPercent
  }

  // The values of one metric, where it was reported.
  function SamplesOf(run: seq<Scoring>, m: Metric): seq<Sample> {
    if run == [] then []
    else
      var last := run[|run| - 1];
      SamplesOf(run[..|run| - 1], m)
      + match ReadingOf(m, last.reading)
        case Some(value) => [Sample(value, last.window)]
        case None => []
  }

  lemma SampleAdded(run: seq<Scoring>, m: Metric, l: Limits, band: DeadBand)
    requires run != [] && band.clearRatio > 0.0
    ensures var init, last := run[..|run| - 1], run[|run| - 1];
            Watch(l, band, SamplesOf(run, m))
            == IfRead(l, band, Watch(l, band, SamplesOf(init, m)), ReadingOf(m, last.reading), last.window)
  {
    var before, after := SamplesOf(run[..|run| - 1], m), SamplesOf(run, m);
    if ReadingOf(m, run[|run| - 1].reading).Some? {
      assert after[..|after| - 1] == before;
    } else {
      assert after == before;
    }
  }

  // Every condition is watched by the readings of one metric alone, against one setting: both
  // memory percentages by memory in use, the floor by available memory, the rest by their own.
  lemma {:induction false} ConditionsFollowReadings(cfg: Settings, run: seq<Scoring>)
    requires cfg.clearRatio > 0.0
    ensures var h, l, ratio := ScoreRun(cfg, run), cfg.limits, cfg.clearRatio;
            && h.memHigh == Watch(l, DeadBand(High, cfg.memoryHigh, ratio), SamplesOf(run, MemoryPercent))
            && h.memMedium == Watch(l, DeadBand(High, cfg.memoryMedium, ratio), SamplesOf(run, MemoryPercent))
            && h.memAvailable == Watch(l, DeadBand(Low, cfg.memoryMinAvailable, ratio), SamplesOf(run, MemoryAvailable))
            && h.cpuHigh == Watch(l, DeadBand(High, cfg.cpuHigh, ratio), SamplesOf(run, CpuPercent))
            && h.diskFull == Watch(l, DeadBand(High, cfg.diskFull, ratio), SamplesOf(run, DiskPercent))
  {
    if run != [] {
      var l, ratio := cfg.limits, cfg.clearRatio;
      ConditionsFollowReadings(cfg, run[..|run| - 1]);
      hide Watch, SamplesOf, IfRead;
      SampleAdded(run, MemoryPercent, l, DeadBand(High, cfg.memoryHigh, ratio));
      SampleAdded(run, MemoryPercent, l, DeadBand(High, cfg.memoryMedium, ratio));
      SampleAdded(run, MemoryAvailable, l, DeadBand(Low, cfg.memoryMinAvailable, ratio));
      SampleAdded(run, CpuPercent, l, DeadBand(High, cfg.cpuHigh, ratio));
      SampleAdded(run, DiskPercent, l, DeadBand(High, cfg.diskFull, ratio));
    }
  }

  // What a finding claims: its metric was read, and its condition is active and counts so many windows.
  predicate Claims(f: Finding, s: State, reading: Option<real>) {
    reading.Some? && s.counts.active && f.consecutiveWindows == s.counts.breaches
  }

  ghost predicate Holds(h: Host, r: Reading, f: Finding) {
    match f.condition
    case DiskFull => Claims(f, h.diskFull, r.diskPercent)
    case MemoryPressureHigh => Claims(f, h.memHigh, r.memPercent)
    case MemoryPressureMedium => Claims(f, h.memMedium, r.memPercent) && !h.memHigh.counts.active
    case MemoryAvailableLow => Claims(f, h.memAvailable, r.memAvailable)
    case CpuPressureHigh => Claims(f, h.cpuHigh, r.cpuPercent)
  }

  // Exactly the active conditions with a reading are reported, the medium memory one unless the
  // high one is active.
  lemma FindingsAreActive(h: Host, r: Reading, f: Finding)
    ensures f in Findings(h, r) <==> Holds(h, r, f)
  {
    var disk := Report(DiskFull, h.diskFull, r.diskPercent);
    var memory := if h.memHigh.counts.active then Report(MemoryPressureHigh, h.memHigh, r.memPercent)
                  else Report(MemoryPressureMedium, h.memMedium, r.memPercent);
    var available := Report(MemoryAvailableLow, h.memAvailable, r.memAvailable);
    var cpu := Report(CpuPressureHigh, h.cpuHigh, r.cpuPercent);
    assert f in Findings(h, r) <==> f in disk || f in memory || f in available || f in cpu;
    ReportMember(DiskFull, h.diskFull, r.diskPercent, f);
    ReportMember(MemoryPressureHigh, h.memHigh, r.memPercent, f);
    ReportMember(MemoryPressureMedium, h.memMedium, r.memPercent, f);
    ReportMember(MemoryAvailableLow, h.memAvailable, r.memAvailable, f);
    ReportMember(CpuPressureHigh, h.cpuHigh, r.cpuPercent, f);
    hide Report, Findings;
  }

  lemma ReportMember(condition: Condition, s: State, reading: Option<real>, f: Finding)
    ensures f in Report(condition, s, reading) <==> f.condition == condition && Claims(f, s, reading)
  {
  }
}
