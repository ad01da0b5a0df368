// The backoff ladder and crash-loop window of pipeline/supervisor.py.
module RestartPolicy {
  import opened Reals

  datatype Config = Config(initial: real, maximum: real, healthyRuntime: real, threshold: nat, window: real) {
    // The constraints configuration loading enforces.
    ghost predicate Valid() {
      0.0 < initial <= maximum && threshold >= 1 && window > 0.0
    }
  }

  function Power2(n: nat): (p: nat)
    ensures p >= 1
  {
    if n == 0 then 1 else 2 * Power2(n - 1)
  }

  // The uncapped delay at an exponent.
  function Uncapped(initial: real, exponent: nat): real {
    initial * Power2(exponent) as real
  }

  // How long to wait after the k-th failure of a streak.
  function Delay(cfg: Config, k: nat): real
    requires k >= 1
  {
    var delay := Uncapped(cfg.initial, if k - 1 < 32 then k - 1 else 32);
    if delay < cfg.maximum then delay else cfg.maximum
  }

  // Drops the failures before the cutoff from the front.
  function Trim(failures: seq<real>, cutoff: real): seq<real> {
    if failures != [] && failures[0] < cutoff then Trim(failures[1..], cutoff) else failures
  }

  datatype State = State(consecutive: nat, failures: seq<real>)

  function Recorded(cfg: Config, s: State, runtime: real, now: real): State {
    var kept := if runtime >= cfg.healthyRuntime then State(0, []) else s;
    State(kept.consecutive + 1, Trim(kept.failures + [now], now - cfg.window))
  }

  function Trimmed(cfg: Config, s: State, now: real): State {
    s.(failures := Trim(s.failures, now - cfg.window))
  }

  class Policy {
    const cfg: Config
    var consecutiveFailures: nat
    var failures: seq<real>

    ghost function Value(): State
      reads this
    {
      State(consecutiveFailures, failures)
    }

    constructor (cfg: Config)
      ensures this.cfg == cfg && Value() == State(0, [])
    {
      this.cfg, consecutiveFailures, failures := cfg, 0, [];
    }

    method TrimTo(now: real)
      modifies this
      ensures Value() == Trimmed(cfg, old(Value()), now)
    {
      var cutoff := now - cfg.window;
      while failures != [] && failures[0] < cutoff
        invariant consecutiveFailures == old(consecutiveFailures)
        invariant Trim(failures, cutoff) == Trim(old(failures), cutoff)
        decreases |failures|
      {
        failures := failures[1..];
      }
    }

    // Registers one failure at the clock reading now and returns the delay before a retry.
    method RecordFailure(runtime: real, now: real) returns (delay: real)
      modifies this
      ensures Value() == Recorded(cfg, old(Value()), runtime, now)
      ensures delay == Delay(cfg, consecutiveFailures)
    {
      if runtime >= cfg.healthyRuntime {
        consecutiveFailures := 0;
        failures := [];
      }
      consecutiveFailures := consecutiveFailures + 1;
      failures := failures + [now];
      TrimTo(now);
      delay := Delay(cfg, consecutiveFailures);
    }

    method IsCrashLooping(now: real) returns (looping: bool)
      modifies this
      ensures Value() == Trimmed(cfg, old(Value()), now)
      ensures looping <==> |failures| >= cfg.threshold
    {
      TrimTo(now);
      looping := |failures| >= cfg.threshold;
    }
  }

  // ------------------------------------------------------------------ the ladder

  lemma {:induction false} Power2Monotone(a: nat, b: nat)
    requires a <= b
    ensures Power2(a) <= Power2(b)
    decreases b
  {
    if a < b {
      Power2Monotone(a, b - 1);
    }
  }

  lemma ScaledOrder(x: real, a: nat, b: nat)
    requires x > 0.0 && a <= b
    ensures x * a as real <= x * b as real
  {
    ProductOrder(a as real, b as real, x);
    assert a as real * x == x * a as real && b as real * x == x * b as real;
  }

  lemma UncappedGrows(initial: real, a: nat, b: nat)
    requires initial > 0.0 && a <= b
    ensures Uncapped(initial, a) <= Uncapped(initial, b)
  {
    Power2Monotone(a, b);
    hide Power2;
    ScaledOrder(initial, Power2(a), Power2(b));
  }

  lemma UncappedDoubles(initial: real, a: nat)
    ensures Uncapped(initial, a + 1) == 2.0 * Uncapped(initial, a)
  {
    var p := Power2(a) as real;
    assert Power2(a + 1) as real == 2.0 * p;
    assert initial * (2.0 * p) == 2.0 * (initial * p);
  }

  // The delay starts at the initial value, stays within [initial, maximum], never decreases
  // along a streak, and doubles until it is capped.
  lemma DelayLadder(cfg: Config, k: nat)
    requires cfg.Valid() && k >= 1
    ensures Delay(cfg, 1) == cfg.initial
    ensures cfg.initial <= Delay(cfg, k) <= Delay(cfg, k + 1) <= cfg.maximum
    ensures k <= 32 ==>
              Delay(cfg, k + 1) ==
              if 2.0 * Delay(cfg, k) < cfg.maximum then 2.0 * Delay(cfg, k) else cfg.maximum
  {
    var a, b := if k - 1 < 32 then k - 1 else 32, if k < 32 then k else 32;
    assert Uncapped(cfg.initial, 0) == cfg.initial;
    UncappedGrows(cfg.initial, 0, a);
    UncappedGrows(cfg.initial, a, b);
    UncappedDoubles(cfg.initial, a);
    hide Power2, Uncapped;
  }

  // ------------------------------------------------------------------ runs of the policy

  // A failure of a collector that ran for some time, or a look at the window.
  datatype Event = Fail(now: real, runtime: real) | Look(now: real)

  function Run(cfg: Config, events: seq<Event>): State {
    if events == [] then State(0, [])
    else
      var before := Run(cfg, events[..|events| - 1]);
      match events[|events| - 1]
      case Fail(now, runtime) => Recorded(cfg, before, runtime, now)
      case Look(now) => Trimmed(cfg, before, now)
  }

  ghost predicate Monotone(events: seq<Event>) {
    forall a, b | 0 <= a < b < |events| :: events[a].now <= events[b].now
  }

  // The failures since, and including, the last one that followed a healthy run.
  function Streak(cfg: Config, events: seq<Event>): seq<real> {
    if events == [] then []
    else
      var before := Streak(cfg, events[..|events| - 1]);
      match events[|events| - 1]
      case Fail(now, runtime) => if runtime >= cfg.healthyRuntime then [now] else before + [now]
      case Look(_) => before
  }

  ghost predicate Ascends(times: seq<real>, limit: real) {
    && (forall a, b | 0 <= a < b < |times| :: times[a] <= times[b])
    && (forall a | 0 <= a < |times| :: times[a] <= limit)
  }

  lemma {:induction false} StreakAscends(cfg: Config, events: seq<Event>)
    requires Monotone(events)
    ensures events == [] ==> Streak(cfg, events) == []
    ensures events != [] ==> Ascends(Streak(cfg, events), events[|events| - 1].now)
  {
    if events != [] {
      var init := events[..|events| - 1];
      assert forall a | 0 <= a < |init| :: init[a] == events[a];
      StreakAscends(cfg, init);
    }
  }

  // Trimming an ascending list keeps exactly the times from the cutoff on.
  lemma {:induction false} TrimKeepsRecent(times: seq<real>, cutoff: real, limit: real)
    requires Ascends(times, limit)
    ensures |Trim(times, cutoff)| <= |times|
    ensures var dropped := |times| - |Trim(times, cutoff)|;
            && Trim(times, cutoff) == times[dropped..]
            && (forall a | 0 <= a < dropped :: times[a] < cutoff)
            && (forall a | dropped <= a < |times| :: times[a] >= cutoff)
  {
    if times != [] && times[0] < cutoff {
      var rest := times[1..];
      assert forall a | 0 <= a < |rest| :: rest[a] == times[a + 1];
      assert forall a | 1 <= a < |times| :: times[a] == rest[a - 1];
      TrimKeepsRecent(rest, cutoff, limit);
    }
  }

  lemma {:induction false} TrimAgain(times: seq<real>, added: seq<real>, earlier: real, later: real)
    requires earlier <= later
    ensures Trim(Trim(times, earlier) + added, later) == Trim(times + added, later)
  {
    if times != [] && times[0] < earlier {
      TrimAgain(times[1..], added, earlier, later);
      assert (times + added)[1..] == times[1..] + added;
    }
  }

  // With a monotone clock the counter is the streak's length and the window holds exactly the
  // streak's failures since now - window, however often it was looked at.
  lemma {:induction false} WindowHoldsStreak(cfg: Config, events: seq<Event>)
    requires cfg.Valid() && Monotone(events)
    ensures Run(cfg, events).consecutive == |Streak(cfg, events)|
    ensures events == [] ==> Run(cfg, events).failures == []
    ensures events != [] ==>
              Run(cfg, events).failures == Trim(Streak(cfg, events), events[|events| - 1].now - cfg.window)
  {
    if events != [] {
      var init, last := events[..|events| - 1], events[|events| - 1];
      assert forall a | 0 <= a < |init| :: init[a] == events[a];
      WindowHoldsStreak(cfg, init);
      var streak := Streak(cfg, init);
      if init != [] {
        var earlier := init[|init| - 1].now - cfg.window;
        TrimAgain(streak, [last.now], earlier, last.now - cfg.window);
        TrimAgain(streak, [], earlier, last.now - cfg.window);
        assert Trim(streak, earlier) + [] == Trim(streak, earlier) && streak + [] == streak;
      }
      assert [] + [last.now] == [last.now];
    }
  }

  // The streak counts as a crash loop when its threshold-th failure from the end is recent.
  ghost predicate CrashLoop(cfg: Config, streak: seq<real>, now: real)
    requires cfg.threshold >= 1
  {
    |streak| >= cfg.threshold && streak[|streak| - cfg.threshold] >= now - cfg.window
  }

  // The policy reports a loop exactly then: never before threshold failures of the streak, and
  // on the threshold-th as soon as they all fit in the window.
  lemma LoopingMeansCrashLoop(cfg: Config, events: seq<Event>)
    requires cfg.Valid() && Monotone(events) && events != []
    ensures var now := events[|events| - 1].now;
            |Run(cfg, events).failures| >= cfg.threshold <==> CrashLoop(cfg, Streak(cfg, events), now)
  {
    var now, streak := events[|events| - 1].now, Streak(cfg, events);
    WindowHoldsStreak(cfg, events);
    StreakAscends(cfg, events);
    TrimKeepsRecent(streak, now - cfg.window, now);
  }
}
