// The supervision loop of pipeline/supervisor.py beside calls of stop(), one step between any two
// points where the other thread can intervene.
module Supervisor {
  import opened Options
  import Restarts = RestartPolicy

  datatype Status = Starting | Running | Backoff | Degraded | Stopped

  // ------------------------------------------------------------------ the reported state

  datatype Report = Report(policy: Restarts.State, status: Status, restarts: nat, backoff: real)

  const FRESH := Report(Restarts.State(0, []), Starting, 0, 0.0)

  function Launched(r: Report): Report {
    r.(status := Running, backoff := 0.0)
  }

  function Closed(r: Report): Report {
    r.(status := Stopped)
  }

  // What a failure leads to: now is the clock when it is recorded and look when the window is read.
  function Failed(cfg: Restarts.Config, r: Report, runtime: real, now: real, look: real): Report {
    var recorded := Restarts.Recorded(cfg, r.policy, runtime, now);
    var policy := Restarts.Trimmed(cfg, recorded, look);
    if |policy.failures| >= cfg.threshold then Report(policy, Degraded, r.restarts + 1, 0.0)
    else Report(policy, Backoff, r.restarts + 1, Restarts.Delay(cfg, policy.consecutive))
  }

  class SourceSupervisor {
    const policy: Restarts.Policy
    var status: Status
    var restartCount: nat
    var backoffSeconds: real

    ghost function Value(): Report
      reads this, policy
    {
      Report(policy.Value(), status, restartCount, backoffSeconds)
    }

    constructor (cfg: Restarts.Config)
      ensures fresh(policy) && policy.cfg == cfg && Value() == FRESH
    {
      policy := new Restarts.Policy(cfg);
      status, restartCount, backoffSeconds := Starting, 0, 0.0;
    }

    method Launch()
      modifies this
      ensures Value() == Launched(old(Value()))
    {
      status, backoffSeconds := Running, 0.0;
    }

    // The loop body once an attempt is over; stopping is what the stop flag was read as.
    method AfterAttempt(stopping: bool, failed: bool, runtime: real, now: real, look: real) returns (leave: bool)
      modifies this, policy
      ensures Value() == if stopping || !failed then Closed(old(Value()))
                         else Failed(policy.cfg, old(Value()), runtime, now, look)
      ensures leave <==> status != Backoff
    {
      if stopping || !failed {
        status := Stopped;
        return true;
      }
      var delay := policy.RecordFailure(runtime, now);
      var looping := policy.IsCrashLooping(look);
      restartCount := restartCount + 1;
      if looping {
        status, backoffSeconds := Degraded, 0.0;
        return true;
      }
      status, backoffSeconds := Backoff, delay;
      return false;
    }
  }

  // ------------------------------------------------------------------ the two threads

  // Services are numbered in the order they were built.
  datatype Runner =
    | Checking                   // about to read the stop flag at the head of the loop
    | Building                   // running the factory
    | Registering(service: nat)
    | Rechecking(service: nat)   // registered, about to read the stop flag again
    | Telling(service: nat)      // about to stop the service it just registered
    | Beginning(service: nat)    // about to run the service
    | Inside(service: nat)
    | Unregistering(service: nat, failed: bool)
    | Deciding(failed: bool)
    | Recording(runtime: real)
    | Pausing                    // about to read the stop flag before waiting
    | Waiting
    | Exited

  datatype Stopper = Away | Flagged | Holding(service: nat)

  // told holds the services whose stop() was called and begunLate counts the services that began
  // to run after the flag was set; history is what the policy was told and asked.
  datatype State = State(
    runner: Runner, stopper: Stopper, stop: bool, registered: Option<nat>, built: nat, told: set<nat>,
    begunLate: nat, clock: real, started: real, report: Report, history: seq<Restarts.Event>)

  datatype Action =
    | SetFlag | ReadService | StopService
    | CheckStop(now: real) | Build(succeeds: bool) | Register | Recheck | Tell | Begin | Finish(failed: bool)
    | Unregister | Decide(now: real) | RecordFailure(now: real, look: real) | Pause | Wake | TimeOut

  function Start(clock: real): State {
    State(Checking, Away, false, None, 0, {}, 0, clock, clock, FRESH, [])
  }

  function StopperStep(s: State, a: Action): Option<State> {
    match s.stopper
    case Away => if a.SetFlag? then Some(s.(stop := true, stopper := Flagged)) else None
    case Flagged =>
      if a.ReadService? then Some(s.(stopper := if s.registered.Some? then Holding(s.registered.value) else Away))
      else None
    case Holding(service) =>
      if a.StopService? then Some(s.(told := s.told + {service}, stopper := Away)) else None
  }

  function Launch(s: State, now: real): State {
    s.(runner := Building, clock := now, started := now, report := Launched(s.report))
  }

  function Begun(s: State, service: nat): State {
    s.(runner := Inside(service), begunLate := if s.stop then s.begunLate + 1 else s.begunLate)
  }

  function Decided(s: State, failed: bool, now: real): State {
    if s.stop || !failed then s.(runner := Exited, clock := now, report := Closed(s.report))
    else s.(runner := Recording(now - s.started), clock := now)
  }

  function FailureRecorded(cfg: Restarts.Config, s: State, runtime: real, now: real, look: real): State {
    var report := Failed(cfg, s.report, runtime, now, look);
    s.(runner := if report.status == Degraded then Exited else Pausing, clock := look, report := report,
       history := s.history + [Restarts.Fail(now, runtime)] + [Restarts.Look(look)])
  }

  function RunnerStep(cfg: Restarts.Config, s: State, a: Action): Option<State> {
    match s.runner
    case Checking =>
      if !a.CheckStop? || a.now < s.clock then None
      else Some(if s.stop then s.(runner := Exited, clock := a.now) else Launch(s, a.now))
    case Building =>
      if !a.Build? then None
      else Some(if a.succeeds then s.(runner := Registering(s.built), built := s.built + 1)
                else s.(runner := Deciding(true)))
    case Registering(service) =>
      if a.Register? then Some(s.(runner := Rechecking(service), registered := Some(service))) else None
    case Rechecking(service) =>
      if a.Recheck? then Some(s.(runner := if s.stop then Telling(service) else Beginning(service))) else None
    case Telling(service) =>
      if a.Tell? then Some(s.(runner := Beginning(service), told := s.told + {service})) else None
    case Beginning(service) => if a.Begin? then Some(Begun(s, service)) else None
    case Inside(service) => if a.Finish? then Some(s.(runner := Unregistering(service, a.failed))) else None
    case Unregistering(_, failed) =>
      if a.Unregister? then Some(s.(runner := Deciding(failed), registered := None)) else None
    case Deciding(failed) => if a.Decide? && a.now >= s.clock then Some(Decided(s, failed, a.now)) else None
    case Recording(runtime) =>
      if a.RecordFailure? && s.clock <= a.now <= a.look
      then Some(FailureRecorded(cfg, s, runtime, a.now, a.look)) else None
    case Pausing =>
      if !a.Pause? then None
      else Some(if s.stop then s.(runner := Exited, report := Closed(s.report)) else s.(runner := Waiting))
    // a wait that runs out reports so even when the flag was set at that moment
    case Waiting => (
      match a
      case Wake => if s.stop then Some(s.(runner := Exited, report := Closed(s.report))) else None
      case TimeOut => Some(s.(runner := Checking))
      case _ => None)
    case Exited => None
  }

  function Step(cfg: Restarts.Config, s: State, a: Action): Option<State> {
    if RunnerStep(cfg, s, a).Some? then RunnerStep(cfg, s, a) else StopperStep(s, a)
  }

  function Run(cfg: Restarts.Config, clock: real, actions: seq<Action>): Option<State> {
    if actions == [] then Some(Start(clock))
    else
      var before := Run(cfg, clock, actions[..|actions| - 1]);
      if before.None? then None else Step(cfg, before.value, actions[|actions| - 1])
  }

  // ------------------------------------------------------------------ the handshake

  // The service between its construction and the end of its run.
  function Live(r: Runner): Option<nat> {
    match r
    case Beginning(service) => Some(service)
    case Inside(service) => Some(service)
    case _ => None
  }

  function Held(r: Runner): Option<nat> {
    match r
    case Rechecking(service) => Some(service)
    case Telling(service) => Some(service)
    case Unregistering(service, _) => Some(service)
    case _ => Live(r)
  }

  // A service that runs or is about to, once the flag is set, was told to stop or is about to be
  // by the stopper; and only the attempt under way may begin after the flag.
  ghost predicate Handshake(s: State) {
    && s.registered == Held(s.runner)
    && (!s.stop ==> s.stopper.Away? && s.begunLate == 0)
    && (s.stop && Live(s.runner).Some? ==>
          Live(s.runner).value in s.told || s.stopper.Flagged? || s.stopper == Holding(Live(s.runner).value))
    && (s.begunLate > 0 ==>
          s.begunLate == 1 && (s.runner.Inside? || s.runner.Unregistering? || s.runner.Deciding? || s.runner.Exited?))
  }

  lemma HandshakeStep(cfg: Restarts.Config, s: State, a: Action)
    requires Step(cfg, s, a).Some? && Handshake(s)
    ensures Handshake(Step(cfg, s, a).value)
  {
    hide Failed;
  }

  lemma {:induction false} HandshakeAlways(cfg: Restarts.Config, clock: real, actions: seq<Action>)
    requires Run(cfg, clock, actions).Some?
    ensures Handshake(Run(cfg, clock, actions).value)
  {
    if actions != [] {
      var init, last := actions[..|actions| - 1], actions[|actions| - 1];
      HandshakeAlways(cfg, clock, init);
      HandshakeStep(cfg, Run(cfg, clock, init).value, last);
      hide Step, Handshake;
    }
  }

  // Once a call of stop() returned, a service that runs or is about to run was told to stop, by
  // one side or the other, and at most one service began after the flag was set.
  lemma NoServiceMissesTheStop(cfg: Restarts.Config, clock: real, actions: seq<Action>)
    requires Run(cfg, clock, actions).Some?
    ensures var s := Run(cfg, clock, actions).value;
            && (s.stop && s.stopper.Away? && Live(s.runner).Some? ==> Live(s.runner).value in s.told)
            && s.begunLate <= 1
  {
    HandshakeAlways(cfg, clock, actions);
    hide Run;
  }

  // How many steps the runner may still take once the flag is set.
  function Remaining(r: Runner): nat {
    match r
    case Building => 8
    case Registering(_) => 7
    case Rechecking(_) => 6
    case Telling(_) => 5
    case Beginning(_) => 4
    case Inside(_) => 3
    case Unregistering(_, _) => 2
    case Deciding(_) => 1
    case Recording(_) => 4
    case Pausing => 3
    case Waiting => 2
    case Checking => 1
    case Exited => 0
  }

  // Every step the runner takes under the flag brings its exit nearer.
  lemma StopShortensTheRun(cfg: Restarts.Config, s: State, a: Action)
    requires s.stop && Step(cfg, s, a).Some?
    ensures var t := Step(cfg, s, a).value;
            t.stop && Remaining(t.runner) <= Remaining(s.runner)
            && (RunnerStep(cfg, s, a).Some? ==> Remaining(t.runner) < Remaining(s.runner))
  {
    hide Failed;
  }

  // A run continued by further actions.
  function After(cfg: Restarts.Config, s: State, actions: seq<Action>): Option<State> {
    if actions == [] then Some(s)
    else
      var before := After(cfg, s, actions[..|actions| - 1]);
      if before.None? then None else Step(cfg, before.value, actions[|actions| - 1])
  }

  // How many of the actions were the runner's.
  function RunnerSteps(cfg: Restarts.Config, s: State, actions: seq<Action>): nat {
    if actions == [] then 0
    else
      var init := actions[..|actions| - 1];
      var before := After(cfg, s, init);
      RunnerSteps(cfg, s, init)
      + if before.Some? && RunnerStep(cfg, before.value, actions[|actions| - 1]).Some? then 1 else 0
  }

  // From the moment the flag is set the runner takes at most eight steps, whatever the stopper does.
  lemma {:induction false} StopEndsTheRun(cfg: Restarts.Config, s: State, actions: seq<Action>)
    requires s.stop && After(cfg, s, actions).Some?
    ensures var t := After(cfg, s, actions).value;
            t.stop && RunnerSteps(cfg, s, actions) + Remaining(t.runner) <= Remaining(s.runner) <= 8
  {
    if actions != [] {
      var init, last := actions[..|actions| - 1], actions[|actions| - 1];
      StopEndsTheRun(cfg, s, init);
      StopShortensTheRun(cfg, After(cfg, s, init).value, last);
      hide Step, RunnerStep, Remaining;
    }
  }

  // ------------------------------------------------------------------ backoff and degradation

  // The reported status at each point of the loop.
  predicate StatusFits(s: State) {
    match s.runner
    case Checking => s.report.status == Starting || s.report.status == Backoff
    case Pausing => s.report.status == Backoff
    case Waiting => s.report.status == Backoff
    case Exited => s.report.status != Running && (s.stop || (s.report.status != Starting && s.report.status != Backoff))
    case _ => s.report.status == Running
  }

  // What the policy remembers is what its history says, up to the clock.
  ghost predicate Remembered(cfg: Restarts.Config, s: State) {
    && s.report.policy == Restarts.Run(cfg, s.history)
    && Restarts.Monotone(s.history)
    && (forall k | 0 <= k < |s.history| :: s.history[k].now <= s.clock)
    && |s.history| == 2 * s.report.restarts
    && (forall k | 0 <= k < |s.history| :: s.history[k].Look? <==> k % 2 == 1)
  }

  // A crash loop as seen by the look at position k.
  ghost predicate LoopSeen(cfg: Restarts.Config, history: seq<Restarts.Event>, k: nat)
    requires cfg.threshold >= 1 && k < |history|
  {
    history[k].Look? && Restarts.CrashLoop(cfg, Restarts.Streak(cfg, history[..k + 1]), history[k].now)
  }

  ghost predicate Judged(cfg: Restarts.Config, s: State)
    requires cfg.threshold >= 1
  {
    && (s.report.status == Degraded ==>
          s.runner.Exited? && s.history != [] && LoopSeen(cfg, s.history, |s.history| - 1))
    && (forall k: nat | k < |s.history| && LoopSeen(cfg, s.history, k) ::
          k == |s.history| - 1 && s.report.status == Degraded)
    && (s.runner.Pausing? || s.runner.Waiting? ==>
          s.report.policy.consecutive >= 1 && s.report.backoff == Restarts.Delay(cfg, s.report.policy.consecutive))
  }

  ghost predicate Sound(cfg: Restarts.Config, s: State)
    requires cfg.threshold >= 1
  {
    StatusFits(s) && Remembered(cfg, s) && Judged(cfg, s)
  }

  lemma RunGrows(cfg: Restarts.Config, history: seq<Restarts.Event>, event: Restarts.Event)
    ensures Restarts.Run(cfg, history + [event]) ==
            if event.Fail? then Restarts.Recorded(cfg, Restarts.Run(cfg, history), event.runtime, event.now)
            else Restarts.Trimmed(cfg, Restarts.Run(cfg, history), event.now)
  {
    hide Restarts.Recorded, Restarts.Trimmed;
    assert (history + [event])[..|history|] == history;
  }

  lemma HistoryGrows(cfg: Restarts.Config, s: State, runtime: real, now: real, look: real)
    requires Remembered(cfg, s) && s.clock <= now <= look
    ensures Remembered(cfg, FailureRecorded(cfg, s, runtime, now, look))
  {
    hide Restarts.Run, Restarts.Recorded, Restarts.Trimmed, Restarts.Delay;
    RunGrows(cfg, s.history, Restarts.Fail(now, runtime));
    RunGrows(cfg, s.history + [Restarts.Fail(now, runtime)], Restarts.Look(look));
  }

  lemma FailureJudged(cfg: Restarts.Config, s: State, runtime: real, now: real, look: real)
    requires cfg.Valid() && Sound(cfg, s) && s.runner == Recording(runtime) && s.clock <= now <= look
    ensures Judged(cfg, FailureRecorded(cfg, s, runtime, now, look))
  {
    var t := FailureRecorded(cfg, s, runtime, now, look);
    HistoryGrows(cfg, s, runtime, now, look);
    Restarts.LoopingMeansCrashLoop(cfg, t.history);
    assert t.history[..|t.history|] == t.history;
    hide Restarts.Run, Restarts.Trim, Restarts.Streak, Restarts.CrashLoop, Restarts.Delay;
    forall k: nat | k < |s.history|
      ensures !LoopSeen(cfg, t.history, k)
    {
      assert t.history[k] == s.history[k] && t.history[..k + 1] == s.history[..k + 1];
      assert !LoopSeen(cfg, s.history, k);
    }
  }

  // A step that records no failure leaves the history and the verdict as they are.
  lemma QuietStep(cfg: Restarts.Config, s: State, a: Action)
    requires Step(cfg, s, a).Some? && !(s.runner.Recording? && RunnerStep(cfg, s, a).Some?)
    requires StatusFits(s)
    ensures var t := Step(cfg, s, a).value;
            && StatusFits(t) && t.history == s.history && t.clock >= s.clock
            && t.report.policy == s.report.policy && t.report.restarts == s.report.restarts
            && (s.runner.Exited? ==> t.runner.Exited? && t.report == s.report)
            && (t.report.status == Degraded ==> s.report.status == Degraded)
            && (t.runner.Pausing? || t.runner.Waiting? ==>
                  (s.runner.Pausing? || s.runner.Waiting?) && t.report.backoff == s.report.backoff)
  {
    hide Failed, Restarts.Recorded, Restarts.Trimmed;
  }

  lemma SoundStep(cfg: Restarts.Config, s: State, a: Action)
    requires cfg.Valid() && Step(cfg, s, a).Some? && Sound(cfg, s)
    ensures Sound(cfg, Step(cfg, s, a).value)
  {
    if s.runner.Recording? && RunnerStep(cfg, s, a).Some? {
      HistoryGrows(cfg, s, s.runner.runtime, a.now, a.look);
      FailureJudged(cfg, s, s.runner.runtime, a.now, a.look);
      hide Remembered, Judged;
    } else {
      QuietStep(cfg, s, a);
      hide Step, RunnerStep, StatusFits, Restarts.Run, Restarts.Monotone, LoopSeen, Restarts.Delay;
    }
  }

  lemma {:induction false} SoundAlways(cfg: Restarts.Config, clock: real, actions: seq<Action>)
    requires cfg.Valid() && Run(cfg, clock, actions).Some?
    ensures Sound(cfg, Run(cfg, clock, actions).value)
  {
    if actions != [] {
      var init, last := actions[..|actions| - 1], actions[|actions| - 1];
      SoundAlways(cfg, clock, init);
      SoundStep(cfg, Run(cfg, clock, init).value, last);
      hide Step, Sound;
    }
  }

  // ------------------------------------------------------------------ what the actions say

  // The clock at the latest head of the loop, and at the latest end of an attempt.
  function LastCheck(actions: seq<Action>): real {
    if actions == [] then 0.0
    else if actions[|actions| - 1].CheckStop? then actions[|actions| - 1].now
    else LastCheck(actions[..|actions| - 1])
  }

  function LastDecide(actions: seq<Action>): real {
    if actions == [] then 0.0
    else if actions[|actions| - 1].Decide? then actions[|actions| - 1].now
    else LastDecide(actions[..|actions| - 1])
  }

  // Whether the latest attempt failed: in the factory, or as its service reported.
  function LastFailed(actions: seq<Action>): bool {
    if actions == [] then false
    else
      match actions[|actions| - 1]
      case Build(succeeds) => !succeeds
      case Finish(failed) => failed
      case _ => LastFailed(actions[..|actions| - 1])
  }

  // What the policy is told and asked in one action: a failure with its runtime, and a look.
  function FailureOf(a: Action, runtime: real): seq<Restarts.Event> {
    if a.RecordFailure? then [Restarts.Fail(a.now, runtime), Restarts.Look(a.look)] else []
  }

  // The failures and looks of a run: each failure with the time from the head of the loop that
  // began its attempt to the end of that attempt.
  function Failures(actions: seq<Action>): seq<Restarts.Event> {
    if actions == [] then []
    else
      var init, last := actions[..|actions| - 1], actions[|actions| - 1];
      Failures(init) + FailureOf(last, LastDecide(init) - LastCheck(init))
  }

  function Builds(actions: seq<Action>): nat {
    if actions == [] then 0
    else
      Builds(actions[..|actions| - 1])
      + if actions[|actions| - 1].Build? && actions[|actions| - 1].succeeds then 1 else 0
  }

  // The services that began to run after a stop request.
  function LateBegins(actions: seq<Action>): nat {
    if actions == [] then 0
    else
      var init, last := actions[..|actions| - 1], actions[|actions| - 1];
      LateBegins(init) + if last.Begin? && SetFlag in init then 1 else 0
  }

  // What the state records is what the actions say.
  ghost predicate Logged(s: State, actions: seq<Action>) {
    && s.history == Failures(actions)
    && (s.stop <==> SetFlag in actions) && s.built == Builds(actions) && s.begunLate == LateBegins(actions)
    && (InAttempt(s.runner) ==> s.started == LastCheck(actions))
    && (s.runner.Recording? ==> s.runner.runtime == LastDecide(actions) - LastCheck(actions) && LastFailed(actions))
    && (s.runner.Unregistering? || s.runner.Deciding? ==> (s.runner.failed <==> LastFailed(actions)))
  }

  predicate InAttempt(r: Runner) {
    !(r.Checking? || r.Recording? || r.Pausing? || r.Waiting? || r.Exited?)
  }

  lemma LogGrows(actions: seq<Action>, a: Action)
    ensures LastCheck(actions + [a]) == if a.CheckStop? then a.now else LastCheck(actions)
    ensures LastDecide(actions + [a]) == if a.Decide? then a.now else LastDecide(actions)
    ensures LastFailed(actions + [a]) ==
            if a.Build? then !a.succeeds else if a.Finish? then a.failed else LastFailed(actions)
    ensures Builds(actions + [a]) == Builds(actions) + if a.Build? && a.succeeds then 1 else 0
    ensures LateBegins(actions + [a]) == LateBegins(actions) + if a.Begin? && SetFlag in actions then 1 else 0
    ensures SetFlag in actions + [a] <==> SetFlag in actions || a.SetFlag?
  {
    assert (actions + [a])[..|actions|] == actions;
  }

  lemma FailuresLast(actions: seq<Action>)
    requires actions != []
    ensures var init := actions[..|actions| - 1];
            Failures(actions) == Failures(init) + FailureOf(actions[|actions| - 1], LastDecide(init) - LastCheck(init))
  {
    hide LastDecide, LastCheck, FailureOf;
  }

  lemma FailuresGrow(actions: seq<Action>, a: Action)
    ensures Failures(actions + [a]) == Failures(actions) + FailureOf(a, LastDecide(actions) - LastCheck(actions))
  {
    hide LastDecide, LastCheck, FailureOf;
    FailuresLast(actions + [a]);
    assert (actions + [a])[..|actions|] == actions;
    hide Failures;
  }

  lemma RunnerLogs(cfg: Restarts.Config, s: State, actions: seq<Action>, a: Action)
    requires RunnerStep(cfg, s, a).Some? && Logged(s, actions)
    ensures Logged(RunnerStep(cfg, s, a).value, actions + [a])
  {
    hide Failures, LastCheck, LastDecide, LastFailed, Builds, LateBegins, Failed;
    LogGrows(actions, a);
    FailuresGrow(actions, a);
    var before := Failures(actions);
    assert before + [] == before;
    if s.runner.Recording? {
      var fail, look := Restarts.Fail(a.now, s.runner.runtime), Restarts.Look(a.look);
      assert before + [fail] + [look] == before + [fail, look];
    }
  }

  lemma StopperLogs(s: State, actions: seq<Action>, a: Action)
    requires StopperStep(s, a).Some? && Logged(s, actions)
    ensures Logged(StopperStep(s, a).value, actions + [a])
  {
    hide Failures, LastCheck, LastDecide, LastFailed, Builds, LateBegins;
    LogGrows(actions, a);
    FailuresGrow(actions, a);
    assert Failures(actions) + [] == Failures(actions);
  }

  lemma LogStep(cfg: Restarts.Config, s: State, actions: seq<Action>, a: Action)
    requires Step(cfg, s, a).Some? && Logged(s, actions)
    ensures Logged(Step(cfg, s, a).value, actions + [a])
  {
    hide Logged, RunnerStep, StopperStep;
    if RunnerStep(cfg, s, a).Some? {
      RunnerLogs(cfg, s, actions, a);
    } else {
      StopperLogs(s, actions, a);
    }
  }

  lemma {:induction false} RunIsLogged(cfg: Restarts.Config, clock: real, actions: seq<Action>)
    requires Run(cfg, clock, actions).Some?
    ensures Logged(Run(cfg, clock, actions).value, actions)
  {
    if actions != [] {
      var init, last := actions[..|actions| - 1], actions[|actions| - 1];
      RunIsLogged(cfg, clock, init);
      LogStep(cfg, Run(cfg, clock, init).value, init, last);
      assert actions == init + [last];
      hide Step, Logged;
    }
  }

  // The time an action was taken at, if it reads the clock.
  function TimeOf(a: Action): Option<real> {
    if a.CheckStop? then Some(a.now) else if a.Decide? then Some(a.now)
    else if a.RecordFailure? then Some(a.look) else None
  }

  // The latest time read, or else the time the run began.
  function LatestTime(clock: real, actions: seq<Action>): real {
    if actions == [] then clock
    else
      var last := TimeOf(actions[|actions| - 1]);
      if last.Some? then last.value else LatestTime(clock, actions[..|actions| - 1])
  }

  predicate NotBefore(clock: real, before: seq<Action>, a: Action) {
    TimeOf(a).Some? ==> LatestTime(clock, before) <= TimeOf(a).value
  }

  // The clock of a run never goes back, whatever it is read for.
  lemma {:induction false} ClockIsMonotone(cfg: Restarts.Config, clock: real, actions: seq<Action>)
    requires Run(cfg, clock, actions).Some?
    ensures Run(cfg, clock, actions).value.clock == LatestTime(clock, actions)
    ensures forall k | 0 <= k < |actions| :: NotBefore(clock, actions[..k], actions[k])
  {
    if actions != [] {
      var init, last := actions[..|actions| - 1], actions[|actions| - 1];
      ClockIsMonotone(cfg, clock, init);
      ClockStep(cfg, Run(cfg, clock, init).value, last);
      hide Step, TimeOf;
      assert NotBefore(clock, init, last);
      assert Run(cfg, clock, actions).value.clock == LatestTime(clock, actions);
      hide NotBefore, Run, LatestTime;
      forall k | 0 <= k < |actions|
        ensures NotBefore(clock, actions[..k], actions[k])
      {
        assert k < |init| ==> init[k] == actions[k] && init[..k] == actions[..k];
      }
    }
  }

  lemma ClockStep(cfg: Restarts.Config, s: State, a: Action)
    requires Step(cfg, s, a).Some?
    ensures Step(cfg, s, a).value.clock == if TimeOf(a).Some? then TimeOf(a).value else s.clock
    ensures TimeOf(a).Some? ==> s.clock <= TimeOf(a).value
  {
    hide Failed;
  }

  // The end of an attempt: it is recorded as a failure exactly when the attempt failed and no stop
  // was requested, and otherwise the run is over and stopped.
  lemma AttemptOutcome(cfg: Restarts.Config, clock: real, actions: seq<Action>, now: real)
    requires Run(cfg, clock, actions).Some? && Run(cfg, clock, actions).value.runner.Deciding?
    requires now >= Run(cfg, clock, actions).value.clock
    ensures var t := Run(cfg, clock, actions + [Decide(now)]);
            && t.Some?
            && (if LastFailed(actions) && SetFlag !in actions then t.value.runner == Recording(now - LastCheck(actions))
                else t.value.runner.Exited? && t.value.report.status == Stopped)
  {
    assert (actions + [Decide(now)])[..|actions|] == actions;
    RunIsLogged(cfg, clock, actions);
  }

  // A service counts as told only after one of the two calls for it.
  lemma ToldByACall(cfg: Restarts.Config, s: State, a: Action)
    requires Step(cfg, s, a).Some? && Handshake(s)
    ensures var t := Step(cfg, s, a).value;
            t.told == s.told
            || (a.Tell? && s.registered.Some? && t.told == s.told + {s.registered.value})
            || (a.StopService? && s.stopper.Holding? && t.told == s.told + {s.stopper.service})
  {
    hide Failed;
  }

  // A call of stop() that nothing intervenes in sets the flag and tells the service registered by
  // then, if there is one, and the next call may begin.
  lemma StopCallCompletes(cfg: Restarts.Config, s: State)
    requires s.stopper.Away?
    ensures var call := [SetFlag, ReadService] + if s.registered.Some? then [StopService] else [];
            After(cfg, s, call) ==
            Some(s.(stop := true, told := if s.registered.Some? then s.told + {s.registered.value} else s.told))
  {
    hide RunnerStep;
    var flagged := s.(stop := true, stopper := Flagged);
    var read := flagged.(stopper := if s.registered.Some? then Holding(s.registered.value) else Away);
    StopperMoves(cfg, s, SetFlag);
    StopperMoves(cfg, flagged, ReadService);
    assert [SetFlag][..0] == [] && [SetFlag, ReadService][..1] == [SetFlag];
    assert After(cfg, s, [SetFlag]) == Some(flagged);
    assert After(cfg, s, [SetFlag, ReadService]) == Some(read);
    if s.registered.Some? {
      StopperMoves(cfg, read, StopService);
      assert ([SetFlag, ReadService] + [StopService])[..2] == [SetFlag, ReadService];
    } else {
      assert [SetFlag, ReadService] + [] == [SetFlag, ReadService];
    }
  }

  // The runner has no part in the stopper's actions.
  lemma StopperMoves(cfg: Restarts.Config, s: State, a: Action)
    requires a.SetFlag? || a.ReadService? || a.StopService?
    ensures Step(cfg, s, a) == StopperStep(s, a)
  {
  }

  // A waiting source can be woken exactly when a stop was requested, and that ends the run.
  lemma WaitWakesOnStop(cfg: Restarts.Config, clock: real, actions: seq<Action>)
    requires Run(cfg, clock, actions).Some? && Run(cfg, clock, actions).value.runner.Waiting?
    ensures Run(cfg, clock, actions + [Wake]).Some? <==> SetFlag in actions
    ensures SetFlag in actions ==>
              var t := Run(cfg, clock, actions + [Wake]).value;
              t.runner.Exited? && t.report.status == Stopped
  {
    RunIsLogged(cfg, clock, actions);
    assert (actions + [Wake])[..|actions|] == actions;
    hide Logged;
  }

  // Until the run has exited the runner always has a step to take.
  lemma RunnerIsNeverStuck(cfg: Restarts.Config, s: State)
    ensures s.runner.Exited? <==> forall a :: RunnerStep(cfg, s, a).None?
  {
    hide Failed;
    if !s.runner.Exited? {
      var a := NextAction(s);
      assert RunnerStep(cfg, s, a).Some?;
    }
  }

  function NextAction(s: State): Action {
    match s.runner
    case Checking => CheckStop(s.clock)
    case Building => Build(false)
    case Registering(_) => Register
    case Rechecking(_) => Recheck
    case Telling(_) => Tell
    case Beginning(_) => Begin
    case Inside(_) => Finish(false)
    case Unregistering(_, _) => Unregister
    case Deciding(_) => Decide(s.clock)
    case Recording(_) => RecordFailure(s.clock, s.clock)
    case Pausing => Pause
    case Waiting => TimeOut
    case Exited => TimeOut
  }

  // Some look of a history found a crash loop,
  ghost predicate LoopFound(cfg: Restarts.Config, history: seq<Restarts.Event>)
    requires cfg.threshold >= 1
  {
    exists k: nat :: k < |history| && LoopSeen(cfg, history, k)
  }

  // and none before the last one did.
  ghost predicate FoundLast(cfg: Restarts.Config, history: seq<Restarts.Event>)
    requires cfg.threshold >= 1
  {
    forall k: nat | k < |history| && LoopSeen(cfg, history, k) :: k == |history| - 1
  }

  // The source is degraded exactly when some look found a crash loop in what the actions say, and
  // then it was the last: never before the threshold-th recent failure of a streak, and on that
  // very failure.
  lemma DegradedIffCrashLoop(cfg: Restarts.Config, clock: real, actions: seq<Action>)
    requires cfg.Valid() && Run(cfg, clock, actions).Some?
    ensures Run(cfg, clock, actions).value.report.status == Degraded <==> LoopFound(cfg, Failures(actions))
    ensures FoundLast(cfg, Failures(actions))
  {
    SoundAlways(cfg, clock, actions);
    RunIsLogged(cfg, clock, actions);
    hide Run, Remembered, LoopSeen, StatusFits, Failures, Judged, LoopFound, FoundLast;
    VerdictOfHistory(cfg, Run(cfg, clock, actions).value);
  }

  lemma VerdictOfHistory(cfg: Restarts.Config, s: State)
    requires cfg.Valid() && Judged(cfg, s)
    ensures s.report.status == Degraded <==> LoopFound(cfg, s.history)
    ensures FoundLast(cfg, s.history)
  {
    hide LoopSeen, Restarts.Delay;
    if s.report.status == Degraded {
      assert LoopSeen(cfg, s.history, |s.history| - 1);
    }
  }

  // Degraded is the end of the run: no step of either thread changes the report any more.
  lemma DegradedIsAbsorbing(cfg: Restarts.Config, clock: real, actions: seq<Action>, a: Action)
    requires cfg.Valid() && Run(cfg, clock, actions).Some? && Step(cfg, Run(cfg, clock, actions).value, a).Some?
    requires Run(cfg, clock, actions).value.report.status == Degraded
    ensures Step(cfg, Run(cfg, clock, actions).value, a).value.report == Run(cfg, clock, actions).value.report
    ensures Step(cfg, Run(cfg, clock, actions).value, a).value.runner.Exited?
  {
    var s := Run(cfg, clock, actions).value;
    SoundAlways(cfg, clock, actions);
    assert s.runner.Exited?;
    QuietStep(cfg, s, a);
    hide Run, Step, RunnerStep;
  }

  // While the source waits, the delay is the ladder's for the length of the streak, within the
  // configured bounds, and one failure was recorded per restart.
  lemma WaitFollowsLadder(cfg: Restarts.Config, clock: real, actions: seq<Action>)
    requires cfg.Valid() && Run(cfg, clock, actions).Some? && Run(cfg, clock, actions).value.runner.Waiting?
    ensures var s := Run(cfg, clock, actions).value;
            var streak := Restarts.Streak(cfg, Failures(actions));
            && |streak| >= 1 && s.report.backoff == Restarts.Delay(cfg, |streak|)
            && cfg.initial <= s.report.backoff <= cfg.maximum
            && s.report.restarts >= 1
  {
    var s := Run(cfg, clock, actions).value;
    SoundAlways(cfg, clock, actions);
    RunIsLogged(cfg, clock, actions);
    Restarts.WindowHoldsStreak(cfg, s.history);
    Restarts.DelayLadder(cfg, |Restarts.Streak(cfg, s.history)|);
    hide Run, Restarts.Run, Restarts.Streak, Restarts.Delay, LoopSeen, StatusFits, Failures;
  }

  // A source that starts, runs or is degraded reports no delay.
  lemma {:induction false} NoDelayWhileRunning(cfg: Restarts.Config, clock: real, actions: seq<Action>)
    requires cfg.Valid() && Run(cfg, clock, actions).Some?
    ensures var report := Run(cfg, clock, actions).value.report;
            report.status == Starting || report.status == Running || report.status == Degraded ==> report.backoff == 0.0
  {
    if actions != [] {
      var init, last := actions[..|actions| - 1], actions[|actions| - 1];
      NoDelayWhileRunning(cfg, clock, init);
      hide Restarts.Recorded, Restarts.Trimmed, Restarts.Delay;
    }
  }

  predicate Terminal(status: Status) {
    status == Stopped || status == Degraded
  }

  // The step that ends a run leaves a terminal status exactly when it is not taken at the head of
  // the loop; there the flag was set and the report stays as it was before.
  lemma ExitStatus(cfg: Restarts.Config, clock: real, actions: seq<Action>, a: Action)
    requires cfg.Valid() && Run(cfg, clock, actions).Some? && Step(cfg, Run(cfg, clock, actions).value, a).Some?
    requires !Run(cfg, clock, actions).value.runner.Exited?
    requires Step(cfg, Run(cfg, clock, actions).value, a).value.runner.Exited?
    ensures var s := Run(cfg, clock, actions).value;
            var t := Step(cfg, s, a).value;
            && (Terminal(t.report.status) <==> !s.runner.Checking?)
            && (s.runner.Checking? ==> s.stop && t.report == s.report)
            && (s.runner.Checking? ==> t.report.status == Starting || t.report.status == Backoff)
  {
    SoundAlways(cfg, clock, actions);
    hide Run, Remembered, Judged, Restarts.Recorded, Restarts.Trimmed;
  }

  // So a run that no stop request reached ends stopped or degraded, and none ends running.
  lemma UnstoppedRunsEndTerminal(cfg: Restarts.Config, clock: real, actions: seq<Action>)
    requires cfg.Valid() && Run(cfg, clock, actions).Some? && Run(cfg, clock, actions).value.runner.Exited?
    ensures var s := Run(cfg, clock, actions).value;
            s.report.status != Running && (!s.stop ==> Terminal(s.report.status))
  {
    SoundAlways(cfg, clock, actions);
    hide Run, Remembered, Judged;
  }

  lemma RunOn(cfg: Restarts.Config, before: seq<Action>, s: State, a: Action, t: State)
    requires Run(cfg, 0.0, before) == Some(s) && Step(cfg, s, a) == Some(t)
    ensures Run(cfg, 0.0, before + [a]) == Some(t)
  {
    var longer := before + [a];
    assert longer[..|longer| - 1] == before;
    hide Step;
  }

  // One failed construction, and then a stop just after the wait for its retry ran out.
  function FailOnce(): seq<Action> {
    [] + [CheckStop(0.0)] + [Build(false)] + [Decide(0.0)] + [RecordFailure(0.0, 0.0)]
  }

  function StopAfterWait(): seq<Action> {
    FailOnce() + [Pause] + [TimeOut] + [SetFlag] + [CheckStop(0.0)]
  }

  function Lenient(): Restarts.Config {
    Restarts.Config(1.0, 1.0, 1.0, 2, 1.0)
  }

  function FailedOnce(): State {
    Start(0.0).(runner := Pausing, report := Failed(Lenient(), Launched(FRESH), 0.0, 0.0, 0.0),
                history := [Restarts.Fail(0.0, 0.0), Restarts.Look(0.0)])
  }

  lemma OneFailureIsNoLoop()
    ensures Failed(Lenient(), Launched(FRESH), 0.0, 0.0, 0.0).status == Backoff
  {
    var cfg := Lenient();
    assert Restarts.Recorded(cfg, FRESH.policy, 0.0, 0.0).failures == [0.0];
    assert Restarts.Trim([0.0], -1.0) == [0.0];
  }

  lemma FirstFailure()
    ensures Run(Lenient(), 0.0, FailOnce()) == Some(FailedOnce())
  {
    var cfg := Lenient();
    var s0 := Start(0.0);
    var s1 := Launch(s0, 0.0);
    var s2 := s1.(runner := Deciding(true));
    var s3 := s2.(runner := Recording(0.0));
    assert Run(cfg, 0.0, []) == Some(s0);
    hide Run, Failed;
    OneFailureIsNoLoop();
    assert FailureRecorded(cfg, s3, 0.0, 0.0, 0.0) == FailedOnce() by {
      assert [] + [Restarts.Fail(0.0, 0.0)] + [Restarts.Look(0.0)] == [Restarts.Fail(0.0, 0.0), Restarts.Look(0.0)];
    }
    hide FailureRecorded, FailedOnce;
    RunOn(cfg, [], s0, CheckStop(0.0), s1);
    RunOn(cfg, [] + [CheckStop(0.0)], s1, Build(false), s2);
    RunOn(cfg, [] + [CheckStop(0.0)] + [Build(false)], s2, Decide(0.0), s3);
    RunOn(cfg, [] + [CheckStop(0.0)] + [Build(false)] + [Decide(0.0)], s3, RecordFailure(0.0, 0.0), FailedOnce());
  }

  // So the run may be over with the status still saying that a retry is due.
  lemma BackoffMayOutliveTheRun()
    ensures var s := Run(Lenient(), 0.0, StopAfterWait());
            Lenient().Valid() && s.Some? && s.value.runner.Exited? && s.value.stop && s.value.report.status == Backoff
  {
    var cfg, p, s4 := Lenient(), FailOnce(), FailedOnce();
    FirstFailure();
    OneFailureIsNoLoop();
    hide Run, FailOnce, Failed;
    var s5 := s4.(runner := Waiting);
    var s6 := s5.(runner := Checking);
    var s7 := s6.(stop := true, stopper := Flagged);
    RunOn(cfg, p, s4, Pause, s5);
    RunOn(cfg, p + [Pause], s5, TimeOut, s6);
    RunOn(cfg, p + [Pause] + [TimeOut], s6, SetFlag, s7);
    RunOn(cfg, p + [Pause] + [TimeOut] + [SetFlag], s7, CheckStop(0.0), s7.(runner := Exited));
  }
}
