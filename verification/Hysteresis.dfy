// The window-idempotent hysteresis counter of detection/system_failure.py.
module Hysteresis {
  import opened Options

  function AtLeastOne(needed: int): (n: nat)
    ensures n >= 1
  {
    if needed < 1 then 1 else needed
  }

  // How many consecutive windows trigger and clear a condition.
  datatype Limits = Limits(breach: nat, clear: nat) {
    ghost predicate Valid() {
      breach >= 1 && clear >= 1
    }
  }

  // The counts and the flag, apart from the window bookkeeping.
  datatype Counts = Counts(breaches: nat, clears: nat, active: bool)

  datatype State = State(counts: Counts, lastWindow: Option<real>)

  const ZERO := Counts(0, 0, false)
  const START := State(ZERO, None)

  function Advance(l: Limits, c: Counts, inBreach: bool): Counts {
    if inBreach then Counts(c.breaches + 1, 0, c.active || c.breaches + 1 >= l.breach)
    else Counts(0, c.clears + 1, c.active && c.clears + 1 < l.clear)
  }

  // A window is new when it is later than the last one advanced on.
  predicate IsNew(s: State, window: real) {
    s.lastWindow.None? || s.lastWindow.value < window
  }

  function Observed(l: Limits, s: State, inBreach: bool, window: real): State {
    if IsNew(s, window) then State(Advance(l, s.counts, inBreach), Some(window)) else s
  }

  class HysteresisCounter {
    const limits: Limits
    var breachCount: nat
    var clearCount: nat
    var active: bool
    var lastWindow: Option<real>

    ghost function Value(): State
      reads this
    {
      State(Counts(breachCount, clearCount, active), lastWindow)
    }

    constructor (breachNeeded: int, clearNeeded: int)
      ensures limits == Limits(AtLeastOne(breachNeeded), AtLeastOne(clearNeeded))
      ensures Value() == START
    {
      limits := Limits(AtLeastOne(breachNeeded), AtLeastOne(clearNeeded));
      breachCount, clearCount, active, lastWindow := 0, 0, false, None;
    }

    method Observe(inBreach: bool, windowStart: real) returns (nowActive: bool, justCleared: bool)
      modifies this
      ensures Value() == Observed(limits, old(Value()), inBreach, windowStart)
      ensures nowActive == active
      ensures justCleared <==> old(active) && !active
    {
      if lastWindow.Some? && windowStart <= lastWindow.value {
        return active, false;
      }
      lastWindow := Some(windowStart);
      if inBreach {
        breachCount := breachCount + 1;
        clearCount := 0;
        if !active && breachCount >= limits.breach {
          active := true;
        }
      } else {
        clearCount := clearCount + 1;
        breachCount := 0;
        if active && clearCount >= limits.clear {
          active := false;
          return false, true;
        }
      }
      return active, false;
    }
  }

  // ------------------------------------------------------------------ runs of observations

  datatype Observation = Observation(inBreach: bool, window: real)

  function Run(l: Limits, obs: seq<Observation>): State {
    if obs == [] then START
    else
      var last := obs[|obs| - 1];
      Observed(l, Run(l, obs[..|obs| - 1]), last.inBreach, last.window)
  }

  function RunBits(l: Limits, bits: seq<bool>): Counts {
    if bits == [] then ZERO else Advance(l, RunBits(l, bits[..|bits| - 1]), bits[|bits| - 1])
  }

  // The observation at k is the first of a window later than every window before it.
  ghost predicate IsRecord(obs: seq<Observation>, k: nat)
    requires k < |obs|
  {
    forall a | 0 <= a < k :: obs[a].window < obs[k].window
  }

  // What was observed at the record-high windows.
  ghost function RecordBits(obs: seq<Observation>): seq<bool> {
    if obs == [] then []
    else
      RecordBits(obs[..|obs| - 1])
      + if IsRecord(obs, |obs| - 1) then [obs[|obs| - 1].inBreach] else []
  }

  // The counter remembers the latest window it was given.
  lemma {:induction false} LastWindowIsLatest(l: Limits, obs: seq<Observation>, window: real)
    ensures IsNew(Run(l, obs), window) <==> forall a | 0 <= a < |obs| :: obs[a].window < window
  {
    if obs != [] {
      var init, last := obs[..|obs| - 1], obs[|obs| - 1].window;
      LastWindowIsLatest(l, init, window);
      LastWindowIsLatest(l, init, last);
      assert forall a | 0 <= a < |init| :: init[a] == obs[a];
    }
  }

  // Repeats and stale windows are invisible: the counter is where the record-high windows
  // alone would have taken it.
  lemma {:induction false} OnlyRecordsCount(l: Limits, obs: seq<Observation>)
    ensures Run(l, obs).counts == RunBits(l, RecordBits(obs))
  {
    if obs != [] {
      var init := obs[..|obs| - 1];
      OnlyRecordsCount(l, init);
      LastWindowIsLatest(l, init, obs[|obs| - 1].window);
      assert forall a | 0 <= a < |init| :: init[a] == obs[a];
      assert IsRecord(obs, |obs| - 1) <==> IsNew(Run(l, init), obs[|obs| - 1].window);
      var bits := RecordBits(init);
      assert bits + [] == bits;
      assert (bits + [obs[|obs| - 1].inBreach])[..|bits|] == bits;
    }
  }

  // ------------------------------------------------------------------ what the flag means

  // The n observations before position t all equal b.
  ghost predicate RunEnds(bits: seq<bool>, t: nat, n: nat, b: bool) {
    n <= t <= |bits| && forall k | t - n <= k < t :: bits[k] == b
  }

  lemma RunEndsPrefix(bits: seq<bool>, t: nat, n: nat, b: bool)
    requires bits != [] && t < |bits|
    ensures RunEnds(bits, t, n, b) <==> RunEnds(bits[..|bits| - 1], t, n, b)
  {
  }

  // The counts are the lengths of the current runs.
  lemma {:induction false} CountsAreRuns(l: Limits, bits: seq<bool>, n: nat)
    requires n >= 1
    ensures RunEnds(bits, |bits|, n, true) <==> RunBits(l, bits).breaches >= n
    ensures RunEnds(bits, |bits|, n, false) <==> RunBits(l, bits).clears >= n
  {
    if bits != [] {
      var init, last := bits[..|bits| - 1], bits[|bits| - 1];
      if n > 1 {
        CountsAreRuns(l, init, n - 1);
        RunGrows(bits, n, true);
        RunGrows(bits, n, false);
      }
    }
  }

  lemma RunGrows(bits: seq<bool>, n: nat, b: bool)
    requires bits != [] && n > 1
    ensures RunEnds(bits, |bits|, n, b) <==>
            bits[|bits| - 1] == b && RunEnds(bits[..|bits| - 1], |bits| - 1, n - 1, b)
  {
    var init := bits[..|bits| - 1];
    assert forall k | 0 <= k < |init| :: bits[k] == init[k];
  }

  // A triggering run ended at t and no clearing run has ended since.
  ghost predicate InForceSince(l: Limits, bits: seq<bool>, t: nat) {
    RunEnds(bits, t, l.breach, true) && forall u: nat | t <= u :: !RunEnds(bits, u, l.clear, false)
  }

  // The condition is active exactly when some triggering run has not been cleared.
  lemma {:induction false} ActiveMeansUncleared(l: Limits, bits: seq<bool>)
    requires l.Valid()
    ensures RunBits(l, bits).active <==> exists t: nat :: InForceSince(l, bits, t)
  {
    if bits == [] {
    } else {
      var init, last, n := bits[..|bits| - 1], bits[|bits| - 1], |bits|;
      ActiveMeansUncleared(l, init);
      CountsAreRuns(l, bits, l.breach);
      CountsAreRuns(l, bits, l.clear);
      if RunBits(l, bits).active {
        if RunBits(l, init).active {
          var t: nat :| InForceSince(l, init, t);
          StaysInForce(l, bits, t);
        } else {
          TriggeredNow(l, bits);
        }
      }
      if t: nat :| InForceSince(l, bits, t) {
        if t < n {
          WasInForce(l, bits, t);
        }
      }
    }
  }

  lemma StaysInForce(l: Limits, bits: seq<bool>, t: nat)
    requires l.Valid() && bits != []
    requires InForceSince(l, bits[..|bits| - 1], t)
    requires !RunEnds(bits, |bits|, l.clear, false)
    ensures InForceSince(l, bits, t)
  {
    RunEndsPrefix(bits, t, l.breach, true);
    forall u: nat | u >= t
      ensures !RunEnds(bits, u, l.clear, false)
    {
      if u < |bits| {
        RunEndsPrefix(bits, u, l.clear, false);
      }
    }
  }

  lemma TriggeredNow(l: Limits, bits: seq<bool>)
    requires l.Valid() && RunEnds(bits, |bits|, l.breach, true)
    ensures InForceSince(l, bits, |bits|)
  {
    assert bits[|bits| - 1];
  }

  lemma WasInForce(l: Limits, bits: seq<bool>, t: nat)
    requires l.Valid() && t < |bits| && InForceSince(l, bits, t)
    ensures InForceSince(l, bits[..|bits| - 1], t)
    ensures !RunEnds(bits, |bits|, l.clear, false)
  {
    var init := bits[..|bits| - 1];
    RunEndsPrefix(bits, t, l.breach, true);
    forall u: nat | t <= u
      ensures !RunEnds(init, u, l.clear, false)
    {
      if u < |bits| {
        RunEndsPrefix(bits, u, l.clear, false);
      }
    }
  }

  // ------------------------------------------------------------------ how often it can fire

  ghost predicate ActivatesAt(l: Limits, bits: seq<bool>, t: nat) {
    0 < t <= |bits| && RunBits(l, bits[..t]).active && !RunBits(l, bits[..t - 1]).active
  }

  ghost predicate ClearsAt(l: Limits, bits: seq<bool>, t: nat) {
    0 < t <= |bits| && !RunBits(l, bits[..t]).active && RunBits(l, bits[..t - 1]).active
  }

  lemma StepAt(l: Limits, bits: seq<bool>, t: nat)
    requires 0 < t <= |bits|
    ensures RunBits(l, bits[..t]) == Advance(l, RunBits(l, bits[..t - 1]), bits[t - 1])
  {
    assert bits[..t][..t - 1] == bits[..t - 1];
  }

  // Activation ends a triggering run, clearing ends a clearing run.
  lemma FlipsEndRuns(l: Limits, bits: seq<bool>, t: nat)
    requires l.Valid()
    ensures ActivatesAt(l, bits, t) ==> RunEnds(bits, t, l.breach, true)
    ensures ClearsAt(l, bits, t) ==> RunEnds(bits, t, l.clear, false)
  {
    if 0 < t <= |bits| {
      StepAt(l, bits, t);
      CountsAreRuns(l, bits[..t], l.breach);
      CountsAreRuns(l, bits[..t], l.clear);
      assert forall k | 0 <= k < t :: bits[..t][k] == bits[k];
    }
  }

  // Between an active and a later inactive point the condition clears.
  lemma {:induction false} ClearsBetween(l: Limits, bits: seq<bool>, a: nat, b: nat) returns (c: nat)
    requires a <= b <= |bits|
    requires RunBits(l, bits[..a]).active && !RunBits(l, bits[..b]).active
    ensures a < c <= b && ClearsAt(l, bits, c)
    decreases b - a
  {
    if RunBits(l, bits[..b - 1]).active {
      c := b;
    } else {
      c := ClearsBetween(l, bits, a, b - 1);
    }
  }

  // Two activations are at least a clearing run and a triggering run apart.
  lemma ActivationsAreApart(l: Limits, bits: seq<bool>, s: nat, t: nat)
    requires l.Valid() && s < t
    requires ActivatesAt(l, bits, s) && ActivatesAt(l, bits, t)
    ensures t - s >= l.breach + l.clear
  {
    var c := ClearsBetween(l, bits, s, t - 1);
    FlipsEndRuns(l, bits, s);
    FlipsEndRuns(l, bits, c);
    FlipsEndRuns(l, bits, t);
    assert bits[s - 1] && !bits[c - 1];
    RunsDoNotOverlap(bits, s, c, l.clear, false);
    RunsDoNotOverlap(bits, c, t, l.breach, true);
  }

  lemma RunsDoNotOverlap(bits: seq<bool>, a: nat, b: nat, n: nat, v: bool)
    requires 0 < a <= b && RunEnds(bits, b, n, v) && bits[a - 1] != v
    ensures b - n >= a
  {
    assert bits[a - 1] != v;
  }
}
