// Crash-loop counting of detection/system_failure.py: each unit's failures, pruned whenever a
// window of events reports one.
module ServiceFailures {
  import opened Sorting

  // The failures one scored window holds for a unit.
  datatype Report = Report(unit: string, times: seq<real>)

  function Since(times: seq<real>, cutoff: real): seq<real> {
    if times == [] then []
    else Since(times[..|times| - 1], cutoff) + if times[|times| - 1] >= cutoff then [times[|times| - 1]] else []
  }

  function Latest(times: seq<real>): real
    requires times != []
  {
    Sorted(times)[|times| - 1]
  }

  // It is the latest of the times: one of them, and none is later.
  lemma LatestIsMaximum(times: seq<real>)
    requires times != []
    ensures Latest(times) in times
    ensures forall t | t in times :: t <= Latest(times)
  {
    var inOrder := Sorted(times);
    PermutationMembers(inOrder, times);
    forall t | t in times
      ensures t <= inOrder[|inOrder| - 1]
    {
      var k :| 0 <= k < |inOrder| && inOrder[k] == t;
    }
  }

  // What is kept since a cutoff: every time at or after it, as often as it was listed.
  lemma {:induction false} SinceKeeps(times: seq<real>, cutoff: real, t: real)
    ensures multiset(Since(times, cutoff))[t] == if t >= cutoff then multiset(times)[t] else 0
  {
    if times != [] {
      var init := times[..|times| - 1];
      SinceKeeps(init, cutoff, t);
      assert times == init + [times[|times| - 1]];
    }
  }

  function Listed(failures: map<string, seq<real>>, unit: string): seq<real> {
    if unit in failures then failures[unit] else []
  }

  class ServiceState {
    var failures: map<string, seq<real>>

    constructor ()
      ensures failures == map[]
    {
      failures := map[];
    }

    method RecordFailure(unit: string, timestamp: real)
      modifies this
      ensures failures == old(failures)[unit := Listed(old(failures), unit) + [timestamp]]
    {
      failures := failures[unit := Listed(failures, unit) + [timestamp]];
    }

    method FailureCountInWindow(unit: string, window: real, now: real) returns (count: nat)
      modifies this
      ensures failures == old(failures)[unit := Since(Listed(old(failures), unit), now - window)]
      ensures count == |failures[unit]|
    {
      var cutoff, times := now - window, Listed(failures, unit);
      var kept: seq<real> := [];
      for k := 0 to |times|
        invariant kept == Since(times[..k], cutoff)
      {
        assert times[..k + 1][..k] == times[..k];
        if times[k] >= cutoff {
          kept := kept + [times[k]];
        }
      }
      assert times[..|times|] == times;
      failures := failures[unit := kept];
      count := |kept|;
    }

    method RecordAll(unit: string, times: seq<real>)
      requires times != []
      modifies this
      ensures failures == old(failures)[unit := Listed(old(failures), unit) + times]
    {
      ghost var before := Listed(failures, unit);
      RecordFailure(unit, times[0]);
      assert [times[0]] == times[..1];
      for k := 1 to |times|
        invariant failures == old(failures)[unit := before + times[..k]]
      {
        assert before + times[..k] + [times[k]] == before + times[..k + 1];
        RecordFailure(unit, times[k]);
      }
      assert times[..|times|] == times;
    }

    // One unit of a scored window: every failure is recorded, then the loop is judged as of the
    // latest of them.
    method ScoreUnit(report: Report, window: real, threshold: nat) returns (crashLoop: bool, count: nat)
      requires report.times != []
      modifies this
      ensures failures == old(failures)[report.unit := Scored(Listed(old(failures), report.unit), report.times, window)]
      ensures count == |failures[report.unit]|
      ensures crashLoop <==> count >= threshold
    {
      hide Sorted, Since;
      var unit, times := report.unit, Sorted(report.times);
      RecordAll(unit, times);
      count := FailureCountInWindow(unit, window, times[|times| - 1]);
      crashLoop := count >= threshold;
    }
  }

  // ------------------------------------------------------------------ runs of reports

  function Scored(before: seq<real>, times: seq<real>, window: real): seq<real>
    requires times != []
  {
    Since(before + Sorted(times), Latest(times) - window)
  }

  ghost predicate WellFormed(reports: seq<Report>) {
    forall k | 0 <= k < |reports| :: reports[k].times != []
  }

  // What is listed for a unit after a run of reports.
  function Tracked(reports: seq<Report>, unit: string, window: real): seq<real>
    requires WellFormed(reports)
  {
    if reports == [] then []
    else
      var init, last := reports[..|reports| - 1], reports[|reports| - 1];
      var before := Tracked(init, unit, window);
      if last.unit == unit then Scored(before, last.times, window) else before
  }

  function Replay(reports: seq<Report>, window: real): map<string, seq<real>>
    requires WellFormed(reports)
  {
    if reports == [] then map[]
    else
      var before, last := Replay(reports[..|reports| - 1], window), reports[|reports| - 1];
      before[last.unit := Scored(Listed(before, last.unit), last.times, window)]
  }

  // The units do not influence each other.
  lemma {:induction false} UnitsAreIndependent(reports: seq<Report>, unit: string, window: real)
    requires WellFormed(reports)
    ensures Listed(Replay(reports, window), unit) == Tracked(reports, unit, window)
  {
    if reports != [] {
      var init, last := reports[..|reports| - 1], reports[|reports| - 1];
      UnitsAreIndependent(init, unit, window);
      UnitsAreIndependent(init, last.unit, window);
      hide Scored;
    }
  }

  // Every failure the reports hold for a unit, in the order of recording.
  function AllTimes(reports: seq<Report>, unit: string): seq<real> {
    if reports == [] then []
    else
      AllTimes(reports[..|reports| - 1], unit)
      + if reports[|reports| - 1].unit == unit then Sorted(reports[|reports| - 1].times) else []
  }

  // The failures no older than the cutoff, nor than any look taken since their recording allows.
  function Surviving(reports: seq<Report>, unit: string, window: real, cutoff: real): seq<real>
    requires WellFormed(reports)
  {
    if reports == [] then []
    else
      var init, last := reports[..|reports| - 1], reports[|reports| - 1];
      if last.unit != unit then Surviving(init, unit, window, cutoff)
      else
        var stricter := if Latest(last.times) - window > cutoff then Latest(last.times) - window else cutoff;
        Surviving(init, unit, window, stricter) + Since(Sorted(last.times), stricter)
  }

  lemma {:induction false} SinceConcat(a: seq<real>, b: seq<real>, cutoff: real)
    ensures Since(a + b, cutoff) == Since(a, cutoff) + Since(b, cutoff)
    decreases |b|
  {
    if b == [] {
      assert a + b == a;
    } else {
      assert (a + b)[..|a + b| - 1] == a + b[..|b| - 1];
      SinceConcat(a, b[..|b| - 1], cutoff);
    }
  }

  lemma {:induction false} SinceTwice(times: seq<real>, earlier: real, later: real)
    ensures Since(Since(times, earlier), later) == Since(times, if earlier > later then earlier else later)
  {
    if times != [] {
      var init, last := times[..|times| - 1], times[|times| - 1];
      SinceTwice(init, earlier, later);
      SinceConcat(Since(init, earlier), if last >= earlier then [last] else [], later);
      assert Since([last], later) == if last >= later then [last] else [] by {
        assert [last][..0] == [];
      }
    }
  }

  lemma {:induction false} TrackedSurvive(reports: seq<Report>, unit: string, window: real, cutoff: real)
    requires WellFormed(reports)
    ensures Since(Tracked(reports, unit, window), cutoff) == Surviving(reports, unit, window, cutoff)
  {
    if reports != [] {
      var init, last := reports[..|reports| - 1], reports[|reports| - 1];
      hide Latest, Sorted, Since;
      if last.unit != unit {
        TrackedSurvive(init, unit, window, cutoff);
      } else {
        var look := Latest(last.times) - window;
        var stricter := if look > cutoff then look else cutoff;
        var before, times := Tracked(init, unit, window), Sorted(last.times);
        assert Tracked(reports, unit, window) == Since(before + times, look);
        SurvivorsStep(reports, unit, window, cutoff);
        hide Tracked, Surviving, AllTimes;
        SinceTwice(before + times, look, cutoff);
        SinceConcat(before, times, stricter);
        TrackedSurvive(init, unit, window, stricter);
      }
    }
  }

  ghost predicate NoneBetween(times: seq<real>, low: real, high: real) {
    forall k | 0 <= k < |times| :: !(low <= times[k] < high)
  }

  lemma {:induction false} SinceAntitone(times: seq<real>, low: real, high: real)
    requires low <= high
    ensures |Since(times, high)| <= |Since(times, low)|
    ensures |Since(times, high)| == |Since(times, low)| <==> NoneBetween(times, low, high)
  {
    if times != [] {
      var init, last := times[..|times| - 1], times[|times| - 1];
      SinceAntitone(init, low, high);
      assert NoneBetween(times, low, high) <==> NoneBetween(init, low, high) && !(low <= last < high);
    }
  }

  // A look at the k-th report removed failures of the j-th that the given cutoff still admits.
  ghost predicate Forgotten(reports: seq<Report>, unit: string, window: real, cutoff: real, j: nat, k: nat)
    requires WellFormed(reports) && j < |reports| && k < |reports|
  {
    && j <= k && reports[j].unit == unit && reports[k].unit == unit
    && !NoneBetween(Sorted(reports[j].times), cutoff, Latest(reports[k].times) - window)
  }

  ghost predicate NoneForgotten(reports: seq<Report>, unit: string, window: real, cutoff: real)
    requires WellFormed(reports)
  {
    forall j, k | 0 <= j < |reports| && 0 <= k < |reports| :: !Forgotten(reports, unit, window, cutoff, j, k)
  }

  // No report of the unit holds a failure in the interval.
  ghost predicate Quiet(reports: seq<Report>, unit: string, low: real, high: real) {
    forall j | 0 <= j < |reports| && reports[j].unit == unit :: NoneBetween(Sorted(reports[j].times), low, high)
  }

  lemma BetweenConcat(a: seq<real>, b: seq<real>, low: real, high: real)
    ensures NoneBetween(a + b, low, high) <==> NoneBetween(a, low, high) && NoneBetween(b, low, high)
  {
    var c := a + b;
    assert forall k | 0 <= k < |a| :: c[k] == a[k];
    assert forall k | 0 <= k < |b| :: c[|a| + k] == b[k];
  }

  lemma {:induction false} QuietMeansNone(reports: seq<Report>, unit: string, low: real, high: real)
    ensures NoneBetween(AllTimes(reports, unit), low, high) <==> Quiet(reports, unit, low, high)
  {
    hide Sorted, NoneBetween;
    if reports == [] {
      BetweenConcat([], [], low, high);
      NoneInNothing(low, high);
    } else {
      var init, last := reports[..|reports| - 1], reports[|reports| - 1];
      QuietMeansNone(init, unit, low, high);
      BetweenConcat(AllTimes(init, unit), Sorted(last.times), low, high);
      assert AllTimes(init, unit) + [] == AllTimes(init, unit);
      assert Quiet(reports, unit, low, high) <==>
        Quiet(init, unit, low, high) && (last.unit == unit ==> NoneBetween(Sorted(last.times), low, high));
    }
  }

  lemma NoneInNothing(low: real, high: real)
    ensures NoneBetween([], low, high)
  {
  }

  // Raising the cutoff over an interval without failures changes nothing.
  lemma QuietCutoff(reports: seq<Report>, unit: string, window: real, low: real, high: real)
    requires WellFormed(reports) && low <= high && Quiet(reports, unit, low, high)
    ensures NoneForgotten(reports, unit, window, low) <==> NoneForgotten(reports, unit, window, high)
  {
    hide Sorted, Latest;
    forall j, k | 0 <= j < |reports| && 0 <= k < |reports|
      ensures Forgotten(reports, unit, window, low, j, k) <==> Forgotten(reports, unit, window, high, j, k)
    {
      if reports[j].unit == unit {
        Narrowed(Sorted(reports[j].times), low, high, Latest(reports[k].times) - window);
      }
    }
    hide Forgotten;
  }

  lemma Narrowed(times: seq<real>, low: real, middle: real, high: real)
    requires low <= middle && NoneBetween(times, low, middle)
    ensures NoneBetween(times, low, high) <==> NoneBetween(times, middle, high)
  {
  }

  lemma ForgottenByLast(reports: seq<Report>, unit: string, window: real, cutoff: real)
    requires WellFormed(reports) && reports != []
    ensures var init, last := reports[..|reports| - 1], reports[|reports| - 1];
            NoneForgotten(reports, unit, window, cutoff) <==>
              NoneForgotten(init, unit, window, cutoff)
              && (last.unit == unit ==> Quiet(reports, unit, cutoff, Latest(last.times) - window))
  {
    hide Latest, Sorted, NoneBetween;
    var init, n := reports[..|reports| - 1], |reports| - 1;
    assert forall j, k | 0 <= j < n && 0 <= k < n ::
        Forgotten(init, unit, window, cutoff, j, k) == Forgotten(reports, unit, window, cutoff, j, k);
    var look := Latest(reports[n].times) - window;
    assert forall j | 0 <= j < |reports| :: ForgottenAt(reports, unit, window, cutoff, j) <==>
        reports[j].unit == unit && reports[n].unit == unit && !NoneBetween(Sorted(reports[j].times), cutoff, look);
    assert forall j | 0 <= j < |reports| ::
      ForgottenAt(reports, unit, window, cutoff, j) == Forgotten(reports, unit, window, cutoff, j, n);
    assert forall j | 0 <= j < n :: !Forgotten(reports, unit, window, cutoff, n, j);
    hide Forgotten;
  }

  ghost predicate ForgottenAt(reports: seq<Report>, unit: string, window: real, cutoff: real, j: nat)
    requires WellFormed(reports) && j < |reports|
  {
    Forgotten(reports, unit, window, cutoff, j, |reports| - 1)
  }

  lemma QuietUpTo(reports: seq<Report>, unit: string, cutoff: real, look: real)
    ensures Quiet(reports, unit, cutoff, look) <==> Quiet(reports, unit, cutoff, if look > cutoff then look else cutoff)
  {
    hide Sorted;
  }

  function Stricter(last: Report, window: real, cutoff: real): real
    requires last.times != []
  {
    if Latest(last.times) - window > cutoff then Latest(last.times) - window else cutoff
  }

  lemma ForgottenStep(reports: seq<Report>, unit: string, window: real, cutoff: real)
    requires WellFormed(reports) && reports != [] && reports[|reports| - 1].unit == unit
    ensures var init, last := reports[..|reports| - 1], reports[|reports| - 1];
            var stricter := Stricter(last, window, cutoff);
            NoneForgotten(reports, unit, window, cutoff) <==>
              && NoneForgotten(init, unit, window, stricter)
              && NoneBetween(AllTimes(init, unit), cutoff, stricter)
              && NoneBetween(Sorted(last.times), cutoff, stricter)
  {
    hide NoneForgotten, Quiet, NoneBetween, Sorted, Latest;
    var init, last := reports[..|reports| - 1], reports[|reports| - 1];
    var stricter := Stricter(last, window, cutoff);
    ForgottenByLast(reports, unit, window, cutoff);
    QuietUpTo(reports, unit, cutoff, Latest(last.times) - window);
    QuietMeansNone(reports, unit, cutoff, stricter);
    QuietMeansNone(init, unit, cutoff, stricter);
    assert AllTimes(reports, unit) == AllTimes(init, unit) + Sorted(last.times);
    hide AllTimes;
    BetweenConcat(AllTimes(init, unit), Sorted(last.times), cutoff, stricter);
    if Quiet(init, unit, cutoff, stricter) {
      QuietCutoff(init, unit, window, cutoff, stricter);
    }
  }

  // What survives is never more than what the cutoff admits, and as much unless a look forgot.
  lemma {:induction false} SurvivorsMissForgotten(reports: seq<Report>, unit: string, window: real, cutoff: real)
    requires WellFormed(reports)
    ensures |Surviving(reports, unit, window, cutoff)| <= |Since(AllTimes(reports, unit), cutoff)|
    ensures |Surviving(reports, unit, window, cutoff)| == |Since(AllTimes(reports, unit), cutoff)| <==>
            NoneForgotten(reports, unit, window, cutoff)
  {
    if reports == [] {
      assert NoneForgotten(reports, unit, window, cutoff);
    } else {
      var init, last := reports[..|reports| - 1], reports[|reports| - 1];
      if last.unit != unit {
        OtherUnitStep(reports, unit, window, cutoff);
        hide *;
        SurvivorsMissForgotten(init, unit, window, cutoff);
      } else {
        var stricter := Stricter(last, window, cutoff);
        var earlier, times := AllTimes(init, unit), Sorted(last.times);
        assert cutoff <= stricter;
        hide *;
        SurvivorsStep(reports, unit, window, cutoff);
        SurvivorsMissForgotten(init, unit, window, stricter);
        SinceAntitone(earlier, cutoff, stricter);
        SinceAntitone(times, cutoff, stricter);
        ForgottenStep(reports, unit, window, cutoff);
      }
    }
  }

  lemma OtherUnitStep(reports: seq<Report>, unit: string, window: real, cutoff: real)
    requires WellFormed(reports) && reports != [] && reports[|reports| - 1].unit != unit
    ensures var init := reports[..|reports| - 1];
            && Surviving(reports, unit, window, cutoff) == Surviving(init, unit, window, cutoff)
            && AllTimes(reports, unit) == AllTimes(init, unit)
            && (NoneForgotten(reports, unit, window, cutoff) <==> NoneForgotten(init, unit, window, cutoff))
  {
    ForgottenByLast(reports, unit, window, cutoff);
    hide NoneForgotten, Sorted, Latest, Since;
    assert AllTimes(reports[..|reports| - 1], unit) + [] == AllTimes(reports[..|reports| - 1], unit);
  }

  // What a report of the unit adds on either side.
  lemma SurvivorsStep(reports: seq<Report>, unit: string, window: real, cutoff: real)
    requires WellFormed(reports) && reports != [] && reports[|reports| - 1].unit == unit
    ensures var init, last := reports[..|reports| - 1], reports[|reports| - 1];
            var stricter := Stricter(last, window, cutoff);
            && Surviving(reports, unit, window, cutoff)
               == Surviving(init, unit, window, stricter) + Since(Sorted(last.times), stricter)
            && Since(AllTimes(reports, unit), cutoff)
               == Since(AllTimes(init, unit), cutoff) + Since(Sorted(last.times), cutoff)
  {
    hide Sorted, Latest, Since;
    SinceConcat(AllTimes(reports[..|reports| - 1], unit), Sorted(reports[|reports| - 1].times), cutoff);
  }

  // The count a scored window reports for a unit is the number of its recorded failures since
  // the window's start, never more, and fewer exactly when an earlier look, taken at a later
  // time, has already removed one of them.
  lemma CountIsExactUnlessForgotten(reports: seq<Report>, window: real)
    requires WellFormed(reports) && reports != []
    ensures var last := reports[|reports| - 1];
            var cutoff := Latest(last.times) - window;
            var count, recorded := |Tracked(reports, last.unit, window)|, |Since(AllTimes(reports, last.unit), cutoff)|;
            && count <= recorded
            && (count == recorded <==> NoneForgotten(reports, last.unit, window, cutoff))
  {
    hide Sorted, Latest, Since, NoneForgotten;
    var last := reports[|reports| - 1];
    var cutoff := Latest(last.times) - window;
    var raw := Tracked(reports[..|reports| - 1], last.unit, window) + Sorted(last.times);
    assert Tracked(reports, last.unit, window) == Since(raw, cutoff);
    hide Tracked, AllTimes;
    SinceTwice(raw, cutoff, cutoff);
    TrackedSurvive(reports, last.unit, window, cutoff);
    SurvivorsMissForgotten(reports, last.unit, window, cutoff);
  }

  ghost predicate InTimeOrder(reports: seq<Report>, unit: string)
    requires WellFormed(reports)
  {
    forall k | 0 <= k < |reports| && reports[k].unit == unit ::
      Latest(reports[k].times) <= Latest(reports[|reports| - 1].times)
  }

  // So the count is exact whenever no earlier window of the unit ended on a later failure.
  lemma CountIsExactInTimeOrder(reports: seq<Report>, window: real)
    requires WellFormed(reports) && reports != [] && InTimeOrder(reports, reports[|reports| - 1].unit)
    ensures var last := reports[|reports| - 1];
            |Tracked(reports, last.unit, window)| == |Since(AllTimes(reports, last.unit), Latest(last.times) - window)|
  {
    CountIsExactUnlessForgotten(reports, window);
    hide Latest, Sorted, Since, Tracked, AllTimes;
  }

  // An out-of-order window may miss a loop: of three failures in one window's reach, the two
  // recorded first were pruned by a look at a much later failure.
  lemma LateWindowMissesFailures()
    ensures var reports := [Report("unit", [0.0, 1.0]), Report("unit", [1000.0]), Report("unit", [2.0])];
            && WellFormed(reports)
            && |Since(AllTimes(reports, "unit"), Latest([2.0]) - 600.0)| > |Tracked(reports, "unit", 600.0)|
  {
    var reports := [Report("unit", [0.0, 1.0]), Report("unit", [1000.0]), Report("unit", [2.0])];
    CountIsExactUnlessForgotten(reports, 600.0);
    SingleSorted(1000.0);
    SingleSorted(2.0);
    assert 0.0 in multiset([0.0, 1.0]);
    var times := Sorted([0.0, 1.0]);
    assert multiset(times) == multiset([0.0, 1.0]);
    assert 0.0 in times;
    var k :| 0 <= k < |times| && times[k] == 0.0;
    assert Forgotten(reports, "unit", 600.0, -598.0, 0, 1);
  }

  lemma SingleSorted(t: real)
    ensures Sorted([t]) == [t] && Latest([t]) == t
  {
    assert multiset(Sorted([t])) == multiset([t]);
    assert Sorted([t])[0] in multiset([t]);
  }
}
