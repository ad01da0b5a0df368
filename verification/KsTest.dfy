// The two-sample Kolmogorov-Smirnov test of ml/drift.py: statistic and exact p-value.
module KsTest {
  import opened Counting
  import opened LatticePaths
  import opened Sets
  import opened Sorting

  // The ECDF difference at x, times n * m.
  function DeviationAt(reference: seq<real>, comparison: seq<real>, x: real): nat {
    Deviation(CountAtMost(reference, x), CountAtMost(comparison, x), |reference|, |comparison|)
  }

  // d is the supremum of the ECDF difference over all real x, and it is attained.
  ghost predicate IsStatistic(reference: seq<real>, comparison: seq<real>, d: int) {
    && (forall x: real :: DeviationAt(reference, comparison, x) <= d)
    && (exists x: real :: DeviationAt(reference, comparison, x) == d)
  }

  function LargestDeviation(reference: seq<real>, comparison: seq<real>, values: seq<real>): nat {
    if values == [] then 0
    else Max(LargestDeviation(reference, comparison, values[..|values| - 1]),
             DeviationAt(reference, comparison, values[|values| - 1]))
  }

  function KsStatistic(reference: seq<real>, comparison: seq<real>): nat {
    LargestDeviation(reference, comparison, reference + comparison)
  }

  // ------------------------------------------------------------------ the supremum

  lemma {:induction false} LargestDeviationIsMaximum(reference: seq<real>, comparison: seq<real>, values: seq<real>)
    ensures forall a | 0 <= a < |values| ::
              DeviationAt(reference, comparison, values[a]) <= LargestDeviation(reference, comparison, values)
    ensures var d := LargestDeviation(reference, comparison, values);
            d == 0 || exists x: real :: DeviationAt(reference, comparison, x) == d
  {
    if values != [] {
      var init, last := values[..|values| - 1], values[|values| - 1];
      LargestDeviationIsMaximum(reference, comparison, init);
      assert forall a | 0 <= a < |init| :: values[a] == init[a];
      hide DeviationAt;
      assert LargestDeviation(reference, comparison, values)
          == Max(LargestDeviation(reference, comparison, init), DeviationAt(reference, comparison, last));
    }
  }

  // Between sample values the ECDFs do not move.
  lemma {:induction false} LastValueAtMost(values: seq<real>, x: real) returns (k: nat)
    requires exists a :: 0 <= a < |values| && values[a] <= x
    ensures k < |values| && values[k] <= x
    ensures forall a | 0 <= a < |values| && values[a] <= x :: values[a] <= values[k]
  {
    var last := |values| - 1;
    var init := values[..last];
    if a :| 0 <= a < last && values[a] <= x {
      assert init[a] <= x;
      k := LastValueAtMost(init, x);
      assert forall a | 0 <= a < last :: values[a] == init[a];
      if values[k] <= values[last] <= x {
        k := last;
      }
    } else {
      k := last;
    }
  }

  lemma {:induction false} CountConstantBetween(s: seq<real>, v: real, x: real)
    requires v <= x
    requires forall a | 0 <= a < |s| && s[a] <= x :: s[a] <= v
    ensures CountAtMost(s, v) == CountAtMost(s, x)
  {
    if s != [] {
      var rest := s[1..];
      assert forall a | 0 <= a < |rest| :: rest[a] == s[a + 1];
      assert s[0] <= x ==> s[0] <= v;
      CountConstantBetween(rest, v, x);
    }
  }

  lemma SampleValuesSuffice(reference: seq<real>, comparison: seq<real>, x: real)
    ensures DeviationAt(reference, comparison, x) == 0
            || exists a :: 0 <= a < |reference + comparison|
                 && DeviationAt(reference, comparison, (reference + comparison)[a])
                    == DeviationAt(reference, comparison, x)
  {
    var values := reference + comparison;
    assert forall a | 0 <= a < |reference| :: reference[a] == values[a];
    assert forall a | 0 <= a < |comparison| :: comparison[a] == values[|reference| + a];
    if exists a :: 0 <= a < |values| && values[a] <= x {
      var k := LastValueAtMost(values, x);
      CountConstantBetween(reference, values[k], x);
      CountConstantBetween(comparison, values[k], x);
    } else {
      CountAll(reference, x);
      CountAll(comparison, x);
    }
  }

  // Some point has deviation zero: one below every observation.
  lemma {:induction false} PointBelow(values: seq<real>) returns (x: real)
    ensures forall a | 0 <= a < |values| :: x < values[a]
  {
    if values == [] {
      x := 0.0;
    } else {
      assert forall a | 1 <= a < |values| :: values[a] == values[1..][a - 1];
      x := PointBelow(values[1..]);
      if x >= values[0] {
        x := values[0] - 1.0;
      }
    }
  }

  // A bound on the sample values that is reached (or zero) is the supremum over the reals.
  lemma SupremumOverValues(reference: seq<real>, comparison: seq<real>, d: nat)
    requires forall a | 0 <= a < |reference + comparison| ::
               DeviationAt(reference, comparison, (reference + comparison)[a]) <= d
    requires d == 0 || exists x: real :: DeviationAt(reference, comparison, x) == d
    ensures IsStatistic(reference, comparison, d)
  {
    forall x: real
      ensures DeviationAt(reference, comparison, x) <= d
    {
      SampleValuesSuffice(reference, comparison, x);
    }
    if d == 0 {
      var x := PointBelow(reference + comparison);
      assert DeviationAt(reference, comparison, x) == 0;
    }
  }

  // The statistic is the supremum of the ECDF difference over every real number.
  lemma StatisticIsSupremum(reference: seq<real>, comparison: seq<real>, d: int)
    ensures IsStatistic(reference, comparison, d) <==> d == KsStatistic(reference, comparison)
  {
    var k := KsStatistic(reference, comparison);
    LargestDeviationIsMaximum(reference, comparison, reference + comparison);
    SupremumOverValues(reference, comparison, k);
    if IsStatistic(reference, comparison, d) {
      var x: real :| DeviationAt(reference, comparison, x) == d;
      var y: real :| DeviationAt(reference, comparison, y) == k;
      assert DeviationAt(reference, comparison, x) <= k;
      assert DeviationAt(reference, comparison, y) <= d;
    }
  }

  // The two-pointer sweep over the merged distinct values.
  method KsIntegerStatistic(reference: seq<real>, comparison: seq<real>) returns (largest: int)
    ensures IsStatistic(reference, comparison, largest)
    ensures largest == KsStatistic(reference, comparison)
  {
    hide DeviationAt, CountAtMost, Sorted, SortedValues, KsStatistic, IsStatistic, Abs;
    var n, m := |reference|, |comparison|;
    var merged := SortedValues(reference + comparison);
    var referenceSorted := Sorted(reference);
    var comparisonSorted := Sorted(comparison);
    largest := 0;
    var i, j := 0, 0;
    for k := 0 to |merged|
      invariant 0 <= i <= n && 0 <= j <= m
      invariant i > 0 ==> k > 0 && referenceSorted[i - 1] <= merged[k - 1]
      invariant j > 0 ==> k > 0 && comparisonSorted[j - 1] <= merged[k - 1]
      invariant largest >= 0
      invariant forall a | 0 <= a < k :: DeviationAt(reference, comparison, merged[a]) <= largest
      invariant largest == 0 || exists x: real :: DeviationAt(reference, comparison, x) == largest
    {
      var value := merged[k];
      assert k > 0 ==> merged[k - 1] < value;
      while i < n && referenceSorted[i] <= value
        invariant 0 <= i <= n
        invariant i > 0 ==> referenceSorted[i - 1] <= value
      {
        i := i + 1;
      }
      while j < m && comparisonSorted[j] <= value
        invariant 0 <= j <= m
        invariant j > 0 ==> comparisonSorted[j - 1] <= value
      {
        j := j + 1;
      }
      SweepStep(reference, comparison, value, i, j);
      var deviation := Abs(i * m - j * n);
      largest := if deviation > largest then deviation else largest;
    }
    SweepCovers(reference, comparison, merged, largest);
  }

  // The two pointers are the ECDF counts, so the sweep evaluates the deviation at this value.
  lemma SweepStep(reference: seq<real>, comparison: seq<real>, value: real, i: nat, j: nat)
    requires i <= |reference| && j <= |comparison|
    requires var s := Sorted(reference);
             (i > 0 ==> s[i - 1] <= value) && (i < |s| ==> s[i] > value)
    requires var s := Sorted(comparison);
             (j > 0 ==> s[j - 1] <= value) && (j < |s| ==> s[j] > value)
    ensures DeviationAt(reference, comparison, value) == Abs(i * |comparison| - j * |reference|)
  {
    hide CountAtMost, Sorted, Abs;
    CountInSorted(Sorted(reference), value, i);
    CountInSorted(Sorted(comparison), value, j);
    CountPermutation(reference, Sorted(reference), value);
    CountPermutation(comparison, Sorted(comparison), value);
  }

  lemma SweepCovers(reference: seq<real>, comparison: seq<real>, merged: seq<real>, largest: nat)
    requires forall v :: v in merged <==> v in reference + comparison
    requires forall a | 0 <= a < |merged| :: DeviationAt(reference, comparison, merged[a]) <= largest
    requires largest == 0 || exists x: real :: DeviationAt(reference, comparison, x) == largest
    ensures IsStatistic(reference, comparison, largest)
    ensures largest == KsStatistic(reference, comparison)
  {
    var values := reference + comparison;
    forall a | 0 <= a < |values|
      ensures DeviationAt(reference, comparison, values[a]) <= largest
    {
      assert values[a] in values;
      var b :| 0 <= b < |merged| && merged[b] == values[a];
    }
    SupremumOverValues(reference, comparison, largest);
    StatisticIsSupremum(reference, comparison, largest);
  }

  // ------------------------------------------------------------------ invariance and range

  // The statistic sees the samples as multisets.
  lemma StatisticPermutation(reference: seq<real>, comparison: seq<real>, reference': seq<real>, comparison': seq<real>)
    requires multiset(reference) == multiset(reference') && multiset(comparison) == multiset(comparison')
    ensures KsStatistic(reference, comparison) == KsStatistic(reference', comparison')
  {
    PermutationMembers(reference, reference');
    PermutationMembers(comparison, comparison');
    forall x: real
      ensures DeviationAt(reference, comparison, x) == DeviationAt(reference', comparison', x)
    {
      CountPermutation(reference, reference', x);
      CountPermutation(comparison, comparison', x);
    }
    SameDeviations(reference, comparison, reference', comparison');
  }

  // Neither sample is privileged.
  lemma StatisticSymmetric(reference: seq<real>, comparison: seq<real>)
    ensures KsStatistic(reference, comparison) == KsStatistic(comparison, reference)
  {
    SameDeviations(reference, comparison, comparison, reference);
  }

  lemma SameDeviations(reference: seq<real>, comparison: seq<real>, reference': seq<real>, comparison': seq<real>)
    requires forall x: real :: DeviationAt(reference, comparison, x) == DeviationAt(reference', comparison', x)
    ensures KsStatistic(reference, comparison) == KsStatistic(reference', comparison')
  {
    var d := KsStatistic(reference, comparison);
    StatisticIsSupremum(reference, comparison, d);
    StatisticIsSupremum(reference', comparison', d);
    hide DeviationAt, KsStatistic;
    var x: real :| DeviationAt(reference, comparison, x) == d;
    assert DeviationAt(reference', comparison', x) == d;
  }

  // Every observation of one sample lies strictly below every observation of the other.
  ghost predicate Below(low: seq<real>, high: seq<real>) {
    forall a, b | 0 <= a < |low| && 0 <= b < |high| :: low[a] < high[b]
  }

  ghost predicate Separated(reference: seq<real>, comparison: seq<real>) {
    Below(reference, comparison) || Below(comparison, reference)
  }

  // n * m is the ceiling, reached exactly by samples that separate completely.
  lemma StatisticRange(reference: seq<real>, comparison: seq<real>)
    ensures KsStatistic(reference, comparison) <= |reference| * |comparison|
    ensures reference != [] && comparison != [] ==>
              (KsStatistic(reference, comparison) == |reference| * |comparison| <==> Separated(reference, comparison))
  {
    var n, m, d := |reference|, |comparison|, KsStatistic(reference, comparison);
    StatisticIsSupremum(reference, comparison, d);
    var x: real :| DeviationAt(reference, comparison, x) == d;
    var i, j := CountAtMost(reference, x), CountAtMost(comparison, x);
    DeviationAtMostProduct(i, j, n, m);
    if n > 0 && m > 0 {
      if d == n * m {
        ExtremeCountsSeparate(reference, comparison, x);
      }
      if Below(reference, comparison) {
        BelowIsExtreme(reference, comparison);
      }
      if Below(comparison, reference) {
        BelowIsExtreme(comparison, reference);
        StatisticSymmetric(reference, comparison);
      }
    }
  }

  lemma ExtremeCountsSeparate(reference: seq<real>, comparison: seq<real>, x: real)
    requires var i, j := CountAtMost(reference, x), CountAtMost(comparison, x);
             (i == |reference| && j == 0) || (i == 0 && j == |comparison|)
    ensures Separated(reference, comparison)
  {
    CountAll(reference, x);
    CountAll(comparison, x);
  }

  lemma BelowIsExtreme(low: seq<real>, high: seq<real>)
    requires low != [] && high != [] && Below(low, high)
    ensures KsStatistic(low, high) >= |low| * |high|
  {
    assert low[0] < high[0];
    var k := LastValueAtMost(low, high[0]);
    CountAll(low, low[k]);
    CountAll(high, low[k]);
    assert CountAtMost(low, low[k]) == |low| && CountAtMost(high, low[k]) == 0;
    DeviationAtMostProduct(|low|, 0, |low|, |high|);
    StatisticIsSupremum(low, high, KsStatistic(low, high));
    assert DeviationAt(low, high, low[k]) <= KsStatistic(low, high);
  }

  // ------------------------------------------------------------------ orderings as paths

  // Marks which values came from the reference.
  function Marks(values: seq<real>, reference: seq<real>): (p: Path)
    ensures |p| == |values|
  {
    seq(|values|, k requires 0 <= k < |values| => values[k] in reference)
  }

  // The path of a merged sample: which side each value, in ascending order, came from.
  function MergePath(reference: seq<real>, comparison: seq<real>): (p: Path)
    ensures |p| == |reference| + |comparison|
  {
    Marks(Sorted(reference + comparison), reference)
  }

  ghost predicate TieFree(reference: seq<real>, comparison: seq<real>) {
    Distinct(reference + comparison)
  }

  ghost function ValuesAtMost(s: seq<real>, x: real): set<real> {
    set v | v in s && v <= x
  }

  lemma {:induction false} CountOfDistinct(s: seq<real>, x: real)
    requires Distinct(s)
    ensures CountAtMost(s, x) == |ValuesAtMost(s, x)|
  {
    if s == [] {
      assert ValuesAtMost(s, x) == {};
    } else {
      var rest := s[1..];
      DistinctCons(s);
      CountOfDistinct(rest, x);
      assert s == [s[0]] + rest;
      assert s[0] !in ValuesAtMost(rest, x);
      assert ValuesAtMost(s, x) == ValuesAtMost(rest, x) + if s[0] <= x then {s[0]} else {};
    }
  }

  lemma DistinctParts(s: seq<real>, t: seq<real>)
    requires Distinct(s + t)
    ensures Distinct(s) && Distinct(t)
    ensures forall v :: !(v in s && v in t)
  {
    assert forall a | 0 <= a < |s| :: s[a] == (s + t)[a];
    assert forall a | 0 <= a < |t| :: t[a] == (s + t)[|s| + a];
  }

  ghost function FromReference(values: seq<real>, reference: seq<real>): set<real> {
    set v | v in values && v in reference
  }

  lemma FromReferenceStep(init: seq<real>, x: real, reference: seq<real>)
    requires x !in init
    ensures |FromReference(init + [x], reference)| == |FromReference(init, reference)| + if x in reference then 1 else 0
  {
    assert x !in FromReference(init, reference);
    assert FromReference(init + [x], reference)
        == FromReference(init, reference) + if x in reference then {x} else {};
  }

  lemma {:induction false} MarksCountReferences(values: seq<real>, reference: seq<real>)
    requires Distinct(values)
    ensures References(Marks(values, reference)) == |FromReference(values, reference)|
  {
    if values == [] {
      assert FromReference(values, reference) == {};
    } else {
      var init, x := values[..|values| - 1], values[|values| - 1];
      MarksCountReferences(init, reference);
      assert values == init + [x];
      FromReferenceStep(init, x, reference);
      assert Marks(values, reference)[..|values| - 1] == Marks(init, reference);
    }
  }

  // After k merged values the path stands at the ECDF counts of the k-th value.
  lemma PathFollowsCounts(reference: seq<real>, comparison: seq<real>, k: nat)
    requires TieFree(reference, comparison)
    requires 0 < k <= |reference| + |comparison|
    ensures var x := Sorted(reference + comparison)[k - 1];
            References(MergePath(reference, comparison)[..k]) == CountAtMost(reference, x)
            && Comparisons(MergePath(reference, comparison)[..k]) == CountAtMost(comparison, x)
  {
    hide References, MergePath, Marks, CountAtMost, Sorted;
    var merged := Sorted(reference + comparison);
    var x, prefix := merged[k - 1], merged[..k];
    PermutationMembers(reference + comparison, merged);
    PermutationDistinct(reference + comparison, merged);
    DistinctParts(reference, comparison);
    CountOfDistinct(reference, x);
    CountOfDistinct(comparison, x);
    assert Distinct(prefix);
    MarksCountReferences(prefix, reference);
    PathPrefix(reference, comparison, k);
    MergedPrefix(reference, comparison, k);
    DistinctCardinality(prefix);
    var low, high := ValuesAtMost(reference, x), ValuesAtMost(comparison, x);
    assert forall v | v in prefix :: v in merged;
    assert low == FromReference(prefix, reference);
    assert Elements(prefix) == low + high;
    DisjointUnion(low, high);
  }

  lemma PathPrefix(reference: seq<real>, comparison: seq<real>, k: nat)
    requires k <= |reference| + |comparison|
    ensures MergePath(reference, comparison)[..k] == Marks(Sorted(reference + comparison)[..k], reference)
  {
  }

  // The values up to the k-th merged one are the first k merged values.
  lemma MergedPrefix(reference: seq<real>, comparison: seq<real>, k: nat)
    requires TieFree(reference, comparison)
    requires 0 < k <= |reference| + |comparison|
    ensures var merged := Sorted(reference + comparison);
            forall v | v in reference + comparison :: v <= merged[k - 1] <==> v in merged[..k]
  {
    var merged := Sorted(reference + comparison);
    hide Sorted;
    PermutationMembers(reference + comparison, merged);
    PermutationDistinct(reference + comparison, merged);
    forall v | v in reference + comparison
      ensures v <= merged[k - 1] <==> v in merged[..k]
    {
      assert v in merged;
      var a :| 0 <= a < |merged| && merged[a] == v;
      if a < k {
        assert merged[..k][a] == v;
      } else {
        assert merged[k - 1] < v;
        assert forall b | 0 <= b < k :: merged[..k][b] == merged[b] < v;
      }
    }
  }

  // Without ties the statistic of the data is the statistic of its path: counting paths
  // with a given statistic counts orderings of the merged sample.
  lemma StatisticOfOrdering(reference: seq<real>, comparison: seq<real>)
    requires TieFree(reference, comparison)
    ensures MergePath(reference, comparison) in AllPaths(|reference|, |comparison|)
    ensures PathStatistic(MergePath(reference, comparison), |reference|, |comparison|)
            == KsStatistic(reference, comparison)
  {
    var n, m := |reference|, |comparison|;
    var p, merged := MergePath(reference, comparison), Sorted(reference + comparison);
    PathEnds(reference, comparison);
    PathsToMembers(Everywhere(), n, m, p);
    StatisticIsMaximum(p, n, m);
    var d := PathStatistic(p, n, m);
    hide DeviationAt, MergePath, PathStatistic, References, CountAtMost, Sorted;
    forall a | 0 <= a < n + m
      ensures DeviationAt(reference, comparison, (reference + comparison)[a]) <= d
    {
      OrderingVertex(reference, comparison, a);
    }
    var k :| 0 <= k <= |p| && Deviation(References(p[..k]), Comparisons(p[..k]), n, m) == d;
    if k > 0 {
      PathVertex(reference, comparison, k);
    } else {
      assert p[..0] == [];
      ZeroVertex(n, m);
    }
    SupremumOverValues(reference, comparison, d);
    StatisticIsSupremum(reference, comparison, d);
  }

  lemma ZeroVertex(n: nat, m: nat)
    ensures Deviation(References([]), Comparisons([]), n, m) == 0
  {
  }

  lemma PathVertex(reference: seq<real>, comparison: seq<real>, k: nat)
    requires TieFree(reference, comparison)
    requires 0 < k <= |reference| + |comparison|
    ensures var p := MergePath(reference, comparison);
            DeviationAt(reference, comparison, Sorted(reference + comparison)[k - 1])
            == Deviation(References(p[..k]), Comparisons(p[..k]), |reference|, |comparison|)
  {
    PathFollowsCounts(reference, comparison, k);
  }

  lemma OrderingVertex(reference: seq<real>, comparison: seq<real>, a: nat)
    requires TieFree(reference, comparison)
    requires a < |reference| + |comparison|
    ensures DeviationAt(reference, comparison, (reference + comparison)[a])
            <= PathStatistic(MergePath(reference, comparison), |reference|, |comparison|)
  {
    var n, m := |reference|, |comparison|;
    var p, merged := MergePath(reference, comparison), Sorted(reference + comparison);
    PermutationMembers(reference + comparison, merged);
    assert (reference + comparison)[a] in merged;
    var k :| 0 <= k < |merged| && merged[k] == (reference + comparison)[a];
    PathVertex(reference, comparison, k + 1);
    StatisticIsMaximum(p, n, m);
  }

  lemma PathEnds(reference: seq<real>, comparison: seq<real>)
    requires TieFree(reference, comparison)
    ensures References(MergePath(reference, comparison)) == |reference|
    ensures Comparisons(MergePath(reference, comparison)) == |comparison|
  {
    var p, merged := MergePath(reference, comparison), Sorted(reference + comparison);
    if |merged| > 0 {
      hide MergePath, CountAtMost, Sorted;
      PathFollowsCounts(reference, comparison, |merged|);
      assert p[..|p|] == p;
      LastMergedIsLargest(reference, comparison);
    }
  }

  lemma LastMergedIsLargest(reference: seq<real>, comparison: seq<real>)
    requires reference + comparison != []
    ensures var merged := Sorted(reference + comparison);
            CountAtMost(reference, merged[|merged| - 1]) == |reference|
            && CountAtMost(comparison, merged[|merged| - 1]) == |comparison|
  {
    hide CountAtMost, Sorted;
    var values, merged := reference + comparison, Sorted(reference + comparison);
    var x := merged[|merged| - 1];
    LastIsLargest(values, merged);
    CountAll(values, x);
    CountConcat(reference, comparison, x);
  }

  lemma LastIsLargest(values: seq<real>, merged: seq<real>)
    requires multiset(values) == multiset(merged) && Ascending(merged) && merged != []
    ensures forall a | 0 <= a < |values| :: values[a] <= merged[|merged| - 1]
  {
    PermutationMembers(values, merged);
    forall a | 0 <= a < |values|
      ensures values[a] <= merged[|merged| - 1]
    {
      assert values[a] in merged;
      var k :| 0 <= k < |merged| && merged[k] == values[a];
    }
  }

  function Time(k: int): real {
    k as real
  }

  ghost predicate StepAt(p: Path, step: bool, v: real) {
    exists k: int :: 0 <= k < |p| && p[k] == step && Time(k) == v
  }

  // The positions, as sample values, at which a path takes a given kind of step.
  function StepTimes(p: Path, step: bool): seq<real> {
    if p == [] then []
    else StepTimes(p[..|p| - 1], step) + if p[|p| - 1] == step then [Time(|p| - 1)] else []
  }

  lemma {:induction false} StepTimesMembers(p: Path, step: bool, v: real)
    ensures v in StepTimes(p, step) <==> StepAt(p, step, v)
  {
    if p != [] {
      var init := p[..|p| - 1];
      StepTimesMembers(init, step, v);
      assert forall k | 0 <= k < |init| :: p[k] == init[k];
      if k: int :| 0 <= k < |init| && init[k] == step && Time(k) == v {
        assert p[k] == step;
      }
      if p[|p| - 1] == step && v == Time(|p| - 1) {
        assert StepAt(p, step, v);
      }
    }
  }

  lemma {:induction false} StepTimesCount(p: Path, step: bool)
    ensures |StepTimes(p, step)| == if step then References(p) else Comparisons(p)
    ensures Distinct(StepTimes(p, step))
  {
    if p != [] {
      var init, last := p[..|p| - 1], |p| - 1;
      StepTimesCount(init, step);
      StepTimesMembers(init, step, Time(last));
    }
  }

  lemma StepTimesApart(p: Path)
    ensures TieFree(StepTimes(p, true), StepTimes(p, false))
  {
    var reference, comparison := StepTimes(p, true), StepTimes(p, false);
    StepTimesCount(p, true);
    StepTimesCount(p, false);
    forall v
      ensures !(v in reference && v in comparison)
    {
      StepTimesMembers(p, true, v);
      StepTimesMembers(p, false, v);
    }
    hide StepTimes, Distinct;
    DistinctConcat(reference, comparison);
  }

  // Sorted together, the step times are the positions in order.
  lemma StepTimesMerge(p: Path, merged: seq<real>)
    requires merged == Sorted(StepTimes(p, true) + StepTimes(p, false))
    ensures |merged| == |p| && forall k | 0 <= k < |p| :: merged[k] == Time(k)
  {
    var values := StepTimes(p, true) + StepTimes(p, false);
    StepTimesApart(p);
    hide StepTimes, Sorted, Distinct;
    PermutationMembers(values, merged);
    PermutationDistinct(values, merged);
    StrictWhenDistinct(merged);
    var times := seq(|p|, k requires 0 <= k < |p| => Time(k));
    TimesAreValues(p, times);
    AscendingUnique(merged, times);
  }

  lemma StrictWhenDistinct(merged: seq<real>)
    requires Ascending(merged) && Distinct(merged)
    ensures StrictlyAscending(merged)
  {
  }

  // Conversely every path is the ordering of some tie-free samples.
  lemma EveryPathIsAnOrdering(p: Path) returns (reference: seq<real>, comparison: seq<real>)
    ensures |reference| == References(p) && |comparison| == Comparisons(p)
    ensures TieFree(reference, comparison)
    ensures MergePath(reference, comparison) == p
  {
    reference, comparison := StepTimes(p, true), StepTimes(p, false);
    StepTimesCount(p, true);
    StepTimesCount(p, false);
    StepTimesApart(p);
    StepTimesMerge(p, Sorted(reference + comparison));
    hide StepTimes, Sorted, TieFree, Distinct;
    forall k | 0 <= k < |p|
      ensures MergePath(reference, comparison)[k] == p[k]
    {
      StepTimesMembers(p, true, Time(k));
    }
  }

  lemma TimesAreValues(p: Path, times: seq<real>)
    requires |times| == |p| && forall k | 0 <= k < |p| :: times[k] == Time(k)
    ensures forall v :: v in times <==> v in StepTimes(p, true) + StepTimes(p, false)
  {
    forall v
      ensures v in times <==> v in StepTimes(p, true) + StepTimes(p, false)
    {
      StepTimesMembers(p, true, v);
      StepTimesMembers(p, false, v);
      if v in times {
        var k :| 0 <= k < |times| && times[k] == v;
        assert StepAt(p, p[k], v);
      }
    }
  }

  lemma DistinctConcat(s: seq<real>, t: seq<real>)
    requires Distinct(s) && Distinct(t)
    requires forall v :: !(v in s && v in t)
    ensures Distinct(s + t)
  {
    var r := s + t;
    forall a, b | 0 <= a < b < |r|
      ensures r[a] != r[b]
    {
      assert r[a] == if a < |s| then s[a] else t[a - |s|];
      assert r[b] == if b < |s| then s[b] else t[b - |s|];
      assert a < |s| ==> s[a] in s;
      assert b >= |s| ==> t[b - |s|] in t;
    }
  }

  // ------------------------------------------------------------------ the exact p-value

  ghost function PathCount(n: nat, m: nat, s: int, i: nat, j: nat): nat {
    |PathsTo(StrictBand(n, m, s), i, j)|
  }

  // What each cell of the rolling row adds up.
  lemma CellRecurrence(n: nat, m: nat, s: int, i: nat, j: nat)
    ensures s > 0 ==> PathCount(n, m, s, 0, 0) == 1
    ensures Deviation(i, j, n, m) >= s ==> PathCount(n, m, s, i, j) == 0
    ensures i == 0 && j > 0 && Deviation(i, j, n, m) < s ==> PathCount(n, m, s, i, j) == PathCount(n, m, s, i, j - 1)
    ensures i > 0 && j == 0 && Deviation(i, j, n, m) < s ==> PathCount(n, m, s, i, j) == PathCount(n, m, s, i - 1, j)
    ensures i > 0 && j > 0 && Deviation(i, j, n, m) < s ==>
              PathCount(n, m, s, i, j) == PathCount(n, m, s, i, j - 1) + PathCount(n, m, s, i - 1, j)
  {
    PathCountRecurrence(StrictBand(n, m, s), 0, 0);
    PathCountRecurrence(StrictBand(n, m, s), i, j);
  }

  // The rolling-row count of band-confined paths, and the p-value it yields.
  method ExactTwoSidedP(n: nat, m: nat, statistic: int) returns (p: real)
    ensures p == TailProbability(n, m, statistic)
  {
    hide TailProbability, PathCount, Deviation, Comb;
    if statistic <= 0 {
      TailProbabilityBounds(n, m, statistic);
      return 1.0;
    }
    var inside := new nat[m + 1](_ => 0);
    inside[0] := 1;
    CellRecurrence(n, m, statistic, 0, 0);
    for j := 1 to m + 1
      invariant forall k | 0 <= k < j :: inside[k] == PathCount(n, m, statistic, 0, k)
    {
      CellRecurrence(n, m, statistic, 0, j);
      inside[j] := if Deviation(0, j, n, m) < statistic then inside[j - 1] else 0;
    }
    for i := 1 to n + 1
      invariant fresh(inside) && inside.Length == m + 1
      invariant forall k | 0 <= k <= m :: inside[k] == PathCount(n, m, statistic, i - 1, k)
    {
      var previous := inside;
      inside := new nat[m + 1](_ => 0);
      CellRecurrence(n, m, statistic, i, 0);
      inside[0] := if Deviation(i, 0, n, m) < statistic then previous[0] else 0;
      for j := 1 to m + 1
        invariant forall k | 0 <= k < j :: inside[k] == PathCount(n, m, statistic, i, k)
        invariant forall k | j <= k <= m :: inside[k] == 0
        invariant forall k | 0 <= k <= m :: previous[k] == PathCount(n, m, statistic, i - 1, k)
      {
        CellRecurrence(n, m, statistic, i, j);
        if Deviation(i, j, n, m) < statistic {
          inside[j] := inside[j - 1] + previous[j];
        }
      }
    }
    var total := Comb(n + m, n);
    TailIsQuotient(n, m, statistic);
    p := (total - inside[m]) as real / total as real;
  }

  lemma TailIsQuotient(n: nat, m: nat, s: int)
    ensures 0 <= PathCount(n, m, s, n, m) <= Comb(n + m, n) && Comb(n + m, n) > 0
    ensures TailProbability(n, m, s)
            == (Comb(n + m, n) - PathCount(n, m, s, n, m)) as real / Comb(n + m, n) as real
  {
    AllPathsCount(n, m);
    AllPathsNonempty(n, m);
    BandComplement(n, m, s);
  }

  // 2 / C(n + m, n), the smallest p-value these sample sizes can produce.
  function MinimumAttainableP(n: nat, m: nat): (p: real) {
    CombPositive(n + m, n);
    2.0 / Comb(n + m, n) as real
  }

  // It is the p-value of a complete separation, and no pair of samples yields less.
  lemma MinimumIsAttained(reference: seq<real>, comparison: seq<real>)
    requires reference != [] && comparison != []
    ensures var n, m := |reference|, |comparison|;
            var p := TailProbability(n, m, KsStatistic(reference, comparison));
            MinimumAttainableP(n, m) <= p
            && (Separated(reference, comparison) ==> p == MinimumAttainableP(n, m))
  {
    var n, m, d := |reference|, |comparison|, KsStatistic(reference, comparison);
    StatisticRange(reference, comparison);
    SeparationProbability(n, m);
    TailProbabilityAntitone(n, m, d, n * m);
  }
}
