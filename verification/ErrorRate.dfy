// What the drift test of ml/drift.py promises under the null: the features that have not drifted
// are reported with probability at most alpha, however the features depend on each other.
module ErrorRate {
  import opened Counting
  import opened Drift
  import opened Holm
  import opened KsTest
  import opened LatticePaths
  import opened Reals
  import opened Sets
  import opened Sorting

  // ------------------------------------------------------------------ orderings, ties included

  // An order in which the two samples' values can be merged, equal values in any order: after
  // some number of steps it has taken exactly the values up to x, for every x.
  ghost predicate Merges(p: Path, reference: seq<real>, comparison: seq<real>) {
    && References(p) == |reference| && Comparisons(p) == |comparison|
    && forall x: real :: TakesUpTo(p, reference, comparison, x)
  }

  ghost predicate TakesUpTo(p: Path, reference: seq<real>, comparison: seq<real>, x: real) {
    exists k: nat :: StandsAt(p, k, CountAtMost(reference, x), CountAtMost(comparison, x))
  }

  predicate StandsAt(p: Path, k: nat, i: nat, j: nat) {
    k <= |p| && References(p[..k]) == i && Comparisons(p[..k]) == j
  }

  // Ties only lower the statistic below that of an order that breaks them.
  lemma TiesLowerStatistic(p: Path, reference: seq<real>, comparison: seq<real>)
    requires Merges(p, reference, comparison)
    ensures KsStatistic(reference, comparison) <= PathStatistic(p, |reference|, |comparison|)
  {
    var n, m := |reference|, |comparison|;
    StatisticIsSupremum(reference, comparison, KsStatistic(reference, comparison));
    StatisticIsMaximum(p, n, m);
    hide KsStatistic, PathStatistic, References, CountAtMost;
    var x: real :| DeviationAt(reference, comparison, x) == KsStatistic(reference, comparison);
    assert TakesUpTo(p, reference, comparison, x);
    var k: nat :| StandsAt(p, k, CountAtMost(reference, x), CountAtMost(comparison, x));
    assert Deviation(References(p[..k]), Comparisons(p[..k]), n, m) <= PathStatistic(p, n, m);
  }

  // The merged order of samples without ties is such an order, and the statistic is its own.
  lemma MergePathMerges(reference: seq<real>, comparison: seq<real>)
    requires TieFree(reference, comparison)
    ensures Merges(MergePath(reference, comparison), reference, comparison)
  {
    PathEnds(reference, comparison);
    forall x: real
      ensures TakesUpTo(MergePath(reference, comparison), reference, comparison, x)
    {
      MergePathTakes(reference, comparison, x);
    }
  }

  lemma MergePathTakes(reference: seq<real>, comparison: seq<real>, x: real)
    requires TieFree(reference, comparison)
    ensures TakesUpTo(MergePath(reference, comparison), reference, comparison, x)
  {
    var values := reference + comparison;
    hide MergePath, TieFree, CountAtMost, References;
    assert forall a | 0 <= a < |reference| :: reference[a] == values[a];
    assert forall a | 0 <= a < |comparison| :: comparison[a] == values[|reference| + a];
    if exists a :: 0 <= a < |values| && values[a] <= x {
      var last := LastValueAtMost(values, x);
      CountConstantBetween(reference, values[last], x);
      CountConstantBetween(comparison, values[last], x);
      MergePathTakesValue(reference, comparison, last);
    } else {
      CountAll(reference, x);
      CountAll(comparison, x);
      StandsAtOrigin(MergePath(reference, comparison));
      assert StandsAt(MergePath(reference, comparison), 0, CountAtMost(reference, x), CountAtMost(comparison, x));
    }
  }

  lemma StandsAtOrigin(p: Path)
    ensures StandsAt(p, 0, 0, 0)
  {
  }

  lemma MergePathTakesValue(reference: seq<real>, comparison: seq<real>, a: nat)
    requires TieFree(reference, comparison) && a < |reference + comparison|
    ensures TakesUpTo(MergePath(reference, comparison), reference, comparison, (reference + comparison)[a])
  {
    var v, merged := (reference + comparison)[a], Sorted(reference + comparison);
    PermutationMembers(reference + comparison, merged);
    assert v in merged;
    var k :| 0 <= k < |merged| && merged[k] == v;
    PathFollowsCounts(reference, comparison, k + 1);
    hide TieFree, CountAtMost, References, Sorted;
    assert StandsAt(MergePath(reference, comparison), k + 1, CountAtMost(reference, v), CountAtMost(comparison, v));
  }

  // ------------------------------------------------------------------ outcomes

  // One outcome of collecting the data: a reference and a comparison column for each feature.
  datatype Samples = Samples(reference: seq<seq<real>>, comparison: seq<seq<real>>)

  ghost predicate IsFamily(s: Samples, n: nat, m: nat, features: nat) {
    Family(s.reference, s.comparison, n, m) && |s.reference| == features
  }

  ghost predicate AllFamilies<W>(outcomes: set<W>, data: W -> Samples, n: nat, m: nat, features: nat) {
    forall w | w in outcomes :: IsFamily(data(w), n, m, features)
  }

  ghost function FamilyOf(s: Samples, asymptotic: Asymptotic): seq<real> {
    if |s.reference| == |s.comparison| then PValueFamily(s.reference, s.comparison, asymptotic) else []
  }

  ghost function FamiliesOf<W>(data: W -> Samples, asymptotic: Asymptotic): W -> seq<real> {
    w => FamilyOf(data(w), asymptotic)
  }

  // The outcomes in which the i-th of the given orders is among the paths.
  ghost function WithOrder<W>(outcomes: set<W>, orders: W -> seq<Path>, i: nat, paths: set<Path>): set<W> {
    set w | w in outcomes && i < |orders(w)| && orders(w)[i] in paths
  }

  // Every order of n and m values is the i-th equally often.
  ghost predicate EquallyLikely<W>(outcomes: set<W>, orders: W -> seq<Path>, n: nat, m: nat, i: nat) {
    forall p | p in AllPaths(n, m) :: |WithOrder(outcomes, orders, i, {p})| * |AllPaths(n, m)| == |outcomes|
  }

  // In each outcome the i-th order merges the samples of feature i.
  ghost predicate OrdersMerge<W>(outcomes: set<W>, data: W -> Samples, orders: W -> seq<Path>, i: nat) {
    forall w | w in outcomes :: OrderMerges(data(w), orders(w), i)
  }

  ghost predicate OrderMerges(s: Samples, orders: seq<Path>, i: nat) {
    && i < |s.reference| && i < |s.comparison| && i < |orders|
    && Merges(orders[i], s.reference[i], s.comparison[i])
  }

  // Feature i has not drifted: its samples are merged by an order that is equally likely to be
  // any, whichever way its ties are broken.
  ghost predicate Undrifted<W>(outcomes: set<W>, data: W -> Samples, orders: W -> seq<Path>, n: nat, m: nat, i: nat) {
    OrdersMerge(outcomes, data, orders, i) && EquallyLikely(outcomes, orders, n, m, i)
  }

  // What the series for large samples has to satisfy where decisions are made: it is never below
  // the exact p-value.
  ghost predicate SafeSeries(asymptotic: Asymptotic, n: nat, m: nat, alpha: real) {
    forall s: nat | s <= n * m :: SafeAt(asymptotic, n, m, alpha, s)
  }

  ghost predicate SafeAt(asymptotic: Asymptotic, n: nat, m: nat, alpha: real, s: nat) {
    0.0 <= asymptotic(n, m, s) && (asymptotic(n, m, s) <= alpha ==> TailProbability(n, m, s) <= asymptotic(n, m, s))
  }

  ghost predicate SafePValues(asymptotic: Asymptotic, n: nat, m: nat, alpha: real) {
    IsExact(n, m) || SafeSeries(asymptotic, n, m, alpha)
  }

  lemma SafePValue(reference: seq<real>, comparison: seq<real>, asymptotic: Asymptotic, alpha: real)
    requires SafePValues(asymptotic, |reference|, |comparison|, alpha)
    ensures var p := PValue(reference, comparison, asymptotic);
            && 0.0 <= p
            && (p <= alpha ==> TailProbability(|reference|, |comparison|, KsStatistic(reference, comparison)) <= p)
  {
    var n, m, d := |reference|, |comparison|, KsStatistic(reference, comparison);
    hide KsStatistic, TailProbability, IsExact;
    TailProbabilityBounds(n, m, d);
    StatisticRange(reference, comparison);
    if !IsExact(n, m) {
      assert SafeAt(asymptotic, n, m, alpha, d);
    }
  }

  // ------------------------------------------------------------------ counting outcomes

  // A set of orders occurs in its share of the outcomes.
  lemma {:induction false} OrderShare<W>(outcomes: set<W>, orders: W -> seq<Path>,
                                     n: nat, m: nat, i: nat, paths: set<Path>)
    requires EquallyLikely(outcomes, orders, n, m, i) && paths <= AllPaths(n, m)
    ensures |WithOrder(outcomes, orders, i, paths)| * |AllPaths(n, m)| == |paths| * |outcomes|
    decreases paths
  {
    hide *;
    if paths == {} {
      WithNoOrder(outcomes, orders, i);
    } else {
      var p :| p in paths;
      var rest := paths - {p};
      OrderShare(outcomes, orders, n, m, i, rest);
      WithOrderParts(outcomes, orders, i, paths, p);
      EachOrder(outcomes, orders, n, m, i, p);
      Distribute(|WithOrder(outcomes, orders, i, {p})|, |WithOrder(outcomes, orders, i, rest)|, |AllPaths(n, m)|,
                 |rest|, |outcomes|);
    }
  }

  lemma WithNoOrder<W>(outcomes: set<W>, orders: W -> seq<Path>, i: nat)
    ensures WithOrder(outcomes, orders, i, {}) == {}
  {
  }

  lemma EachOrder<W>(outcomes: set<W>, orders: W -> seq<Path>, n: nat, m: nat, i: nat, p: Path)
    requires EquallyLikely(outcomes, orders, n, m, i) && p in AllPaths(n, m)
    ensures |WithOrder(outcomes, orders, i, {p})| * |AllPaths(n, m)| == |outcomes|
  {
    hide AllPaths, WithOrder;
  }

  lemma WithOrderParts<W>(outcomes: set<W>, orders: W -> seq<Path>, i: nat, paths: set<Path>, p: Path)
    requires p in paths
    ensures |WithOrder(outcomes, orders, i, paths)|
            == |WithOrder(outcomes, orders, i, {p})| + |WithOrder(outcomes, orders, i, paths - {p})|
  {
    var one, others := WithOrder(outcomes, orders, i, {p}), WithOrder(outcomes, orders, i, paths - {p});
    assert one !! others && WithOrder(outcomes, orders, i, paths) == one + others;
    DisjointUnion(one, others);
  }

  lemma Distribute(one: nat, others: nat, total: nat, rest: nat, outcomes: nat)
    requires one * total == outcomes && others * total == rest * outcomes
    ensures (one + others) * total == (rest + 1) * outcomes
  {
  }

  // A small p-value of an undrifted feature needs a significant order.
  lemma SmallNeedsSignificant(reference: seq<real>, comparison: seq<real>,
                              asymptotic: Asymptotic, p: Path, a: real, alpha: real)
    requires SafePValues(asymptotic, |reference|, |comparison|, alpha) && a <= alpha
    requires Merges(p, reference, comparison) && PValue(reference, comparison, asymptotic) <= a
    ensures p in Significant(|reference|, |comparison|, a)
  {
    var n, m := |reference|, |comparison|;
    SafePValue(reference, comparison, asymptotic, alpha);
    TiesLowerStatistic(p, reference, comparison);
    TailProbabilityAntitone(n, m, KsStatistic(reference, comparison), PathStatistic(p, n, m));
    AllPathsMembers(n, m, p);
    SignificantMember(n, m, a, p);
    hide *;
  }

  lemma AllPathsMembers(n: nat, m: nat, p: Path)
    ensures p in AllPaths(n, m) <==> References(p) == n && Comparisons(p) == m
  {
    PathsToMembers(Everywhere(), n, m, p);
    hide PathsTo, References;
  }

  lemma SmallByOrder<W>(outcomes: set<W>, data: W -> Samples, orders: W -> seq<Path>, n: nat, m: nat, features: nat,
                        asymptotic: Asymptotic, i: nat, a: real, alpha: real)
    requires SafePValues(asymptotic, n, m, alpha) && a <= alpha && i < features
    requires AllFamilies(outcomes, data, n, m, features) && OrdersMerge(outcomes, data, orders, i)
    ensures SmallIn(outcomes, FamiliesOf(data, asymptotic), {i}, a)
            <= WithOrder(outcomes, orders, i, Significant(n, m, a))
  {
    hide PValue, SafePValues, Merges, Significant;
    forall w | w in SmallIn(outcomes, FamiliesOf(data, asymptotic), {i}, a)
      ensures w in WithOrder(outcomes, orders, i, Significant(n, m, a))
    {
      assert OrderMerges(data(w), orders(w), i);
      assert IsFamily(data(w), n, m, features) && AtMost(FamilyOf(data(w), asymptotic), i, a);
      SmallNeedsSignificant(data(w).reference[i], data(w).comparison[i], asymptotic, orders(w)[i], a, alpha);
    }
  }

  // So an undrifted feature's p-value is valid.
  lemma UndriftedIsValid<W>(outcomes: set<W>, data: W -> Samples, orders: W -> seq<Path>, n: nat, m: nat, features: nat,
                            asymptotic: Asymptotic, i: nat, alpha: real)
    requires SafePValues(asymptotic, n, m, alpha) && i < features
    requires AllFamilies(outcomes, data, n, m, features) && Undrifted(outcomes, data, orders, n, m, i)
    ensures ValidPValue(outcomes, FamiliesOf(data, asymptotic), i, alpha)
  {
    forall a: real | 0.0 <= a <= alpha
      ensures |SmallIn(outcomes, FamiliesOf(data, asymptotic), {i}, a)| as real <= Share(a, |outcomes| as real)
    {
      var small, paths := SmallIn(outcomes, FamiliesOf(data, asymptotic), {i}, a), Significant(n, m, a);
      SmallByOrder(outcomes, data, orders, n, m, features, asymptotic, i, a, alpha);
      SubsetCardinality(small, WithOrder(outcomes, orders, i, paths));
      SignificantArePaths(n, m, a);
      OrderShare(outcomes, orders, n, m, i, paths);
      PValueIsValid(n, m, a);
      AllPathsNonempty(n, m);
      hide *;
      ShareOfOutcomes(|WithOrder(outcomes, orders, i, paths)|, |AllPaths(n, m)|, |paths|, |outcomes|, a);
    }
  }

  lemma SignificantArePaths(n: nat, m: nat, a: real)
    ensures Significant(n, m, a) <= AllPaths(n, m)
  {
    hide AllPaths;
  }

  lemma ShareOfOutcomes(small: nat, total: nat, paths: nat, outcomes: nat, a: real)
    requires total > 0 && small * total == paths * outcomes
    requires paths as real <= Share(a, total as real)
    ensures small as real <= Share(a, outcomes as real)
  {
    var s, t, p, o := small as real, total as real, paths as real, outcomes as real;
    assert s * t == p * o;
    if outcomes > 0 {
      ProductOrder(p, a * t, o);
      assert (a * t) * o == (a * o) * t;
    } else {
      assert s * t == 0.0;
    }
    ProductOrder(s, a * o, t);
  }

  // The outcomes in which some feature of a set is reported to have drifted.
  ghost function Reporting<W>(outcomes: set<W>, data: W -> Samples, alpha: real, asymptotic: Asymptotic,
                              features: set<nat>): set<W> {
    set w | w in outcomes && FalseRejection(FamilyOf(data(w), asymptotic), alpha, features)
  }

  // The error rate of a drift report: the features that have not drifted, whatever the others do
  // and however all of them depend on each other, are reported with probability at most alpha.
  lemma FalseDriftRate<W>(outcomes: set<W>, data: W -> Samples, orders: W -> seq<Path>, n: nat, m: nat, features: nat,
                          alpha: real, asymptotic: Asymptotic, undrifted: set<nat>)
    requires alpha >= 0.0 && SafePValues(asymptotic, n, m, alpha)
    requires AllFamilies(outcomes, data, n, m, features)
    requires forall i | i in undrifted :: i < features && Undrifted(outcomes, data, orders, n, m, i)
    ensures |Reporting(outcomes, data, alpha, asymptotic, undrifted)| as real <= Share(alpha, |outcomes| as real)
  {
    var p := FamiliesOf(data, asymptotic);
    forall i | i in undrifted
      ensures ValidPValue(outcomes, p, i, alpha)
    {
      UndriftedIsValid(outcomes, data, orders, n, m, features, asymptotic, i, alpha);
    }
    forall w | w in outcomes
      ensures PValues(p(w)) && |p(w)| == features
    {
      NonnegativeFamily(data(w), n, m, features, alpha, asymptotic);
    }
    hide Undrifted, SafePValues, AllFamilies, PValues, Rejected;
    FamilyWiseErrorRate(outcomes, p, alpha, undrifted);
    assert (set w | w in outcomes && FalseRejection(p(w), alpha, undrifted))
        == Reporting(outcomes, data, alpha, asymptotic, undrifted);
  }

  lemma NonnegativeFamily(s: Samples, n: nat, m: nat, features: nat, alpha: real, asymptotic: Asymptotic)
    requires IsFamily(s, n, m, features) && SafePValues(asymptotic, n, m, alpha)
    ensures PValues(FamilyOf(s, asymptotic)) && |FamilyOf(s, asymptotic)| == features
  {
    hide PValue, SafePValues;
    forall f: nat | f < features
      ensures 0.0 <= FamilyOf(s, asymptotic)[f]
    {
      SafePValue(s.reference[f], s.comparison[f], asymptotic, alpha);
    }
  }
}
