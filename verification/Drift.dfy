// The drift assessment of ml/drift.py: one KS test a feature, Holm across the family, and
// the refusal to conclude from samples too small to reject anything.
module Drift {
  import opened Holm
  import opened KsTest
  import opened LatticePaths
  import opened Options
  import opened Reals

  const EXACT_LATTICE_CELLS := 400_000
  const MIN_REFERENCE_WINDOWS := 10
  const MIN_COMPARISON_WINDOWS := 30

  // The Kolmogorov series for large samples, as a function of n, m and the integer statistic.
  type Asymptotic = (nat, nat, int) -> real

  datatype Method = ExactLattice | KolmogorovAsymptotic
  datatype KsResult = KsResult(statistic: real, pValue: real, pValueMethod: Method)

  predicate IsExact(n: nat, m: nat) {
    (n + 1) * (m + 1) <= EXACT_LATTICE_CELLS
  }

  ghost function PValue(reference: seq<real>, comparison: seq<real>, asymptotic: Asymptotic): real {
    var n, m, d := |reference|, |comparison|, KsStatistic(reference, comparison);
    if IsExact(n, m) then TailProbability(n, m, d) else asymptotic(n, m, d)
  }

  // None stands for the ValueError an empty sample raises.
  method TwoSampleKs(reference: seq<real>, comparison: seq<real>, asymptotic: Asymptotic)
    returns (result: Option<KsResult>)
    ensures result.None? <==> reference == [] || comparison == []
    ensures result.Some? ==>
              var n, m, d := |reference|, |comparison|, KsStatistic(reference, comparison);
              && IsNormalised(result.value.statistic, d, n, m)
              && (if (n + 1) * (m + 1) <= 400_000
                  then result.value.pValueMethod.ExactLattice? && result.value.pValue == TailProbability(n, m, d)
                  else result.value.pValueMethod.KolmogorovAsymptotic? && result.value.pValue == asymptotic(n, m, d))
    ensures result.Some? ==> result.value.pValue == PValue(reference, comparison, asymptotic)
  {
    var n, m := |reference|, |comparison|;
    if n == 0 || m == 0 {
      return None;
    }
    hide KsStatistic, TailProbability, IsStatistic, IsNormalised;
    var d := KsIntegerStatistic(reference, comparison);
    var exact := IsExact(n, m);
    var p;
    if exact {
      p := ExactTwoSidedP(n, m, d);
    } else {
      p := asymptotic(n, m, d);
    }
    var statistic := NormalisedStatistic(d, n, m);
    result := Some(KsResult(statistic, p, if exact then ExactLattice else KolmogorovAsymptotic));
  }

  // r is d / (n * m).
  ghost predicate IsNormalised(r: real, d: int, n: nat, m: nat) {
    r * (n * m) as real == d as real
  }

  // The familiar D in [0, 1].
  function NormalisedStatistic(d: int, n: nat, m: nat): (r: real)
    requires n > 0 && m > 0
    ensures IsNormalised(r, d, n, m)
  {
    ProductStrict(0, n, m);
    Quotient(d as real, (n * m) as real);
    d as real / (n * m) as real
  }

  // One column of n reference and m comparison values for each feature.
  ghost predicate Family(reference: seq<seq<real>>, comparison: seq<seq<real>>, n: nat, m: nat) {
    && |reference| == |comparison|
    && (forall f | 0 <= f < |reference| :: |reference[f]| == n && |comparison[f]| == m)
  }

  ghost function PValueFamily(reference: seq<seq<real>>, comparison: seq<seq<real>>,
                              asymptotic: Asymptotic): (p: seq<real>)
    requires |reference| == |comparison|
    ensures |p| == |reference|
  {
    seq(|reference|, f requires 0 <= f < |reference| => PValue(reference[f], comparison[f], asymptotic))
  }

  // The refusal: these sizes cannot reach even the first Holm threshold.
  predicate CannotAttain(n: nat, m: nat, alpha: real, features: nat)
    requires features > 0
  {
    MinimumAttainableP(n, m) > alpha / features as real
  }

  predicate Refused(otherReasons: bool, n: nat, m: nat, alpha: real, features: nat)
    requires features > 0
  {
    || otherReasons
    || n < MIN_REFERENCE_WINDOWS
    || m < MIN_COMPARISON_WINDOWS
    || (n > 0 && m > 0 && CannotAttain(n, m, alpha, features))
  }

  // In numbers: too few windows on a side, or two of C(n + m, n) orderings already being more
  // than the share alpha / features.
  lemma RefusedInNumbers(otherReasons: bool, n: nat, m: nat, alpha: real, features: nat)
    requires features > 0
    ensures Comb(n + m, n) > 0
    ensures Refused(otherReasons, n, m, alpha, features)
            <==> otherReasons || n < 10 || m < 30
                 || 2.0 / Comb(n + m, n) as real > alpha / features as real
  {
    CombPositive(n + m, n);
    hide Comb;
    assert MinimumAttainableP(n, m) == 2.0 / Comb(n + m, n) as real;
  }

  datatype Status = InsufficientData | DriftDetected | NoDriftDetected
  datatype Assessment = Assessment(status: Status, drifted: seq<bool>)

  method AssessDrift(reference: seq<seq<real>>, comparison: seq<seq<real>>, n: nat, m: nat,
                     otherReasons: bool, alpha: real, asymptotic: Asymptotic)
    returns (a: Assessment)
    requires |reference| > 0 && Family(reference, comparison, n, m)
    ensures a.status.InsufficientData?
            <==> otherReasons || n < 10 || m < 30 || CannotAttain(n, m, alpha, |reference|)
    ensures !a.status.InsufficientData? ==>
              && |a.drifted| == |reference|
              && (forall f: nat | f < |reference| ::
                    a.drifted[f] == Rejected(PValueFamily(reference, comparison, asymptotic), alpha, f))
    ensures a.status.DriftDetected? <==>
            !a.status.InsufficientData?
            && exists f: nat :: f < |reference| && Rejected(PValueFamily(reference, comparison, asymptotic), alpha, f)
  {
    hide PValue, Rejected, CannotAttain;
    if Refused(otherReasons, n, m, alpha, |reference|) {
      return Assessment(InsufficientData, []);
    }
    ghost var family := PValueFamily(reference, comparison, asymptotic);
    var p: seq<real> := [];
    for f := 0 to |reference|
      invariant p == family[..f]
    {
      var result := TwoSampleKs(reference[f], comparison[f], asymptotic);
      p := p + [result.value.pValue];
    }
    var records := HolmBonferroni(p, alpha);
    assert p == family;
    var drifted: seq<bool> := [];
    var any := false;
    for f := 0 to |records|
      invariant |drifted| == f
      invariant forall g: nat | g < f :: drifted[g] == Rejected(family, alpha, g)
      invariant any <==> exists g: nat :: g < f && Rejected(family, alpha, g)
    {
      assert records[f].rejected == Rejected(family, alpha, f);
      any := any || records[f].rejected;
      drifted := drifted + [records[f].rejected];
    }
    a := Assessment(if any then DriftDetected else NoDriftDetected, drifted);
  }

  // ------------------------------------------------------------------ the refusal is exact

  lemma ExactFamily(reference: seq<seq<real>>, comparison: seq<seq<real>>, n: nat, m: nat, asymptotic: Asymptotic)
    requires Family(reference, comparison, n, m) && n > 0 && m > 0 && IsExact(n, m)
    ensures PValues(PValueFamily(reference, comparison, asymptotic))
    ensures forall f: nat | f < |reference| ::
              var p := PValueFamily(reference, comparison, asymptotic)[f];
              MinimumAttainableP(n, m) <= p
              && (Separated(reference[f], comparison[f]) ==> p == MinimumAttainableP(n, m))
  {
    forall f: nat | f < |reference|
      ensures var p := PValueFamily(reference, comparison, asymptotic)[f];
              0.0 <= p && MinimumAttainableP(n, m) <= p
              && (Separated(reference[f], comparison[f]) ==> p == MinimumAttainableP(n, m))
    {
      MinimumIsAttained(reference[f], comparison[f]);
      TailProbabilityBounds(n, m, KsStatistic(reference[f], comparison[f]));
    }
  }

  // When the refusal fires no data of these sizes could have been called drift; when it does
  // not, a feature whose samples separate completely always is.
  lemma RefusalIsExact(reference: seq<seq<real>>, comparison: seq<seq<real>>, n: nat, m: nat,
                       alpha: real, asymptotic: Asymptotic)
    requires |reference| > 0 && Family(reference, comparison, n, m) && n > 0 && m > 0 && IsExact(n, m)
    ensures CannotAttain(n, m, alpha, |reference|) ==>
              forall f: nat | f < |reference| :: !Rejected(PValueFamily(reference, comparison, asymptotic), alpha, f)
    ensures !CannotAttain(n, m, alpha, |reference|) ==>
              forall f: nat | f < |reference| && Separated(reference[f], comparison[f]) ::
                Rejected(PValueFamily(reference, comparison, asymptotic), alpha, f)
  {
    ExactFamily(reference, comparison, n, m, asymptotic);
    FirstThreshold(PValueFamily(reference, comparison, asymptotic), alpha);
    hide Rejected, PValueFamily, MinimumAttainableP, Separated;
  }

  function Constant(value: real, count: nat): (s: seq<real>)
    ensures |s| == count && forall k | 0 <= k < count :: s[k] == value
  {
    seq(count, _ => value)
  }

  // So the sample sizes are refused exactly when there is nothing the test could ever reject.
  lemma RefusedIffNothingCanBeRejected(n: nat, m: nat, features: nat, alpha: real, asymptotic: Asymptotic)
    requires n > 0 && m > 0 && features > 0 && IsExact(n, m)
    ensures CannotAttain(n, m, alpha, features) <==>
            forall reference: seq<seq<real>>, comparison: seq<seq<real>>, f: nat
              | Family(reference, comparison, n, m) && |reference| == features && f < features ::
                !Rejected(PValueFamily(reference, comparison, asymptotic), alpha, f)
  {
    hide Rejected, PValueFamily, CannotAttain;
    if CannotAttain(n, m, alpha, features) {
      forall reference: seq<seq<real>>, comparison: seq<seq<real>>, f: nat
        | Family(reference, comparison, n, m) && |reference| == features && f < features
        ensures !Rejected(PValueFamily(reference, comparison, asymptotic), alpha, f)
      {
        RefusalIsExact(reference, comparison, n, m, alpha, asymptotic);
      }
    } else {
      var reference := seq(features, _ => Constant(0.0, n));
      var comparison := seq(features, _ => Constant(1.0, m));
      assert Family(reference, comparison, n, m);
      assert Separated(reference[0], comparison[0]);
      RefusalIsExact(reference, comparison, n, m, alpha, asymptotic);
      assert Rejected(PValueFamily(reference, comparison, asymptotic), alpha, 0);
    }
  }

  // With exact p-values drift is declared exactly when, for some feature, the orderings at
  // least as extreme as the data make up at most alpha / features of all C(n + m, n).
  lemma DriftMeansFewExtremeOrderings(reference: seq<seq<real>>, comparison: seq<seq<real>>, n: nat, m: nat,
                                      alpha: real, asymptotic: Asymptotic)
    requires |reference| > 0 && Family(reference, comparison, n, m) && n > 0 && m > 0 && IsExact(n, m)
    ensures (exists f: nat :: f < |reference| && Rejected(PValueFamily(reference, comparison, asymptotic), alpha, f))
            <==> exists f: nat :: f < |reference|
                   && FewExtreme(n, m, KsStatistic(reference[f], comparison[f]), Threshold(alpha, |reference|, 0))
  {
    var family := PValueFamily(reference, comparison, asymptotic);
    ExactFamily(reference, comparison, n, m, asymptotic);
    SomethingRejected(family, alpha);
    var level := Threshold(alpha, |reference|, 0);
    hide Rejected, Threshold, PValueFamily, FewExtreme, KsStatistic, IsExact, Separated, MinimumAttainableP;
    forall f: nat | f < |reference|
      ensures family[f] <= level <==> FewExtreme(n, m, KsStatistic(reference[f], comparison[f]), level)
    {
      MemberWithinLevel(reference, comparison, n, m, asymptotic, level, f);
    }
  }

  // More generally, in any set of features that holds a drifted one, the orderings at least as
  // extreme as the data of some feature make up at most the share alpha / |t|.
  lemma DriftedSetHasFewExtreme(reference: seq<seq<real>>, comparison: seq<seq<real>>, n: nat, m: nat,
                                alpha: real, asymptotic: Asymptotic, t: set<nat>, i: nat)
    requires Family(reference, comparison, n, m) && n > 0 && m > 0 && IsExact(n, m)
    requires i in t && forall f | f in t :: f < |reference|
    requires Rejected(PValueFamily(reference, comparison, asymptotic), alpha, i)
    ensures exists f :: f in t && FewExtreme(n, m, KsStatistic(reference[f], comparison[f]), alpha / |t| as real)
  {
    var family := PValueFamily(reference, comparison, asymptotic);
    ExactFamily(reference, comparison, n, m, asymptotic);
    FamilyWise(family, alpha, t, i);
    var f :| f in t && family[f] <= alpha / |t| as real;
    MemberWithinLevel(reference, comparison, n, m, asymptotic, alpha / |t| as real, f);
  }

  lemma MemberWithinLevel(reference: seq<seq<real>>, comparison: seq<seq<real>>, n: nat, m: nat,
                          asymptotic: Asymptotic, level: real, f: nat)
    requires Family(reference, comparison, n, m) && IsExact(n, m) && f < |reference|
    ensures PValueFamily(reference, comparison, asymptotic)[f] <= level
            <==> FewExtreme(n, m, KsStatistic(reference[f], comparison[f]), level)
  {
    TailWithinLevel(n, m, KsStatistic(reference[f], comparison[f]), level);
  }

  // At most the given share of all orderings is as extreme as s.
  ghost predicate FewExtreme(n: nat, m: nat, s: int, share: real) {
    |ExtremePaths(n, m, s)| as real <= share * Comb(n + m, n) as real
  }

  lemma TailWithinLevel(n: nat, m: nat, s: int, level: real)
    ensures TailProbability(n, m, s) <= level <==> FewExtreme(n, m, s, level)
  {
    TailIsShare(n, m, s);
    hide TailProbability, ExtremePaths, Comb;
    QuotientWithin(|ExtremePaths(n, m, s)| as real, Comb(n + m, n) as real, level);
  }

  lemma TailIsShare(n: nat, m: nat, s: int)
    ensures Comb(n + m, n) > 0
    ensures TailProbability(n, m, s) == |ExtremePaths(n, m, s)| as real / Comb(n + m, n) as real
  {
    AllPathsCount(n, m);
    AllPathsNonempty(n, m);
  }
}
