// The reconciliation of explainability/explainer.py.
module Explainer {
  import opened Fusion
  import opened Options
  import opened Rounding

  datatype Mismatch = RiskMismatch | RuleMismatch
  datatype Calculation = Calculation(reconstructedRule: real, calculatedRisk: real, storedRisk: real)

  // The product over the matched rules, the scores collected first.
  method RemainingAfterMatches(rules: seq<RuleResult>) returns (remaining: real)
    ensures remaining == Remaining(MatchedScores(rules))
  {
    var scores: seq<real> := [];
    for k := 0 to |rules|
      invariant scores == MatchedScores(rules[..k])
    {
      assert rules[..k + 1] == rules[..k] + [rules[k]];
      MatchedConcat(rules[..k], [rules[k]]);
      if rules[k].matched {
        scores := scores + [rules[k].score];
      }
    }
    assert rules[..|rules|] == rules;
    remaining := 1.0;
    for k := 0 to |scores|
      invariant remaining == Remaining(scores[..k])
    {
      assert scores[..k + 1] == scores[..k] + [scores[k]];
      RemainingConcat(scores[..k], [scores[k]]);
      RemainingOne(scores[k]);
      hide Remaining, Times;
      remaining := Times(remaining, 1.0 - scores[k]);
    }
    assert scores[..|scores|] == scores;
  }

  // Recomputes the risk from the stored components and the rule score from the stored rules,
  // and refuses to explain a finding that does not reconcile.
  method Calculate(f: Finding) returns (r: Result<Calculation, Mismatch>)
    ensures r.Ok? <==> Reconciles(f)
    ensures r.Err? && r.error.RiskMismatch? <==> Round4(FusedRisk(f.stored)) != Round4(f.riskScore)
    ensures r.Err? && r.error.RuleMismatch? <==>
            Round4(FusedRisk(f.stored)) == Round4(f.riskScore)
            && Round4(NoisyOr(MatchedScores(f.rules))) != Round4(f.stored.rule)
    ensures r.Ok? ==>
              r.value == Calculation(Round4(NoisyOr(MatchedScores(f.rules))),
                                     Round4(FusedRisk(f.stored)), Round4(f.riskScore))
  {
    hide Round4, FusedRisk;
    var calculated := Round4(FusedRisk(f.stored));
    if calculated != Round4(f.riskScore) {
      return Err(RiskMismatch);
    }
    var remaining := RemainingAfterMatches(f.rules);
    hide MatchedScores, Remaining;
    var reconstructed := Round4(1.0 - remaining);
    if reconstructed != Round4(f.stored.rule) {
      return Err(RuleMismatch);
    }
    return Ok(Calculation(reconstructed, calculated, Round4(f.riskScore)));
  }

  // The explainer's verdict on a finding, as Calculate reports it.
  ghost predicate Reconciles(f: Finding) {
    && Round4(FusedRisk(f.stored)) == Round4(f.riskScore)
    && Round4(NoisyOr(MatchedScores(f.rules))) == Round4(f.stored.rule)
  }

  // The rule score always reconciles, and the recomputed risk is within one unit of the stored one.
  lemma DetectedNearlyReconciles(behavior: real, rules: seq<RuleResult>, context: real, ml: Option<real>)
    requires RulesValid(rules) && 0.0 <= behavior <= 1.0 && 0.0 <= context <= 1.0
    requires ml.Some? ==> 0.0 <= ml.value <= 1.0
    ensures var f := Detected(behavior, rules, context, ml);
            && Round4(NoisyOr(MatchedScores(f.rules))) == Round4(f.stored.rule)
            && -1 <= Units(FusedRisk(f.stored)) - Units(f.riskScore) <= 1
            && -0.0001 <= Round4(FusedRisk(f.stored)) - Round4(f.riskScore) <= 0.0001
  {
    var exact := Evaluated(behavior, rules, context, ml);
    var f := Detected(behavior, rules, context, ml);
    MatchedAreScores(rules);
    NoisyOrBounds(MatchedScores(rules));
    RoundedFusionNearby(exact);
    hide NoisyOr, FusedRisk, RoundHalfEven;
    Round4Units(exact.rule);
    Round4Units(FusedRisk(exact));
    RoundNearby(FusedRisk(f.stored) * 10000.0, FusedRisk(exact) * 10000.0);
  }

  lemma SameUnits(x: real, y: real)
    ensures Round4(Round4(x)) == Round4(y) <==> Units(x) == Units(y)
  {
    Round4Units(x);
  }

  // How far a component is from its stored value, in units of 0.0001.
  function RoundingError(x: real): real {
    x * 10000.0 - Units(x) as real
  }

  // The risk of the stored components and what their rounding took from it, both in twentieths
  // of a unit: the fusion weights are whole twentieths.
  function StoredTwentieths(c: Components): int {
    if c.ml.Some? then 9 * Units(c.behavior) + 6 * Units(c.rule) + 3 * Units(c.context) + 2 * Units(c.ml.value)
    else 10 * Units(c.behavior) + 7 * Units(c.rule) + 3 * Units(c.context)
  }

  function LostTwentieths(c: Components): real {
    var b, r, x := RoundingError(c.behavior), RoundingError(c.rule), RoundingError(c.context);
    if c.ml.Some? then 9.0 * b + 6.0 * r + 3.0 * x + 2.0 * RoundingError(c.ml.value)
    else 10.0 * b + 7.0 * r + 3.0 * x
  }

  lemma RisksInTwentieths(c: Components)
    requires c.Valid()
    ensures FusedRisk(c.Rounded()) * 10000.0 == StoredTwentieths(c) as real / 20.0
    ensures FusedRisk(c) * 10000.0 == (StoredTwentieths(c) as real + LostTwentieths(c)) / 20.0
    ensures -10.0 <= LostTwentieths(c) <= 10.0
  {
    RoundedFusionNearby(c);
    FusedRiskRange(c);
    FusedRiskRange(c.Rounded());
    RoundNearest(c.behavior * 10000.0);
    RoundNearest(c.rule * 10000.0);
    RoundNearest(c.context * 10000.0);
    if c.ml.Some? {
      RoundNearest(c.ml.value * 10000.0);
    }
    hide RoundHalfEven, Components.Valid, FusedRisk;
  }

  lemma EvaluatedValid(behavior: real, rules: seq<RuleResult>, context: real, ml: Option<real>)
    requires RulesValid(rules) && 0.0 <= behavior <= 1.0 && 0.0 <= context <= 1.0
    requires ml.Some? ==> 0.0 <= ml.value <= 1.0
    ensures Evaluated(behavior, rules, context, ml).Valid()
  {
    MatchedAreScores(rules);
    NoisyOrBounds(MatchedScores(rules));
  }

  lemma RiskDecides(behavior: real, rules: seq<RuleResult>, context: real, ml: Option<real>)
    requires RulesValid(rules) && 0.0 <= behavior <= 1.0 && 0.0 <= context <= 1.0
    requires ml.Some? ==> 0.0 <= ml.value <= 1.0
    ensures var exact := Evaluated(behavior, rules, context, ml);
            Reconciles(Detected(behavior, rules, context, ml)) <==>
            Units(FusedRisk(exact)) == Units(FusedRisk(exact.Rounded()))
  {
    var exact := Evaluated(behavior, rules, context, ml);
    DetectedNearlyReconciles(behavior, rules, context, ml);
    SameUnits(FusedRisk(exact), FusedRisk(exact.Rounded()));
    hide FusedRisk, NoisyOr, MatchedScores, Round4, Units;
  }

  lemma UnitsApart(c: Components)
    requires c.Valid()
    ensures Units(FusedRisk(c)) != Units(FusedRisk(c.Rounded())) <==>
            CrossesMidpoint(StoredTwentieths(c) / 20, StoredTwentieths(c) % 20, LostTwentieths(c))
  {
    RisksInTwentieths(c);
    hide FusedRisk, RoundHalfEven, StoredTwentieths, LostTwentieths, CrossesMidpoint, Components.Valid;
    var n, e := StoredTwentieths(c), LostTwentieths(c);
    var q, r := n / 20, n % 20;
    RoundsApart(q, r, e);
    assert n == 20 * q + r;
    assert n as real / 20.0 == q as real + r as real / 20.0;
    assert (n as real + e) / 20.0 == q as real + (r as real + e) / 20.0;
  }

  // The explainer refuses a finding of the detector's own exactly when what rounding took from
  // the components carries the stored risk over a rounding midpoint: with the stored risk
  // q + r/20 units, a loss of more than the distance from r to 10, or a tie on the wrong side.
  lemma RefusedIffLossCrossesMidpoint(behavior: real, rules: seq<RuleResult>, context: real, ml: Option<real>)
    requires RulesValid(rules) && 0.0 <= behavior <= 1.0 && 0.0 <= context <= 1.0
    requires ml.Some? ==> 0.0 <= ml.value <= 1.0
    ensures var exact := Evaluated(behavior, rules, context, ml);
            !Reconciles(Detected(behavior, rules, context, ml)) <==>
            CrossesMidpoint(StoredTwentieths(exact) / 20, StoredTwentieths(exact) % 20, LostTwentieths(exact))
  {
    var exact := Evaluated(behavior, rules, context, ml);
    EvaluatedValid(behavior, rules, context, ml);
    RiskDecides(behavior, rules, context, ml);
    UnitsApart(exact);
    hide *;
  }

  // With only the model's score off the grid the loss is small: the finding is refused exactly
  // at a tie that the loss breaks, or half a unit of the score away from one.
  lemma RefusedOnlyNearTie(behavior: real, rules: seq<RuleResult>, context: real, ml: real)
    requires RulesValid(rules) && 0.0 <= behavior <= 1.0 && 0.0 <= context <= 1.0 && 0.0 <= ml <= 1.0
    requires OnGrid(behavior) && OnGrid(NoisyOr(MatchedScores(rules))) && OnGrid(context)
    ensures var n := StoredTwentieths(Evaluated(behavior, rules, context, Some(ml)));
            var q, r, d := n / 20, n % 20, RoundingError(ml);
            !Reconciles(Detected(behavior, rules, context, Some(ml))) <==>
              || (r == 10 && ((d > 0.0 && q % 2 == 0) || (d < 0.0 && q % 2 == 1)))
              || (r == 9 && d == 0.5 && q % 2 == 1)
              || (r == 11 && d == -0.5 && q % 2 == 0)
  {
    var exact := Evaluated(behavior, rules, context, Some(ml));
    RefusedIffLossCrossesMidpoint(behavior, rules, context, Some(ml));
    OnGridIsExact(exact.behavior);
    OnGridIsExact(exact.rule);
    OnGridIsExact(exact.context);
    RoundNearest(ml * 10000.0);
    assert LostTwentieths(exact) == 2.0 * RoundingError(ml);
    hide OnGrid, RoundHalfEven, NoisyOr, MatchedScores, StoredTwentieths, Detected, Reconciles;
  }

  lemma OnGridIsExact(x: real)
    requires OnGrid(x)
    ensures RoundingError(x) == 0.0
  {
    OnGridMeans(x);
    assert Round4(x) * 10000.0 == Units(x) as real;
  }

  // Components that are already multiples of 0.0001 always reconcile.
  lemma GridReconciles(behavior: real, rules: seq<RuleResult>, context: real, ml: Option<real>)
    requires Evaluated(behavior, rules, context, ml).AllOnGrid()
    ensures Reconciles(Detected(behavior, rules, context, ml))
  {
    var exact := Evaluated(behavior, rules, context, ml);
    OnGridMeans(behavior);
    OnGridMeans(exact.rule);
    OnGridMeans(context);
    if ml.Some? {
      OnGridMeans(ml.value);
    }
    Round4Units(exact.rule);
    Round4Units(FusedRisk(exact));
    hide OnGrid, Round4, FusedRisk, NoisyOr;
    assert exact.Rounded() == exact;
  }

  // The catalog's four rules, each matched or not.
  function CatalogResults(privileged: bool, utility: bool, burst: bool, multiUid: bool): seq<RuleResult> {
    [RuleResult(privileged, if privileged then 0.80 else 0.0), RuleResult(utility, if utility then 0.65 else 0.0),
     RuleResult(burst, if burst then 0.60 else 0.0), RuleResult(multiUid, if multiUid then 0.40 else 0.0)]
  }

  lemma CatalogRemaining(a: bool, b: bool, c: bool, d: bool)
    ensures Remaining(MatchedScores(CatalogResults(a, b, c, d)))
            == (if a then 0.20 else 1.0) * ((if b then 0.35 else 1.0)
               * ((if c then 0.40 else 1.0) * (if d then 0.60 else 1.0)))
  {
    var r := CatalogResults(a, b, c, d);
    assert r == [r[0]] + ([r[1]] + ([r[2]] + [r[3]]));
    MatchedConcat([r[0]], [r[1]] + ([r[2]] + [r[3]]));
    MatchedConcat([r[1]], [r[2]] + [r[3]]);
    MatchedConcat([r[2]], [r[3]]);
    RemainingConcat(MatchedScores([r[0]]), MatchedScores([r[1]] + ([r[2]] + [r[3]])));
    RemainingConcat(MatchedScores([r[1]]), MatchedScores([r[2]] + [r[3]]));
    RemainingConcat(MatchedScores([r[2]]), MatchedScores([r[3]]));
    SingleRule(r[0]);
    SingleRule(r[1]);
    SingleRule(r[2]);
    SingleRule(r[3]);
  }

  lemma SingleRule(r: RuleResult)
    ensures Remaining(MatchedScores([r])) == if r.matched then 1.0 - r.score else 1.0
  {
    if r.matched {
      assert MatchedScores([r]) == [r.score];
      RemainingOne(r.score);
    } else {
      assert MatchedScores([r]) == [];
    }
  }

  // What a pair of rules leaves of the probability, in hundredths.
  function PercentLeft(first: bool, firstLeft: int, second: bool, secondLeft: int, both: int): int {
    if first then if second then both else firstLeft
    else if second then secondLeft else 100
  }

  lemma CatalogUnits(a: bool, b: bool, c: bool, d: bool)
    ensures (if a then 0.20 else 1.0) * ((if b then 0.35 else 1.0)
            * ((if c then 0.40 else 1.0) * (if d then 0.60 else 1.0)))
            == GridPoint(PercentLeft(a, 20, b, 35, 7) * PercentLeft(c, 40, d, 60, 24))
  {
    if a {
      if b {
      } else {
      }
    } else {
      if b {
      } else {
      }
    }
  }

  lemma CatalogOnGrid(a: bool, b: bool, c: bool, d: bool)
    ensures OnGrid(NoisyOr(MatchedScores(CatalogResults(a, b, c, d))))
  {
    CatalogRemaining(a, b, c, d);
    CatalogUnits(a, b, c, d);
    hide MatchedScores, CatalogResults, Remaining;
    var units := PercentLeft(a, 20, b, 35, 7) * PercentLeft(c, 40, d, 60, 24);
    assert NoisyOr(MatchedScores(CatalogResults(a, b, c, d))) == GridPoint(10000 - units);
  }

  // Without a model, and with the shipped rule catalog, every finding is explained.
  lemma CatalogFindingsReconcile(behavior: real, a: bool, b: bool, c: bool, d: bool,
                                 privileged: bool, uniqueUids: int, executions: int)
    requires OnGrid(behavior)
    ensures Reconciles(Detected(behavior, CatalogResults(a, b, c, d),
                                ContextScore(privileged, uniqueUids, executions), None))
  {
    CatalogOnGrid(a, b, c, d);
    var context := ContextScore(privileged, uniqueUids, executions);
    var fifths := (if privileged then 3 else 0) + (if uniqueUids >= 2 then 1 else 0)
                  + (if executions >= 10 then 1 else 0);
    assert context == GridPoint(fifths * 2000);
    GridReconciles(behavior, CatalogResults(a, b, c, d), context, None);
  }

  // Other rule scores can make the explainer refuse a finding of the detector's own, away from
  // any tie: 0.83744135 is stored as 0.8374, and the stored components give 0.837455.
  lemma OwnFindingRefused()
    ensures var rules := [RuleResult(true, 0.81), RuleResult(true, 0.67), RuleResult(true, 0.43)];
            !Reconciles(Detected(0.9999, rules, 0.0, None))
  {
    var rules := [RuleResult(true, 0.81), RuleResult(true, 0.67), RuleResult(true, 0.43)];
    assert rules == [rules[0]] + ([rules[1]] + [rules[2]]);
    MatchedConcat([rules[0]], [rules[1]] + [rules[2]]);
    MatchedConcat([rules[1]], [rules[2]]);
    RemainingConcat(MatchedScores([rules[0]]), MatchedScores([rules[1]] + [rules[2]]));
    RemainingConcat(MatchedScores([rules[1]]), MatchedScores([rules[2]]));
    SingleRule(rules[0]);
    SingleRule(rules[1]);
    SingleRule(rules[2]);
    var exact := Evaluated(0.9999, rules, 0.0, None);
    assert exact.rule == 0.964261;
    hide MatchedScores, Remaining, NoisyOr;
    assert (9999.0).Floor == 9999 && (9642.61).Floor == 9642 && (0.0).Floor == 0;
    assert Units(0.9999) == 9999 && Units(0.964261) == 9643 && Units(0.0) == 0;
    assert StoredTwentieths(exact) == 167491 && LostTwentieths(exact) == -2.73;
    RefusedIffLossCrossesMidpoint(0.9999, rules, 0.0, None);
  }
}
