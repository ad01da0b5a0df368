// Score fusion of detection/detector.py: a noisy-or over matched rules and a weighted sum.
module Fusion {
  import opened Options
  import opened Rounding
  import opened Sorting

  datatype RuleResult = RuleResult(matched: bool, score: real)

  function MatchedScores(results: seq<RuleResult>): (scores: seq<real>) {
    if results == [] then []
    else (if results[0].matched then [results[0].score] else []) + MatchedScores(results[1..])
  }

  // A product of probabilities, named so that proofs can treat it as one term.
  function Times(a: real, b: real): real {
    a * b
  }

  lemma TimesLaws(a: real, b: real, c: real)
    ensures Times(1.0, a) == a == Times(a, 1.0)
    ensures Times(a, b) == Times(b, a)
    ensures Times(Times(a, b), c) == Times(a, Times(b, c))
  {
  }

  lemma TimesInRange(a: real, b: real)
    requires 0.0 <= a <= 1.0 && 0.0 <= b <= 1.0
    ensures 0.0 <= Times(a, b) <= a && Times(a, b) <= b
  {
    NonnegativeProduct(a, b);
    NonnegativeProduct(a, 1.0 - b);
    NonnegativeProduct(1.0 - a, b);
    assert a * (1.0 - b) == a - a * b && (1.0 - a) * b == b - a * b;
  }

  lemma NonnegativeProduct(a: real, b: real)
    requires 0.0 <= a && 0.0 <= b
    ensures 0.0 <= a * b
  {
  }

  lemma TimesZero(a: real, b: real)
    ensures Times(a, b) == 0.0 <==> a == 0.0 || b == 0.0
  {
  }

  // The probability that no matched rule is right, were they independent.
  function Remaining(scores: seq<real>): real {
    if scores == [] then 1.0 else Times(1.0 - scores[0], Remaining(scores[1..]))
  }

  function NoisyOr(scores: seq<real>): real {
    1.0 - Remaining(scores)
  }

  ghost predicate Scores(scores: seq<real>) {
    forall k | 0 <= k < |scores| :: 0.0 <= scores[k] <= 1.0
  }

  lemma {:induction false} RemainingConcat(s: seq<real>, t: seq<real>)
    ensures Remaining(s + t) == Times(Remaining(s), Remaining(t))
  {
    hide Times;
    if s == [] {
      assert s + t == t;
      TimesLaws(Remaining(t), 0.0, 0.0);
    } else {
      assert (s + t)[1..] == s[1..] + t;
      RemainingConcat(s[1..], t);
      TimesLaws(1.0 - s[0], Remaining(s[1..]), Remaining(t));
    }
  }

  lemma RemainingOne(score: real)
    ensures Remaining([score]) == 1.0 - score
  {
  }

  method FuseRules(results: seq<RuleResult>) returns (fused: real)
    ensures fused == NoisyOr(MatchedScores(results))
  {
    var remaining := 1.0;
    for k := 0 to |results|
      invariant remaining == Remaining(MatchedScores(results[..k]))
    {
      MatchedStep(results, k);
      hide Remaining, MatchedScores;
      if results[k].matched {
        remaining := Times(remaining, 1.0 - results[k].score);
      }
    }
    assert results[..|results|] == results;
    fused := 1.0 - remaining;
  }

  lemma {:induction false} MatchedConcat(r: seq<RuleResult>, t: seq<RuleResult>)
    ensures MatchedScores(r + t) == MatchedScores(r) + MatchedScores(t)
  {
    if r == [] {
      assert r + t == t;
    } else {
      assert (r + t)[1..] == r[1..] + t;
      MatchedConcat(r[1..], t);
      var head := if r[0].matched then [r[0].score] else [];
      assert head + (MatchedScores(r[1..]) + MatchedScores(t)) == (head + MatchedScores(r[1..])) + MatchedScores(t);
    }
  }

  lemma MatchedStep(results: seq<RuleResult>, k: nat)
    requires k < |results|
    ensures Remaining(MatchedScores(results[..k + 1]))
            == if results[k].matched then Times(Remaining(MatchedScores(results[..k])), 1.0 - results[k].score)
               else Remaining(MatchedScores(results[..k]))
  {
    hide Times;
    assert results[..k + 1] == results[..k] + [results[k]];
    MatchedConcat(results[..k], [results[k]]);
    if results[k].matched {
      assert MatchedScores([results[k]]) == [results[k].score];
      RemainingConcat(MatchedScores(results[..k]), [results[k].score]);
      RemainingOne(results[k].score);
    } else {
      assert MatchedScores([results[k]]) == [];
      assert MatchedScores(results[..k]) + [] == MatchedScores(results[..k]);
    }
  }

  // ------------------------------------------------------------------ the noisy-or

  // The fused score is a probability and at least every matched score.
  lemma {:induction false} NoisyOrBounds(scores: seq<real>)
    requires Scores(scores)
    ensures 0.0 <= NoisyOr(scores) <= 1.0
    ensures forall k | 0 <= k < |scores| :: scores[k] <= NoisyOr(scores)
  {
    hide Times;
    if scores != [] {
      var rest := scores[1..];
      assert forall k | 0 <= k < |rest| :: rest[k] == scores[k + 1];
      NoisyOrBounds(rest);
      TimesInRange(1.0 - scores[0], Remaining(rest));
      forall k | 0 <= k < |scores|
        ensures scores[k] <= NoisyOr(scores)
      {
        if k > 0 {
          assert rest[k - 1] <= NoisyOr(rest);
        }
      }
    }
  }

  // What determines it: a single rule counts as it is, and further rules add the share of their
  // own value that is left.
  lemma NoisyOrCombines(s: seq<real>, t: seq<real>, score: real)
    ensures NoisyOr([]) == 0.0 && NoisyOr([score]) == score
    ensures NoisyOr(s + t) == NoisyOr(s) + Times(1.0 - NoisyOr(s), NoisyOr(t))
  {
    RemainingOne(score);
    RemainingConcat(s, t);
    assert Remaining([]) == 1.0;
    TimesComplement(Remaining(s), Remaining(t));
    hide Remaining, Times;
  }

  lemma TimesComplement(a: real, b: real)
    ensures Times(a, 1.0 - b) == a - Times(a, b)
    ensures 1.0 - (1.0 - a) == a
  {
  }

  // It is certain only if one matched rule is.
  lemma {:induction false} NoisyOrCertain(scores: seq<real>)
    ensures NoisyOr(scores) == 1.0 <==> exists k :: 0 <= k < |scores| && scores[k] == 1.0
  {
    hide Times;
    if scores != [] {
      var rest := scores[1..];
      NoisyOrCertain(rest);
      TimesZero(1.0 - scores[0], Remaining(rest));
      assert forall k | 0 <= k < |rest| :: rest[k] == scores[k + 1];
      assert forall k | 1 <= k < |scores| :: scores[k] == rest[k - 1];
    }
  }

  // The order of the rules does not matter.
  lemma NoisyOrPermutation(s: seq<real>, t: seq<real>)
    requires multiset(s) == multiset(t)
    ensures NoisyOr(s) == NoisyOr(t)
  {
    RemainingPermutation(s, t);
  }

  lemma {:induction false} RemainingPermutation(s: seq<real>, t: seq<real>)
    requires multiset(s) == multiset(t)
    ensures Remaining(s) == Remaining(t)
  {
    hide Remaining, Times;
    PermutationMembers(s, t);
    if s == [] {
      assert t == [];
    } else {
      var rest := s[1..];
      assert s == [s[0]] + rest;
      assert s[0] in s;
      var k :| 0 <= k < |t| && t[k] == s[0];
      var others := t[..k] + t[k + 1..];
      RemainingHead(s[0], rest);
      RemainingMoveFront(t, k);
      MultisetWithout(t, k);
      assert multiset(s) == multiset([s[0]]) + multiset(rest);
      assert multiset(rest) == multiset(s) - multiset([s[0]]);
      assert multiset(others) == multiset(t) - multiset([s[0]]);
      RemainingPermutation(rest, others);
    }
  }

  lemma RemainingHead(x: real, s: seq<real>)
    ensures Remaining([x] + s) == Times(1.0 - x, Remaining(s))
  {
    assert ([x] + s)[1..] == s;
  }

  lemma RemainingMoveFront(t: seq<real>, k: nat)
    requires k < |t|
    ensures Remaining(t) == Times(1.0 - t[k], Remaining(t[..k] + t[k + 1..]))
  {
    hide Remaining, Times;
    var left, right := t[..k], t[k + 1..];
    assert t == left + ([t[k]] + right);
    RemainingConcat(left, [t[k]] + right);
    RemainingHead(t[k], right);
    RemainingConcat(left, right);
    var a, b, c := Remaining(left), 1.0 - t[k], Remaining(right);
    TimesLaws(a, b, c);
    TimesLaws(b, a, c);
  }

  // ------------------------------------------------------------------ the fused risk

  // ml is None when no active model scored the window.
  datatype Components = Components(behavior: real, rule: real, context: real, ml: Option<real>) {
    ghost predicate Valid() {
      && 0.0 <= behavior <= 1.0 && 0.0 <= rule <= 1.0 && 0.0 <= context <= 1.0
      && (ml.Some? ==> 0.0 <= ml.value <= 1.0)
    }

    // What is stored: every component rounded to four decimals.
    function Rounded(): Components {
      Components(Round4(behavior), Round4(rule), Round4(context),
                 if ml.Some? then Some(Round4(ml.value)) else None)
    }

    ghost predicate AllOnGrid() {
      OnGrid(behavior) && OnGrid(rule) && OnGrid(context) && (ml.Some? ==> OnGrid(ml.value))
    }
  }

  function WeightedSum(c: Components): real {
    if c.ml.Some? then 0.45 * c.behavior + 0.30 * c.rule + 0.15 * c.context + 0.10 * c.ml.value
    else 0.50 * c.behavior + 0.35 * c.rule + 0.15 * c.context
  }

  function FusedRisk(c: Components): real {
    var sum := WeightedSum(c);
    if sum < 1.0 then sum else 1.0
  }

  lemma FusedRiskRange(c: Components)
    requires c.Valid()
    ensures 0.0 <= FusedRisk(c) <= 1.0 && FusedRisk(c) == WeightedSum(c)
  {
  }

  // Fusing the rounded components moves the result by at most half a unit, as the weights sum to one.
  lemma RoundedFusionNearby(c: Components)
    requires c.Valid()
    ensures c.Rounded().Valid()
    ensures -0.00005 <= FusedRisk(c.Rounded()) - FusedRisk(c) <= 0.00005
  {
    Round4Units(c.behavior);
    Round4Units(c.rule);
    Round4Units(c.context);
    Round4Range(c.behavior);
    Round4Range(c.rule);
    Round4Range(c.context);
    if c.ml.Some? {
      Round4Units(c.ml.value);
      Round4Range(c.ml.value);
    }
    var r := c.Rounded();
    hide Round4;
    FusedRiskRange(c);
    FusedRiskRange(r);
  }

  // The parts of a finding that the explainer checks.
  datatype Finding = Finding(riskScore: real, stored: Components, rules: seq<RuleResult>)

  ghost predicate RulesValid(rules: seq<RuleResult>) {
    forall k | 0 <= k < |rules| :: 0.0 <= rules[k].score <= 1.0
  }

  lemma {:induction false} MatchedAreScores(rules: seq<RuleResult>)
    requires RulesValid(rules)
    ensures Scores(MatchedScores(rules))
  {
    if rules != [] {
      assert forall k | 0 <= k < |rules| - 1 :: rules[1..][k] == rules[k + 1];
      MatchedAreScores(rules[1..]);
    }
  }

  // The unrounded components a detection run computed.
  function Evaluated(behavior: real, rules: seq<RuleResult>, context: real, ml: Option<real>): Components {
    Components(behavior, NoisyOr(MatchedScores(rules)), context, ml)
  }

  // The finding a detection run stores for given inputs.
  function Detected(behavior: real, rules: seq<RuleResult>, context: real, ml: Option<real>): Finding {
    var exact := Evaluated(behavior, rules, context, ml);
    Finding(Round4(FusedRisk(exact)), exact.Rounded(), rules)
  }

  method MakeFinding(behavior: real, rules: seq<RuleResult>, context: real, ml: Option<real>)
    returns (f: Finding)
    ensures f == Detected(behavior, rules, context, ml)
  {
    var rule := FuseRules(rules);
    var exact := Components(behavior, rule, context, ml);
    f := Finding(Round4(FusedRisk(exact)), exact.Rounded(), rules);
  }

  // The context score from the privileged flag, the user count and the execution count.
  function ContextScore(privileged: bool, uniqueUids: int, executions: int): real {
    var score := (if privileged then 0.60 else 0.0) + (if uniqueUids >= 2 then 0.20 else 0.0)
                 + (if executions >= 10 then 0.20 else 0.0);
    if score < 1.0 then score else 1.0
  }
}
