// The activation gate and threshold calibration of ml/evaluation.py.
module Evaluation {
  import opened Counting
  import opened Options
  import opened Reals
  import opened Sorting

  const MAX_NORMAL_FPR := 0.05
  const MIN_NORMAL_HOLDOUT_WINDOWS := 60
  const Z := 1.644854

  // ------------------------------------------------------------------ the Wilson bound

  // The observed rate, and z^2 / n.
  function Rate(k: nat, n: nat): real
    requires n > 0
  {
    k as real / n as real
  }

  function Spread(n: nat): real
    requires n > 0
  {
    Z * Z / n as real
  }

  // The argument of the square root.
  function Radicand(k: nat, n: nat): real
    requires n > 0
  {
    var p := Rate(k, n);
    (p * (1.0 - p) + Z * Z / (4.0 * n as real)) / n as real
  }

  // root stands for math.sqrt(Radicand(k, n)).
  ghost predicate IsRoot(root: real, k: nat, n: nat)
    requires n > 0
  {
    0.0 <= root && root * root == Radicand(k, n)
  }

  function WilsonUpperBound(k: nat, n: nat, root: real): Option<real> {
    if n == 0 then None
    else
      var p := Rate(k, n);
      var denominator := 1.0 + Spread(n);
      var centre := (p + Z * Z / (2.0 * n as real)) / denominator;
      var radius := Z * root / denominator;
      Some(if centre + radius < 1.0 then centre + radius else 1.0)
  }

  // The quadratic both Wilson limits solve, as left minus right side of (p - u)^2 = w u (1 - u).
  function Excess(p: real, w: real, u: real): real {
    (p - u) * (p - u) - w * (u * (1.0 - u))
  }

  // Completing the square: with s the scaled root, the excess vanishes where (1 + w) u is s away
  // from p + w / 2.
  lemma CompleteSquare(p: real, w: real, s: real, u: real)
    requires w > 0.0 && s * s == w * (p * (1.0 - p)) + w * w / 4.0
    ensures var c := (1.0 + w) * u - (p + w / 2.0);
            (1.0 + w) * Excess(p, w, u) == c * c - s * s
  {
    var c := (1.0 + w) * u - (p + w / 2.0);
    assert c * c == (1.0 + w) * u * ((1.0 + w) * u) - 2.0 * ((1.0 + w) * u * (p + w / 2.0))
                      + (p + w / 2.0) * (p + w / 2.0);
  }

  lemma SquareOrder(c: real, s: real)
    requires 0.0 <= s
    ensures c >= s <==> c >= 0.0 && c * c >= s * s
  {
    if 0.0 <= c < s {
      ProductPositive(s - c, s + c);
      assert (s - c) * (s + c) == s * s - c * c;
    } else if s < c {
      ProductPositive(c - s, c + s);
      assert (c - s) * (c + s) == c * c - s * s;
    }
  }

  // Where the larger solution lies relative to v, decided by the sign of the excess at v.
  lemma SolutionAtMost(p: real, w: real, s: real, u: real, v: real)
    requires w > 0.0 && 0.0 <= s && s * s == w * (p * (1.0 - p)) + w * w / 4.0
    requires (1.0 + w) * u == p + w / 2.0 + s
    ensures u <= v <==> (1.0 + w) * v >= p + w / 2.0 && Excess(p, w, v) >= 0.0
  {
    hide Excess;
    var c := (1.0 + w) * v - (p + w / 2.0);
    CompleteSquare(p, w, s, v);
    SquareOrder(c, s);
    ProductOrder(u, v, 1.0 + w);
    assert u * (1.0 + w) == (1.0 + w) * u && v * (1.0 + w) == (1.0 + w) * v;
    ProductOrder(0.0, Excess(p, w, v), 1.0 + w);
    assert Excess(p, w, v) * (1.0 + w) == (1.0 + w) * Excess(p, w, v);
  }

  // The scaled quantities behind a bound: p = k / n, w = z^2 / n, s = z * root.
  lemma ScaledRoot(k: nat, n: nat, root: real)
    requires 0 < n && k <= n && IsRoot(root, k, n)
    ensures var p, w, s := Rate(k, n), Spread(n), Z * root;
            && 0.0 <= p <= 1.0 && w > 0.0 && 0.0 <= s
            && s * s == w * (p * (1.0 - p)) + w * w / 4.0
  {
    var p, m := Rate(k, n), n as real;
    QuotientOrder(0.0, k as real, m);
    QuotientOrder(k as real, m, m);
    QuotientSelf(m);
    ScaleRoot(p, m, root);
  }

  lemma ScaleRoot(p: real, m: real, root: real)
    requires m > 0.0 && root * root == (p * (1.0 - p) + Z * Z / (4.0 * m)) / m
    ensures var w, s := Z * Z / m, Z * root;
            w > 0.0 && s * s == w * (p * (1.0 - p)) + w * w / 4.0
  {
    var w, q := Z * Z / m, p * (1.0 - p);
    assert w * m == Z * Z;
    assert (Z * Z / (4.0 * m)) * (4.0 * m) == Z * Z;
    var r := (q + Z * Z / (4.0 * m)) / m;
    assert r * m == q + Z * Z / (4.0 * m);
  }

  // The bound is the larger root of n (k/n - u)^2 = z^2 u (1 - u), divided by n: it is a root, no
  // root exceeds it, it bounds the observed rate, and it never exceeds one.
  lemma WilsonIsLargerRoot(k: nat, n: nat, root: real)
    requires 0 < n && k <= n && IsRoot(root, k, n)
    ensures var p, w, u := Rate(k, n), Spread(n), WilsonUpperBound(k, n, root).value;
            && Excess(p, w, u) == 0.0
            && (forall v: real :: Excess(p, w, v) == 0.0 ==> v <= u)
            && p <= u <= 1.0
  {
    hide Rate, Spread, Excess, WilsonUpperBound, IsRoot, UnclippedBound;
    ScaledRoot(k, n, root);
    BoundFormula(k, n, root);
    BoundFacts(Rate(k, n), Spread(n), Z * root, UnclippedBound(Rate(k, n), Spread(n), Z * root));
  }

  function UnclippedBound(p: real, w: real, s: real): (u: real)
    requires w > 0.0
    ensures (1.0 + w) * u == p + w / 2.0 + s
  {
    Quotient(p + w / 2.0 + s, 1.0 + w);
    (p + w / 2.0 + s) / (1.0 + w)
  }

  // Unclipped, the bound is (p + w / 2 + s) / (1 + w).
  lemma BoundFormula(k: nat, n: nat, root: real)
    requires n > 0
    ensures var p, w, s := Rate(k, n), Spread(n), Z * root;
            w > 0.0
            && var u := UnclippedBound(p, w, s);
               WilsonUpperBound(k, n, root) == Some(if u < 1.0 then u else 1.0)
  {
    var p, w, s, m := Rate(k, n), Spread(n), Z * root, n as real;
    ZScalePositive(m);
    HalfScale(m);
    AddQuotients(p + w / 2.0, s, 1.0 + w);
  }

  lemma ZScalePositive(m: real)
    requires m > 0.0
    ensures Z * Z / m > 0.0
  {
    Quotient(Z * Z, m);
    if Z * Z / m <= 0.0 {
      ProductOrder(Z * Z / m, 0.0, m);
    }
  }

  lemma HalfScale(m: real)
    requires m > 0.0
    ensures Z * Z / (2.0 * m) == Z * Z / m / 2.0
  {
    Quotient(Z * Z, 2.0 * m);
    Quotient(Z * Z, m);
    var a, b := Z * Z / (2.0 * m), Z * Z / m / 2.0;
    assert a * (2.0 * m) == b * (2.0 * m);
    ProductOrder(a, b, 2.0 * m);
    ProductOrder(b, a, 2.0 * m);
  }

  lemma AddQuotients(a: real, b: real, d: real)
    requires d > 0.0
    ensures a / d + b / d == (a + b) / d
  {
    Quotient(a, d);
    Quotient(b, d);
    Quotient(a + b, d);
    var x, y := a / d + b / d, (a + b) / d;
    assert x * d == y * d;
    ProductOrder(x, y, d);
    ProductOrder(y, x, d);
  }

  lemma BoundFacts(p: real, w: real, s: real, u: real)
    requires 0.0 <= p <= 1.0 && w > 0.0 && 0.0 <= s && s * s == w * (p * (1.0 - p)) + w * w / 4.0
    requires (1.0 + w) * u == p + w / 2.0 + s
    ensures Excess(p, w, u) == 0.0
    ensures forall v: real :: Excess(p, w, v) == 0.0 ==> v <= u
    ensures p <= u <= 1.0
  {
    CompleteSquare(p, w, s, u);
    assert (1.0 + w) * Excess(p, w, u) == 0.0;
    SolutionAtMost(p, w, s, u, 1.0);
    AtRate(p, w, s, u);
    forall v: real | Excess(p, w, v) == 0.0
      ensures v <= u
    {
      RootBelow(p, w, s, u, v);
    }
  }

  lemma AtRate(p: real, w: real, s: real, u: real)
    requires 0.0 <= p <= 1.0 && w > 0.0 && 0.0 <= s && s * s == w * (p * (1.0 - p)) + w * w / 4.0
    requires (1.0 + w) * u == p + w / 2.0 + s
    ensures p <= u
  {
    if p < 1.0 {
      if p > 0.0 {
        ProductPositive(p, 1.0 - p);
        ProductPositive(w, p * (1.0 - p));
        assert Excess(p, w, p) < 0.0;
      } else {
        assert (1.0 + w) * p == 0.0;
      }
      SolutionAtMost(p, w, s, u, p);
    } else {
      SquareOrder(s, w / 2.0);
      ProductOrder(1.0, u, 1.0 + w);
      assert u * (1.0 + w) == (1.0 + w) * u;
    }
  }

  lemma RootBelow(p: real, w: real, s: real, u: real, v: real)
    requires w > 0.0 && 0.0 <= s && s * s == w * (p * (1.0 - p)) + w * w / 4.0
    requires (1.0 + w) * u == p + w / 2.0 + s
    requires Excess(p, w, v) == 0.0
    ensures v <= u
  {
    var c := (1.0 + w) * v - (p + w / 2.0);
    CompleteSquare(p, w, s, v);
    hide Excess;
    assert (1.0 + w) * 0.0 == 0.0;
    if c > s {
      ProductPositive(c - s, c + s);
      assert (c - s) * (c + s) == c * c - s * s;
    }
    ProductOrder(v, u, 1.0 + w);
    assert v * (1.0 + w) == (1.0 + w) * v && u * (1.0 + w) == (1.0 + w) * u;
  }

  // ------------------------------------------------------------------ the gate

  // The closed form of the gate: enough windows, and false positives far enough below 5% of them.
  predicate Eligible(k: nat, n: nat) {
    n >= MIN_NORMAL_HOLDOUT_WINDOWS && FewEnough(k, n)
  }

  predicate FewEnough(k: nat, n: nat) {
    var margin := n as real / 20.0 - k as real;
    margin >= 0.0 && margin * margin >= Z * Z * 0.0475 * n as real
  }

  lemma BudgetMargin(p: real, w: real)
    requires 0.0 <= p && w > 0.0
    ensures (1.0 + w) * 0.05 >= p + w / 2.0 && Excess(p, w, 0.05) >= 0.0
            <==> p <= 0.05 && (0.05 - p) * (0.05 - p) >= w * 0.0475
  {
    var d := 0.05 - p;
    assert Excess(p, w, 0.05) == d * d - w * 0.0475;
    if 0.0 <= d && d * d >= w * 0.0475 {
      ProductOrder(d, 0.05, 1.0);
      SquareBelow(d);
    }
  }

  lemma SquareBelow(d: real)
    requires 0.0 <= d <= 0.05
    ensures d * d <= d * 0.05
  {
    if d > 0.0 {
      ProductOrder(d, 0.05, d);
    }
  }

  lemma ScaleMargin(k: nat, n: nat)
    requires n > 0
    ensures var p, w := Rate(k, n), Spread(n);
            p <= 0.05 && (0.05 - p) * (0.05 - p) >= w * 0.0475 <==> FewEnough(k, n)
  {
    var m := n as real;
    var p, w := k as real / m, Z * Z / m;
    Quotient(k as real, m);
    Quotient(Z * Z, m);
    ScaleMarginBy(p, w, m, k as real);
  }

  lemma ScaleMarginBy(p: real, w: real, m: real, x: real)
    requires m > 0.0 && p * m == x && w * m == Z * Z
    ensures p <= 0.05 && (0.05 - p) * (0.05 - p) >= w * 0.0475
            <==> m / 20.0 - x >= 0.0 && (m / 20.0 - x) * (m / 20.0 - x) >= Z * Z * 0.0475 * m
  {
    var d := 0.05 - p;
    assert d * m == m / 20.0 - x;
    ProductOrder(0.0, d, m);
    ProductPositive(m, m);
    ProductOrder(w * 0.0475, d * d, m * m);
    SquareProduct(d, m);
    assert (w * 0.0475) * (m * m) == (w * m) * (0.0475 * m);
  }

  lemma SquareProduct(d: real, m: real)
    ensures (d * d) * (m * m) == (d * m) * (d * m)
  {
  }

  // The bound clears the budget exactly in the closed form, and then so does the observed rate.
  lemma BoundWithinBudget(k: nat, n: nat, root: real)
    requires 0 < n && k <= n && IsRoot(root, k, n)
    ensures WilsonUpperBound(k, n, root).value <= MAX_NORMAL_FPR <==> FewEnough(k, n)
    ensures WilsonUpperBound(k, n, root).value <= MAX_NORMAL_FPR ==> Rate(k, n) <= MAX_NORMAL_FPR
  {
    hide Rate, Spread, WilsonUpperBound, IsRoot, FewEnough, Excess, UnclippedBound;
    ScaledRoot(k, n, root);
    BoundFormula(k, n, root);
    WilsonIsLargerRoot(k, n, root);
    ScaleMargin(k, n);
    GateOnScaled(Rate(k, n), Spread(n), Z * root);
  }

  lemma GateOnScaled(p: real, w: real, s: real)
    requires 0.0 <= p && w > 0.0 && 0.0 <= s && s * s == w * (p * (1.0 - p)) + w * w / 4.0
    ensures UnclippedBound(p, w, s) <= 0.05 <==> p <= 0.05 && (0.05 - p) * (0.05 - p) >= w * 0.0475
  {
    hide Excess, UnclippedBound;
    BudgetMargin(p, w);
    SolutionAtMost(p, w, s, UnclippedBound(p, w, s), 0.05);
  }

  datatype Reason = TooFewWindows | RateTooHigh | BoundTooHigh
  datatype Acceptance = Acceptance(eligible: bool, upperBound: Option<real>, reasons: seq<Reason>)

  method NormalFprAcceptance(k: nat, n: nat, root: real) returns (a: Acceptance)
    requires k <= n
    requires n > 0 ==> IsRoot(root, k, n)
    ensures a.eligible <==> Eligible(k, n)
    ensures a.upperBound == WilsonUpperBound(k, n, root)
    ensures a.eligible <==> a.reasons == []
    ensures TooFewWindows in a.reasons <==> n < MIN_NORMAL_HOLDOUT_WINDOWS
    ensures RateTooHigh in a.reasons <==> n == 0 || Rate(k, n) > MAX_NORMAL_FPR
    ensures BoundTooHigh in a.reasons <==> n == 0 || !FewEnough(k, n)
    ensures RateTooHigh in a.reasons ==> BoundTooHigh in a.reasons
  {
    if n > 0 {
      BoundWithinBudget(k, n, root);
    }
    hide FewEnough, WilsonUpperBound, IsRoot;
    var upperBound := WilsonUpperBound(k, n, root);
    BoundDefined(k, n, root);
    var reasons: seq<Reason> := [];
    if n < MIN_NORMAL_HOLDOUT_WINDOWS {
      reasons := reasons + [TooFewWindows];
    }
    if n == 0 || Rate(k, n) > MAX_NORMAL_FPR {
      reasons := reasons + [RateTooHigh];
    }
    if upperBound.None? || upperBound.value > MAX_NORMAL_FPR {
      reasons := reasons + [BoundTooHigh];
    }
    a := Acceptance(reasons == [], upperBound, reasons);
  }

  lemma BoundDefined(k: nat, n: nat, root: real)
    ensures WilsonUpperBound(k, n, root).None? <==> n == 0
  {
  }

  // One more window, or one fewer false positive, keeps an eligible model eligible.
  lemma OneMoreWindow(k: nat, n: nat)
    requires Eligible(k, n)
    ensures Eligible(k, n + 1)
  {
    var margin, m := n as real / 20.0 - k as real, n as real;
    assert 0.128 < Z * Z * 0.0475 < 0.13;
    assert (n + 1) as real / 20.0 - k as real == margin + 0.05;
    WiderMargin(margin, m, Z * Z * 0.0475);
    assert (n + 1) as real == m + 1.0;
  }

  lemma WiderMargin(margin: real, m: real, c: real)
    requires margin >= 0.0 && m >= 60.0 && 0.128 < c < 0.13 && margin * margin >= c * m
    ensures (margin + 0.05) * (margin + 0.05) >= c * (m + 1.0)
  {
    if margin < 2.0 {
      SquareOrder(2.0, margin);
      ProductOrder(60.0, m, c);
    }
    assert (margin + 0.05) * (margin + 0.05) == margin * margin + 0.1 * margin + 0.0025;
    assert c * (m + 1.0) == c * m + c;
  }

  lemma {:induction false} EligibilityMonotone(k: nat, n: nat, k': nat, n': nat)
    requires Eligible(k, n) && k' <= k && n <= n'
    ensures Eligible(k', n')
    decreases n'
  {
    if n < n' {
      EligibilityMonotone(k, n, k', n' - 1);
      OneMoreWindow(k', n' - 1);
    } else {
      var margin, wider := n as real / 20.0 - k as real, n as real / 20.0 - k' as real;
      SquareGrows(margin, wider);
    }
  }

  lemma SquareGrows(a: real, b: real)
    requires 0.0 <= a <= b
    ensures a * a <= b * b
  {
    SquareOrder(b, a);
  }

  // A clean record needs 60 windows, one false positive 87.
  lemma SmallestHoldouts(n: nat)
    ensures Eligible(0, n) <==> n >= 60
    ensures Eligible(1, n) <==> n >= 87
  {
    assert Eligible(0, 60) && Eligible(1, 87) && !Eligible(1, 86);
    if n >= 60 {
      EligibilityMonotone(0, 60, 0, n);
    }
    if n >= 87 {
      EligibilityMonotone(1, 87, 1, n);
    } else if Eligible(1, n) {
      EligibilityMonotone(1, n, 1, 86);
    }
  }

  // ------------------------------------------------------------------ calibration

  // A model flags the scores at or below its threshold.
  function Flagged(scores: seq<real>, threshold: real): nat {
    CountAtMost(scores, threshold)
  }

  // Every score the threshold t flags, the chosen one flags too.
  ghost predicate FlagsAtLeast(scores: seq<real>, chosen: real, t: real) {
    forall a | 0 <= a < |scores| && scores[a] <= t :: scores[a] <= chosen
  }

  datatype CalibrationError = TargetOutOfRange | NoWindows
  datatype Calibration = Calibration(threshold: real, falsePositives: nat, quantile: real)

  function Budget(target: real, observations: nat): int {
    (target * observations as real).Floor
  }

  // No larger in-budget threshold was skipped: values from index on are not last occurrences
  // within budget.
  ghost predicate NoneFits(scores: seq<real>, from: nat, budget: int) {
    forall a | from <= a < |scores| && (a + 1 == |scores| || scores[a] != scores[a + 1]) :: a + 1 > budget
  }

  lemma Unfitting(scores: seq<real>, from: nat, budget: int, t: real)
    requires Ascending(scores) && NoneFits(scores, from, budget)
    requires Flagged(scores, t) <= budget
    ensures Flagged(scores, t) <= from
    ensures forall a | from <= a < |scores| :: scores[a] > t
  {
    var c := Flagged(scores, t);
    CountIsIndex(scores, t);
    hide Flagged;
    if c > 0 {
      var a := c - 1;
      assert scores[a] <= t;
      assert c < |scores| ==> scores[c] > t;
      assert a + 1 == |scores| || scores[a] != scores[a + 1];
      assert a < from;
    }
  }

  // In ascending order the flagged scores are a prefix.
  lemma {:induction false} CountIsIndex(scores: seq<real>, t: real)
    requires Ascending(scores)
    ensures var c := Flagged(scores, t);
            && (forall a | 0 <= a < c :: scores[a] <= t)
            && (forall a | c <= a < |scores| :: scores[a] > t)
  {
    if scores != [] {
      var rest := scores[1..];
      assert forall a | 0 <= a < |rest| :: rest[a] == scores[a + 1];
      CountIsIndex(rest, t);
      var c := Flagged(rest, t);
      assert c > 0 ==> scores[1] == rest[0] <= t;
      assert Flagged(scores, t) == if scores[0] <= t then c + 1 else c;
      assert scores[0] > t ==> c == 0;
      hide Flagged;
      forall a | 0 <= a < |scores|
        ensures scores[a] <= t <==> scores[0] <= t && a < c + 1
      {
        assert a > 0 ==> scores[a] == rest[a - 1];
      }
    }
  }

  // The downward scan over the ascending scores.
  method SelectThreshold(scores: seq<real>, budget: int, below: real) returns (threshold: real)
    requires scores != [] && Ascending(scores) && below < scores[0] && budget >= 0
    ensures Flagged(scores, threshold) <= budget
    ensures forall t: real | Flagged(scores, t) <= budget :: FlagsAtLeast(scores, threshold, t)
    ensures (exists a :: 0 <= a < |scores| && threshold == scores[a])
            || (threshold == below && Flagged(scores, threshold) == 0)
  {
    hide Flagged, FlagsAtLeast;
    var index := |scores|;
    while index > 0
      invariant 0 <= index <= |scores|
      invariant NoneFits(scores, index, budget)
    {
      index := index - 1;
      if index + 1 < |scores| && scores[index + 1] == scores[index] {
        continue;
      }
      if index + 1 <= budget {
        Fitting(scores, index, budget);
        return scores[index];
      }
    }
    NothingFits(scores, budget, below);
    return below;
  }

  // justBelow stands for math.nextafter towards minus infinity.
  method CalibrateThreshold(rawScores: seq<real>, target: real, justBelow: real -> real)
    returns (r: Result<Calibration, CalibrationError>)
    requires forall x :: justBelow(x) < x
    ensures r == Err(TargetOutOfRange) <==> !(0.0 < target < 1.0)
    ensures r == Err(NoWindows) <==> 0.0 < target < 1.0 && rawScores == []
    ensures r.Ok? ==> Calibrated(rawScores, target, r.value)
  {
    if !(0.0 < target < 1.0) {
      return Err(TargetOutOfRange);
    }
    if rawScores == [] {
      return Err(NoWindows);
    }
    var scores := Sorted(rawScores);
    var observations := |scores|;
    var budget := Budget(target, observations);
    ProductPositive(target, observations as real);
    var threshold := SelectThreshold(scores, budget, justBelow(scores[0]));
    var flagged := Flagged(scores, threshold);
    r := Ok(Calibration(threshold, flagged, Rate(flagged, observations)));
    SelectionCalibrates(rawScores, target, threshold);
  }

  // A number of flagged scores that the target rate allows.
  predicate Allowed(flagged: nat, target: real, observations: nat) {
    flagged as real <= target * observations as real
  }

  // q is flagged / observations.
  predicate IsShare(q: real, flagged: nat, observations: nat) {
    q * observations as real == flagged as real
  }

  // What calibration promises: the reported counts are true of the scores, the target is met, no
  // threshold that meets the target flags a score this one does not, and if no observed score
  // meets it nothing is flagged.
  ghost predicate Calibrated(rawScores: seq<real>, target: real, c: Calibration) {
    var n := |rawScores|;
    && rawScores != []
    && c.falsePositives == Flagged(rawScores, c.threshold) && Allowed(c.falsePositives, target, n)
    && IsShare(c.quantile, c.falsePositives, n) && c.quantile <= target
    && (forall t: real | Allowed(Flagged(rawScores, t), target, n) :: FlagsAtLeast(rawScores, c.threshold, t))
    && ((forall a | 0 <= a < n :: !Allowed(Flagged(rawScores, rawScores[a]), target, n)) ==> c.falsePositives == 0)
  }

  // The floor of the allowance loses nothing, as counts are whole.
  lemma BudgetAllows(flagged: nat, target: real, observations: nat)
    ensures flagged <= Budget(target, observations) <==> Allowed(flagged, target, observations)
  {
    var allowance := target * observations as real;
    assert flagged as real <= allowance <==> flagged <= allowance.Floor;
  }

  lemma SelectionCalibrates(rawScores: seq<real>, target: real, threshold: real)
    requires rawScores != [] && 0.0 < target < 1.0
    requires var scores, budget := Sorted(rawScores), Budget(target, |rawScores|);
             && Flagged(scores, threshold) <= budget
             && (forall t: real | Flagged(scores, t) <= budget :: FlagsAtLeast(scores, threshold, t))
             && ((exists a :: 0 <= a < |scores| && threshold == scores[a]) || Flagged(scores, threshold) == 0)
    ensures var flagged := Flagged(Sorted(rawScores), threshold);
            Calibrated(rawScores, target, Calibration(threshold, flagged, Rate(flagged, |rawScores|)))
  {
    var scores, n := Sorted(rawScores), |rawScores|;
    SortedFlags(rawScores);
    PermutationMembers(scores, rawScores);
    WithinTarget(Flagged(scores, threshold), target, n);
    forall flagged: nat
      ensures flagged <= Budget(target, n) <==> Allowed(flagged, target, n)
    {
      BudgetAllows(flagged, target, n);
    }
    hide Sorted, Flagged, FlagsAtLeast, Budget, Rate, Allowed, IsShare;
    if a :| 0 <= a < |scores| && threshold == scores[a] {
      assert scores[a] in rawScores;
      var b :| 0 <= b < |rawScores| && rawScores[b] == threshold;
    }
  }

  lemma SortedFlags(rawScores: seq<real>)
    ensures forall t: real :: Flagged(Sorted(rawScores), t) == Flagged(rawScores, t)
    ensures forall chosen: real, t: real ::
              FlagsAtLeast(Sorted(rawScores), chosen, t) ==> FlagsAtLeast(rawScores, chosen, t)
  {
    var scores := Sorted(rawScores);
    hide Sorted;
    forall t: real
      ensures Flagged(scores, t) == Flagged(rawScores, t)
    {
      CountPermutation(scores, rawScores, t);
    }
    PermutationMembers(scores, rawScores);
    forall chosen: real, t: real | FlagsAtLeast(scores, chosen, t)
      ensures FlagsAtLeast(rawScores, chosen, t)
    {
      forall a | 0 <= a < |rawScores| && rawScores[a] <= t
        ensures rawScores[a] <= chosen
      {
        assert rawScores[a] in scores;
        var b :| 0 <= b < |scores| && scores[b] == rawScores[a];
      }
    }
  }

  // The last in-budget value, met going down, flags exactly its prefix and at least what any
  // in-budget threshold flags.
  lemma Fitting(scores: seq<real>, index: nat, budget: int)
    requires Ascending(scores) && index < |scores|
    requires index + 1 == |scores| || scores[index + 1] != scores[index]
    requires index + 1 <= budget && NoneFits(scores, index + 1, budget)
    ensures Flagged(scores, scores[index]) == index + 1
    ensures forall t: real | Flagged(scores, t) <= budget :: FlagsAtLeast(scores, scores[index], t)
  {
    CountInSorted(scores, scores[index], index + 1);
    forall t: real | Flagged(scores, t) <= budget
      ensures FlagsAtLeast(scores, scores[index], t)
    {
      Unfitting(scores, index + 1, budget, t);
    }
  }

  lemma NothingFits(scores: seq<real>, budget: int, below: real)
    requires scores != [] && Ascending(scores) && NoneFits(scores, 0, budget) && below < scores[0]
    ensures Flagged(scores, below) == 0
    ensures forall t: real | Flagged(scores, t) <= budget :: Flagged(scores, t) == 0 && FlagsAtLeast(scores, below, t)
  {
    CountInSorted(scores, below, 0);
    forall t: real | Flagged(scores, t) <= budget
      ensures Flagged(scores, t) == 0 && FlagsAtLeast(scores, below, t)
    {
      Unfitting(scores, 0, budget, t);
    }
  }

  lemma WithinTarget(flagged: nat, target: real, observations: nat)
    requires observations > 0 && 0.0 < target
    requires flagged <= Budget(target, observations)
    ensures Rate(flagged, observations) <= target
    ensures IsShare(Rate(flagged, observations), flagged, observations)
  {
    ProductPositive(target, observations as real);
    Quotient(flagged as real, observations as real);
    ProductOrder(flagged as real / observations as real, target, observations as real);
  }
}
