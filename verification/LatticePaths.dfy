// Monotone lattice paths, the null model of the exact two-sample KS test (ml/drift.py).
module LatticePaths {
  import opened Reals
  import opened Sets

  // A path lists its steps: true advances the reference count i, false the comparison count j.
  type Path = seq<bool>

  // A band says which vertices (i, j) a path may visit.
  type Band = (nat, nat) -> bool

  function References(p: Path): (i: nat)
    ensures i <= |p|
  {
    if p == [] then 0 else References(p[..|p| - 1]) + if p[|p| - 1] then 1 else 0
  }

  function Comparisons(p: Path): nat {
    |p| - References(p)
  }

  function Abs(x: int): nat {
    if x < 0 then -x else x
  }

  function Max(x: int, y: int): int {
    if x < y then y else x
  }

  // The ECDF difference at the vertex (i, j), times n * m.
  function Deviation(i: nat, j: nat, n: nat, m: nat): nat {
    Abs(i * m - j * n)
  }

  function Everywhere(): Band {
    (i: nat, j: nat) => true
  }

  function StrictBand(n: nat, m: nat, s: int): Band {
    (i: nat, j: nat) => Deviation(i, j, n, m) < s
  }

  // Every vertex of p, the origin and the end included, lies in the band.
  ghost predicate StaysIn(p: Path, band: Band) {
    forall k | 0 <= k <= |p| :: band(References(p[..k]), Comparisons(p[..k]))
  }

  // The paths from the origin to (i, j) inside the band, built from their last step.
  ghost function PathsTo(band: Band, i: nat, j: nat): set<Path> {
    if !band(i, j) then {}
    else if i == 0 && j == 0 then {[]}
    else (if i > 0 then Extend(PathsTo(band, i - 1, j), true) else {})
         + (if j > 0 then Extend(PathsTo(band, i, j - 1), false) else {})
  }

  ghost function Extend(paths: set<Path>, step: bool): set<Path> {
    set p | p in paths :: p + [step]
  }

  ghost function AllPaths(n: nat, m: nat): set<Path> {
    PathsTo(Everywhere(), n, m)
  }

  // PathsTo is what its name says: the paths that end at (i, j) and never leave the band.
  lemma PathsToMembers(band: Band, i: nat, j: nat, p: Path)
    ensures p in PathsTo(band, i, j) <==> References(p) == i && Comparisons(p) == j && StaysIn(p, band)
  {
    if p in PathsTo(band, i, j) {
      PathsToSound(band, i, j, p);
    }
    if References(p) == i && Comparisons(p) == j && StaysIn(p, band) {
      PathsToComplete(band, i, j, p);
    }
  }

  lemma {:induction false} PathsToSound(band: Band, i: nat, j: nat, p: Path)
    requires p in PathsTo(band, i, j)
    ensures References(p) == i && Comparisons(p) == j && StaysIn(p, band)
    decreases i + j
  {
    if i == 0 && j == 0 {
    } else {
      LastStep(band, i, j, p);
      var q, step := p[..|p| - 1], p[|p| - 1];
      hide StaysIn, PathsTo;
      if step {
        PathsToSound(band, i - 1, j, q);
      } else {
        PathsToSound(band, i, j - 1, q);
      }
      assert p == q + [step];
      StaysInExtends(q, step, band);
    }
  }

  lemma LastStep(band: Band, i: nat, j: nat, p: Path)
    requires i + j > 0
    requires p in PathsTo(band, i, j)
    ensures band(i, j) && p != []
    ensures p[|p| - 1] ==> i > 0 && p[..|p| - 1] in PathsTo(band, i - 1, j)
    ensures !p[|p| - 1] ==> j > 0 && p[..|p| - 1] in PathsTo(band, i, j - 1)
  {
    if i > 0 && p in Extend(PathsTo(band, i - 1, j), true) {
      var q :| q in PathsTo(band, i - 1, j) && p == q + [true];
      assert p[..|p| - 1] == q;
    } else {
      var q :| q in PathsTo(band, i, j - 1) && p == q + [false];
      assert p[..|p| - 1] == q;
    }
  }

  lemma {:induction false} PathsToComplete(band: Band, i: nat, j: nat, p: Path)
    requires References(p) == i && Comparisons(p) == j && StaysIn(p, band)
    ensures p in PathsTo(band, i, j)
    decreases |p|
  {
    assert p[..|p|] == p;
    if p != [] {
      var q, step := p[..|p| - 1], p[|p| - 1];
      StaysInPrefix(p, band);
      if step {
        PathsToComplete(band, i - 1, j, q);
      } else {
        PathsToComplete(band, i, j - 1, q);
      }
      AddStep(band, i, j, q, step);
      assert p == q + [step];
    }
  }

  lemma StaysInPrefix(p: Path, band: Band)
    requires p != [] && StaysIn(p, band)
    ensures StaysIn(p[..|p| - 1], band)
  {
    var q := p[..|p| - 1];
    assert forall k | 0 <= k <= |q| :: p[..k] == q[..k];
  }

  lemma AddStep(band: Band, i: nat, j: nat, q: Path, step: bool)
    requires band(i, j)
    requires step ==> i > 0 && q in PathsTo(band, i - 1, j)
    requires !step ==> j > 0 && q in PathsTo(band, i, j - 1)
    ensures q + [step] in PathsTo(band, i, j)
  {
    if step {
      assert q + [step] in Extend(PathsTo(band, i - 1, j), true);
    } else {
      assert q + [step] in Extend(PathsTo(band, i, j - 1), false);
    }
  }

  lemma StaysInExtends(q: Path, step: bool, band: Band)
    requires StaysIn(q, band)
    requires band(References(q + [step]), Comparisons(q + [step]))
    ensures StaysIn(q + [step], band)
  {
    var p := q + [step];
    forall k | 0 <= k <= |p|
      ensures band(References(p[..k]), Comparisons(p[..k]))
    {
      if k <= |q| {
        assert p[..k] == q[..k];
      } else {
        assert p[..k] == p;
      }
    }
  }

  // The recurrence the rolling row evaluates: a vertex is entered from its left or from below.
  lemma PathCountRecurrence(band: Band, i: nat, j: nat)
    ensures |PathsTo(band, i, j)| ==
            if !band(i, j) then 0
            else if i == 0 && j == 0 then 1
            else (if i > 0 then |PathsTo(band, i - 1, j)| else 0)
                 + (if j > 0 then |PathsTo(band, i, j - 1)| else 0)
  {
    if band(i, j) && i + j > 0 {
      var left := if i > 0 then Extend(PathsTo(band, i - 1, j), true) else {};
      var below := if j > 0 then Extend(PathsTo(band, i, j - 1), false) else {};
      assert forall p | p in left :: p[|p| - 1];
      assert forall p | p in below :: !p[|p| - 1];
      DisjointUnion(left, below);
      if i > 0 {
        ExtendCount(PathsTo(band, i - 1, j), true);
      }
      if j > 0 {
        ExtendCount(PathsTo(band, i, j - 1), false);
      }
    }
  }

  lemma ExtendCount(paths: set<Path>, step: bool)
    ensures |Extend(paths, step)| == |paths|
  {
    forall x: Path, y: Path | x + [step] == y + [step]
      ensures x == y
    {
      assert (x + [step])[..|x|] == x && (y + [step])[..|y|] == y;
    }
    InjectiveImage(paths, (p: Path) => p + [step], Extend(paths, step));
  }

  // math.comb, by Pascal's rule.
  function Comb(n: nat, k: nat): nat {
    if k == 0 then 1 else if n == 0 then 0 else Comb(n - 1, k - 1) + Comb(n - 1, k)
  }

  lemma {:induction false} CombBeyond(n: nat, k: nat)
    requires k > n
    ensures Comb(n, k) == 0
  {
    if n > 0 {
      CombBeyond(n - 1, k - 1);
      CombBeyond(n - 1, k);
    }
  }

  lemma PathTotalRecurrence(i: nat, j: nat)
    ensures PathTotal(0, 0) == 1
    ensures j > 0 ==> PathTotal(0, j) == PathTotal(0, j - 1)
    ensures i > 0 ==> PathTotal(i, 0) == PathTotal(i - 1, 0)
    ensures i > 0 && j > 0 ==> PathTotal(i, j) == PathTotal(i - 1, j) + PathTotal(i, j - 1)
  {
    PathCountRecurrence(Everywhere(), 0, 0);
    PathCountRecurrence(Everywhere(), 0, j);
    PathCountRecurrence(Everywhere(), i, 0);
    PathCountRecurrence(Everywhere(), i, j);
  }

  ghost function PathTotal(i: nat, j: nat): nat {
    |AllPaths(i, j)|
  }

  // Every ordering of the merged sample is one path: there are C(n + m, n) of them.
  lemma {:induction false} AllPathsCount(i: nat, j: nat)
    ensures PathTotal(i, j) == Comb(i + j, i)
    decreases i + j
  {
    hide PathTotal;
    PathTotalRecurrence(i, j);
    if i == 0 && j == 0 {
    } else if i == 0 {
      AllPathsCount(0, j - 1);
    } else if j == 0 {
      AllPathsCount(i - 1, 0);
      CombBeyond(i - 1, i);
    } else {
      AllPathsCount(i - 1, j);
      AllPathsCount(i, j - 1);
      assert Comb(i + j, i) == Comb(i - 1 + j, i - 1) + Comb(i + (j - 1), i);
    }
  }

  lemma {:induction false} CombPositive(n: nat, k: nat)
    requires k <= n
    ensures Comb(n, k) >= 1
  {
    if k > 0 {
      CombPositive(n - 1, k - 1);
    }
  }

  // The KS statistic of one ordering: the largest deviation at a vertex of its path.
  function PathStatistic(p: Path, n: nat, m: nat): (d: nat) {
    var here := Deviation(References(p), Comparisons(p), n, m);
    if p == [] then here else Max(PathStatistic(p[..|p| - 1], n, m), here)
  }

  lemma {:induction false} StatisticIsMaximum(p: Path, n: nat, m: nat)
    ensures forall k | 0 <= k <= |p| ::
              Deviation(References(p[..k]), Comparisons(p[..k]), n, m) <= PathStatistic(p, n, m)
    ensures exists k | 0 <= k <= |p| ::
              Deviation(References(p[..k]), Comparisons(p[..k]), n, m) == PathStatistic(p, n, m)
  {
    assert p[..|p|] == p;
    if p != [] {
      var q := p[..|p| - 1];
      StatisticIsMaximum(q, n, m);
      assert forall k | 0 <= k <= |q| :: p[..k] == q[..k];
      var k :| 0 <= k <= |q| && Deviation(References(q[..k]), Comparisons(q[..k]), n, m) == PathStatistic(q, n, m);
      assert p[..k] == q[..k];
    }
  }

  // Staying strictly inside the band is having a statistic below it.
  lemma BandIsStatisticBelow(p: Path, n: nat, m: nat, s: int)
    ensures StaysIn(p, StrictBand(n, m, s)) <==> PathStatistic(p, n, m) < s
  {
    StatisticIsMaximum(p, n, m);
    var band := StrictBand(n, m, s);
    forall k | 0 <= k <= |p|
      ensures band(References(p[..k]), Comparisons(p[..k]))
              <==> Deviation(References(p[..k]), Comparisons(p[..k]), n, m) < s
    {
    }
  }

  // The orderings whose statistic is at least s.
  ghost function ExtremePaths(n: nat, m: nat, s: int): set<Path> {
    set p | p in AllPaths(n, m) && PathStatistic(p, n, m) >= s
  }

  // P(D >= s) when every ordering is equally likely.
  ghost function TailProbability(n: nat, m: nat, s: int): (p: real) {
    AllPathsNonempty(n, m);
    |ExtremePaths(n, m, s)| as real / |AllPaths(n, m)| as real
  }

  lemma AllPathsNonempty(n: nat, m: nat)
    ensures |AllPaths(n, m)| >= 1
  {
    AllPathsCount(n, m);
    CombPositive(n + m, n);
  }

  // Paths outside the band are exactly the extreme ones.
  lemma BandComplement(n: nat, m: nat, s: int)
    ensures |ExtremePaths(n, m, s)| + |PathsTo(StrictBand(n, m, s), n, m)| == |AllPaths(n, m)|
  {
    var inside, extreme := PathsTo(StrictBand(n, m, s), n, m), ExtremePaths(n, m, s);
    forall p
      ensures p in AllPaths(n, m) <==> p in inside || p in extreme
      ensures !(p in inside && p in extreme)
    {
      PathsToMembers(StrictBand(n, m, s), n, m, p);
      PathsToMembers(Everywhere(), n, m, p);
      BandIsStatisticBelow(p, n, m, s);
    }
    DisjointUnion(inside, extreme);
    assert inside + extreme == AllPaths(n, m);
  }

  lemma TailProbabilityBounds(n: nat, m: nat, s: int)
    ensures 0.0 <= TailProbability(n, m, s) <= 1.0
    ensures s <= 0 ==> TailProbability(n, m, s) == 1.0
  {
    AllPathsNonempty(n, m);
    SubsetCardinality(ExtremePaths(n, m, s), AllPaths(n, m));
    var extreme, total := |ExtremePaths(n, m, s)| as real, |AllPaths(n, m)| as real;
    QuotientOrder(0.0, extreme, total);
    QuotientOrder(extreme, total, total);
    QuotientSelf(total);
    if s <= 0 {
      assert ExtremePaths(n, m, s) == AllPaths(n, m);
    }
  }

  // A larger observed statistic is never less significant.
  lemma TailProbabilityAntitone(n: nat, m: nat, s: int, t: int)
    requires s <= t
    ensures TailProbability(n, m, t) <= TailProbability(n, m, s)
  {
    AllPathsNonempty(n, m);
    SubsetCardinality(ExtremePaths(n, m, t), ExtremePaths(n, m, s));
    QuotientOrder(|ExtremePaths(n, m, t)| as real, |ExtremePaths(n, m, s)| as real, |AllPaths(n, m)| as real);
  }

  // The orderings whose own p-value is at most a.
  ghost function Significant(n: nat, m: nat, a: real): set<Path> {
    set p | p in AllPaths(n, m) && TailProbability(n, m, PathStatistic(p, n, m)) <= a
  }

  // When every ordering is equally likely the p-value is valid: at most the share a of the
  // orderings has a p-value of at most a.
  lemma PValueIsValid(n: nat, m: nat, a: real)
    requires a >= 0.0
    ensures |Significant(n, m, a)| as real <= Share(a, |AllPaths(n, m)| as real)
  {
    hide *;
    var small := Significant(n, m, a);
    if small == {} {
      ShareNonnegative(a, |AllPaths(n, m)| as real);
    } else {
      var least := LeastStatistic(small, n, m);
      var s := PathStatistic(least, n, m);
      SignificantMember(n, m, a, least);
      SignificantAreExtreme(n, m, a, least);
      SubsetCardinality(small, ExtremePaths(n, m, s));
      TailWithin(n, m, s, a);
    }
  }

  lemma TailWithin(n: nat, m: nat, s: int, a: real)
    requires TailProbability(n, m, s) <= a
    ensures |ExtremePaths(n, m, s)| as real <= Share(a, |AllPaths(n, m)| as real)
  {
    hide AllPaths, ExtremePaths;
    AllPathsNonempty(n, m);
    QuotientWithin(|ExtremePaths(n, m, s)| as real, |AllPaths(n, m)| as real, a);
  }

  lemma SignificantMember(n: nat, m: nat, a: real, p: Path)
    ensures p in Significant(n, m, a) <==> p in AllPaths(n, m) && TailProbability(n, m, PathStatistic(p, n, m)) <= a
  {
    hide AllPaths, PathStatistic, TailProbability;
  }

  lemma SignificantAreExtreme(n: nat, m: nat, a: real, least: Path)
    requires forall p | p in Significant(n, m, a) :: PathStatistic(least, n, m) <= PathStatistic(p, n, m)
    ensures Significant(n, m, a) <= ExtremePaths(n, m, PathStatistic(least, n, m))
  {
    hide AllPaths, PathStatistic, TailProbability;
  }

  lemma {:induction false} LeastStatistic(paths: set<Path>, n: nat, m: nat) returns (least: Path)
    requires paths != {}
    ensures least in paths
    ensures forall p | p in paths :: PathStatistic(least, n, m) <= PathStatistic(p, n, m)
    decreases paths
  {
    var p :| p in paths;
    least := p;
    if paths != {p} {
      assert paths - {p} != {};
      var other := LeastStatistic(paths - {p}, n, m);
      if PathStatistic(other, n, m) < PathStatistic(p, n, m) {
        least := other;
      }
    }
  }

  // ---------------------------------------------------------------- complete separation

  function Repeat(step: bool, count: nat): (p: Path)
    ensures |p| == count
    ensures forall k | 0 <= k < count :: p[k] == step
  {
    seq(count, _ => step)
  }

  lemma {:induction false} ReferencesConcat(p: Path, q: Path)
    ensures References(p + q) == References(p) + References(q)
    decreases |q|
  {
    if q == [] {
      assert p + q == p;
    } else {
      var t := q[..|q| - 1];
      assert (p + q)[..|p + q| - 1] == p + t;
      ReferencesConcat(p, t);
    }
  }

  lemma {:induction false} RepeatCounts(step: bool, count: nat)
    ensures References(Repeat(step, count)) == if step then count else 0
  {
    if count > 0 {
      assert Repeat(step, count)[..count - 1] == Repeat(step, count - 1);
      RepeatCounts(step, count - 1);
    }
  }

  // A path made of one kind of step is that step repeated.
  lemma {:induction false} UniformPath(p: Path)
    ensures References(p) == |p| ==> p == Repeat(true, |p|)
    ensures References(p) == 0 ==> p == Repeat(false, |p|)
  {
    if p != [] {
      UniformPath(p[..|p| - 1]);
      assert p == p[..|p| - 1] + [p[|p| - 1]];
    }
  }

  // Only the corners (n, 0) and (0, m) reach the deviation n * m.
  lemma DeviationAtMostProduct(i: nat, j: nat, n: nat, m: nat)
    requires i <= n && j <= m
    ensures Deviation(i, j, n, m) <= n * m
    ensures n >= 1 && m >= 1 ==>
              (Deviation(i, j, n, m) == n * m <==> (i == n && j == 0) || (i == 0 && j == m))
  {
    assert 0 <= i * m <= n * m by { ProductMonotone(i, n, m); }
    assert 0 <= j * n <= m * n by { ProductMonotone(j, m, n); }
    assert m * n == n * m;
    if n >= 1 && m >= 1 {
      if i < n {
        ProductStrict(i, n, m);
      }
      if j < m {
        ProductStrict(j, m, n);
      }
      if j > 0 {
        ProductStrict(0, j, n);
      }
      if i > 0 {
        ProductStrict(0, i, m);
      }
    }
  }

  lemma ProductMonotone(a: nat, b: nat, c: nat)
    requires a <= b
    ensures 0 <= a * c <= b * c
  {
  }

  lemma ProductStrict(a: nat, b: nat, c: nat)
    requires a < b && c >= 1
    ensures a * c < b * c
  {
  }

  function ReferencesFirst(n: nat, m: nat): Path {
    Repeat(true, n) + Repeat(false, m)
  }

  function ComparisonsFirst(n: nat, m: nat): Path {
    Repeat(false, m) + Repeat(true, n)
  }

  lemma {:induction false} PrefixCounts(p: Path, k: nat)
    requires k <= |p|
    ensures References(p[..k]) <= References(p) && Comparisons(p[..k]) <= Comparisons(p)
  {
    assert p == p[..k] + p[k..];
    ReferencesConcat(p[..k], p[k..]);
  }

  lemma StatisticAtMostProduct(p: Path, n: nat, m: nat)
    requires References(p) == n && Comparisons(p) == m
    ensures PathStatistic(p, n, m) <= n * m
  {
    StatisticIsMaximum(p, n, m);
    var k :| 0 <= k <= |p| && Deviation(References(p[..k]), Comparisons(p[..k]), n, m) == PathStatistic(p, n, m);
    PrefixCounts(p, k);
    DeviationAtMostProduct(References(p[..k]), Comparisons(p[..k]), n, m);
  }

  // Exactly two orderings separate the samples completely.
  lemma SeparatedPaths(n: nat, m: nat, p: Path)
    requires n >= 1 && m >= 1
    requires References(p) == n && Comparisons(p) == m
    ensures PathStatistic(p, n, m) >= n * m <==> p == ReferencesFirst(n, m) || p == ComparisonsFirst(n, m)
  {
    if PathStatistic(p, n, m) >= n * m {
      ExtremePathIsSeparated(n, m, p);
    }
    if p == ReferencesFirst(n, m) {
      CornerIsExtreme(p, n, Repeat(true, n), n, m);
    }
    if p == ComparisonsFirst(n, m) {
      CornerIsExtreme(p, m, Repeat(false, m), n, m);
    }
  }

  lemma ExtremePathIsSeparated(n: nat, m: nat, p: Path)
    requires n >= 1 && m >= 1
    requires References(p) == n && Comparisons(p) == m
    requires PathStatistic(p, n, m) >= n * m
    ensures p == ReferencesFirst(n, m) || p == ComparisonsFirst(n, m)
  {
    StatisticAtMostProduct(p, n, m);
    StatisticIsMaximum(p, n, m);
    var k :| 0 <= k <= |p| && Deviation(References(p[..k]), Comparisons(p[..k]), n, m) == PathStatistic(p, n, m);
    PrefixCounts(p, k);
    DeviationAtMostProduct(References(p[..k]), Comparisons(p[..k]), n, m);
    CornerSplitsPath(n, m, p, k);
  }

  lemma CornerSplitsPath(n: nat, m: nat, p: Path, k: nat)
    requires References(p) == n && Comparisons(p) == m
    requires k <= |p|
    requires var i, j := References(p[..k]), Comparisons(p[..k]); (i == n && j == 0) || (i == 0 && j == m)
    ensures p == ReferencesFirst(n, m) || p == ComparisonsFirst(n, m)
  {
    assert p == p[..k] + p[k..];
    ReferencesConcat(p[..k], p[k..]);
    UniformPath(p[..k]);
    UniformPath(p[k..]);
  }

  // A path that visits the corner (n, 0) or (0, m) reaches the deviation n * m.
  lemma CornerIsExtreme(p: Path, k: nat, prefix: Path, n: nat, m: nat)
    requires n >= 1 && m >= 1
    requires k <= |p| && p[..k] == prefix
    requires (k == n && prefix == Repeat(true, n)) || (k == m && prefix == Repeat(false, m))
    ensures PathStatistic(p, n, m) >= n * m
  {
    RepeatCounts(true, n);
    RepeatCounts(false, m);
    StatisticIsMaximum(p, n, m);
    DeviationAtMostProduct(n, 0, n, m);
    DeviationAtMostProduct(0, m, n, m);
  }

  // The p-value of a complete separation, and so the smallest one, is 2 / C(n + m, n).
  lemma SeparationProbability(n: nat, m: nat)
    requires n >= 1 && m >= 1
    ensures |ExtremePaths(n, m, n * m)| == 2
    ensures |AllPaths(n, m)| == Comb(n + m, n)
  {
    var first, last := ReferencesFirst(n, m), ComparisonsFirst(n, m);
    RepeatCounts(true, n);
    RepeatCounts(false, m);
    ReferencesConcat(Repeat(true, n), Repeat(false, m));
    ReferencesConcat(Repeat(false, m), Repeat(true, n));
    assert first[0] && !last[0];
    forall p
      ensures p in ExtremePaths(n, m, n * m) <==> p in {first, last}
    {
      PathsToMembers(Everywhere(), n, m, p);
      if References(p) == n && Comparisons(p) == m {
        SeparatedPaths(n, m, p);
      }
    }
    assert ExtremePaths(n, m, n * m) == {first, last};
    AllPathsCount(n, m);
  }
}
