// Holm-Bonferroni step-down correction (ml/drift.py).
module Holm {
  import opened Reals
  import opened Sets
  import opened Sorting

  datatype HolmRecord = HolmRecord(rank: nat, threshold: real, rejected: bool)

  // j is ranked no later than i: smaller p-value, or the same and no later in the input.
  predicate RankedBy(p: seq<real>, j: nat, i: nat)
    requires i < |p| && j < |p|
  {
    p[j] < p[i] || (p[j] == p[i] && j <= i)
  }

  // The hypotheses ranked strictly before i.
  ghost function Before(p: seq<real>, i: nat): (s: set<nat>)
    requires i < |p|
  {
    set j: nat | j < |p| && j != i && RankedBy(p, j, i)
  }

  ghost function Rank(p: seq<real>, i: nat): (r: nat)
    requires i < |p|
    ensures r < |p|
  {
    assert Before(p, i) <= Below(|p|) - {i};
    SubsetCardinality(Before(p, i), Below(|p|) - {i});
    |Before(p, i)|
  }

  // The level that rank is compared against.
  function Threshold(alpha: real, count: nat, rank: nat): real
    requires rank < count
  {
    alpha / (count - rank) as real
  }

  // Step-down: i is rejected when nothing up to and including i exceeds its own level.
  ghost predicate Rejected(p: seq<real>, alpha: real, i: nat)
    requires i < |p|
  {
    forall j: nat | j < |p| && RankedBy(p, j, i) :: p[j] <= Threshold(alpha, |p|, Rank(p, j))
  }

  // ------------------------------------------------------------------ the stable order

  function KeyOf(p: seq<real>): nat -> real {
    (i: nat) => if i < |p| then p[i] else 0.0
  }

  function Indices(from: nat, to: nat): (s: seq<nat>)
    requires from <= to
    ensures |s| == to - from
    ensures forall k | 0 <= k < |s| :: s[k] == from + k
  {
    seq(to - from, k => from + k)
  }

  ghost predicate InRankOrder(p: seq<real>, order: seq<nat>) {
    && (forall a | 0 <= a < |order| :: order[a] < |p|)
    && (forall a, b | 0 <= a < b < |order| :: order[a] != order[b] && RankedBy(p, order[a], order[b]))
  }

  lemma ConsRankOrder(p: seq<real>, x: nat, xs: seq<nat>)
    requires x < |p| && InRankOrder(p, xs)
    requires forall y | y in xs :: y < |p| && x != y && RankedBy(p, x, y)
    ensures InRankOrder(p, [x] + xs)
  {
    var r := [x] + xs;
    forall a, b | 0 <= a < b < |r|
      ensures r[a] != r[b] && RankedBy(p, r[a], r[b])
    {
      assert r[b] == xs[b - 1] && xs[b - 1] in xs;
      if a > 0 {
        assert r[a] == xs[a - 1];
      }
    }
  }

  lemma RankOrderTail(p: seq<real>, xs: seq<nat>)
    requires xs != [] && InRankOrder(p, xs)
    ensures InRankOrder(p, xs[1..])
    ensures forall y | y in xs[1..] :: y < |p| && xs[0] != y && RankedBy(p, xs[0], y)
  {
    var rest := xs[1..];
    assert forall a | 0 <= a < |rest| :: rest[a] == xs[a + 1];
  }

  lemma InsertStep(p: seq<real>, i: nat, order: seq<nat>)
    requires i < |p| && order != [] && order[0] < |p|
    requires SortedBy(order, KeyOf(p))
    ensures SortedBy(order[1..], KeyOf(p))
    ensures Insert(i, order, KeyOf(p))
            == if p[i] <= p[order[0]] then [i] + order else [order[0]] + Insert(i, order[1..], KeyOf(p))
    ensures forall y | y in Insert(i, order[1..], KeyOf(p)) :: y == i || y in order[1..]
    ensures forall y :: y in order <==> y == order[0] || y in order[1..]
  {
    InsertedMembers(i, order[1..], Insert(i, order[1..], KeyOf(p)));
    assert order == [order[0]] + order[1..];
  }

  lemma {:induction false} InsertKeepsRankOrder(p: seq<real>, i: nat, order: seq<nat>)
    requires i < |p| && InRankOrder(p, order)
    requires SortedBy(order, KeyOf(p))
    requires forall y | y in order :: i < y
    ensures InRankOrder(p, Insert(i, order, KeyOf(p)))
  {
    if order == [] {
    } else {
      var head, rest := order[0], order[1..];
      RankOrderTail(p, order);
      InsertStep(p, i, order);
      hide SortedBy, Insert, InRankOrder;
      assert head in order;
      if p[i] <= p[head] {
        ConsRankOrder(p, i, order);
      } else {
        InsertKeepsRankOrder(p, i, rest);
        ConsRankOrder(p, head, Insert(i, rest, KeyOf(p)));
      }
    }
  }

  lemma SortStep(p: seq<real>, from: nat)
    requires from < |p|
    ensures var order := SortBy(Indices(from + 1, |p|), KeyOf(p));
            SortedBy(order, KeyOf(p))
            && SortBy(Indices(from, |p|), KeyOf(p)) == Insert(from, order, KeyOf(p))
            && forall y | y in order :: from < y
  {
    var rest := Indices(from + 1, |p|);
    assert Indices(from, |p|)[1..] == rest;
    hide SortedBy, Insert;
    var order := SortBy(rest, KeyOf(p));
    PermutationMembers(rest, order);
  }

  // The stable sort of the hypotheses by p-value lists them by rank.
  lemma {:induction false} SortedInRankOrder(p: seq<real>, from: nat)
    requires from <= |p|
    ensures InRankOrder(p, SortBy(Indices(from, |p|), KeyOf(p)))
    decreases |p| - from
  {
    if from < |p| {
      SortStep(p, from);
      hide SortedBy, SortBy, Insert, InRankOrder, Indices;
      SortedInRankOrder(p, from + 1);
      InsertKeepsRankOrder(p, from, SortBy(Indices(from + 1, |p|), KeyOf(p)));
    }
  }

  // A complete rank order puts each hypothesis at its rank.
  lemma OrderGivesRank(p: seq<real>, order: seq<nat>, r: nat)
    requires r < |p| && IsComplete(p, order)
    requires InRankOrder(p, order)
    ensures Rank(p, order[r]) == r
    ensures forall a: nat | a < |p| :: RankedBy(p, order[a], order[r]) <==> a <= r
  {
    var i, prefix := order[r], order[..r];
    forall a: nat | a < |p|
      ensures RankedBy(p, order[a], i) <==> a <= r
    {
      if a > r {
        assert i != order[a] && RankedBy(p, i, order[a]);
      }
    }
    forall j
      ensures j in Before(p, i) <==> j in prefix
    {
      if j in Before(p, i) {
        assert j in order;
        var a :| 0 <= a < |order| && order[a] == j;
        assert prefix[a] == j;
      }
      if j in prefix {
        var a :| 0 <= a < r && prefix[a] == j;
        assert order[a] == j;
      }
    }
    assert Distinct(prefix);
    DistinctCardinality(prefix);
    assert Before(p, i) == Elements(prefix);
  }

  ghost predicate IsComplete(p: seq<real>, order: seq<nat>) {
    |order| == |p| && forall i: nat :: i in order <==> i < |p|
  }

  ghost function HolmOutcome(p: seq<real>, alpha: real, i: nat): HolmRecord
    requires i < |p|
  {
    HolmRecord(Rank(p, i), Threshold(alpha, |p|, Rank(p, i)), Rejected(p, alpha, i))
  }

  method HolmBonferroni(p: seq<real>, alpha: real) returns (records: seq<HolmRecord>)
    ensures |records| == |p|
    ensures forall i: nat | i < |p| :: records[i] == HolmOutcome(p, alpha, i)
  {
    var count := |p|;
    var order := RankOrder(p);
    hide RankOrder, Rank, Before, RankedBy, KeyOf, Threshold, HolmOutcome,
         InRankOrder, Rejected, Below, AllWithin, IsComplete;
    AllWithinNone(p, alpha, order);
    var filled := new HolmRecord[count](_ => HolmRecord(0, 0.0, false));
    var stillRejecting := true;
    for rank := 0 to count
      invariant stillRejecting <==> AllWithin(p, alpha, order, rank)
      invariant forall r: nat | r < rank :: filled[order[r]] == HolmOutcome(p, alpha, order[r])
    {
      var index := order[rank];
      var threshold := Threshold(alpha, count, rank);
      if stillRejecting && p[index] > threshold {
        stillRejecting := false;
      }
      OutcomeByRank(p, alpha, order, rank);
      filled[index] := HolmRecord(rank, threshold, stillRejecting);
    }
    records := filled[..];
    EveryPositionFilled(p, alpha, order, records);
  }

  lemma EveryPositionFilled(p: seq<real>, alpha: real, order: seq<nat>, records: seq<HolmRecord>)
    requires |records| == |p| && IsComplete(p, order)
    requires forall a | 0 <= a < |order| :: order[a] < |p|
    requires forall r: nat | r < |order| :: records[order[r]] == HolmOutcome(p, alpha, order[r])
    ensures forall i: nat | i < |p| :: records[i] == HolmOutcome(p, alpha, i)
  {
    forall i: nat | i < |p|
      ensures records[i] == HolmOutcome(p, alpha, i)
    {
      assert i in order;
      var r: nat :| r < |order| && order[r] == i;
    }
  }

  // sorted(range(count), key=p): the hypotheses by p-value, ties in input order.
  function RankOrder(p: seq<real>): (order: seq<nat>)
    ensures |order| == |p|
    ensures forall a | 0 <= a < |p| :: order[a] < |p|
    ensures forall a, b | 0 <= a < b < |p| :: order[a] != order[b]
    ensures InRankOrder(p, order) && IsComplete(p, order)
  {
    SortedInRankOrder(p, 0);
    OrderIsComplete(p);
    SortBy(Indices(0, |p|), KeyOf(p))
  }

  lemma OrderIsComplete(p: seq<real>)
    ensures IsComplete(p, SortBy(Indices(0, |p|), KeyOf(p)))
  {
    hide SortBy;
    var all := Indices(0, |p|);
    PermutationMembers(all, SortBy(all, KeyOf(p)));
    forall i: nat | i < |p|
      ensures i in all
    {
      assert all[i] == i;
    }
  }

  // The comparisons of the first hypotheses in the order all succeeded.
  ghost predicate AllWithin(p: seq<real>, alpha: real, order: seq<nat>, upTo: nat)
    requires |order| == |p| && upTo <= |p|
    requires forall a | 0 <= a < |order| :: order[a] < |p|
  {
    forall r: nat | r < upTo :: p[order[r]] <= Threshold(alpha, |p|, r)
  }

  lemma AllWithinNone(p: seq<real>, alpha: real, order: seq<nat>)
    requires |order| == |p| && forall a | 0 <= a < |order| :: order[a] < |p|
    ensures AllWithin(p, alpha, order, 0)
  {
  }

  // Along the order, rejection is the running conjunction of the comparisons.
  lemma OutcomeByRank(p: seq<real>, alpha: real, order: seq<nat>, rank: nat)
    requires rank < |p| && IsComplete(p, order)
    requires InRankOrder(p, order)
    ensures HolmOutcome(p, alpha, order[rank])
            == HolmRecord(rank, Threshold(alpha, |p|, rank), AllWithin(p, alpha, order, rank + 1))
    ensures AllWithin(p, alpha, order, rank + 1) <==>
            AllWithin(p, alpha, order, rank) && p[order[rank]] <= Threshold(alpha, |p|, rank)
  {
    hide Rank, RankedBy, Threshold;
    OrderGivesRank(p, order, rank);
    forall r: nat | r <= rank
      ensures Rank(p, order[r]) == r
    {
      OrderGivesRank(p, order, r);
    }
    if AllWithin(p, alpha, order, rank + 1) {
      forall j: nat | j < |p| && RankedBy(p, j, order[rank])
        ensures p[j] <= Threshold(alpha, |p|, Rank(p, j))
      {
        assert j in order;
        var r: nat :| r < |order| && order[r] == j;
      }
    }
  }

  // ------------------------------------------------------------------ what the procedure guarantees

  // Bonferroni's test of the joint hypothesis T: some member reaches alpha / |T|.
  ghost predicate JointTest(p: seq<real>, alpha: real, t: set<nat>)
    requires t != {} && forall j | j in t :: j < |p|
  {
    exists j :: j in t && p[j] <= alpha / |t| as real
  }

  ghost predicate PValues(p: seq<real>) {
    forall j | 0 <= j < |p| :: 0.0 <= p[j]
  }

  lemma {:induction false} FirstRanked(p: seq<real>, t: set<nat>) returns (j: nat)
    requires t != {} && forall i | i in t :: i < |p|
    ensures j in t && forall i | i in t :: RankedBy(p, j, i)
    decreases t
  {
    var x :| x in t;
    var rest := t - {x};
    assert t == rest + {x};
    if rest == {} {
      j := x;
    } else {
      var k := FirstRanked(p, rest);
      j := if RankedBy(p, k, x) then k else x;
      forall i | i in t
        ensures RankedBy(p, j, i)
      {
        assert i == x || i in rest;
      }
    }
  }

  // The hypotheses outside T leave room below the first-ranked member of T.
  lemma RankLeavesRoom(p: seq<real>, t: set<nat>, j: nat)
    requires forall i | i in t :: i < |p|
    requires j in t && forall i | i in t :: RankedBy(p, j, i)
    ensures Rank(p, j) + |t| <= |p|
  {
    var before := Before(p, j);
    assert before !! t;
    DisjointUnion(before, t);
    assert before + t <= Below(|p|);
    SubsetCardinality(before + t, Below(|p|));
  }

  // Holm's procedure is the closure of Bonferroni's: a hypothesis is rejected exactly when
  // every joint hypothesis that contains it is.
  lemma ClosedTesting(p: seq<real>, alpha: real, i: nat)
    requires i < |p| && PValues(p)
    ensures Rejected(p, alpha, i) <==>
            forall t: set<nat> | i in t && (forall j | j in t :: j < |p|) :: JointTest(p, alpha, t)
  {
    if Rejected(p, alpha, i) {
      forall t: set<nat> | i in t && (forall j | j in t :: j < |p|)
        ensures JointTest(p, alpha, t)
      {
        RejectedPassesJointTests(p, alpha, i, t);
      }
    } else {
      var t := RetainedFailsJointTest(p, alpha, i);
    }
  }

  lemma RejectedPassesJointTests(p: seq<real>, alpha: real, i: nat, t: set<nat>)
    requires i < |p| && PValues(p)
    requires Rejected(p, alpha, i)
    requires i in t && forall j | j in t :: j < |p|
    ensures JointTest(p, alpha, t)
  {
    hide Rank, RankedBy;
    var j := FirstRanked(p, t);
    RankLeavesRoom(p, t, j);
    LevelsWeaken(alpha, |t|, |p| - Rank(p, j), p[j]);
  }

  // A p-value within a stricter level is within every looser one.
  lemma LevelsWeaken(alpha: real, fewer: nat, more: nat, value: real)
    requires 0 < fewer <= more
    requires 0.0 <= value <= alpha / more as real
    ensures value <= alpha / fewer as real
  {
    QuotientSign(alpha, more as real);
    QuotientAntitone(alpha, fewer as real, more as real);
  }

  ghost function NotBefore(p: seq<real>, j: nat): (t: set<nat>)
    requires j < |p|
  {
    Below(|p|) - Before(p, j)
  }

  lemma NotBeforeFacts(p: seq<real>, j: nat)
    requires j < |p|
    ensures |NotBefore(p, j)| == |p| - Rank(p, j)
    ensures forall k: nat :: k in NotBefore(p, j) <==> k < |p| && RankedBy(p, j, k)
  {
    assert Before(p, j) <= Below(|p|);
    assert Below(|p|) == NotBefore(p, j) + Before(p, j);
    DisjointUnion(NotBefore(p, j), Before(p, j));
  }

  lemma RetainedFailsJointTest(p: seq<real>, alpha: real, i: nat) returns (t: set<nat>)
    requires i < |p| && !Rejected(p, alpha, i)
    ensures i in t && (forall j | j in t :: j < |p|)
    ensures !JointTest(p, alpha, t)
  {
    var j: nat :| j < |p| && RankedBy(p, j, i) && p[j] > Threshold(alpha, |p|, Rank(p, j));
    t := NotBefore(p, j);
    NotBeforeFacts(p, j);
    LaterFail(p, alpha, j, t);
  }

  lemma LaterFail(p: seq<real>, alpha: real, j: nat, t: set<nat>)
    requires j < |p| && p[j] > Threshold(alpha, |p|, Rank(p, j))
    requires t != {} && |t| == |p| - Rank(p, j)
    requires forall k | k in t :: k < |p| && RankedBy(p, j, k)
    ensures !JointTest(p, alpha, t)
  {
    hide Rank;
    var level := alpha / |t| as real;
    assert forall k | k in t :: p[k] > level;
  }

  // The core of family-wise control: whatever the set of true hypotheses is, a false
  // rejection needs some true hypothesis at or below alpha / |T|.
  lemma FamilyWise(p: seq<real>, alpha: real, t: set<nat>, i: nat)
    requires PValues(p)
    requires i in t && forall j | j in t :: j < |p|
    requires Rejected(p, alpha, i)
    ensures exists j :: j in t && p[j] <= alpha / |t| as real
  {
    ClosedTesting(p, alpha, i);
    assert JointTest(p, alpha, t);
  }

  predicate AtMost(p: seq<real>, i: nat, level: real) {
    i < |p| && p[i] <= level
  }

  // The outcomes, of finitely many equally likely ones, in which some member of the set has a
  // p-value within the level.
  ghost function SmallIn<W>(outcomes: set<W>, p: W -> seq<real>, t: set<nat>, level: real): set<W> {
    set w | w in outcomes && exists i :: i in t && AtMost(p(w), i, level)
  }

  // A p-value is valid up to a level when it is at most a with probability at most a, for every
  // a up to there.
  ghost predicate ValidPValue<W>(outcomes: set<W>, p: W -> seq<real>, i: nat, upTo: real) {
    forall a: real | 0.0 <= a <= upTo :: |SmallIn(outcomes, p, {i}, a)| as real <= Share(a, |outcomes| as real)
  }

  lemma {:induction false} UnionBound<W>(outcomes: set<W>, p: W -> seq<real>, t: set<nat>, level: real, upTo: real)
    requires 0.0 <= level <= upTo && forall i | i in t :: ValidPValue(outcomes, p, i, upTo)
    ensures |SmallIn(outcomes, p, t, level)| as real <= Share(|t| as real, Share(level, |outcomes| as real))
    decreases t
  {
    hide SmallIn, Share;
    var share := Share(level, |outcomes| as real);
    if t == {} {
      SmallInNone(outcomes, p, level);
      ShareFacts(0, share);
    } else {
      var i :| i in t;
      var rest := t - {i};
      UnionBound(outcomes, p, rest, level, upTo);
      var first, others := SmallIn(outcomes, p, {i}, level), SmallIn(outcomes, p, rest, level);
      SmallInParts(outcomes, p, t, i, level);
      UnionCardinality(first, others);
      SubsetCardinality(SmallIn(outcomes, p, t, level), first + others);
      assert |t| == |rest| + 1;
      ShareFacts(|rest|, share);
    }
  }

  lemma SmallInNone<W>(outcomes: set<W>, p: W -> seq<real>, level: real)
    ensures SmallIn(outcomes, p, {}, level) == {}
  {
  }

  lemma SmallInParts<W>(outcomes: set<W>, p: W -> seq<real>, t: set<nat>, i: nat, level: real)
    requires i in t
    ensures SmallIn(outcomes, p, t, level) <= SmallIn(outcomes, p, {i}, level) + SmallIn(outcomes, p, t - {i}, level)
  {
    hide AtMost;
  }

  ghost predicate FalseRejection(p: seq<real>, alpha: real, nulls: set<nat>) {
    exists i :: i in nulls && i < |p| && Rejected(p, alpha, i)
  }

  // Family-wise control: with valid p-values for the true hypotheses, whatever their dependence
  // and whatever the others are, a true one is rejected with probability at most alpha.
  lemma FamilyWiseErrorRate<W>(outcomes: set<W>, p: W -> seq<real>, alpha: real, nulls: set<nat>)
    requires alpha >= 0.0
    requires forall w | w in outcomes :: PValues(p(w)) && forall i | i in nulls :: i < |p(w)|
    requires forall i | i in nulls :: ValidPValue(outcomes, p, i, alpha)
    ensures |set w | w in outcomes && FalseRejection(p(w), alpha, nulls)| as real <= Share(alpha, |outcomes| as real)
  {
    hide Share, ValidPValue, SmallIn, PValues;
    var errors := set w | w in outcomes && FalseRejection(p(w), alpha, nulls);
    if nulls == {} {
      assert errors == {};
      ShareNonnegative(alpha, |outcomes| as real);
    } else {
      var level := alpha / |nulls| as real;
      ErrorsAreSmall(outcomes, p, alpha, nulls, errors);
      SubsetCardinality(errors, SmallIn(outcomes, p, nulls, level));
      QuotientSign(alpha, |nulls| as real);
      QuotientAntitone(alpha, 1.0, |nulls| as real);
      UnionBound(outcomes, p, nulls, level, alpha);
      ShareSplits(|nulls|, alpha, |outcomes| as real);
    }
  }

  lemma ErrorsAreSmall<W>(outcomes: set<W>, p: W -> seq<real>, alpha: real, nulls: set<nat>, errors: set<W>)
    requires nulls != {}
    requires forall w | w in outcomes :: PValues(p(w)) && forall i | i in nulls :: i < |p(w)|
    requires forall w | w in errors :: w in outcomes && FalseRejection(p(w), alpha, nulls)
    ensures errors <= SmallIn(outcomes, p, nulls, alpha / |nulls| as real)
  {
    forall w | w in errors
      ensures w in SmallIn(outcomes, p, nulls, alpha / |nulls| as real)
    {
      ErrorIsSmall(p(w), alpha, nulls);
    }
  }

  lemma ErrorIsSmall(p: seq<real>, alpha: real, nulls: set<nat>)
    requires PValues(p) && FalseRejection(p, alpha, nulls) && forall i | i in nulls :: i < |p|
    ensures nulls != {} && exists j :: j in nulls && AtMost(p, j, alpha / |nulls| as real)
  {
    var i :| i in nulls && i < |p| && Rejected(p, alpha, i);
    FamilyWise(p, alpha, nulls, i);
    var j :| j in nulls && p[j] <= alpha / |nulls| as real;
    assert AtMost(p, j, alpha / |nulls| as real);
  }

  // Everything plain Bonferroni rejects is rejected, and if nothing reaches the first
  // threshold nothing is.
  lemma FirstThreshold(p: seq<real>, alpha: real)
    requires p != [] && PValues(p)
    ensures forall i: nat | i < |p| && p[i] <= alpha / |p| as real :: Rejected(p, alpha, i)
    ensures (forall i: nat | i < |p| :: !Rejected(p, alpha, i))
            <==> forall i: nat | i < |p| :: p[i] > alpha / |p| as real
  {
    forall i: nat | i < |p| && p[i] <= alpha / |p| as real
      ensures Rejected(p, alpha, i)
    {
      BonferroniRejected(p, alpha, i);
    }
    if forall i: nat | i < |p| :: p[i] > alpha / |p| as real {
      forall i: nat | i < |p|
        ensures !Rejected(p, alpha, i)
      {
        ClosedTesting(p, alpha, i);
        assert !JointTest(p, alpha, Below(|p|));
      }
    }
  }

  // Something is rejected exactly when some p-value reaches the first threshold.
  lemma SomethingRejected(p: seq<real>, alpha: real)
    requires p != [] && PValues(p)
    ensures (exists i: nat :: i < |p| && Rejected(p, alpha, i))
            <==> exists i: nat :: i < |p| && p[i] <= Threshold(alpha, |p|, 0)
  {
    FirstThreshold(p, alpha);
    hide Rejected;
    if i: nat :| i < |p| && Rejected(p, alpha, i) {
      var j: nat :| j < |p| && p[j] <= alpha / |p| as real;
    }
  }

  lemma BonferroniRejected(p: seq<real>, alpha: real, i: nat)
    requires i < |p| && PValues(p)
    requires p[i] <= alpha / |p| as real
    ensures Rejected(p, alpha, i)
  {
    forall t: set<nat> | i in t && (forall j | j in t :: j < |p|)
      ensures JointTest(p, alpha, t)
    {
      SubsetCardinality(t, Below(|p|));
      LevelsWeaken(alpha, |t|, |p|, p[i]);
    }
    ClosedTesting(p, alpha, i);
  }

  // Lowering any p-values never un-rejects a hypothesis.
  lemma LoweringKeepsRejections(p: seq<real>, q: seq<real>, alpha: real, i: nat)
    requires |q| == |p| && PValues(q)
    requires forall j | 0 <= j < |p| :: q[j] <= p[j]
    requires i < |p| && Rejected(p, alpha, i)
    ensures Rejected(q, alpha, i)
  {
    assert PValues(p);
    forall t: set<nat> | i in t && (forall j | j in t :: j < |q|)
      ensures JointTest(q, alpha, t)
    {
      RejectedPassesJointTests(p, alpha, i, t);
      var j :| j in t && p[j] <= alpha / |t| as real;
      assert q[j] <= alpha / |t| as real;
    }
    ClosedTesting(q, alpha, i);
  }

  // A hypothesis with no larger a p-value is rejected too, so equal p-values get equal decisions.
  lemma SmallerIsRejected(p: seq<real>, alpha: real, i: nat, j: nat)
    requires PValues(p) && i < |p| && j < |p|
    requires Rejected(p, alpha, i) && p[j] <= p[i]
    ensures Rejected(p, alpha, j)
  {
    forall t: set<nat> | j in t && (forall k | k in t :: k < |p|)
      ensures JointTest(p, alpha, t)
    {
      if i in t {
        RejectedPassesJointTests(p, alpha, i, t);
      } else {
        var swapped := t - {j} + {i};
        assert |swapped| == |t|;
        RejectedPassesJointTests(p, alpha, i, swapped);
        var k :| k in swapped && p[k] <= alpha / |t| as real;
        assert (if k == i then j else k) in t;
      }
    }
    ClosedTesting(p, alpha, j);
  }

  // q lists the hypotheses of p in another order.
  ghost predicate Reordered(p: seq<real>, q: seq<real>, order: seq<nat>) {
    && |order| == |q| == |p|
    && Distinct(order)
    && forall a | 0 <= a < |q| :: order[a] < |p| && q[a] == p[order[a]]
  }

  // The decisions follow the hypotheses, not their positions.
  lemma InputOrderIrrelevant(p: seq<real>, q: seq<real>, order: seq<nat>, alpha: real, a: nat)
    requires PValues(p) && Reordered(p, q, order) && a < |q|
    ensures Rejected(q, alpha, a) <==> Rejected(p, alpha, order[a])
  {
    assert PValues(q);
    ClosedTesting(q, alpha, a);
    ClosedTesting(p, alpha, order[a]);
    if Rejected(p, alpha, order[a]) {
      forall t: set<nat> | a in t && (forall j | j in t :: j < |q|)
        ensures JointTest(q, alpha, t)
      {
        ImageTest(p, q, order, alpha, t);
      }
    }
    if Rejected(q, alpha, a) {
      forall u: set<nat> | order[a] in u && (forall j | j in u :: j < |p|)
        ensures JointTest(p, alpha, u)
      {
        var t := Preimage(p, q, order, u);
        assert JointTest(q, alpha, t);
        ImageTest(p, q, order, alpha, t);
      }
    }
  }

  ghost function Image(order: seq<nat>, t: set<nat>): set<nat>
    requires forall j | j in t :: j < |order|
  {
    set j | j in t :: order[j]
  }

  lemma ImageTest(p: seq<real>, q: seq<real>, order: seq<nat>, alpha: real, t: set<nat>)
    requires Reordered(p, q, order) && t != {} && forall j | j in t :: j < |q|
    ensures Image(order, t) != {} && forall j | j in Image(order, t) :: j < |p|
    ensures JointTest(q, alpha, t) <==> JointTest(p, alpha, Image(order, t))
  {
    var u := Image(order, t);
    var j :| j in t;
    assert order[j] in u;
    var f := (k: nat) => if k < |order| then order[k] else 0;
    assert u == set k | k in t :: f(k);
    InjectiveImage(t, f, u);
    if JointTest(q, alpha, t) {
      var k :| k in t && q[k] <= alpha / |t| as real;
      assert order[k] in u;
    }
  }

  // A reordering reaches every position, so every set of hypotheses is an image.
  lemma Preimage(p: seq<real>, q: seq<real>, order: seq<nat>, u: set<nat>) returns (t: set<nat>)
    requires Reordered(p, q, order) && forall j | j in u :: j < |p|
    ensures forall j | j in t :: j < |q|
    ensures Image(order, t) == u
    ensures forall a: nat | a < |q| && order[a] in u :: a in t
  {
    t := set a: nat | a < |order| && order[a] in u;
    DistinctCardinality(order);
    SubsetEqual(Elements(order), Below(|p|));
    forall j | j in u
      ensures j in Image(order, t)
    {
      assert j in Elements(order);
      var a: nat :| a < |order| && order[a] == j;
      assert a in t;
    }
  }
}
