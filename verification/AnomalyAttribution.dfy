// The bounded, ranked attribution of ml/attribution.py over the tally of a forest's splits.
module AnomalyAttribution {
  import opened ForestScoring
  import opened IsolationForest
  import opened Options
  import opened Reals
  import opened Sorting

  // ------------------------------------------------------------------ the ranking order

  // Python's order of strings.
  predicate NameAtMost(a: string, b: string) {
    if a == "" then true
    else if b == "" then false
    else a[0] < b[0] || (a[0] == b[0] && NameAtMost(a[1..], b[1..]))
  }

  lemma {:induction false} NamesTotal(a: string, b: string)
    ensures NameAtMost(a, b) || NameAtMost(b, a)
    ensures NameAtMost(a, b) && NameAtMost(b, a) ==> a == b
  {
    if a != "" && b != "" {
      NamesTotal(a[1..], b[1..]);
      assert a == [a[0]] + a[1..] && b == [b[0]] + b[1..];
    }
  }

  lemma {:induction false} NamesTransitive(a: string, b: string, c: string)
    requires NameAtMost(a, b) && NameAtMost(b, c)
    ensures NameAtMost(a, c)
  {
    if a != "" && b != "" && c != "" && a[0] == b[0] == c[0] {
      NamesTransitive(a[1..], b[1..], c[1..]);
    }
  }

  // The same order without recursion: a ends, or is smaller, where the two first differ.
  ghost predicate Precedes(a: string, b: string) {
    exists k: nat :: Before(a, b, k)
  }

  ghost predicate Before(a: string, b: string, k: nat) {
    && k <= |a| && k <= |b|
    && (forall j | 0 <= j < k :: a[j] == b[j])
    && (k == |a| || (k < |b| && a[k] < b[k]))
  }

  lemma {:induction false} NameOrder(a: string, b: string)
    ensures NameAtMost(a, b) <==> Precedes(a, b)
  {
    if a == "" || b == "" {
      assert Before(a, b, 0) <==> a == "";
    } else {
      NameOrder(a[1..], b[1..]);
      hide Precedes;
      PrecedesStep(a[0], a[1..], b[0], b[1..]);
      assert a == [a[0]] + a[1..] && b == [b[0]] + b[1..];
    }
  }

  lemma PrecedesStep(c: char, x: string, d: char, y: string)
    ensures Precedes([c] + x, [d] + y) <==> c < d || (c == d && Precedes(x, y))
  {
    var a, b := [c] + x, [d] + y;
    forall k: nat
      ensures Before(a, b, k + 1) <==> c == d && Before(x, y, k)
    {
      BeforeStep(c, x, d, y, k);
    }
    assert Before(a, b, 0) <==> c < d;
    hide Before;
    if Precedes(a, b) && !(c < d) {
      var k: nat :| Before(a, b, k);
      assert Before(x, y, k - 1);
    }
    if c == d && Precedes(x, y) {
      var k: nat :| Before(x, y, k);
      assert Before(a, b, k + 1);
    }
  }

  lemma BeforeStep(c: char, x: string, d: char, y: string, k: nat)
    ensures Before([c] + x, [d] + y, k + 1) <==> c == d && Before(x, y, k)
  {
    var a, b := [c] + x, [d] + y;
    assert a[0] == c && b[0] == d;
    assert forall j | 0 <= j < |x| :: x[j] == a[j + 1];
    assert forall j | 0 <= j < |y| :: y[j] == b[j + 1];
    assert forall j | 1 <= j <= |x| :: a[j] == x[j - 1];
    assert forall j | 1 <= j <= |y| :: b[j] == y[j - 1];
  }

  datatype Item = Item(feature: string, splits: nat)

  // Most-tested first, the name breaking ties.
  predicate RanksUpTo(x: Item, y: Item) {
    x.splits > y.splits || (x.splits == y.splits && NameAtMost(x.feature, y.feature))
  }

  lemma RanksTotal(x: Item, y: Item)
    ensures RanksUpTo(x, y) || RanksUpTo(y, x)
    ensures RanksUpTo(x, y) && RanksUpTo(y, x) ==> x == y
  {
    NamesTotal(x.feature, y.feature);
  }

  lemma RanksTransitive(x: Item, y: Item, z: Item)
    requires RanksUpTo(x, y) && RanksUpTo(y, z)
    ensures RanksUpTo(x, z)
  {
    if x.splits == y.splits == z.splits {
      NamesTransitive(x.feature, y.feature, z.feature);
    }
  }

  ghost predicate Ranked(items: seq<Item>) {
    forall a, b | 0 <= a < b < |items| :: RanksUpTo(items[a], items[b])
  }

  lemma RankedTail(items: seq<Item>)
    requires items != [] && Ranked(items)
    ensures Ranked(items[1..]) && forall y | y in items :: RanksUpTo(items[0], y)
  {
    var tail := items[1..];
    assert forall a | 0 <= a < |tail| :: tail[a] == items[a + 1];
    RanksTotal(items[0], items[0]);
  }

  lemma HeadRemoved(items: seq<Item>)
    requires items != []
    ensures multiset(items[1..]) == multiset(items) - multiset{items[0]}
  {
    assert items == [items[0]] + items[1..];
  }

  // There is one ranking of the items, whatever order they were collected in.
  lemma {:induction false} RankingIsUnique(r: seq<Item>, s: seq<Item>)
    requires multiset(r) == multiset(s) && Ranked(r) && Ranked(s)
    ensures r == s
  {
    PermutationMembers(r, s);
    hide Ranked, RanksUpTo;
    if r != [] {
      RankedTail(r);
      RankedTail(s);
      assert r[0] in s && s[0] in r;
      RanksTotal(r[0], s[0]);
      HeadRemoved(r);
      HeadRemoved(s);
      RankingIsUnique(r[1..], s[1..]);
      assert r == [r[0]] + r[1..] && s == [s[0]] + s[1..];
    }
  }

  function InsertRanked(x: Item, items: seq<Item>): seq<Item> {
    if items == [] then [x]
    else if RanksUpTo(x, items[0]) then [x] + items
    else [items[0]] + InsertRanked(x, items[1..])
  }

  lemma {:induction false} InsertKeeps(x: Item, items: seq<Item>)
    requires Ranked(items)
    ensures Ranked(InsertRanked(x, items)) && multiset(InsertRanked(x, items)) == multiset(items) + multiset{x}
  {
    if items != [] {
      RankedTail(items);
      assert items == [items[0]] + items[1..];
      if RanksUpTo(x, items[0]) {
        forall y | y in items
          ensures RanksUpTo(x, y)
        {
          RanksTransitive(x, items[0], y);
        }
        ConsRanked(x, items);
      } else {
        RanksTotal(x, items[0]);
        InsertKeeps(x, items[1..]);
        var rest := InsertRanked(x, items[1..]);
        assert forall y | y in rest :: y in multiset(rest);
        ConsRanked(items[0], rest);
      }
    }
  }

  lemma ConsRanked(x: Item, items: seq<Item>)
    requires Ranked(items) && forall y | y in items :: RanksUpTo(x, y)
    ensures Ranked([x] + items)
  {
    var longer := [x] + items;
    assert forall a | 1 <= a < |longer| :: longer[a] == items[a - 1] && longer[a] in items;
  }

  function RankItems(items: seq<Item>): seq<Item> {
    if items == [] then [] else InsertRanked(items[0], RankItems(items[1..]))
  }

  lemma {:induction false} RankItemsRanks(items: seq<Item>)
    ensures Ranked(RankItems(items)) && multiset(RankItems(items)) == multiset(items)
  {
    if items != [] {
      RankItemsRanks(items[1..]);
      InsertKeeps(items[0], RankItems(items[1..]));
      assert items == [items[0]] + items[1..];
    }
  }

  // ------------------------------------------------------------------ the report

  // The tested features among the given ones, named, in schema order.
  function ItemsIn(keys: set<int>, counts: map<int, nat>, names: seq<string>, k: nat): seq<Item>
    requires k <= |names|
  {
    if k == 0 then []
    else ItemsIn(keys, counts, names, k - 1) + ItemAt(keys, counts, names, k - 1)
  }

  function ItemAt(keys: set<int>, counts: map<int, nat>, names: seq<string>, g: nat): seq<Item>
    requires g < |names|
  {
    if g in keys && g in counts then [Item(names[g], counts[g])] else []
  }

  lemma {:induction false} LaterKeyIrrelevant(keys: set<int>, g: nat, counts: map<int, nat>, names: seq<string>, k: nat)
    requires k <= |names| && g >= k
    ensures ItemsIn(keys + {g}, counts, names, k) == ItemsIn(keys, counts, names, k)
  {
    if k > 0 {
      LaterKeyIrrelevant(keys, g, counts, names, k - 1);
    }
  }

  lemma ItemsStep(keys: set<int>, g: nat, counts: map<int, nat>, names: seq<string>, k: nat)
    requires g < k <= |names| && g !in keys && g in counts
    ensures var here := if g == k - 1 then [] else ItemAt(keys, counts, names, k - 1);
            && ItemsIn(keys, counts, names, k) == ItemsIn(keys, counts, names, k - 1) + here
            && ItemsIn(keys + {g}, counts, names, k)
               == ItemsIn(keys + {g}, counts, names, k - 1) + if g == k - 1 then [Item(names[g], counts[g])] else here
  {
  }

  lemma {:induction false} ItemAdded(keys: set<int>, g: nat, counts: map<int, nat>, names: seq<string>, k: nat)
    requires g < k <= |names| && g !in keys && g in counts
    ensures multiset(ItemsIn(keys + {g}, counts, names, k))
            == multiset(ItemsIn(keys, counts, names, k)) + multiset{Item(names[g], counts[g])}
  {
    hide *;
    var before, after := ItemsIn(keys, counts, names, k - 1), ItemsIn(keys + {g}, counts, names, k - 1);
    ItemsStep(keys, g, counts, names, k);
    if g == k - 1 {
      LaterKeyIrrelevant(keys, g, counts, names, g);
      assert before + [] == before;
      Append(before, Item(names[g], counts[g]));
    } else {
      ItemAdded(keys, g, counts, names, k - 1);
      Swap(after, before, Item(names[g], counts[g]), ItemAt(keys, counts, names, k - 1));
    }
  }

  lemma Append(before: seq<Item>, item: Item)
    ensures multiset(before + [item]) == multiset(before) + multiset{item}
  {
  }

  lemma Swap(after: seq<Item>, before: seq<Item>, added: Item, here: seq<Item>)
    requires multiset(after) == multiset(before) + multiset{added}
    ensures multiset(after + here) == multiset(before + here) + multiset{added}
  {
  }

  lemma Member<T>(s: set<T>) returns (x: T)
    requires s != {}
    ensures x in s
  {
    x :| x in s;
  }

  lemma {:induction false} NoItems(counts: map<int, nat>, names: seq<string>, k: nat)
    requires k <= |names|
    ensures ItemsIn({}, counts, names, k) == []
  {
    if k > 0 {
      NoItems(counts, names, k - 1);
    }
  }

  // All tested features, most-tested first.
  function Ranking(counts: map<int, nat>, names: seq<string>): seq<Item> {
    RankItems(ItemsIn(counts.Keys, counts, names, |names|))
  }

  function Capped(items: seq<Item>, topN: nat): seq<Item> {
    if |items| <= topN then items else items[..topN]
  }

  datatype Report = Report(features: seq<Item>, shares: seq<real>, attributedFeatures: nat, totalSplits: nat,
                           leafCorrection: real, pathLength: real, reconciles: bool)

  const RECONCILE_TOLERANCE := 0.000000001

  function SplitShare(splits: nat, total: nat): (r: real)
    ensures total > 0 ==> r * total as real == splits as real
    ensures total == 0 ==> r == 0.0
  {
    if total > 0 then splits as real / total as real else 0.0
  }

  // Collects the tally's entries in whatever order the dictionary yields them.
  method CollectItems(counts: map<int, nat>, names: seq<string>) returns (items: seq<Item>)
    requires forall g | g in counts :: 0 <= g < |names|
    ensures multiset(items) == multiset(ItemsIn(counts.Keys, counts, names, |names|))
    ensures |items| == |counts|
  {
    items := [];
    var left, done: set<int> := counts.Keys, {};
    NoItems(counts, names, |names|);
    while left != {}
      invariant done !! left && done + left == counts.Keys
      invariant multiset(items) == multiset(ItemsIn(done, counts, names, |names|))
      invariant |items| == |done|
      decreases left
    {
      ghost var some := Member(left);
      var g: int :| g in left;
      ItemAdded(done, g, counts, names, |names|);
      items := items + [Item(names[g], counts[g])];
      left, done := left - {g}, done + {g};
    }
    assert done == counts.Keys;
  }

  method AttributeAnomaly(f: Forest, n: nat, c: PathLength, row: Row, names: seq<string>, topN: nat)
    returns (r: Option<Report>)
    requires ValidForest(f, n, c) && |row| == n
    ensures r.None? <==> |names| != n
    ensures r.Some? ==>
              var splits := AllSplits(f.trees, n, row, |f.trees|);
              && r.value.features == Capped(Ranking(Tally(splits), names), topN)
              && r.value.attributedFeatures == |Tally(splits)| == |Ranking(Tally(splits), names)|
              && r.value.totalSplits == |splits|
              && r.value.pathLength == DepthSum(f, n, c, row, |f.trees|)
              && r.value.leafCorrection == LeafCorrections(f.trees, n, c, row, |f.trees|)
              && r.value.totalSplits as real + r.value.leafCorrection == r.value.pathLength
              && |r.value.shares| == |r.value.features|
              && (forall k | 0 <= k < |r.value.shares| ::
                    r.value.shares[k] == SplitShare(r.value.features[k].splits, |splits|))
              && r.value.reconciles
  {
    if |names| != n {
      return None;
    }
    hide ValidForest, AllSplits, DepthSum, LeafCorrections;
    var a := AttributeRow(f, n, c, row);
    var items := CollectItems(a.splitCounts, names);
    var ranked := RankItems(items);
    RankItemsRanks(items);
    RankItemsRanks(ItemsIn(a.splitCounts.Keys, a.splitCounts, names, |names|));
    RankingIsUnique(ranked, Ranking(a.splitCounts, names));
    PermutationMembers(ranked, items);
    var features := Capped(ranked, topN);
    var shares := seq(|features|, k requires 0 <= k < |features| => SplitShare(features[k].splits, a.totalSplits));
    var gap := a.totalSplits as real + a.leafCorrection - a.depths;
    r := Some(Report(features, shares, |a.splitCounts|, a.totalSplits, a.leafCorrection, a.depths,
                     (if gap < 0.0 then -gap else gap) <= RECONCILE_TOLERANCE));
  }

  function SumSplits(items: seq<Item>): nat {
    if items == [] then 0 else items[0].splits + SumSplits(items[1..])
  }

  lemma {:induction false} SumInserted(x: Item, items: seq<Item>)
    ensures SumSplits(InsertRanked(x, items)) == x.splits + SumSplits(items)
  {
    if items != [] && !RanksUpTo(x, items[0]) {
      SumInserted(x, items[1..]);
    }
  }

  lemma {:induction false} SumRanked(items: seq<Item>)
    ensures SumSplits(RankItems(items)) == SumSplits(items)
  {
    if items != [] {
      SumRanked(items[1..]);
      SumInserted(items[0], RankItems(items[1..]));
    }
  }

  lemma {:induction false} SumConcat(a: seq<Item>, b: seq<Item>)
    ensures SumSplits(a + b) == SumSplits(a) + SumSplits(b)
  {
    if a == [] {
      assert a + b == b;
    } else {
      assert (a + b)[1..] == a[1..] + b;
      SumConcat(a[1..], b);
    }
  }

  lemma {:induction false} SumItems(counts: map<int, nat>, names: seq<string>, k: nat)
    requires k <= |names|
    ensures SumSplits(ItemsIn(counts.Keys, counts, names, k)) == CountTotal(counts, k)
  {
    if k > 0 {
      SumItems(counts, names, k - 1);
      SumConcat(ItemsIn(counts.Keys, counts, names, k - 1), ItemAt(counts.Keys, counts, names, k - 1));
    }
  }

  lemma RankingMembers(counts: map<int, nat>, names: seq<string>)
    ensures Ranked(Ranking(counts, names))
    ensures forall x :: x in Ranking(counts, names) <==> x in ItemsIn(counts.Keys, counts, names, |names|)
  {
    var items := ItemsIn(counts.Keys, counts, names, |names|);
    RankItemsRanks(items);
    PermutationMembers(RankItems(items), items);
  }

  lemma {:induction false} ItemsAreTested(counts: map<int, nat>, names: seq<string>, k: nat, x: Item)
    requires k <= |names|
    ensures x in ItemsIn(counts.Keys, counts, names, k) <==>
            exists g :: g in counts && 0 <= g < k && x == Item(names[g], counts[g])
  {
    if k > 0 {
      ItemsAreTested(counts, names, k - 1, x);
    }
  }

  // The shown counts never grow along the report, and equal ones are in name order.
  lemma ShownInOrder(counts: map<int, nat>, names: seq<string>, topN: nat, a: nat, b: nat)
    requires a < b < |Capped(Ranking(counts, names), topN)|
    ensures var shown := Capped(Ranking(counts, names), topN);
            shown[a].splits > shown[b].splits
            || (shown[a].splits == shown[b].splits && Precedes(shown[a].feature, shown[b].feature))
  {
    var ranked := Ranking(counts, names);
    RankingMembers(counts, names);
    hide Ranking;
    assert RanksUpTo(ranked[a], ranked[b]);
    NameOrder(ranked[a].feature, ranked[b].feature);
  }

  // The reported features are the most-tested ones: a tested feature the cap leaves out has no
  // more splits than any shown one, and on a tie a later name.
  lemma CapKeepsHeaviest(counts: map<int, nat>, names: seq<string>, topN: nat, g: int)
    requires g in counts && 0 <= g < |names|
    ensures var shown := Capped(Ranking(counts, names), topN);
            Item(names[g], counts[g]) in shown
            || (|shown| == topN
                && forall x | x in shown ::
                     x.splits > counts[g] || (x.splits == counts[g] && Precedes(x.feature, names[g])))
  {
    var ranked, item := Ranking(counts, names), Item(names[g], counts[g]);
    ItemsAreTested(counts, names, |names|, item);
    RankingMembers(counts, names);
    hide Ranking;
    var k :| 0 <= k < |ranked| && ranked[k] == item;
    if k >= topN {
      forall j | 0 <= j < topN
        ensures ranked[j].splits > counts[g]
                || (ranked[j].splits == counts[g] && Precedes(ranked[j].feature, names[g]))
      {
        assert RanksUpTo(ranked[j], ranked[k]);
        NameOrder(ranked[j].feature, names[g]);
      }
    } else if |ranked| > topN {
      assert ranked[..topN][k] == item;
    }
  }

  ghost predicate AllPositive(items: seq<Item>) {
    forall k | 0 <= k < |items| :: items[k].splits >= 1
  }

  lemma {:induction false} PositiveSum(items: seq<Item>)
    requires AllPositive(items)
    ensures SumSplits(items) >= |items|
  {
    if items != [] {
      PositiveSum(items[1..]);
    }
  }

  // The shown counts add up to at most the splits, and to all of them exactly when the cap hides
  // no tested feature.
  lemma CapHidesSplits(splits: seq<int>, names: seq<string>, topN: nat)
    requires forall k | 0 <= k < |splits| :: 0 <= splits[k] < |names|
    ensures var ranked := Ranking(Tally(splits), names);
            SumSplits(Capped(ranked, topN)) <= |splits|
            && (SumSplits(Capped(ranked, topN)) == |splits| <==> |ranked| <= topN)
  {
    var counts := Tally(splits);
    var items := ItemsIn(counts.Keys, counts, names, |names|);
    var ranked := Ranking(counts, names);
    TallyTotal(splits, |names|);
    SumItems(counts, names, |names|);
    SumRanked(items);
    RankingIsPositive(splits, names);
    hide Tally, Ranking, ItemsIn, CountTotal;
    if |ranked| > topN {
      assert ranked == ranked[..topN] + ranked[topN..];
      SumConcat(ranked[..topN], ranked[topN..]);
      PositiveSum(ranked[topN..]);
    }
  }

  function Total(shares: seq<real>): real {
    if shares == [] then 0.0 else shares[0] + Total(shares[1..])
  }

  lemma {:induction false} SharesScale(items: seq<Item>, shares: seq<real>, total: nat)
    requires total > 0 && |shares| == |items|
    requires forall k | 0 <= k < |items| :: shares[k] == SplitShare(items[k].splits, total)
    ensures Total(shares) * total as real == SumSplits(items) as real
  {
    if items != [] {
      SharesScale(items[1..], shares[1..], total);
    }
  }

  // The shown shares add up to at most one, and to exactly one when the cap hides no tested
  // feature and only then.
  lemma SharesOfWhole(splits: seq<int>, names: seq<string>, topN: nat, shares: seq<real>)
    requires splits != [] && forall k | 0 <= k < |splits| :: 0 <= splits[k] < |names|
    requires var shown := Capped(Ranking(Tally(splits), names), topN);
             |shares| == |shown|
             && forall k | 0 <= k < |shown| :: shares[k] == SplitShare(shown[k].splits, |splits|)
    ensures Total(shares) <= 1.0
    ensures Total(shares) == 1.0 <==> |Ranking(Tally(splits), names)| <= topN
  {
    hide *;
    CapHidesSplits(splits, names, topN);
    SharesOfPart(Capped(Ranking(Tally(splits), names), topN), shares, |splits|);
  }

  lemma SharesOfPart(items: seq<Item>, shares: seq<real>, total: nat)
    requires total > 0 && |shares| == |items| && SumSplits(items) <= total
    requires forall k | 0 <= k < |items| :: shares[k] == SplitShare(items[k].splits, total)
    ensures Total(shares) <= 1.0
    ensures Total(shares) == 1.0 <==> SumSplits(items) == total
  {
    hide *;
    SharesScale(items, shares, total);
    Parts(Total(shares), SumSplits(items), total);
  }

  lemma Parts(share: real, part: nat, total: nat)
    requires total > 0 && part <= total && share * total as real == part as real
    ensures share <= 1.0
    ensures share == 1.0 <==> part == total
  {
    ProductOrder(share, 1.0, total as real);
    ProductOrder(1.0, share, total as real);
  }

  lemma RankingIsPositive(splits: seq<int>, names: seq<string>)
    ensures AllPositive(Ranking(Tally(splits), names))
  {
    var counts := Tally(splits);
    var ranked := Ranking(counts, names);
    RankingMembers(counts, names);
    forall k | 0 <= k < |ranked|
      ensures ranked[k].splits >= 1
    {
      assert ranked[k] in ranked;
      ItemsAreTested(counts, names, |names|, ranked[k]);
    }
  }
}
