// The error rate of the drift test of ml/drift.py over the ways to divide one set of windows: when
// the windows of a host are interchangeable, every division into reference and comparison is
// equally likely, whatever values, ties and dependences the features have.
module DivisionRate {
  import opened Counting
  import opened Drift
  import opened ErrorRate
  import opened Holm
  import opened LatticePaths
  import opened Reals
  import opened Sets

  // ------------------------------------------------------------------ the samples of a division

  // The values of a column on one side; true windows are the reference, false the comparison.
  function Part(column: seq<real>, division: Path, side: bool): seq<real>
    requires |column| == |division|
  {
    if column == [] then []
    else
      var last := |column| - 1;
      Part(column[..last], division[..last], side) + if division[last] == side then [column[last]] else []
  }

  ghost predicate Table(columns: seq<seq<real>>, windows: nat) {
    forall f | 0 <= f < |columns| :: |columns[f]| == windows
  }

  function Parts(columns: seq<seq<real>>, division: Path, side: bool): (parts: seq<seq<real>>)
    ensures |parts| == |columns|
  {
    seq(|columns|, f requires 0 <= f < |columns| =>
      if |columns[f]| == |division| then Part(columns[f], division, side) else [])
  }

  function Divided(columns: seq<seq<real>>): Path -> Samples {
    (division: Path) => Samples(Parts(columns, division, true), Parts(columns, division, false))
  }

  // ------------------------------------------------------------------ counting a side

  ghost function Side(p: Path, side: bool): set<nat> {
    set i: nat | i < |p| && p[i] == side
  }

  ghost function SideUpTo(column: seq<real>, p: Path, side: bool, x: real): set<nat>
    requires |column| == |p|
  {
    set i: nat | i < |p| && p[i] == side && column[i] <= x
  }

  lemma AddOne(before: set<nat>, after: set<nat>, x: nat, added: bool)
    requires forall i | i in before :: i < x
    requires forall i: nat :: i in after <==> i in before || (added && i == x)
    ensures |after| == |before| + if added then 1 else 0
  {
    assert after == before + if added then {x} else {};
  }

  lemma {:induction false} SideCounts(p: Path)
    ensures |Side(p, true)| == References(p) && |Side(p, false)| == Comparisons(p)
  {
    if p == [] {
      assert Side(p, true) == {} && Side(p, false) == {};
    } else {
      var last := |p| - 1;
      var init := p[..last];
      SideCounts(init);
      AddOne(Side(init, true), Side(p, true), last, p[last]);
      AddOne(Side(init, false), Side(p, false), last, !p[last]);
    }
  }

  lemma {:induction false} PartSize(column: seq<real>, p: Path, side: bool)
    requires |column| == |p|
    ensures |Part(column, p, side)| == |Side(p, side)|
  {
    if p == [] {
      assert Side(p, side) == {};
    } else {
      var last := |p| - 1;
      PartSize(column[..last], p[..last], side);
      AddOne(Side(p[..last], side), Side(p, side), last, p[last] == side);
    }
  }

  lemma {:induction false} PartCounts(column: seq<real>, p: Path, side: bool, x: real)
    requires |column| == |p|
    ensures CountAtMost(Part(column, p, side), x) == |SideUpTo(column, p, side, x)|
  {
    if p == [] {
      assert SideUpTo(column, p, side, x) == {};
    } else {
      var last := |p| - 1;
      var init, here := column[..last], if p[last] == side then [column[last]] else [];
      PartCounts(init, p[..last], side, x);
      SideUpToGrows(column, p, side, x);
      assert Part(column, p, side) == Part(init, p[..last], side) + here;
      hide SideUpTo, Part;
      CountConcat(Part(init, p[..last], side), here, x);
      assert p[last] == side ==> [column[last]][1..] == [];
    }
  }

  lemma SideUpToGrows(column: seq<real>, p: Path, side: bool, x: real)
    requires |column| == |p| > 0
    ensures var last := |p| - 1;
            |SideUpTo(column, p, side, x)|
            == |SideUpTo(column[..last], p[..last], side, x)| + if p[last] == side && column[last] <= x then 1 else 0
  {
    var last := |p| - 1;
    AddOne(SideUpTo(column[..last], p[..last], side, x), SideUpTo(column, p, side, x), last,
           p[last] == side && column[last] <= x);
  }

  // ------------------------------------------------------------------ reading a division in order

  // The division read off in the ascending order of a column.
  ghost function ReadBy(order: seq<nat>, division: Path): (p: Path)
    requires IsOrder(order, |division|)
    ensures |p| == |division|
  {
    seq(|division|, k requires 0 <= k < |division| => division[order[k]])
  }

  // An arrangement of the positions below n.
  ghost predicate IsOrder(order: seq<nat>, n: nat) {
    && |order| == n
    && (forall a | 0 <= a < n :: order[a] < n)
    && (forall a, b | 0 <= a < b < n :: order[a] != order[b])
    && (forall i: nat | i < n :: i in order)
  }

  lemma RankOrderIsOrder(column: seq<real>)
    ensures IsOrder(RankOrder(column), |column|)
    ensures forall a, b | 0 <= a < b < |column| :: column[RankOrder(column)[a]] <= column[RankOrder(column)[b]]
  {
    hide RankOrder;
  }

  // In the order of the column the values up to x come first.
  lemma {:induction false} ValuesComeFirst(column: seq<real>, order: seq<nat>, x: real, upTo: nat) returns (k: nat)
    requires IsOrder(order, |column|) && upTo <= |column|
    requires forall a, b | 0 <= a < b < |column| :: column[order[a]] <= column[order[b]]
    requires forall a | upTo <= a < |column| :: column[order[a]] > x
    ensures k <= |column| && forall a | 0 <= a < |column| :: column[order[a]] <= x <==> a < k
    decreases upTo
  {
    if upTo == 0 || column[order[upTo - 1]] <= x {
      k := upTo;
    } else {
      k := ValuesComeFirst(column, order, x, upTo - 1);
    }
  }

  // The first k positions of the order hold as many of a side as the column does up to x.
  lemma PrefixSide(column: seq<real>, order: seq<nat>, division: Path, side: bool, x: real, k: nat)
    requires |column| == |division| && IsOrder(order, |division|) && k <= |division|
    requires forall a | 0 <= a < |column| :: column[order[a]] <= x <==> a < k
    ensures |Side(ReadBy(order, division)[..k], side)| == |SideUpTo(column, division, side, x)|
  {
    var from, to := Side(ReadBy(order, division)[..k], side), SideUpTo(column, division, side, x);
    var f: nat -> nat := (j: nat) => if j < |order| then order[j] else 0;
    forall i: nat
      ensures i in to <==> exists j :: j in from && f(j) == i
    {
      if i in to {
        assert i in order;
        var j: nat :| j < |order| && order[j] == i;
        assert j in from;
      }
    }
    assert to == set j | j in from :: f(j);
    InjectiveImage(from, f, to);
  }

  lemma ReadingKeepsSides(order: seq<nat>, division: Path, side: bool)
    requires IsOrder(order, |division|)
    ensures |Side(ReadBy(order, division), side)| == |Side(division, side)|
  {
    var column := seq(|division|, k requires 0 <= k < |division| => 0.0);
    var p := ReadBy(order, division);
    PrefixSide(column, order, division, side, 0.0, |division|);
    assert p[..|division|] == p;
    assert SideUpTo(column, division, side, 0.0) == Side(division, side);
  }

  // Read in the order of a column, the division merges the column's two parts.
  lemma ReadingMerges(column: seq<real>, division: Path)
    requires |column| == |division|
    ensures IsOrder(RankOrder(column), |division|)
    ensures Merges(ReadBy(RankOrder(column), division), Part(column, division, true), Part(column, division, false))
  {
    var order := RankOrder(column);
    RankOrderIsOrder(column);
    hide RankOrder;
    var p := ReadBy(order, division);
    SideCounts(p);
    ReadingKeepsSides(order, division, true);
    ReadingKeepsSides(order, division, false);
    PartSize(column, division, true);
    PartSize(column, division, false);
    forall x: real
      ensures TakesUpTo(p, Part(column, division, true), Part(column, division, false), x)
    {
      ReadingTakes(column, order, division, x);
    }
  }

  lemma ReadingTakes(column: seq<real>, order: seq<nat>, division: Path, x: real)
    requires |column| == |division| && IsOrder(order, |division|)
    requires forall a, b | 0 <= a < b < |column| :: column[order[a]] <= column[order[b]]
    ensures TakesUpTo(ReadBy(order, division), Part(column, division, true), Part(column, division, false), x)
  {
    var p := ReadBy(order, division);
    var k := ValuesComeFirst(column, order, x, |column|);
    PrefixSide(column, order, division, true, x, k);
    PrefixSide(column, order, division, false, x, k);
    SideCounts(p[..k]);
    PartCounts(column, division, true, x);
    PartCounts(column, division, false, x);
    hide Side, SideUpTo, Part, References, CountAtMost, IsOrder;
    assert StandsAt(p, k, CountAtMost(Part(column, division, true), x), CountAtMost(Part(column, division, false), x));
  }

  // ------------------------------------------------------------------ every order equally often

  // The division that reads as q.
  ghost function Unread(order: seq<nat>, q: Path): (p: Path)
    requires IsOrder(order, |q|)
    ensures |p| == |q|
  {
    seq(|q|, i requires 0 <= i < |q| => q[PositionOf(order, i, |q|)])
  }

  ghost function PositionOf(order: seq<nat>, i: nat, n: nat): (k: nat)
    requires IsOrder(order, n) && i < n
    ensures k < n && order[k] == i
  {
    assert i in order;
    var k: nat :| k < n && order[k] == i;
    k
  }

  lemma ReadUnread(order: seq<nat>, q: Path)
    requires IsOrder(order, |q|)
    ensures ReadBy(order, Unread(order, q)) == q
  {
    forall k | 0 <= k < |q|
      ensures Unread(order, q)[order[k]] == q[k]
    {
      assert PositionOf(order, order[k], |q|) == k;
    }
  }

  lemma UnreadRead(order: seq<nat>, p: Path)
    requires IsOrder(order, |p|)
    ensures Unread(order, ReadBy(order, p)) == p
  {
  }

  lemma ReadingIsADivision(order: seq<nat>, p: Path, n: nat, m: nat)
    requires IsOrder(order, |p|)
    ensures ReadBy(order, p) in AllPaths(n, m) <==> p in AllPaths(n, m)
  {
    var q := ReadBy(order, p);
    ReadingKeepsSides(order, p, true);
    SideCounts(p);
    SideCounts(q);
    AllPathsMembers(n, m, p);
    AllPathsMembers(n, m, q);
  }

  // The order of each column in a division.
  ghost function DivisionOrders(columns: seq<seq<real>>): Path -> seq<Path> {
    (division: Path) => seq(|columns|, f requires 0 <= f < |columns| => ColumnOrder(columns[f], division))
  }

  ghost function ColumnOrder(column: seq<real>, division: Path): Path {
    RankOrderIsOrder(column);
    if |column| == |division| then ReadBy(RankOrder(column), division) else []
  }

  lemma DivisionSize(n: nat, m: nat, p: Path)
    requires p in AllPaths(n, m)
    ensures |p| == n + m
  {
    AllPathsMembers(n, m, p);
  }

  // Exactly one division reads as a given order.
  lemma OneDivision(columns: seq<seq<real>>, n: nat, m: nat, i: nat, q: Path)
    requires Table(columns, n + m) && i < |columns| && q in AllPaths(n, m)
    ensures |WithOrder(AllPaths(n, m), DivisionOrders(columns), i, {q})| == 1
  {
    var column := columns[i];
    var order := RankOrder(column);
    RankOrderIsOrder(column);
    DivisionSize(n, m, q);
    var only := Unread(order, q);
    ReadUnread(order, q);
    ReadingIsADivision(order, only, n, m);
    hide RankOrder, AllPaths;
    forall p
      ensures p in WithOrder(AllPaths(n, m), DivisionOrders(columns), i, {q}) <==> p == only
    {
      if p in AllPaths(n, m) {
        DivisionSize(n, m, p);
        UnreadRead(order, p);
        assert DivisionOrders(columns)(p)[i] == ReadBy(order, p);
      }
    }
    assert WithOrder(AllPaths(n, m), DivisionOrders(columns), i, {q}) == {only};
  }

  lemma DivisionsAreUndrifted(columns: seq<seq<real>>, n: nat, m: nat, i: nat)
    requires Table(columns, n + m) && i < |columns|
    ensures Undrifted(AllPaths(n, m), Divided(columns), DivisionOrders(columns), n, m, i)
  {
    hide AllPaths, WithOrder, Merges, Divided, DivisionOrders;
    forall q | q in AllPaths(n, m)
      ensures |WithOrder(AllPaths(n, m), DivisionOrders(columns), i, {q})| * |AllPaths(n, m)| == |AllPaths(n, m)|
    {
      OneDivision(columns, n, m, i, q);
    }
    forall p | p in AllPaths(n, m)
      ensures OrderMerges(Divided(columns)(p), DivisionOrders(columns)(p), i)
    {
      DivisionMerges(columns, n, m, i, p);
    }
  }

  lemma DivisionMerges(columns: seq<seq<real>>, n: nat, m: nat, i: nat, p: Path)
    requires Table(columns, n + m) && i < |columns| && p in AllPaths(n, m)
    ensures OrderMerges(Divided(columns)(p), DivisionOrders(columns)(p), i)
  {
    DivisionSize(n, m, p);
    ReadingMerges(columns[i], p);
    hide AllPaths, RankOrder, Merges, Part, ReadBy;
  }

  lemma DivisionsAreFamilies(columns: seq<seq<real>>, n: nat, m: nat)
    requires Table(columns, n + m)
    ensures AllFamilies(AllPaths(n, m), Divided(columns), n, m, |columns|)
  {
    forall p | p in AllPaths(n, m)
      ensures IsFamily(Divided(columns)(p), n, m, |columns|)
    {
      AllPathsMembers(n, m, p);
      forall f | 0 <= f < |columns|
        ensures |Parts(columns, p, true)[f]| == n && |Parts(columns, p, false)[f]| == m
      {
        PartSize(columns[f], p, true);
        PartSize(columns[f], p, false);
        SideCounts(p);
      }
    }
  }

  // Of all divisions of any table of windows, whatever it holds, at most the share alpha makes
  // the test report drift in any feature.
  lemma DividedDriftRate(columns: seq<seq<real>>, n: nat, m: nat, alpha: real, asymptotic: Asymptotic)
    requires Table(columns, n + m)
    requires alpha >= 0.0 && SafePValues(asymptotic, n, m, alpha)
    ensures |Reporting(AllPaths(n, m), Divided(columns), alpha, asymptotic, Sets.Below(|columns|))| as real
            <= Share(alpha, |AllPaths(n, m)| as real)
  {
    hide Undrifted, AllFamilies, SafePValues, AllPaths, Divided, DivisionOrders, Reporting, Share;
    DivisionsAreFamilies(columns, n, m);
    forall i: nat | i in Sets.Below(|columns|)
      ensures Undrifted(AllPaths(n, m), Divided(columns), DivisionOrders(columns), n, m, i)
    {
      DivisionsAreUndrifted(columns, n, m, i);
    }
    FalseDriftRate(AllPaths(n, m), Divided(columns), DivisionOrders(columns), n, m, |columns|, alpha, asymptotic,
                   Sets.Below(|columns|));
  }
}
