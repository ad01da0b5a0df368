// Loading, scoring and attribution of the native isolation forest (ml/iforest.py). Numbers are
// exact; the float32-cast, scaled row is the input of both routers.
module IsolationForest {
  import opened Options
  import opened Sorting
  import opened TreeShapes

  datatype Tree = Tree(left: seq<int>, right: seq<int>, feature: seq<int>, threshold: seq<real>,
                       samples: seq<int>, features: seq<int>)

  datatype TreeError = NoNodes | RaggedArrays | BadFeatureMap | OneChild | PointerOutOfRange
                     | SplitOutsideSchema | NegativeSamples | ReachableTwice(node: int) | Unreachable(count: nat)

  // ------------------------------------------------------------------ validation

  predicate SameShape(t: Tree) {
    |t.right| == |t.feature| == |t.threshold| == |t.samples| == |t.left|
  }

  function Range(n: nat): (s: seq<int>)
    ensures |s| == n && forall k | 0 <= k < n :: s[k] == k
  {
    seq(n, k => k)
  }

  function IntKey(): int -> real {
    (i: int) => i as real
  }

  // sorted(features) == list(range(n))
  predicate CoversSchema(features: seq<int>, n: nat) {
    SortBy(features, IntKey()) == Range(n)
  }

  predicate SplitsInSchema(t: Tree, n: nat)
    requires SameShape(t)
  {
    forall i | 0 <= i < |t.left| && t.left[i] != -1 :: 0 <= t.feature[i] < n
  }

  predicate NonnegativeSamples(t: Tree) {
    forall i | 0 <= i < |t.samples| :: 0 <= t.samples[i]
  }

  // A usable tree: consistent arrays over the schema that encode one full binary tree.
  ghost predicate WellFormed(t: Tree, n: nat) {
    && SameShape(t) && |t.features| == n
    && multiset(t.features) == multiset(Range(n))
    && SplitsInSchema(t, n) && NonnegativeSamples(t)
    && exists s :: Encodes(t.left, t.right, s)
  }

  // In terms of the arrays alone.
  lemma WellFormedMeaning(t: Tree, n: nat)
    ensures WellFormed(t, n) <==>
              && |t.right| == |t.feature| == |t.threshold| == |t.samples| == |t.left|
              && |t.features| == n && (forall g | 0 <= g < n :: g in t.features)
              && (forall i | 0 <= i < |t.left| && t.left[i] != -1 :: 0 <= t.feature[i] < n)
              && (forall i | 0 <= i < |t.left| :: 0 <= t.samples[i])
              && exists s :: Encodes(t.left, t.right, s)
  {
    PermutationOfRange(t.features, n);
  }

  lemma PermutationOfRange(features: seq<int>, n: nat)
    ensures multiset(features) == multiset(Range(n)) <==> |features| == n && forall g | 0 <= g < n :: g in features
  {
    if multiset(features) == multiset(Range(n)) {
      PermutationMembers(features, Range(n));
      forall g | 0 <= g < n
        ensures g in features
      {
        assert Range(n)[g] == g;
      }
    } else if |features| == n && forall g | 0 <= g < n :: g in features {
      CoversAll(features, n);
    }
  }

  lemma {:induction false} CoversAll(features: seq<int>, n: nat)
    requires |features| == n && forall g | 0 <= g < n :: g in features
    ensures multiset(features) == multiset(Range(n))
  {
    if n > 0 {
      assert n - 1 in features;
      var k :| 0 <= k < n && features[k] == n - 1;
      var rest := features[..k] + features[k + 1..];
      forall g | 0 <= g < n - 1
        ensures g in rest
      {
        assert g in features;
        var j :| 0 <= j < n && features[j] == g;
        assert rest[if j < k then j else j - 1] == g;
      }
      CoversAll(rest, n - 1);
      MultisetWithout(features, k);
      assert Range(n) == Range(n - 1) + [n - 1];
    } else {
      assert features == Range(0);
    }
  }

  lemma CoversSchemaMeaning(features: seq<int>, n: nat)
    ensures CoversSchema(features, n) <==> multiset(features) == multiset(Range(n))
    ensures CoversSchema(features, n) ==> |features| == n && forall k | 0 <= k < n :: 0 <= features[k] < n
  {
    var sorted := SortBy(features, IntKey());
    if multiset(features) == multiset(Range(n)) {
      PermutationMembers(sorted, Range(n));
      assert forall a, b | 0 <= a < b < |sorted| :: IntKey()(sorted[a]) <= IntKey()(sorted[b]);
      AscendingIntsUnique(sorted, Range(n));
    }
    if CoversSchema(features, n) {
      PermutationMembers(features, Range(n));
      forall k | 0 <= k < n
        ensures 0 <= features[k] < n
      {
        assert features[k] in features && features[k] in Range(n);
      }
    }
  }

  // Two ascending arrangements of the same integers are equal.
  lemma {:induction false} AscendingIntsUnique(xs: seq<int>, ys: seq<int>)
    requires multiset(xs) == multiset(ys)
    requires forall a, b | 0 <= a < b < |xs| :: xs[a] <= xs[b]
    requires forall a, b | 0 <= a < b < |ys| :: ys[a] <= ys[b]
    ensures xs == ys
  {
    PermutationMembers(xs, ys);
    if xs != [] {
      assert xs[0] in xs && ys[0] in ys;
      assert xs[0] == ys[0];
      TailsPermute(xs, ys);
      var xs', ys' := xs[1..], ys[1..];
      assert forall k | 0 <= k < |xs'| :: xs'[k] == xs[k + 1] && ys'[k] == ys[k + 1];
      AscendingIntsUnique(xs', ys');
      assert xs == [xs[0]] + xs' && ys == [ys[0]] + ys';
    }
  }

  lemma TailsPermute(xs: seq<int>, ys: seq<int>)
    requires xs != [] && ys != [] && xs[0] == ys[0] && multiset(xs) == multiset(ys)
    ensures multiset(xs[1..]) == multiset(ys[1..])
  {
    assert xs == [xs[0]] + xs[1..] && ys == [ys[0]] + ys[1..];
    assert multiset(xs[1..]) == multiset(xs) - multiset([xs[0]]);
    assert multiset(ys[1..]) == multiset(ys) - multiset([ys[0]]);
  }

  predicate ChildrenPaired(t: Tree)
    requires SameShape(t)
  {
    forall i | 0 <= i < |t.left| :: t.left[i] != -1 <==> t.right[i] != -1
  }

  predicate PointersValid(t: Tree)
    requires SameShape(t)
  {
    forall i | 0 <= i < |t.left| && t.left[i] != -1 :: 1 <= t.left[i] < |t.left| && 1 <= t.right[i] < |t.left|
  }

  // An encoded tree passes the pointer checks: no node has one child and none points at the root.
  lemma EncodedPointers(t: Tree, s: Shape)
    requires SameShape(t) && Encodes(t.left, t.right, s)
    ensures ChildrenPaired(t) && PointersValid(t)
  {
    var order, n := Order(s), |t.left|;
    forall v | v in order
      ensures 0 <= v < n
    {
      MatchesInRange(t.left, t.right, s, v);
    }
    assert forall k | 0 <= k < |order| :: order[k] in order;
    DistinctInRange(order, n);
    forall i | 0 <= i < n
      ensures t.left[i] != -1 <==> t.right[i] != -1
      ensures t.left[i] != -1 ==> 1 <= t.left[i] < n && 1 <= t.right[i] < n
    {
      ChildrenVisited(t.left, t.right, s, i);
      BelowRoot(order, t.left[i], n);
      BelowRoot(order, t.right[i], n);
    }
  }

  lemma BelowRoot(order: seq<int>, v: int, n: nat)
    requires order != [] && order[0] == 0 && Distinct(order) && InRange(order, n)
    ensures v in order[1..] ==> 1 <= v < n
  {
    if v in order[1..] {
      var k :| 0 <= k < |order| - 1 && order[1..][k] == v;
      assert order[k + 1] == v;
    }
  }

  // The checks on a deserialized tree, in order; accepted exactly when it is usable.
  method ValidateTree(t: Tree, n: nat) returns (r: Result<Tree, TreeError>)
    ensures r.Ok? <==> WellFormed(t, n)
    ensures r.Ok? ==> r.value == t
    ensures r.Err? && r.error.ReachableTwice? ==>
              && PointersInRange(t.left, t.right) && |t.left| > 0
              && RootWalk(t.left, t.right) == Twice(r.error.node)
    ensures r.Err? && r.error.Unreachable? ==>
              && PointersInRange(t.left, t.right) && |t.left| > 0
              && RootWalk(t.left, t.right).Visited?
              && r.error.count == |t.left| - |RootWalk(t.left, t.right).order| > 0
  {
    hide Dfs, Encodes, CoversSchema;
    NeedsNode(t, n);
    if |t.left| < 1 {
      return Err(NoNodes);
    }
    if !SameShape(t) {
      return Err(RaggedArrays);
    }
    CoversSchemaMeaning(t.features, n);
    if |t.features| != n || !CoversSchema(t.features, n) {
      return Err(BadFeatureMap);
    }
    NeedsPointers(t, n);
    if !ChildrenPaired(t) {
      return Err(OneChild);
    }
    if !PointersValid(t) {
      return Err(PointerOutOfRange);
    }
    if !SplitsInSchema(t, n) {
      return Err(SplitOutsideSchema);
    }
    if !NonnegativeSamples(t) {
      return Err(NegativeSamples);
    }
    WalkAcceptsTrees(t.left, t.right);
    var error := CheckReachable(t);
    hide SameShape, SplitsInSchema, NonnegativeSamples, PointersInRange;
    r := if error.Some? then Err(error.value) else Ok(t);
  }

  lemma NeedsNode(t: Tree, n: nat)
    ensures WellFormed(t, n) ==> |t.left| >= 1
  {
  }

  lemma NeedsPointers(t: Tree, n: nat)
    ensures WellFormed(t, n) ==> ChildrenPaired(t) && PointersValid(t)
  {
    if WellFormed(t, n) {
      var s :| Encodes(t.left, t.right, s);
      EncodedPointers(t, s);
    }
  }

  // Every node reachable from the root exactly once, by an explicit stack.
  method CheckReachable(t: Tree) returns (error: Option<TreeError>)
    requires |t.left| > 0 && SameShape(t) && PointersValid(t)
    ensures PointersInRange(t.left, t.right)
    ensures error.None? <==> WalkSucceeds(t.left, t.right)
    ensures error.Some? ==>
              var w := RootWalk(t.left, t.right);
              if w.Twice? then error.value == ReachableTwice(w.node)
              else |w.order| < |t.left| && error.value == Unreachable(|t.left| - |w.order|)
  {
    var n := |t.left|;
    var reached := new bool[n](_ => false);
    var stack := [0];
    ghost var visited: seq<int> := [];
    while stack != []
      invariant InRange(stack, n) && InRange(visited, n) && Distinct(visited)
      invariant forall v | 0 <= v < n :: reached[v] <==> v in visited
      invariant Dfs(t.left, t.right, stack, visited) == Dfs(t.left, t.right, [0], [])
      decreases n - |visited|
    {
      var node, rest := stack[|stack| - 1], stack[..|stack| - 1];
      assert stack == rest + [node] && 0 <= node < n;
      DfsStep(t.left, t.right, rest, node, visited);
      hide Dfs, Distinct, InRange, PointersInRange, PointersValid;
      if reached[node] {
        return Some(ReachableTwice(node));
      }
      reached[node] := true;
      visited := visited + [node];
      stack := rest;
      if t.left[node] != -1 {
        stack := stack + [t.left[node]];
        stack := stack + [t.right[node]];
        assert stack == rest + [t.left[node], t.right[node]];
      }
    }
    var unreached := CountUnreached(reached, visited);
    error := if unreached > 0 then Some(Unreachable(unreached)) else None;
  }

  method CountUnreached(reached: array<bool>, ghost visited: seq<int>) returns (unreached: nat)
    requires Distinct(visited) && InRange(visited, reached.Length)
    requires forall v | 0 <= v < reached.Length :: reached[v] <==> v in visited
    ensures unreached == reached.Length - |visited|
  {
    unreached := 0;
    ghost var found: set<int> := {};
    for v := 0 to reached.Length
      invariant forall u :: u in found <==> 0 <= u < v && reached[u]
      invariant unreached == v - |found|
    {
      if reached[v] {
        found := found + {v};
      } else {
        unreached := unreached + 1;
      }
    }
    DistinctCardinality(visited);
    forall v
      ensures v in found <==> v in Elements(visited)
    {
      if v in visited {
        var k :| 0 <= k < |visited| && visited[k] == v;
        assert reached[v];
      }
    }
    assert found == Elements(visited);
  }

  // ------------------------------------------------------------------ node depths

  // The tree the arrays of a usable tree encode.
  ghost function TheShape(t: Tree, n: nat): (s: Shape)
    requires WellFormed(t, n)
    ensures Encodes(t.left, t.right, s)
  {
    var s :| Encodes(t.left, t.right, s);
    s
  }

  ghost function DepthMap(t: Tree, n: nat): map<int, nat>
    requires WellFormed(t, n)
  {
    Depths(TheShape(t, n), 1)
  }

  // Root depth one, one more along every pointer, never beyond the node count.
  ghost predicate IsDepths(t: Tree, depths: seq<nat>)
    requires SameShape(t)
  {
    && |depths| == |t.left| > 0 && depths[0] == 1
    && (forall v | 0 <= v < |depths| :: 1 <= depths[v] <= |depths|)
    && (forall v | 0 <= v < |depths| && t.left[v] != -1 ::
          && 0 <= t.left[v] < |depths| && depths[t.left[v]] == depths[v] + 1
          && 0 <= t.right[v] < |depths| && depths[t.right[v]] == depths[v] + 1)
  }

  lemma DepthMapFacts(t: Tree, n: nat, depths: seq<nat>)
    requires WellFormed(t, n) && |depths| == |t.left|
    requires forall v | 0 <= v < |depths| :: v in DepthMap(t, n) && depths[v] == DepthMap(t, n)[v]
    ensures IsDepths(t, depths)
  {
    var s, m := TheShape(t, n), DepthMap(t, n);
    DepthsLabelled(s, 1);
    EncodedPointers(t, s);
    DepthBounds(s, m, 1, 0);
    hide WellFormed, TheShape, DepthMap, Depths;
    forall v | 0 <= v < |depths|
      ensures 1 <= depths[v] <= |depths|
      ensures t.left[v] != -1 ==>
                && 0 <= t.left[v] < |depths| && depths[t.left[v]] == depths[v] + 1
                && 0 <= t.right[v] < |depths| && depths[t.right[v]] == depths[v] + 1
    {
      NodeDepthFacts(t, s, m, v);
    }
  }

  lemma NodeDepthFacts(t: Tree, s: Shape, m: map<int, nat>, v: int)
    requires SameShape(t) && Encodes(t.left, t.right, s) && Labelled(m, s, 1)
    requires 0 <= v < |t.left| && v in m
    ensures 1 <= m[v] <= |t.left|
    ensures t.left[v] != -1 ==>
              && 1 <= t.left[v] < |t.left| && t.left[v] in m && m[t.left[v]] == m[v] + 1
              && 1 <= t.right[v] < |t.left| && t.right[v] in m && m[t.right[v]] == m[v] + 1
  {
    EncodedPointers(t, s);
    EncodedVisitsAll(t, s);
    hide Labelled, Matches, Order;
    DepthBounds(s, m, 1, v);
    if t.left[v] != -1 {
      ChildDepths(t.left, t.right, s, m, 1, v);
    }
  }

  lemma EncodedVisitsAll(t: Tree, s: Shape)
    requires SameShape(t) && Encodes(t.left, t.right, s)
    ensures forall v | 0 <= v < |t.left| :: v in Order(s)
  {
    var order := Order(s);
    forall k | 0 <= k < |order|
      ensures 0 <= order[k] < |t.left|
    {
      assert order[k] in order;
      MatchesInRange(t.left, t.right, s, order[k]);
    }
    DistinctInRange(order, |t.left|);
  }

  // The stack holds roots of pending trees with their depths.
  ghost predicate Pending(t: Tree, m: map<int, nat>, stack: seq<(int, nat)>, ss: seq<Shape>)
    requires SameShape(t)
  {
    && |ss| == |stack|
    && forall k | 0 <= k < |ss| ::
         ss[k].id == stack[k].0 && Matches(t.left, t.right, ss[k]) && Labelled(m, ss[k], stack[k].1)
  }

  function ChildEntries(t: Tree, node: int, depth: nat): seq<(int, nat)>
    requires SameShape(t) && 0 <= node < |t.left|
  {
    if t.left[node] != -1 then [(t.left[node], depth + 1), (t.right[node], depth + 1)] else []
  }

  lemma PopPending(t: Tree, m: map<int, nat>, rest: seq<(int, nat)>, node: int, depth: nat, ss: seq<Shape>)
    returns (below: seq<Shape>)
    requires SameShape(t) && Pending(t, m, rest + [(node, depth)], ss)
    ensures 0 <= node < |t.left| && node in m && m[node] == depth
    ensures Pending(t, m, rest + ChildEntries(t, node, depth), below)
    ensures OrderAll(ss) == [node] + OrderAll(below)
  {
    var k, stack := |rest|, rest + [(node, depth)];
    var top, kept := ss[k], ss[..k];
    assert stack[k] == (node, depth) && ss == kept + [top];
    assert forall j | 0 <= j < k :: stack[j] == rest[j] && kept[j] == ss[j];
    FoldedOrder(kept, top);
    below := if top.Node? then kept + [top.left, top.right] else kept;
  }

  method NodeDepths(t: Tree, n: nat) returns (depths: seq<nat>)
    requires WellFormed(t, n)
    ensures |depths| == |t.left|
    ensures forall v | 0 <= v < |depths| :: v in DepthMap(t, n) && depths[v] == DepthMap(t, n)[v]
    ensures IsDepths(t, depths)
  {
    ghost var s, m := TheShape(t, n), DepthMap(t, n);
    DepthsLabelled(s, 1);
    EveryNodeVisited(t, n);
    depths := FillDepths(t, s, m);
    DepthMapFacts(t, n, depths);
  }

  // The explicit-stack walk that writes each node's depth.
  method FillDepths(t: Tree, ghost s: Shape, ghost m: map<int, nat>) returns (depths: seq<nat>)
    requires SameShape(t) && s.id == 0 && Matches(t.left, t.right, s) && Labelled(m, s, 1)
    ensures |depths| == |t.left|
    ensures forall v | v in Order(s) :: 0 <= v < |depths| && v in m && depths[v] == m[v]
  {
    SingleRoot(t.left, t.right, s);
    var filled := new nat[|t.left|](_ => 0);
    var stack: seq<(int, nat)> := [(0, 1)];
    ghost var ss, visited: seq<int> := [s], [];
    assert Pending(t, m, stack, ss);
    hide Pending, OrderAll, Order, Labelled, Matches;
    while stack != []
      invariant Pending(t, m, stack, ss)
      invariant visited + OrderAll(ss) == Order(s)
      invariant forall v | v in visited :: 0 <= v < filled.Length && v in m && filled[v] == m[v]
      decreases |OrderAll(ss)|
    {
      var top, rest := stack[|stack| - 1], stack[..|stack| - 1];
      var node, depth := top.0, top.1;
      assert stack == rest + [(node, depth)];
      ss := PopPending(t, m, rest, node, depth, ss);
      ConcatAssociates(visited, [node], OrderAll(ss));
      filled[node] := depth;
      visited := visited + [node];
      stack := rest;
      if t.left[node] != -1 {
        stack := stack + [(t.left[node], depth + 1)];
        stack := stack + [(t.right[node], depth + 1)];
        assert stack == rest + ChildEntries(t, node, depth);
      } else {
        assert rest + [] == rest;
      }
    }
    AllPopped(t, m, ss);
    assert visited + [] == visited;
    depths := filled[..];
  }

  lemma AllPopped(t: Tree, m: map<int, nat>, ss: seq<Shape>)
    requires SameShape(t) && Pending(t, m, [], ss)
    ensures OrderAll(ss) == []
  {
  }

  lemma EveryNodeVisited(t: Tree, n: nat)
    requires WellFormed(t, n)
    ensures forall v | 0 <= v < |t.left| :: v in Order(TheShape(t, n))
  {
    EncodedVisitsAll(t, TheShape(t, n));
  }

  // A usable tree has one more leaf than splits.
  lemma LeafCount(t: Tree, n: nat)
    requires WellFormed(t, n)
    ensures |set v | 0 <= v < |t.left| && t.left[v] == -1| == |set v | 0 <= v < |t.left| && t.left[v] != -1| + 1
  {
    var s := TheShape(t, n);
    LeavesExceedInternals(s);
    EveryNodeVisited(t, n);
    forall v | 0 <= v < |t.left|
      ensures v in LeavesOf(s) || v in InternalsOf(s)
    {
      LeavesVisited(s, v);
    }
    forall v
      ensures v in LeavesOf(s) ==> 0 <= v < |t.left| && t.left[v] == -1
      ensures v in InternalsOf(s) ==> 0 <= v < |t.left| && t.left[v] != -1
    {
      LeavesAreLeaves(t.left, t.right, s, v);
    }
    assert LeavesOf(s) == set v | 0 <= v < |t.left| && t.left[v] == -1;
    assert InternalsOf(s) == set v | 0 <= v < |t.left| && t.left[v] != -1;
  }

  // ------------------------------------------------------------------ routing

  ghost predicate Routable(t: Tree, n: nat, s: Shape) {
    SameShape(t) && SplitsInSchema(t, n) && Matches(t.left, t.right, s)
  }

  type Row = seq<real>

  predicate GoesLeft(t: Tree, node: int, row: Row)
    requires SameShape(t) && 0 <= node < |t.left| && 0 <= t.feature[node] < |row|
  {
    row[t.feature[node]] <= t.threshold[node]
  }

  // The leaf a row ends at, and the tree-local features tested on the way.
  ghost function LeafOf(t: Tree, n: nat, s: Shape, row: Row): int
    requires Routable(t, n, s) && |row| == n
  {
    match s
    case Leaf(i) => i
    case Node(i, l, r) => if GoesLeft(t, i, row) then LeafOf(t, n, l, row) else LeafOf(t, n, r, row)
  }

  ghost function SplitsOf(t: Tree, n: nat, s: Shape, row: Row): seq<int>
    requires Routable(t, n, s) && |row| == n
  {
    match s
    case Leaf(i) => []
    case Node(i, l, r) =>
      [t.feature[i]] + if GoesLeft(t, i, row) then SplitsOf(t, n, l, row) else SplitsOf(t, n, r, row)
  }

  // Routing tests exactly depth(leaf) - 1 features, all in the schema, and ends at a leaf.
  lemma {:induction false} RouteDepth(t: Tree, n: nat, s: Shape, row: Row, m: map<int, nat>, d: nat)
    requires Routable(t, n, s) && |row| == n && Labelled(m, s, d)
    ensures LeafOf(t, n, s, row) in m
    ensures m[LeafOf(t, n, s, row)] == d + |SplitsOf(t, n, s, row)|
    ensures 0 <= LeafOf(t, n, s, row) < |t.left| && t.left[LeafOf(t, n, s, row)] == -1
    ensures forall k | 0 <= k < |SplitsOf(t, n, s, row)| :: 0 <= SplitsOf(t, n, s, row)[k] < n
  {
    if s.Node? {
      RouteDepth(t, n, if GoesLeft(t, s.id, row) then s.left else s.right, row, m, d + 1);
    }
  }

  // A row's path through the arrays: from a node to the child on the side its tested value asks
  // for, up to a leaf.
  ghost predicate IsPath(t: Tree, row: Row, from: int, path: seq<int>) {
    && SameShape(t) && path != [] && path[0] == from
    && (forall k | 0 <= k < |path| :: 0 <= path[k] < |t.left|)
    && t.left[path[|path| - 1]] == -1
    && (forall k | 0 <= k < |path| - 1 ::
          && t.left[path[k]] != -1 && 0 <= t.feature[path[k]] < |row|
          && path[k + 1] == (if row[t.feature[path[k]]] <= t.threshold[path[k]] then t.left[path[k]]
                             else t.right[path[k]]))
  }

  // The row's path from the root ends at the leaf.
  ghost predicate LeadsTo(t: Tree, row: Row, leaf: int) {
    exists path :: IsPath(t, row, 0, path) && path[|path| - 1] == leaf
  }

  // A path is determined by where it starts, so it ends at one leaf only.
  lemma {:induction false} OnePath(t: Tree, row: Row, from: int, path: seq<int>, other: seq<int>)
    requires IsPath(t, row, from, path) && IsPath(t, row, from, other)
    ensures path == other
    decreases |path|
  {
    if |path| > 1 && |other| > 1 {
      TailIsPath(t, row, from, path);
      TailIsPath(t, row, from, other);
      OnePath(t, row, path[1], path[1..], other[1..]);
      assert path == [path[0]] + path[1..] && other == [other[0]] + other[1..];
    }
  }

  lemma TailIsPath(t: Tree, row: Row, from: int, path: seq<int>)
    requires IsPath(t, row, from, path) && |path| > 1
    ensures IsPath(t, row, path[1], path[1..])
  {
    var tail := path[1..];
    assert forall k | 0 <= k < |tail| :: tail[k] == path[k + 1];
  }

  lemma OneLeaf(t: Tree, row: Row, leaf: int, other: int)
    requires LeadsTo(t, row, leaf) && LeadsTo(t, row, other)
    ensures leaf == other
  {
    var p :| IsPath(t, row, 0, p) && p[|p| - 1] == leaf;
    var q :| IsPath(t, row, 0, q) && q[|q| - 1] == other;
    OnePath(t, row, 0, p, q);
  }

  // Routing follows that path and tests the features of its internal nodes.
  lemma {:induction false} RouteIsPath(t: Tree, n: nat, s: Shape, row: Row) returns (path: seq<int>)
    requires Routable(t, n, s) && |row| == n
    ensures IsPath(t, row, s.id, path) && path[|path| - 1] == LeafOf(t, n, s, row)
    ensures |SplitsOf(t, n, s, row)| == |path| - 1
    ensures forall k | 0 <= k < |path| - 1 :: SplitsOf(t, n, s, row)[k] == t.feature[path[k]]
  {
    match s
    case Leaf(i) => path := [i];
    case Node(i, l, r) =>
      var next := if GoesLeft(t, i, row) then l else r;
      var rest := RouteIsPath(t, n, next, row);
      path := [i] + rest;
      StepThenPath(t, row, i, rest);
  }

  lemma StepThenPath(t: Tree, row: Row, node: int, rest: seq<int>)
    requires SameShape(t) && 0 <= node < |t.left| && t.left[node] != -1 && 0 <= t.feature[node] < |row|
    requires rest != [] && IsPath(t, row, rest[0], rest)
    requires rest[0] == if row[t.feature[node]] <= t.threshold[node] then t.left[node] else t.right[node]
    ensures IsPath(t, row, node, [node] + rest)
  {
    var path := [node] + rest;
    assert forall k | 1 <= k < |path| :: path[k] == rest[k - 1];
  }

  lemma RouteLeads(t: Tree, n: nat, s: Shape, row: Row)
    requires Routable(t, n, s) && |row| == n && s.id == 0
    ensures LeadsTo(t, row, LeafOf(t, n, s, row))
  {
    var path := RouteIsPath(t, n, s, row);
  }

  ghost function Child(t: Tree, s: Shape, row: Row): Shape
    requires Routable(t, |row|, s)
  {
    if s.Leaf? then s else if GoesLeft(t, s.id, row) then s.left else s.right
  }

  // A row stands at the root of a subtree on its way to its leaf, after this many rounds.
  ghost predicate OnRoute(t: Tree, n: nat, shape: Shape, row: Row, node: int, at: Shape, rounds: nat) {
    && |row| == n && Routable(t, n, shape) && Routable(t, n, at) && node == at.id
    && LeafOf(t, n, at, row) == LeafOf(t, n, shape, row)
    && (at.Node? ==> Size(at) + 2 * rounds <= Size(shape))
  }

  function NextNode(t: Tree, node: int, row: Row): int
    requires SameShape(t) && 0 <= node < |t.left| && (t.left[node] != -1 ==> 0 <= t.feature[node] < |row|)
  {
    if t.left[node] == -1 then node else if GoesLeft(t, node, row) then t.left[node] else t.right[node]
  }

  // What one round does for a row: it stays a valid route, and it ends exactly at the row's leaf.
  ghost predicate Stepped(t: Tree, n: nat, shape: Shape, row: Row, node: int, at: Shape, rounds: nat) {
    && |row| == n && SameShape(t) && 0 <= node < |t.left| && (t.left[node] != -1 ==> 0 <= t.feature[node] < |row|)
    && Routable(t, n, shape) && Routable(t, n, at)
    && OnRoute(t, n, shape, row, NextNode(t, node, row), Child(t, at, row), rounds + 1)
    && if t.left[node] != -1 then 2 * rounds + 3 <= Size(shape) else node == LeafOf(t, n, shape, row)
  }

  lemma RouteStep(t: Tree, n: nat, shape: Shape, row: Row, node: int, at: Shape, rounds: nat)
    requires OnRoute(t, n, shape, row, node, at, rounds)
    ensures Stepped(t, n, shape, row, node, at, rounds)
  {
  }

  // The batched router: every row that is not at a leaf takes one step a round.
  method ApplyTree(t: Tree, n: nat, samples: seq<Row>) returns (leaves: seq<int>)
    requires WellFormed(t, n) && forall r | 0 <= r < |samples| :: |samples[r]| == n
    ensures |leaves| == |samples|
    ensures forall r | 0 <= r < |samples| :: leaves[r] == LeafOf(t, n, TheShape(t, n), samples[r])
    ensures forall r | 0 <= r < |samples| :: LeadsTo(t, samples[r], leaves[r])
  {
    var node: seq<int> := seq(|samples|, _ => 0);
    ghost var shape := TheShape(t, n);
    ghost var at := seq(|samples|, _ => shape);
    ghost var rounds := 0;
    assert forall r | 0 <= r < |samples| :: OnRoute(t, n, shape, samples[r], node[r], at[r], 0);
    hide WellFormed, TheShape, OnRoute, LeafOf, Size, Child, GoesLeft;
    RoundFacts(t, n, shape, samples, node, at, rounds);
    while exists r :: 0 <= r < |samples| && t.left[node[r]] != -1
      invariant |node| == |at| == |samples|
      invariant forall r | 0 <= r < |samples| :: OnRoute(t, n, shape, samples[r], node[r], at[r], rounds)
      invariant forall r | 0 <= r < |samples| ::
                  0 <= node[r] < |t.left| && (t.left[node[r]] != -1 ==> 0 <= t.feature[node[r]] < |samples[r]|)
      decreases Size(shape) - 2 * rounds
    {
      RoundFacts(t, n, shape, samples, node, at, rounds);
      node := seq(|samples|, r requires 0 <= r < |samples| => NextNode(t, node[r], samples[r]));
      at := seq(|samples|, r requires 0 <= r < |samples| => Child(t, at[r], samples[r]));
      rounds := rounds + 1;
      RoundFacts(t, n, shape, samples, node, at, rounds);
    }
    RoundFacts(t, n, shape, samples, node, at, rounds);
    leaves := node;
    AllLead(t, n, shape, samples, leaves);
  }

  lemma AllLead(t: Tree, n: nat, s: Shape, samples: seq<Row>, leaves: seq<int>)
    requires Routable(t, n, s) && s.id == 0 && |leaves| == |samples|
    requires forall r | 0 <= r < |samples| :: |samples[r]| == n && leaves[r] == LeafOf(t, n, s, samples[r])
    ensures forall r | 0 <= r < |samples| :: LeadsTo(t, samples[r], leaves[r])
  {
    forall r | 0 <= r < |samples|
      ensures LeadsTo(t, samples[r], leaves[r])
    {
      RouteLeads(t, n, s, samples[r]);
    }
  }

  lemma RoundFacts(t: Tree, n: nat, shape: Shape, samples: seq<Row>, node: seq<int>, at: seq<Shape>, rounds: nat)
    requires |node| == |at| == |samples|
    requires forall r | 0 <= r < |samples| :: OnRoute(t, n, shape, samples[r], node[r], at[r], rounds)
    ensures forall r | 0 <= r < |samples| :: Stepped(t, n, shape, samples[r], node[r], at[r], rounds)
  {
    forall r | 0 <= r < |samples|
      ensures Stepped(t, n, shape, samples[r], node[r], at[r], rounds)
    {
      RouteStep(t, n, shape, samples[r], node[r], at[r], rounds);
    }
  }
}

// Binary trees encoded in parallel child arrays, as ml/iforest.py stores them. An inductive tree
// is the reference the array traversals are compared with.
module TreeShapes {
  import opened Sets
  import opened Sorting

  datatype Shape = Leaf(id: int) | Node(id: int, left: Shape, right: Shape)

  function Size(s: Shape): (n: nat)
    ensures n >= 1 && (s.Node? ==> n >= 3)
  {
    match s
    case Leaf(_) => 1
    case Node(_, l, r) => 1 + Size(l) + Size(r)
  }

  // The order an explicit stack visits a tree in: the node, its right subtree, its left subtree.
  function Order(s: Shape): (o: seq<int>)
    ensures |o| == Size(s) && o[0] == s.id
  {
    match s
    case Leaf(i) => [i]
    case Node(i, l, r) => [i] + (Order(r) + Order(l))
  }

  // A stack of trees is visited from its top.
  function OrderAll(ss: seq<Shape>): seq<int> {
    if ss == [] then [] else Order(ss[|ss| - 1]) + OrderAll(ss[..|ss| - 1])
  }

  // The arrays hold this tree: -1 twice at a leaf, the children's indices at an internal node.
  ghost predicate Matches(left: seq<int>, right: seq<int>, s: Shape)
    requires |left| == |right|
  {
    && 0 <= s.id < |left|
    && match s
       case Leaf(i) => left[i] == -1 && right[i] == -1
       case Node(i, l, r) =>
         left[i] != -1 && left[i] == l.id && right[i] == r.id && Matches(left, right, l) && Matches(left, right, r)
  }

  // The arrays are exactly this tree, rooted at 0 and reaching every node once.
  ghost predicate Encodes(left: seq<int>, right: seq<int>, s: Shape)
    requires |left| == |right|
  {
    s.id == 0 && Matches(left, right, s) && Distinct(Order(s)) && Size(s) == |left|
  }

  lemma {:induction false} MatchesInRange(left: seq<int>, right: seq<int>, s: Shape, v: int)
    requires |left| == |right| && Matches(left, right, s) && v in Order(s)
    ensures 0 <= v < |left|
  {
    if s.Node? && v != s.id {
      if v in Order(s.right) {
        MatchesInRange(left, right, s.right, v);
      } else {
        MatchesInRange(left, right, s.left, v);
      }
    }
  }

  // Children of a visited node are visited below it, and a node has two children or none.
  lemma {:induction false} ChildrenVisited(left: seq<int>, right: seq<int>, s: Shape, v: int)
    requires |left| == |right| && Matches(left, right, s) && v in Order(s) && 0 <= v < |left|
    ensures if left[v] == -1 then right[v] == -1 else left[v] in Order(s)[1..] && right[v] in Order(s)[1..]
  {
    if s.Node? {
      var r, l := Order(s.right), Order(s.left);
      assert Order(s)[1..] == r + l;
      assert forall u :: u in r + l <==> u in r || u in l;
      if v == s.id {
        assert l[0] in l && r[0] in r;
      } else if v in r {
        ChildrenVisited(left, right, s.right, v);
        assert forall u | u in r[1..] :: u in r;
      } else {
        ChildrenVisited(left, right, s.left, v);
        assert forall u | u in l[1..] :: u in l;
      }
    }
  }

  // ------------------------------------------------------------------ the reachability walk

  datatype Walk = Visited(order: seq<int>) | Twice(node: int)

  ghost predicate InRange(nodes: seq<int>, n: nat) {
    forall k | 0 <= k < |nodes| :: 0 <= nodes[k] < n
  }

  // Child pointers of internal nodes stay inside the arrays.
  ghost predicate PointersInRange(left: seq<int>, right: seq<int>) {
    && |left| == |right|
    && forall i | 0 <= i < |left| && left[i] != -1 :: 0 <= left[i] < |left| && 0 <= right[i] < |left|
  }

  lemma DistinctInRange(nodes: seq<int>, n: nat)
    requires Distinct(nodes) && InRange(nodes, n)
    ensures |nodes| <= n
    ensures |nodes| == n ==> forall v | 0 <= v < n :: v in nodes
  {
    DistinctCardinality(nodes);
    var below := set i | i in Below(n) :: i as int;
    InjectiveImage(Below(n), (i: nat) => i as int, below);
    forall v | v in Elements(nodes)
      ensures v in below
    {
      assert v as nat in Below(n);
    }
    SubsetCardinality(Elements(nodes), below);
    if |nodes| == n {
      SubsetEqual(Elements(nodes), below);
      forall v | 0 <= v < n
        ensures v in nodes
      {
        assert v as nat in Below(n);
        assert v in below;
      }
    }
  }

  function Pushed(left: seq<int>, right: seq<int>, rest: seq<int>, node: int): (stack: seq<int>)
    requires |left| == |right| && 0 <= node < |left|
  {
    if left[node] != -1 then rest + [left[node], right[node]] else rest
  }

  // Pops until the stack is empty or a node comes up a second time.
  ghost function Dfs(left: seq<int>, right: seq<int>, stack: seq<int>, visited: seq<int>): (w: Walk)
    requires PointersInRange(left, right)
    requires InRange(stack, |left|) && InRange(visited, |left|) && Distinct(visited)
    ensures w.Visited? ==> Distinct(w.order) && InRange(w.order, |left|)
    decreases |left| - |visited|, |stack|
  {
    if stack == [] then Visited(visited)
    else
      var node, rest := stack[|stack| - 1], stack[..|stack| - 1];
      if node in visited then Twice(node)
      else
        DistinctInRange(visited + [node], |left|);
        Dfs(left, right, Pushed(left, right, rest, node), visited + [node])
  }

  // The stack holds the roots of these trees.
  ghost predicate Roots(left: seq<int>, right: seq<int>, stack: seq<int>, ss: seq<Shape>)
    requires |left| == |right|
  {
    && |ss| == |stack|
    && forall k | 0 <= k < |ss| :: ss[k].id == stack[k] && Matches(left, right, ss[k])
  }

  lemma OrderAllTwo(ss: seq<Shape>, l: Shape, r: Shape)
    ensures OrderAll(ss + [l, r]) == Order(r) + (Order(l) + OrderAll(ss))
  {
    var two := ss + [l, r];
    assert two[..|two| - 1] == ss + [l];
    assert (ss + [l])[..|ss|] == ss;
  }

  lemma OrderAllOne(ss: seq<Shape>, s: Shape)
    ensures OrderAll(ss + [s]) == Order(s) + OrderAll(ss)
  {
    assert (ss + [s])[..|ss|] == ss;
  }

  // One round of the walk.
  lemma DfsStep(left: seq<int>, right: seq<int>, rest: seq<int>, node: int, visited: seq<int>)
    requires PointersInRange(left, right)
    requires InRange(rest, |left|) && 0 <= node < |left| && InRange(visited, |left|) && Distinct(visited)
    ensures InRange(rest + [node], |left|)
    ensures node in visited ==> Dfs(left, right, rest + [node], visited) == Twice(node)
    ensures node !in visited ==>
              && InRange(Pushed(left, right, rest, node), |left|)
              && InRange(visited + [node], |left|) && Distinct(visited + [node]) && |visited| < |left|
              && Dfs(left, right, rest + [node], visited)
                 == Dfs(left, right, Pushed(left, right, rest, node), visited + [node])
  {
    var stack := rest + [node];
    assert stack[..|stack| - 1] == rest;
    if node !in visited {
      DistinctInRange(visited + [node], |left|);
    }
  }

  // Folding the two trees grown from a node's children, or none, into the tree at the node.
  lemma FoldChildren(left: seq<int>, right: seq<int>, rest: seq<int>, node: int, below: seq<Shape>)
    returns (ss: seq<Shape>)
    requires PointersInRange(left, right) && 0 <= node < |left|
    requires left[node] == -1 ==> right[node] == -1
    requires Roots(left, right, Pushed(left, right, rest, node), below)
    ensures Roots(left, right, rest + [node], ss)
    ensures OrderAll(ss) == [node] + OrderAll(below)
  {
    var n := |rest|;
    var kept, stack := below[..n], Pushed(left, right, rest, node);
    assert forall k | 0 <= k < n :: kept[k] == below[k] && stack[k] == rest[k];
    var top: Shape;
    if left[node] != -1 {
      assert stack[n] == left[node] && stack[n + 1] == right[node];
      assert below == kept + [below[n], below[n + 1]];
      top := Node(node, below[n], below[n + 1]);
    } else {
      assert below == kept;
      top := Leaf(node);
    }
    ss := kept + [top];
    assert Matches(left, right, top);
    FoldedOrder(kept, top);
  }

  // Visiting a tree is visiting its root and then its children's trees.
  lemma FoldedOrder(kept: seq<Shape>, top: Shape)
    ensures OrderAll(kept + [top])
            == [top.id] + OrderAll(if top.Node? then kept + [top.left, top.right] else kept)
  {
    OrderAllOne(kept, top);
    if top.Node? {
      OrderAllTwo(kept, top.left, top.right);
    }
  }

  lemma ConcatAssociates(a: seq<int>, b: seq<int>, c: seq<int>)
    ensures a + b + c == a + (b + c)
  {
  }

  // A walk that never repeats a node has traversed a forest grown from its stack.
  lemma {:induction false} WalkFindsForest(left: seq<int>, right: seq<int>, stack: seq<int>, visited: seq<int>)
    returns (ss: seq<Shape>)
    requires PointersInRange(left, right)
    requires forall i | 0 <= i < |left| && left[i] == -1 :: right[i] == -1
    requires InRange(stack, |left|) && InRange(visited, |left|) && Distinct(visited)
    requires Dfs(left, right, stack, visited).Visited?
    ensures Roots(left, right, stack, ss)
    ensures Dfs(left, right, stack, visited).order == visited + OrderAll(ss)
    decreases |left| - |visited|
  {
    if stack == [] {
      ss := [];
      assert visited + [] == visited;
    } else {
      var node, rest := stack[|stack| - 1], stack[..|stack| - 1];
      assert stack == rest + [node] && 0 <= node < |left|;
      DfsStep(left, right, rest, node, visited);
      hide Dfs, Roots, OrderAll, Pushed, Distinct, InRange;
      var below := WalkFindsForest(left, right, Pushed(left, right, rest, node), visited + [node]);
      ss := FoldChildren(left, right, rest, node, below);
      ConcatAssociates(visited, [node], OrderAll(below));
    }
  }

  // Unfolding the top tree of a stack replaces it by its children.
  lemma UnfoldTop(left: seq<int>, right: seq<int>, rest: seq<int>, node: int, ss: seq<Shape>)
    returns (below: seq<Shape>)
    requires PointersInRange(left, right) && 0 <= node < |left|
    requires Roots(left, right, rest + [node], ss)
    ensures Roots(left, right, Pushed(left, right, rest, node), below)
    ensures OrderAll(ss) == [node] + OrderAll(below)
  {
    var n := |rest|;
    var top, kept := ss[n], ss[..n];
    assert ss == kept + [top];
    assert top.id == (rest + [node])[n] && Matches(left, right, top);
    assert forall k | 0 <= k < n :: kept[k] == ss[k] && (rest + [node])[k] == rest[k];
    FoldedOrder(kept, top);
    below := if top.Node? then kept + [top.left, top.right] else kept;
  }

  // Conversely, from the roots of a forest with no repeated node the walk visits all of it.
  lemma {:induction false} WalkFollowsForest(left: seq<int>, right: seq<int>, stack: seq<int>,
                                           visited: seq<int>, ss: seq<Shape>)
    requires PointersInRange(left, right)
    requires InRange(stack, |left|) && InRange(visited, |left|) && Distinct(visited)
    requires Roots(left, right, stack, ss)
    requires Distinct(visited + OrderAll(ss))
    ensures Dfs(left, right, stack, visited) == Visited(visited + OrderAll(ss))
    decreases |left| - |visited|
  {
    if stack == [] {
      assert visited + [] == visited;
    } else {
      var node, rest := stack[|stack| - 1], stack[..|stack| - 1];
      assert stack == rest + [node];
      var below := UnfoldTop(left, right, rest, node, ss);
      NotYetVisited(visited, node, OrderAll(below));
      DfsStep(left, right, rest, node, visited);
      hide Dfs, Roots, OrderAll, Pushed, Distinct;
      WalkFollowsForest(left, right, Pushed(left, right, rest, node), visited + [node], below);
    }
  }

  lemma NotYetVisited(visited: seq<int>, node: int, after: seq<int>)
    requires Distinct(visited + ([node] + after))
    ensures node !in visited
    ensures visited + ([node] + after) == visited + [node] + after
  {
    var order := visited + ([node] + after);
    assert order[|visited|] == node;
    assert forall k | 0 <= k < |visited| :: order[k] == visited[k];
  }

  lemma SingleRoot(left: seq<int>, right: seq<int>, s: Shape)
    requires |left| == |right|
    ensures OrderAll([s]) == Order(s)
    ensures Roots(left, right, [0], [s]) <==> s.id == 0 && Matches(left, right, s)
  {
    assert [] + [s] == [s];
    OrderAllOne([], s);
  }

  // The walk from the root.
  ghost function RootWalk(left: seq<int>, right: seq<int>): (w: Walk)
    requires PointersInRange(left, right) && |left| > 0
    ensures w.Visited? ==> Distinct(w.order) && InRange(w.order, |left|) && |w.order| <= |left|
  {
    var w := Dfs(left, right, [0], []);
    if w.Visited? then
      DistinctInRange(w.order, |left|);
      w
    else w
  }

  ghost predicate WalkSucceeds(left: seq<int>, right: seq<int>)
    requires PointersInRange(left, right) && |left| > 0
  {
    RootWalk(left, right).Visited? && |RootWalk(left, right).order| == |left|
  }

  // The walk from the root reaches every node once exactly when the arrays encode a tree.
  lemma WalkAcceptsTrees(left: seq<int>, right: seq<int>)
    requires PointersInRange(left, right) && |left| > 0
    requires forall i | 0 <= i < |left| && left[i] == -1 :: right[i] == -1
    ensures WalkSucceeds(left, right) <==> exists s :: Encodes(left, right, s)
  {
    hide Dfs, Roots, OrderAll, Order, Matches;
    if WalkSucceeds(left, right) {
      var ss := WalkFindsForest(left, right, [0], []);
      OneRoot(left, right, ss);
      SingleRoot(left, right, ss[0]);
      assert [] + OrderAll(ss) == Order(ss[0]);
      assert Encodes(left, right, ss[0]);
    }
    if s :| Encodes(left, right, s) {
      SingleRoot(left, right, s);
      assert [] + OrderAll([s]) == Order(s);
      WalkFollowsForest(left, right, [0], [], [s]);
    }
  }

  lemma OneRoot(left: seq<int>, right: seq<int>, ss: seq<Shape>)
    requires |left| == |right| && Roots(left, right, [0], ss)
    ensures |ss| == 1 && ss == [ss[0]]
  {
  }

  // ------------------------------------------------------------------ depths

  // The depth of every node, the root of s counted as d.
  ghost function Depths(s: Shape, d: nat): (m: map<int, nat>)
    ensures forall v :: v in m <==> v in Order(s)
  {
    match s
    case Leaf(i) => map[i := d]
    case Node(i, l, r) => Depths(l, d + 1) + Depths(r, d + 1) + map[i := d]
  }

  // m gives the root depth d and every child one more than its parent.
  ghost predicate Labelled(m: map<int, nat>, s: Shape, d: nat) {
    && s.id in m && m[s.id] == d
    && (s.Node? ==> Labelled(m, s.left, d + 1) && Labelled(m, s.right, d + 1))
  }

  lemma {:induction false} LabelledAgrees(m: map<int, nat>, m': map<int, nat>, s: Shape, d: nat)
    requires Labelled(m, s, d)
    requires forall v | v in Order(s) :: v in m' && (v in m ==> m'[v] == m[v])
    ensures Labelled(m', s, d)
  {
    assert Order(s)[0] in Order(s);
    if s.Node? {
      LabelledAgrees(m, m', s.left, d + 1);
      LabelledAgrees(m, m', s.right, d + 1);
    }
  }

  lemma DistinctNode(i: int, l: Shape, r: Shape)
    requires Distinct(Order(Node(i, l, r)))
    ensures Distinct(Order(l)) && Distinct(Order(r))
    ensures forall v | v in Order(l) :: v != i && v !in Order(r)
    ensures forall v | v in Order(r) :: v != i && v !in Order(l)
  {
    var a, b, whole := Order(r), Order(l), Order(Node(i, l, r));
    assert forall k | 0 <= k < |a| :: whole[1 + k] == a[k];
    assert forall k | 0 <= k < |b| :: whole[1 + |a| + k] == b[k];
    forall v | v in b
      ensures v != i && v !in a
    {
      var k :| 0 <= k < |b| && b[k] == v;
      assert whole[0] == i;
    }
    forall v | v in a
      ensures v != i
    {
      var k :| 0 <= k < |a| && a[k] == v;
      assert whole[0] == i;
    }
  }

  lemma DepthsOfSubtrees(i: int, l: Shape, r: Shape, d: nat)
    requires Distinct(Order(Node(i, l, r)))
    ensures var m := Depths(Node(i, l, r), d);
            && i in m && m[i] == d
            && (forall v | v in Order(l) :: v in m && m[v] == Depths(l, d + 1)[v])
            && (forall v | v in Order(r) :: v in m && m[v] == Depths(r, d + 1)[v])
  {
    DistinctNode(i, l, r);
  }

  lemma {:induction false} DepthsLabelled(s: Shape, d: nat)
    requires Distinct(Order(s))
    ensures Labelled(Depths(s, d), s, d)
  {
    if s.Node? {
      DistinctNode(s.id, s.left, s.right);
      DepthsLabelled(s.left, d + 1);
      DepthsLabelled(s.right, d + 1);
      DepthsOfSubtrees(s.id, s.left, s.right, d);
      hide Depths;
      LabelledAgrees(Depths(s.left, d + 1), Depths(s, d), s.left, d + 1);
      LabelledAgrees(Depths(s.right, d + 1), Depths(s, d), s.right, d + 1);
    }
  }

  // Depth grows by one along every child pointer.
  lemma {:induction false} ChildDepths(left: seq<int>, right: seq<int>, s: Shape, m: map<int, nat>, d: nat, v: int)
    requires |left| == |right| && Matches(left, right, s) && Labelled(m, s, d)
    requires v in Order(s) && 0 <= v < |left| && left[v] != -1
    ensures v in m && left[v] in m && right[v] in m
    ensures m[left[v]] == m[v] + 1 && m[right[v]] == m[v] + 1
  {
    if s.Node? && v != s.id {
      if v in Order(s.right) {
        ChildDepths(left, right, s.right, m, d + 1, v);
      } else {
        ChildDepths(left, right, s.left, m, d + 1, v);
      }
    }
  }

  lemma {:induction false} DepthBounds(s: Shape, m: map<int, nat>, d: nat, v: int)
    requires Labelled(m, s, d) && v in Order(s)
    ensures v in m && d <= m[v] < d + Size(s)
  {
    if s.Node? && v != s.id {
      if v in Order(s.right) {
        DepthBounds(s.right, m, d + 1, v);
      } else {
        DepthBounds(s.left, m, d + 1, v);
      }
    }
  }

  // ------------------------------------------------------------------ leaves

  ghost function LeavesOf(s: Shape): set<int> {
    match s
    case Leaf(i) => {i}
    case Node(_, l, r) => LeavesOf(l) + LeavesOf(r)
  }

  ghost function InternalsOf(s: Shape): set<int> {
    match s
    case Leaf(_) => {}
    case Node(i, l, r) => InternalsOf(l) + InternalsOf(r) + {i}
  }

  lemma {:induction false} LeavesVisited(s: Shape, v: int)
    ensures v in LeavesOf(s) || v in InternalsOf(s) <==> v in Order(s)
  {
    if s.Node? {
      LeavesVisited(s.left, v);
      LeavesVisited(s.right, v);
    }
  }

  // A full binary tree has one more leaf than internal nodes.
  lemma {:induction false} LeavesExceedInternals(s: Shape)
    requires Distinct(Order(s))
    ensures |LeavesOf(s)| == |InternalsOf(s)| + 1
  {
    if s.Node? {
      DistinctNode(s.id, s.left, s.right);
      LeavesExceedInternals(s.left);
      LeavesExceedInternals(s.right);
      SubtreesDisjoint(s.id, s.left, s.right);
      DisjointUnion(LeavesOf(s.left), LeavesOf(s.right));
      DisjointUnion(InternalsOf(s.left), InternalsOf(s.right));
    }
  }

  lemma SubtreesDisjoint(i: int, l: Shape, r: Shape)
    requires forall v | v in Order(l) :: v != i && v !in Order(r)
    requires forall v | v in Order(r) :: v != i
    ensures LeavesOf(l) !! LeavesOf(r) && InternalsOf(l) !! InternalsOf(r)
    ensures i !in InternalsOf(l) && i !in InternalsOf(r)
  {
    hide LeavesOf, InternalsOf, Order;
    forall v
      ensures v in LeavesOf(l) || v in InternalsOf(l) <==> v in Order(l)
      ensures v in LeavesOf(r) || v in InternalsOf(r) <==> v in Order(r)
      ensures !(v in LeavesOf(l) && v in LeavesOf(r)) && !(v in InternalsOf(l) && v in InternalsOf(r))
    {
      LeavesVisited(l, v);
      LeavesVisited(r, v);
    }
  }

  lemma {:induction false} LeavesAreLeaves(left: seq<int>, right: seq<int>, s: Shape, v: int)
    requires |left| == |right| && Matches(left, right, s)
    ensures v in LeavesOf(s) ==> 0 <= v < |left| && left[v] == -1
    ensures v in InternalsOf(s) ==> 0 <= v < |left| && left[v] != -1
  {
    if s.Node? {
      LeavesAreLeaves(left, right, s.left, v);
      LeavesAreLeaves(left, right, s.right, v);
    }
  }
}
