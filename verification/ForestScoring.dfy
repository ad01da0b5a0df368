// The depth sum a forest scores with, and its decomposition by feature (ml/iforest.py,
// ml/attribution.py).
module ForestScoring {
  import opened IsolationForest
  import opened Options
  import opened TreeShapes

  // The expected path length beyond a leaf of n training samples; its logarithm is not modelled.
  type PathLength = int -> real

  datatype Forest = Forest(trees: seq<Tree>, pathLengths: seq<seq<real>>)

  ghost predicate UsableTrees(trees: seq<Tree>, n: nat) {
    forall k | 0 <= k < |trees| :: WellFormed(trees[k], n)
  }

  // Depth plus correction at every node of one tree.
  ghost predicate IsPathLengths(t: Tree, n: nat, c: PathLength, lengths: seq<real>)
    requires WellFormed(t, n)
  {
    && |lengths| == |t.left|
    && forall v | 0 <= v < |lengths| :: v in DepthMap(t, n) && lengths[v] == DepthMap(t, n)[v] as real + c(t.samples[v])
  }

  ghost predicate ValidForest(f: Forest, n: nat, c: PathLength) {
    && f.trees != [] && UsableTrees(f.trees, n)
    && |f.pathLengths| == |f.trees|
    && forall k | 0 <= k < |f.trees| :: IsPathLengths(f.trees[k], n, c, f.pathLengths[k])
  }

  // None stands for the error an empty forest raises.
  method BuildForest(trees: seq<Tree>, n: nat, c: PathLength) returns (f: Option<Forest>)
    requires UsableTrees(trees, n)
    ensures f.None? <==> trees == []
    ensures f.Some? ==> ValidForest(f.value, n, c) && f.value.trees == trees
  {
    if trees == [] {
      return None;
    }
    hide DepthMap, WellFormed;
    var pathLengths: seq<seq<real>> := [];
    for k := 0 to |trees|
      invariant |pathLengths| == k
      invariant forall j | 0 <= j < k :: IsPathLengths(trees[j], n, c, pathLengths[j])
    {
      var lengths := TreePathLengths(trees[k], n, c);
      pathLengths := pathLengths + [lengths];
    }
    f := Some(Forest(trees, pathLengths));
  }

  method TreePathLengths(t: Tree, n: nat, c: PathLength) returns (lengths: seq<real>)
    requires WellFormed(t, n)
    ensures IsPathLengths(t, n, c, lengths)
  {
    var depths := NodeDepths(t, n);
    lengths := seq(|depths|, v requires 0 <= v < |depths| => depths[v] as real + c(t.samples[v]));
  }

  // xs[indices]: a row's columns in a tree's own order, or the schema's features behind a tree's.
  function Select<T>(xs: seq<T>, indices: seq<int>): (selected: seq<T>)
    requires forall k | 0 <= k < |indices| :: 0 <= indices[k] < |xs|
    ensures |selected| == |indices|
  {
    seq(|indices|, k requires 0 <= k < |indices| => xs[indices[k]])
  }

  // What later steps use of a usable tree.
  lemma FeaturesInSchema(t: Tree, n: nat)
    requires WellFormed(t, n)
    ensures SameShape(t) && |t.features| == n && forall k | 0 <= k < n :: 0 <= t.features[k] < n
    ensures Routable(t, n, TheShape(t, n)) && Labelled(DepthMap(t, n), TheShape(t, n), 1)
    ensures TheShape(t, n).id == 0
  {
    CoversSchemaMeaning(t.features, n);
    DepthsLabelled(TheShape(t, n), 1);
  }

  lemma RouteFacts(t: Tree, n: nat, row: Row)
    requires WellFormed(t, n) && |row| == n
    ensures |t.features| == n && forall k | 0 <= k < n :: 0 <= t.features[k] < n
    ensures SameShape(t) && Routable(t, n, TheShape(t, n))
    ensures var s, p := TheShape(t, n), Select(row, t.features);
            && 0 <= LeafOf(t, n, s, p) < |t.left| && t.left[LeafOf(t, n, s, p)] == -1
            && forall k | 0 <= k < |SplitsOf(t, n, s, p)| :: 0 <= SplitsOf(t, n, s, p)[k] < n
  {
    FeaturesInSchema(t, n);
    hide WellFormed, TheShape, DepthMap, Labelled;
    RouteDepth(t, n, TheShape(t, n), Select(row, t.features), DepthMap(t, n), 1);
  }

  ghost function RowLeaf(t: Tree, n: nat, row: Row): (leaf: int)
    requires WellFormed(t, n) && |row| == n
    ensures 0 <= leaf < |t.left| && t.left[leaf] == -1
  {
    RouteFacts(t, n, row);
    LeafOf(t, n, TheShape(t, n), Select(row, t.features))
  }

  // The schema-wide features one tree tests for a row.
  ghost function RowSplits(t: Tree, n: nat, row: Row): (splits: seq<int>)
    requires WellFormed(t, n) && |row| == n
    ensures forall k | 0 <= k < |splits| :: 0 <= splits[k] < n
  {
    RouteFacts(t, n, row);
    hide WellFormed, TheShape, Routable, LeafOf, SplitsOf;
    Select(t.features, SplitsOf(t, n, TheShape(t, n), Select(row, t.features)))
  }

  // A row reaches its leaf after exactly depth(leaf) - 1 splits.
  lemma SplitsAreDepth(t: Tree, n: nat, row: Row)
    requires WellFormed(t, n) && |row| == n
    ensures RowLeaf(t, n, row) in DepthMap(t, n)
    ensures DepthMap(t, n)[RowLeaf(t, n, row)] == 1 + |RowSplits(t, n, row)|
  {
    FeaturesInSchema(t, n);
    hide WellFormed, TheShape, DepthMap, Labelled;
    var s, p := TheShape(t, n), Select(row, t.features);
    RouteDepth(t, n, s, p, DepthMap(t, n), 1);
  }

  // A row's path through the arrays in schema terms: a tree's own features are read through its map.
  ghost predicate IsSchemaPath(t: Tree, row: Row, path: seq<int>) {
    && SameShape(t) && path != [] && path[0] == 0
    && (forall k | 0 <= k < |path| :: 0 <= path[k] < |t.left|)
    && t.left[path[|path| - 1]] == -1
    && (forall k | 0 <= k < |path| - 1 ::
          && t.left[path[k]] != -1 && 0 <= t.feature[path[k]] < |t.features|
          && 0 <= t.features[t.feature[path[k]]] < |row|
          && path[k + 1] == (if row[t.features[t.feature[path[k]]]] <= t.threshold[path[k]] then t.left[path[k]]
                             else t.right[path[k]]))
  }

  // Such a path ends at the leaf, and these are the schema features it tests, in order.
  ghost predicate Follows(t: Tree, row: Row, leaf: int, splits: seq<int>) {
    exists path :: IsSchemaPath(t, row, path) && path[|path| - 1] == leaf && TestsAlong(t, path, splits)
  }

  ghost predicate TestsAlong(t: Tree, path: seq<int>, splits: seq<int>)
    requires SameShape(t) && forall k | 0 <= k < |path| :: 0 <= path[k] < |t.left|
  {
    && |splits| == |path| - 1
    && forall k | 0 <= k < |splits| ::
         0 <= t.feature[path[k]] < |t.features| && splits[k] == t.features[t.feature[path[k]]]
  }

  // Reading a row through the map turns schema paths into the tree's own.
  lemma SchemaPathIsPath(t: Tree, n: nat, row: Row, path: seq<int>)
    requires SameShape(t) && |t.features| == n == |row| && forall k | 0 <= k < n :: 0 <= t.features[k] < n
    ensures IsSchemaPath(t, row, path) <==> IsPath(t, Select(row, t.features), 0, path)
  {
  }

  lemma RowFollows(t: Tree, n: nat, row: Row)
    requires WellFormed(t, n) && |row| == n
    ensures Follows(t, row, RowLeaf(t, n, row), RowSplits(t, n, row))
  {
    FeaturesInSchema(t, n);
    var s, p := TheShape(t, n), Select(row, t.features);
    hide WellFormed, TheShape, DepthMap, Labelled, Follows;
    RouteDepth(t, n, s, p, DepthMap(t, n), 1);
    RouteFollows(t, n, s, row, Select(t.features, SplitsOf(t, n, s, p)));
  }

  lemma RouteFollows(t: Tree, n: nat, s: Shape, row: Row, splits: seq<int>)
    requires |t.features| == n == |row| && forall k | 0 <= k < n :: 0 <= t.features[k] < n
    requires Routable(t, n, s) && s.id == 0
    requires var locals := SplitsOf(t, n, s, Select(row, t.features));
             (forall k | 0 <= k < |locals| :: 0 <= locals[k] < n) && splits == Select(t.features, locals)
    ensures Follows(t, row, LeafOf(t, n, s, Select(row, t.features)), splits)
  {
    hide LeafOf, SplitsOf, IsPath, IsSchemaPath;
    var path := RouteIsPath(t, n, s, Select(row, t.features));
    SchemaPathIsPath(t, n, row, path);
    PathInArrays(t, row, path);
    assert TestsAlong(t, path, splits);
  }

  lemma PathInArrays(t: Tree, row: Row, path: seq<int>)
    requires IsSchemaPath(t, row, path)
    ensures SameShape(t) && path != [] && forall k | 0 <= k < |path| :: 0 <= path[k] < |t.left|
    ensures forall k | 0 <= k < |path| - 1 :: 0 <= t.feature[path[k]] < |t.features|
  {
  }

  // Leaf and tested features are determined by the arrays and the row.
  lemma FollowsOnce(t: Tree, n: nat, row: Row, leaf: int, splits: seq<int>)
    requires WellFormed(t, n) && |row| == n && Follows(t, row, leaf, splits)
    ensures leaf == RowLeaf(t, n, row) && splits == RowSplits(t, n, row)
  {
    RowFollows(t, n, row);
    FeaturesInSchema(t, n);
    hide RowLeaf, RowSplits, WellFormed, Follows;
    SameFollowing(t, n, row, leaf, splits, RowLeaf(t, n, row), RowSplits(t, n, row));
  }

  lemma SameFollowing(t: Tree, n: nat, row: Row, leaf: int, splits: seq<int>, leaf': int, splits': seq<int>)
    requires SameShape(t) && |t.features| == n == |row| && forall k | 0 <= k < n :: 0 <= t.features[k] < n
    requires Follows(t, row, leaf, splits) && Follows(t, row, leaf', splits')
    ensures leaf == leaf' && splits == splits'
  {
    var p :| IsSchemaPath(t, row, p) && p[|p| - 1] == leaf && TestsAlong(t, p, splits);
    var q :| IsSchemaPath(t, row, q) && q[|q| - 1] == leaf' && TestsAlong(t, q, splits');
    SchemaPathIsPath(t, n, row, p);
    SchemaPathIsPath(t, n, row, q);
    hide IsPath, IsSchemaPath;
    OnePath(t, Select(row, t.features), 0, p, q);
  }

  // ------------------------------------------------------------------ sums over the forest

  // What the first k trees add to a row's depth.
  ghost function DepthSum(f: Forest, n: nat, c: PathLength, row: Row, k: nat): real
    requires ValidForest(f, n, c) && |row| == n && k <= |f.trees|
  {
    if k == 0 then 0.0
    else DepthSum(f, n, c, row, k - 1) + (f.pathLengths[k - 1][RowLeaf(f.trees[k - 1], n, row)] - 1.0)
  }

  ghost function AllSplits(trees: seq<Tree>, n: nat, row: Row, k: nat): (splits: seq<int>)
    requires UsableTrees(trees, n) && |row| == n && k <= |trees|
    ensures forall i | 0 <= i < |splits| :: 0 <= splits[i] < n
  {
    if k == 0 then [] else AllSplits(trees, n, row, k - 1) + RowSplits(trees[k - 1], n, row)
  }

  ghost function LeafCorrections(trees: seq<Tree>, n: nat, c: PathLength, row: Row, k: nat): real
    requires UsableTrees(trees, n) && |row| == n && k <= |trees|
  {
    if k == 0 then 0.0
    else LeafCorrections(trees, n, c, row, k - 1) + c(trees[k - 1].samples[RowLeaf(trees[k - 1], n, row)])
  }

  // The scored depth is the number of splits plus the leaf corrections, for any forest and row.
  lemma {:induction false} DepthDecomposes(f: Forest, n: nat, c: PathLength, row: Row, k: nat)
    requires ValidForest(f, n, c) && |row| == n && k <= |f.trees|
    ensures DepthSum(f, n, c, row, k)
            == |AllSplits(f.trees, n, row, k)| as real + LeafCorrections(f.trees, n, c, row, k)
  {
    hide WellFormed, RowLeaf, RowSplits, DepthMap, IsPathLengths;
    if k > 0 {
      DepthDecomposes(f, n, c, row, k - 1);
      TreeTerm(f.trees[k - 1], n, c, row, f.pathLengths[k - 1]);
    }
  }

  // One tree contributes its splits plus its leaf's correction.
  lemma TreeTerm(t: Tree, n: nat, c: PathLength, row: Row, lengths: seq<real>)
    requires WellFormed(t, n) && |row| == n && IsPathLengths(t, n, c, lengths)
    ensures SameShape(t) && |lengths| == |t.left|
    ensures lengths[RowLeaf(t, n, row)] - 1.0 == |RowSplits(t, n, row)| as real + c(t.samples[RowLeaf(t, n, row)])
  {
    SplitsAreDepth(t, n, row);
    hide RowLeaf, RowSplits, DepthMap;
  }

  ghost predicate Rows(rows: seq<Row>, n: nat) {
    forall r | 0 <= r < |rows| :: |rows[r]| == n
  }

  lemma PathLengthCount(t: Tree, n: nat, c: PathLength, lengths: seq<real>)
    requires WellFormed(t, n) && IsPathLengths(t, n, c, lengths)
    ensures |lengths| == |t.left|
  {
  }

  // The batched scorer's depth sum.
  method DecisionDepths(f: Forest, n: nat, c: PathLength, rows: seq<Row>) returns (depths: seq<real>)
    requires ValidForest(f, n, c) && Rows(rows, n)
    ensures |depths| == |rows|
    ensures forall r | 0 <= r < |rows| :: depths[r] == DepthSum(f, n, c, rows[r], |f.trees|)
  {
    hide WellFormed, RowLeaf, DepthMap, IsPathLengths;
    depths := seq(|rows|, _ => 0.0);
    for k := 0 to |f.trees|
      invariant |depths| == |rows|
      invariant forall r | 0 <= r < |rows| :: depths[r] == DepthSum(f, n, c, rows[r], k)
    {
      var leaves := RowLeaves(f.trees[k], n, rows);
      PathLengthCount(f.trees[k], n, c, f.pathLengths[k]);
      var lengths := f.pathLengths[k];
      var before := depths;
      depths := seq(|rows|, r requires 0 <= r < |rows| && |leaves| == |before| == |rows|
          && 0 <= leaves[r] < |lengths| =>
        before[r] + (lengths[leaves[r]] - 1.0));
    }
  }

  method RowLeaves(t: Tree, n: nat, rows: seq<Row>) returns (leaves: seq<int>)
    requires WellFormed(t, n) && Rows(rows, n)
    ensures |leaves| == |rows|
    ensures forall r | 0 <= r < |rows| :: leaves[r] == RowLeaf(t, n, rows[r])
  {
    FeaturesInSchema(t, n);
    var samples := seq(|rows|, r requires 0 <= r < |rows| => Select(rows[r], t.features));
    leaves := ApplyTree(t, n, samples);
  }

  // ------------------------------------------------------------------ attribution

  // How often each feature occurs.
  function Tally(splits: seq<int>): (m: map<int, nat>) {
    map g | g in splits :: multiset(splits)[g]
  }

  lemma TallyStep(splits: seq<int>, g: int)
    ensures Tally(splits + [g]) == Tally(splits)[g := (if g in Tally(splits) then Tally(splits)[g] else 0) + 1]
  {
    assert multiset(splits + [g]) == multiset(splits) + multiset([g]);
    assert forall h :: h in splits + [g] <==> h in splits || h == g;
    assert g !in splits ==> multiset(splits)[g] == 0;
  }

  lemma EmptyTally()
    ensures Tally([]) == map[]
  {
  }

  datatype Attribution = Attribution(splitCounts: map<int, nat>, totalSplits: nat, leafCorrection: real, depths: real)

  // The scalar walk down one tree: it stops at the leaf the batched router finds and has counted
  // every feature tested on the way.
  method AttributeTree(t: Tree, n: nat, row: Row, counts: map<int, nat>, ghost before: seq<int>)
    returns (counts': map<int, nat>, splits: nat, leaf: int)
    requires WellFormed(t, n) && |row| == n && counts == Tally(before)
    ensures leaf == RowLeaf(t, n, row)
    ensures splits == |RowSplits(t, n, row)|
    ensures counts' == Tally(before + RowSplits(t, n, row))
    ensures Follows(t, row, leaf, RowSplits(t, n, row))
  {
    RowFollows(t, n, row);
    FeaturesInSchema(t, n);
    var permuted := Select(row, t.features);
    ghost var shape := TheShape(t, n);
    hide WellFormed, TheShape;
    ghost var locals;
    counts', splits, leaf, locals := WalkTree(t, n, permuted, counts, before, shape);
  }

  method WalkTree(t: Tree, n: nat, permuted: Row, counts: map<int, nat>, ghost before: seq<int>, ghost shape: Shape)
    returns (counts': map<int, nat>, splits: nat, leaf: int, ghost locals: seq<int>)
    requires SameShape(t) && |t.features| == n == |permuted|
    requires Routable(t, n, shape) && shape.id == 0 && counts == Tally(before)
    ensures leaf == LeafOf(t, n, shape, permuted)
    ensures locals == SplitsOf(t, n, shape, permuted) && splits == |locals|
    ensures forall k | 0 <= k < |locals| :: 0 <= locals[k] < n
    ensures counts' == Tally(before + Select(t.features, locals))
  {
    hide LeafOf, SplitsOf, Tally, Routable, Size;
    ghost var at := shape;
    locals := [];
    counts', splits, leaf := counts, 0, 0;
    assert before + Select(t.features, []) == before;
    assert [] + SplitsOf(t, n, at, permuted) == SplitsOf(t, n, at, permuted);
    WalkFacts(t, n, at, permuted, locals);
    while t.left[leaf] != -1
      invariant Routable(t, n, at) && 0 <= leaf < |t.left| && leaf == at.id
      invariant LeafOf(t, n, at, permuted) == LeafOf(t, n, shape, permuted)
      invariant locals + SplitsOf(t, n, at, permuted) == SplitsOf(t, n, shape, permuted)
      invariant splits == |locals| && forall k | 0 <= k < |locals| :: 0 <= locals[k] < n
      invariant counts' == Tally(before + Select(t.features, locals))
      decreases Size(at)
    {
      WalkFacts(t, n, at, permuted, locals);
      var local := t.feature[leaf];
      var feature := t.features[local];
      TallyStep(before + Select(t.features, locals), feature);
      SelectStep(t.features, before, locals, local);
      counts' := counts'[feature := (if feature in counts' then counts'[feature] else 0) + 1];
      splits := splits + 1;
      at := if GoesLeft(t, at.id, permuted) then at.left else at.right;
      locals := locals + [local];
      leaf := if permuted[local] <= t.threshold[leaf] then t.left[leaf] else t.right[leaf];
      WalkFacts(t, n, at, permuted, locals);
    }
    WalkFacts(t, n, at, permuted, locals);
  }

  lemma SelectStep(features: seq<int>, before: seq<int>, locals: seq<int>, local: int)
    requires forall k | 0 <= k < |locals| :: 0 <= locals[k] < |features|
    requires 0 <= local < |features|
    ensures before + Select(features, locals + [local]) == before + Select(features, locals) + [features[local]]
  {
  }

  // At a leaf the walk is over; at a split one more step keeps the leaf and extends the splits.
  lemma WalkFacts(t: Tree, n: nat, at: Shape, row: Row, done: seq<int>)
    requires Routable(t, n, at) && |row| == n
    ensures SameShape(t) && 0 <= at.id < |t.left|
    ensures t.left[at.id] == -1 ==> LeafOf(t, n, at, row) == at.id && done + SplitsOf(t, n, at, row) == done
    ensures t.left[at.id] != -1 ==>
              && at.Node? && 0 <= t.feature[at.id] < n
              && var next := if GoesLeft(t, at.id, row) then at.left else at.right;
                 && Routable(t, n, next) && Size(next) < Size(at)
                 && next.id == (if GoesLeft(t, at.id, row) then t.left[at.id] else t.right[at.id])
                 && LeafOf(t, n, next, row) == LeafOf(t, n, at, row)
                 && (done + [t.feature[at.id]]) + SplitsOf(t, n, next, row) == done + SplitsOf(t, n, at, row)
  {
    if at.Leaf? {
      assert done + [] == done;
    } else {
      WalkOn(t, n, at, row, done);
    }
  }

  lemma WalkOn(t: Tree, n: nat, at: Shape, row: Row, done: seq<int>)
    requires Routable(t, n, at) && |row| == n && t.left[at.id] != -1
    ensures at.Node? && 0 <= t.feature[at.id] < n
    ensures var next := if GoesLeft(t, at.id, row) then at.left else at.right;
            && Routable(t, n, next) && Size(next) < Size(at)
            && next.id == (if GoesLeft(t, at.id, row) then t.left[at.id] else t.right[at.id])
            && LeafOf(t, n, next, row) == LeafOf(t, n, at, row)
            && (done + [t.feature[at.id]]) + SplitsOf(t, n, next, row) == done + SplitsOf(t, n, at, row)
  {
  }

  // One row's decomposition. Its depths are the ones the batched scorer computes.
  method AttributeRow(f: Forest, n: nat, c: PathLength, row: Row) returns (a: Attribution)
    requires ValidForest(f, n, c) && |row| == n
    ensures a.splitCounts == Tally(AllSplits(f.trees, n, row, |f.trees|))
    ensures a.totalSplits == |AllSplits(f.trees, n, row, |f.trees|)|
    ensures a.depths == DepthSum(f, n, c, row, |f.trees|)
    ensures a.leafCorrection == LeafCorrections(f.trees, n, c, row, |f.trees|)
    ensures a.totalSplits as real + a.leafCorrection == a.depths
  {
    hide WellFormed, RowLeaf, RowSplits, DepthMap, IsPathLengths, Tally, Follows;
    var counts: map<int, nat> := map[];
    var total, depths := 0, 0.0;
    EmptyTally();
    for k := 0 to |f.trees|
      invariant counts == Tally(AllSplits(f.trees, n, row, k))
      invariant total == |AllSplits(f.trees, n, row, k)|
      invariant depths == DepthSum(f, n, c, row, k)
    {
      var splits, leaf;
      counts, splits, leaf := AttributeTree(f.trees[k], n, row, counts, AllSplits(f.trees, n, row, k));
      TreeTerm(f.trees[k], n, c, row, f.pathLengths[k]);
      total := total + splits;
      depths := depths + (f.pathLengths[k][leaf] - 1.0);
    }
    DepthDecomposes(f, n, c, row, |f.trees|);
    a := Attribution(counts, total, depths - total as real, depths);
  }

  // The counts of the first n features.
  function CountTotal(counts: map<int, nat>, n: nat): nat {
    if n == 0 then 0 else CountTotal(counts, n - 1) + if n - 1 in counts then counts[n - 1] else 0
  }

  // The per-feature counts add up to the number of splits.
  lemma {:induction false} TallyTotal(splits: seq<int>, n: nat)
    requires forall k | 0 <= k < |splits| :: 0 <= splits[k] < n
    ensures CountTotal(Tally(splits), n) == |splits|
  {
    if splits == [] {
      EmptyTotal(n);
    } else {
      var init, g := splits[..|splits| - 1], splits[|splits| - 1];
      assert splits == init + [g];
      TallyTotal(init, n);
      TallyStep(init, g);
      BumpTotal(Tally(init), g, n);
    }
  }

  lemma {:induction false} EmptyTotal(n: nat)
    ensures CountTotal(Tally([]), n) == 0
  {
    if n > 0 {
      EmptyTotal(n - 1);
    }
  }

  lemma {:induction false} BumpTotal(counts: map<int, nat>, g: nat, n: nat)
    ensures CountTotal(counts[g := (if g in counts then counts[g] else 0) + 1], n)
            == CountTotal(counts, n) + if g < n then 1 else 0
  {
    if n > 0 {
      BumpTotal(counts, g, n - 1);
    }
  }

  // Attribution accounts for every split of every tree: the counts sum to total_splits, which is
  // the sum over the trees of depth(leaf) - 1.
  lemma AttributionIsComplete(f: Forest, n: nat, c: PathLength, row: Row)
    requires ValidForest(f, n, c) && |row| == n
    ensures var splits := AllSplits(f.trees, n, row, |f.trees|);
            CountTotal(Tally(splits), n) == |splits| == LeafDepthSum(f.trees, n, row, |f.trees|)
  {
    TallyTotal(AllSplits(f.trees, n, row, |f.trees|), n);
    SplitsPerLeaf(f.trees, n, row, |f.trees|);
  }

  ghost function LeafDepthSum(trees: seq<Tree>, n: nat, row: Row, k: nat): int
    requires UsableTrees(trees, n) && |row| == n && k <= |trees|
  {
    if k == 0 then 0
    else
      SplitsAreDepth(trees[k - 1], n, row);
      LeafDepthSum(trees, n, row, k - 1) + (DepthMap(trees[k - 1], n)[RowLeaf(trees[k - 1], n, row)] - 1)
  }

  lemma {:induction false} SplitsPerLeaf(trees: seq<Tree>, n: nat, row: Row, k: nat)
    requires UsableTrees(trees, n) && |row| == n && k <= |trees|
    ensures |AllSplits(trees, n, row, k)| == LeafDepthSum(trees, n, row, k)
  {
    hide WellFormed, RowLeaf, RowSplits, DepthMap;
    if k > 0 {
      SplitsPerLeaf(trees, n, row, k - 1);
      SplitsAreDepth(trees[k - 1], n, row);
    }
  }
}
