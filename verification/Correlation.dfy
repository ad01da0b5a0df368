// Incident correlation of detection/detector.py: findings about one entity whose windows form
// a contiguous run share a correlation id.
module Correlation {
  import opened Options
  import opened Sorting

  datatype Entity = Entity(kind: string, key: string)
  datatype Window = Window(start: real, end: real)

  // The material of a correlation id; hashing and truncating it is not modelled.
  datatype CorrelationId = CorrelationId(entity: Entity, anchor: real)

  predicate Touches(a: Window, b: Window) {
    a.start <= b.end && b.start <= a.end
  }

  ghost predicate Proper(windows: set<Window>) {
    forall w | w in windows :: w.start <= w.end
  }

  // No window outside the group adjoins or overlaps one inside it.
  ghost predicate Closed(windows: set<Window>, group: set<Window>) {
    && group <= windows
    && forall a, b | a in group && b in windows && Touches(a, b) :: b in group
  }

  // a and b lie in one connected component of the touching relation.
  ghost predicate Together(windows: set<Window>, a: Window, b: Window) {
    forall group | Closed(windows, group) :: a in group <==> b in group
  }

  // x is the earliest start in a's component.
  ghost predicate IsAnchor(windows: set<Window>, a: Window, x: real) {
    && (exists v :: v in windows && Together(windows, v, a) && v.start == x)
    && (forall v | v in windows && Together(windows, v, a) :: x <= v.start)
  }

  lemma TouchingTogether(windows: set<Window>, a: Window, b: Window)
    requires a in windows && b in windows && Touches(a, b)
    ensures Together(windows, a, b)
  {
  }

  // Anchors tell components apart.
  lemma SameAnchorSameComponent(windows: set<Window>, a: Window, x: real, b: Window, y: real)
    requires Proper(windows) && a in windows && b in windows
    requires IsAnchor(windows, a, x) && IsAnchor(windows, b, y)
    ensures x == y <==> Together(windows, a, b)
  {
    var v :| v in windows && Together(windows, v, a) && v.start == x;
    var u :| u in windows && Together(windows, u, b) && u.start == y;
    if x == y {
      TouchingTogether(windows, v, u);
      hide Closed;
      assert Together(windows, a, b);
    }
    if Together(windows, a, b) {
      hide Closed;
      assert Together(windows, v, b) && Together(windows, u, a);
    }
  }

  // ------------------------------------------------------------------ the sorted walk

  ghost predicate StartsAscend(ws: seq<Window>) {
    forall a, b | 0 <= a < b < |ws| :: ws[a].start <= ws[b].start
  }

  // The latest end among the first k windows.
  ghost function LatestEnd(ws: seq<Window>, k: nat): (e: real)
    requires 0 < k <= |ws|
    ensures forall a | 0 <= a < k :: ws[a].end <= e
    ensures exists a :: 0 <= a < k && ws[a].end == e
  {
    if k == 1 then ws[0].end
    else
      var before := LatestEnd(ws, k - 1);
      if before < ws[k - 1].end then ws[k - 1].end else before
  }

  // A gap before window k starts a new run.
  ghost predicate StartsRun(ws: seq<Window>, k: nat)
    requires k < |ws|
  {
    k == 0 || ws[k].start > LatestEnd(ws, k)
  }

  ghost function RunStart(ws: seq<Window>, k: nat): (b: nat)
    requires k < |ws|
    ensures b <= k && StartsRun(ws, b)
    ensures forall c: nat | b < c <= k :: !StartsRun(ws, c)
  {
    if StartsRun(ws, k) then k else RunStart(ws, k - 1)
  }

  // Before a gap every window ends too early to touch anything after it.
  lemma GapSeparates(ws: seq<Window>, gap: nat, i: nat, j: nat)
    requires StartsAscend(ws) && Proper(Elements(ws))
    requires gap < |ws| && StartsRun(ws, gap)
    requires i < gap <= j < |ws|
    ensures ws[i].start < ws[gap].start
    ensures !Together(Elements(ws), ws[i], ws[j])
  {
    var windows := Elements(ws);
    var left := set w | w in windows && w.start < ws[gap].start;
    assert ws[i] in windows && ws[j] in windows;
    forall a, b | a in left && b in windows && Touches(a, b)
      ensures b in left
    {
      var x :| 0 <= x < |ws| && ws[x] == a;
      assert x < gap;
      assert ws[x].end <= LatestEnd(ws, gap);
    }
    assert Closed(windows, left);
    assert ws[i].end <= LatestEnd(ws, gap);
    assert ws[gap].start <= ws[j].start;
    assert ws[i] in left && ws[j] !in left;
  }

  // Within a run every window is connected to the run's first one.
  lemma {:induction false} RunIsConnected(ws: seq<Window>, k: nat)
    requires StartsAscend(ws) && Proper(Elements(ws)) && k < |ws|
    ensures Together(Elements(ws), ws[RunStart(ws, k)], ws[k])
  {
    var windows, first := Elements(ws), RunStart(ws, k);
    if first < k {
      var a: nat :| a < k && ws[a].end == LatestEnd(ws, k);
      assert ws[a] in windows && ws[k] in windows;
      assert ws[a].start <= ws[k].start <= ws[k].end;
      TouchingTogether(windows, ws[a], ws[k]);
      ReachesIntoRun(ws, a, k);
      SameRun(ws, a, k);
      RunIsConnected(ws, a);
      ConnectedThrough(windows, ws[first], ws[a], ws[k]);
    }
  }

  lemma ConnectedThrough(windows: set<Window>, a: Window, b: Window, c: Window)
    requires Together(windows, a, b) && Together(windows, b, c)
    ensures Together(windows, a, c)
  {
    hide Closed;
  }

  // A window that ends no earlier than window k starts belongs to k's run.
  lemma ReachesIntoRun(ws: seq<Window>, a: nat, k: nat)
    requires StartsAscend(ws) && a < k < |ws|
    requires ws[k].start <= ws[a].end
    ensures RunStart(ws, k) <= a
  {
    var first := RunStart(ws, k);
    assert StartsRun(ws, first);
    assert ws[first].start <= ws[k].start;
    assert first > 0 ==> forall i | 0 <= i < first :: ws[i].end <= LatestEnd(ws, first);
  }

  lemma SameRun(ws: seq<Window>, a: nat, k: nat)
    requires a <= k < |ws| && RunStart(ws, k) <= a
    ensures RunStart(ws, a) == RunStart(ws, k)
  {
    assert StartsRun(ws, RunStart(ws, a)) && StartsRun(ws, RunStart(ws, k));
  }

  lemma EarlierRunsApart(ws: seq<Window>, k: nat, x: nat)
    requires StartsAscend(ws) && Proper(Elements(ws)) && k < |ws| && x < |ws|
    requires Together(Elements(ws), ws[x], ws[k])
    ensures ws[RunStart(ws, k)].start <= ws[x].start
  {
    var first := RunStart(ws, k);
    hide Together, RunStart;
    if x < first {
      GapSeparates(ws, first, x, k);
    }
  }

  // The first start of a run is the anchor of each of its windows.
  lemma RunStartIsAnchor(ws: seq<Window>, k: nat)
    requires StartsAscend(ws) && Proper(Elements(ws)) && k < |ws|
    ensures IsAnchor(Elements(ws), ws[k], ws[RunStart(ws, k)].start)
  {
    var windows, first := Elements(ws), RunStart(ws, k);
    RunIsConnected(ws, k);
    hide Together, RunStart, StartsAscend;
    assert ws[first] in windows;
    forall v | v in windows && Together(windows, v, ws[k])
      ensures ws[first].start <= v.start
    {
      var x: nat :| x < |ws| && ws[x] == v;
      EarlierRunsApart(ws, k, x);
    }
  }

  // ------------------------------------------------------------------ the batch

  class Finding {
    const entity: Entity
    const window: Window
    var correlation: Option<CorrelationId>

    constructor (entity: Entity, window: Window)
      ensures this.entity == entity && this.window == window && correlation == None
    {
      this.entity, this.window, correlation := entity, window, None;
    }
  }

  function StartOf(): Finding -> real {
    (f: Finding) => f.window.start
  }

  function ByStart(group: seq<Finding>): (sorted: seq<Finding>)
    ensures multiset(group) == multiset(sorted)
  {
    SortBy(group, StartOf())
  }

  ghost function WindowsOf(findings: set<Finding>, entity: Entity): set<Window> {
    set f | f in findings && f.entity == entity :: f.window
  }

  // f carries the id of its component among the windows of its own entity.
  ghost predicate Correlated(f: Finding, windows: set<Window>)
    reads f
  {
    && f.correlation.Some?
    && f.correlation.value.entity == f.entity
    && IsAnchor(windows, f.window, f.correlation.value.anchor)
  }

  // The walk over one entity's findings in window order.
  method WalkSorted(entity: Entity, sorted: seq<Finding>, ghost ws: seq<Window>)
    requires |ws| == |sorted| && forall k | 0 <= k < |sorted| :: ws[k] == sorted[k].window
    requires Distinct(sorted)
    modifies sorted
    ensures forall a: nat | a < |sorted| :: sorted[a].correlation == Some(CorrelationId(entity, AnchorAt(ws, a)))
  {
    hide LatestEnd, AnchorAt;
    var runAnchor: Option<real> := None;
    var prevEnd: Option<real> := None;
    for k := 0 to |sorted|
      invariant prevEnd == if k == 0 then None else Some(LatestEnd(ws, k))
      invariant runAnchor == if k == 0 then None else Some(AnchorAt(ws, k - 1))
      invariant forall a: nat | a < k :: sorted[a].correlation == Some(CorrelationId(entity, AnchorAt(ws, a)))
    {
      WalkStep(ws, k);
      var start, end := sorted[k].window.start, sorted[k].window.end;
      if prevEnd.None? || start > prevEnd.value {
        runAnchor := Some(start);
      }
      sorted[k].correlation := Some(CorrelationId(entity, runAnchor.value));
      prevEnd := if prevEnd.None? || prevEnd.value < end then Some(end) else prevEnd;
    }
  }

  method AssignRuns(entity: Entity, group: seq<Finding>)
    requires Distinct(group)
    requires forall f | f in group :: f.entity == entity && f.window.start <= f.window.end
    modifies group
    ensures forall f | f in group :: Correlated(f, WindowsOf(Elements(group), entity))
  {
    var sorted := ByStart(group);
    ghost var ws := seq(|sorted|, k requires 0 <= k < |sorted| => sorted[k].window);
    SortedGroup(group, sorted);
    SortedWindows(entity, group, sorted, ws);
    hide *;
    WalkSorted(entity, sorted, ws);
    AllCorrelated(entity, group, sorted, ws);
  }

  ghost function AnchorAt(ws: seq<Window>, k: nat): real
    requires k < |ws|
  {
    ws[RunStart(ws, k)].start
  }

  lemma SortedGroup(group: seq<Finding>, sorted: seq<Finding>)
    requires sorted == ByStart(group) && Distinct(group)
    ensures forall a | 0 <= a < |sorted| :: sorted[a] in group
    ensures forall f | f in group :: f in sorted
    ensures Distinct(sorted)
  {
    PermutationMembers(group, sorted);
    PermutationDistinct(group, sorted);
    assert forall a | 0 <= a < |sorted| :: sorted[a] in sorted;
  }

  lemma WalkStep(ws: seq<Window>, k: nat)
    requires k < |ws|
    ensures LatestEnd(ws, k + 1) ==
            if k == 0 || LatestEnd(ws, k) < ws[k].end then ws[k].end else LatestEnd(ws, k)
    ensures AnchorAt(ws, k) == if k == 0 || ws[k].start > LatestEnd(ws, k) then ws[k].start else AnchorAt(ws, k - 1)
  {
  }

  lemma AllCorrelated(entity: Entity, group: seq<Finding>, sorted: seq<Finding>, ws: seq<Window>)
    requires forall f | f in group :: f in sorted
    requires |ws| == |sorted| && forall k | 0 <= k < |sorted| :: ws[k] == sorted[k].window
    requires StartsAscend(ws) && Proper(Elements(ws))
    requires Elements(ws) == WindowsOf(Elements(group), entity)
    requires forall f | f in group :: f.entity == entity
    requires forall a: nat | a < |sorted| ::
               sorted[a].correlation == Some(CorrelationId(entity, AnchorAt(ws, a)))
    ensures forall f | f in group :: Correlated(f, WindowsOf(Elements(group), entity))
  {
    forall f | f in group
      ensures Correlated(f, WindowsOf(Elements(group), entity))
    {
      var a: nat :| a < |sorted| && sorted[a] == f;
      RunStartIsAnchor(ws, a);
    }
  }

  lemma SortedWindows(entity: Entity, group: seq<Finding>, sorted: seq<Finding>, ws: seq<Window>)
    requires forall f | f in group :: f.entity == entity && f.window.start <= f.window.end
    requires sorted == ByStart(group)
    requires |ws| == |sorted| && forall k | 0 <= k < |sorted| :: ws[k] == sorted[k].window
    ensures StartsAscend(ws) && Proper(Elements(ws))
    ensures Elements(ws) == WindowsOf(Elements(group), entity)
  {
    PermutationMembers(group, sorted);
    forall a, b | 0 <= a < b < |ws|
      ensures ws[a].start <= ws[b].start
    {
      assert StartOf()(sorted[a]) <= StartOf()(sorted[b]);
    }
    forall w
      ensures w in Elements(ws) <==> w in WindowsOf(Elements(group), entity)
    {
      if w in Elements(ws) {
        var k :| 0 <= k < |ws| && ws[k] == w;
        assert sorted[k] in sorted;
      }
      if w in WindowsOf(Elements(group), entity) {
        var f :| f in group && f.window == w;
        var k :| 0 <= k < |sorted| && sorted[k] == f;
        assert ws[k] == w;
      }
    }
  }

  // Every group holds exactly its entity's findings, each once.
  ghost predicate Grouped(findings: seq<Finding>, entities: seq<Entity>, byEntity: map<Entity, seq<Finding>>) {
    && Distinct(entities)
    && (forall e :: e in entities <==> e in byEntity)
    && (forall e | e in byEntity :: Distinct(byEntity[e]))
    && (forall e, f | e in byEntity && f in byEntity[e] :: f in findings && f.entity == e)
    && (forall f | f in findings :: f.entity in byEntity && f in byEntity[f.entity])
  }

  lemma GroupedStep(findings: seq<Finding>, entities: seq<Entity>, byEntity: map<Entity, seq<Finding>>, f: Finding)
    requires Grouped(findings, entities, byEntity) && f !in findings
    ensures var group := if f.entity in byEntity then byEntity[f.entity] else [];
            Grouped(findings + [f], if f.entity in byEntity then entities else entities + [f.entity],
                    byEntity[f.entity := group + [f]])
  {
    var group := if f.entity in byEntity then byEntity[f.entity] else [];
    assert f !in group;
    assert Distinct(group + [f]);
  }

  method GroupByEntity(findings: seq<Finding>) returns (entities: seq<Entity>, byEntity: map<Entity, seq<Finding>>)
    requires Distinct(findings)
    ensures Grouped(findings, entities, byEntity)
  {
    byEntity := map[];
    entities := [];
    for k := 0 to |findings|
      invariant Grouped(findings[..k], entities, byEntity)
    {
      var f := findings[k];
      assert findings[..k + 1] == findings[..k] + [f];
      GroupedStep(findings[..k], entities, byEntity, f);
      hide Grouped;
      if f.entity !in byEntity {
        entities := entities + [f.entity];
        byEntity := byEntity[f.entity := []];
      }
      byEntity := byEntity[f.entity := byEntity[f.entity] + [f]];
    }
    assert findings[..|findings|] == findings;
  }

  ghost function About(findings: seq<Finding>, e: Entity): set<Finding> {
    set f | f in findings && f.entity == e
  }

  // Every finding about e carries its component's id.
  ghost predicate EntityDone(findings: seq<Finding>, e: Entity)
    reads About(findings, e)
  {
    forall f | f in About(findings, e) :: Correlated(f, WindowsOf(Elements(findings), e))
  }

  method CorrelateEntity(findings: seq<Finding>, entities: seq<Entity>, byEntity: map<Entity, seq<Finding>>, e: Entity)
    requires forall f | f in findings :: f.window.start <= f.window.end
    requires Grouped(findings, entities, byEntity) && e in entities
    modifies About(findings, e)
    ensures EntityDone(findings, e)
  {
    var group := byEntity[e];
    assert forall a | 0 <= a < |group| :: group[a] in group && group[a] in About(findings, e);
    assert WindowsOf(Elements(group), e) == WindowsOf(Elements(findings), e);
    AssignRuns(e, group);
  }

  // Every finding is given its entity and the anchor of its component, whatever the batch order.
  method AssignCorrelation(findings: seq<Finding>)
    requires Distinct(findings)
    requires forall f | f in findings :: f.window.start <= f.window.end
    modifies findings
    ensures forall f | f in findings :: Correlated(f, WindowsOf(Elements(findings), f.entity))
  {
    var entities, byEntity := GroupByEntity(findings);
    assert forall f | f in findings :: f.entity in entities;
    hide Correlated, WindowsOf, EntityDone;
    for k := 0 to |entities|
      invariant forall j | 0 <= j < k :: EntityDone(findings, entities[j])
    {
      CorrelateEntity(findings, entities, byEntity, entities[k]);
    }
    AllDone(findings, entities);
  }

  lemma AllDone(findings: seq<Finding>, entities: seq<Entity>)
    requires forall f | f in findings :: f.entity in entities
    requires forall j | 0 <= j < |entities| :: EntityDone(findings, entities[j])
    ensures forall f | f in findings :: Correlated(f, WindowsOf(Elements(findings), f.entity))
  {
    forall f | f in findings
      ensures Correlated(f, WindowsOf(Elements(findings), f.entity))
    {
      var j :| 0 <= j < |entities| && entities[j] == f.entity;
      assert f in About(findings, entities[j]);
    }
  }

  // The triage property: two correlated findings of one entity share an id exactly when their
  // windows are connected; findings of different entities never do.
  lemma SharedIdMeansConnected(findings: set<Finding>, f: Finding, g: Finding)
    requires f in findings && g in findings
    requires forall h | h in findings :: h.window.start <= h.window.end
    requires Correlated(f, WindowsOf(findings, f.entity)) && Correlated(g, WindowsOf(findings, g.entity))
    ensures f.correlation == g.correlation <==>
            f.entity == g.entity && Together(WindowsOf(findings, f.entity), f.window, g.window)
  {
    if f.entity == g.entity {
      var windows := WindowsOf(findings, f.entity);
      assert f.window in windows && g.window in windows;
      SameAnchorSameComponent(windows, f.window, f.correlation.value.anchor, g.window, g.correlation.value.anchor);
    }
  }
}
