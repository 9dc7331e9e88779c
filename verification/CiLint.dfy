/** Whole-graph checks of a workflow (crates/alt-cli/src/ci.rs).

    `Lint` reports duplicate step names, needs that no step defines, and edges that close a
    cycle of the needs graph. The cycles are found by a depth-first search that colours a step
    gray while it is on the current path and black when it is finished. An edge is reported if
    and only if there is a cycle: every reported edge lies on one, and when none is reported
    the finishing order is a topological order. */
module CiLint {
  type Name = string

  datatype Step = Step(name: Name, needs: seq<Name>)

  datatype Diag = Duplicate(name: Name) | Undefined(step: Name, need: Name) | Cycle(step: Name, need: Name)

  datatype Color = White | Gray | Black

  // ---- the needs graph ----

  /** The needs of every step name. Of steps with the same name the last one counts. */
  type Graph = map<Name, seq<Name>>

  function GraphOf(steps: seq<Step>): Graph {
    if steps == [] then map[]
    else
      var last := steps[|steps| - 1];
      GraphOf(steps[..|steps| - 1])[last.name := last.needs]
  }

  predicate Edge(g: Graph, a: Name, b: Name) {
    a in g && b in g && b in g[a]
  }

  ghost predicate IsWalk(g: Graph, w: seq<Name>) {
    forall k, l :: 0 <= k < l == k + 1 < |w| ==> Edge(g, w[k], w[l])
  }

  ghost predicate IsCycle(g: Graph, w: seq<Name>) {
    |w| > 1 && IsWalk(g, w) && w[0] == w[|w| - 1]
  }

  ghost predicate HasCycle(g: Graph) {
    exists w: seq<Name> :: IsCycle(g, w)
  }

  /** The edge from `a` to `b` is the first of a cycle. */
  ghost predicate OnCycle(g: Graph, a: Name, b: Name) {
    exists w: seq<Name> :: IsCycle(g, w) && w[0] == a && w[1] == b
  }

  // ---- topological orders ----

  /** Every step in `order` comes after all the steps it needs. */
  ghost predicate Topological(g: Graph, order: seq<Name>) {
    forall k, m :: 0 <= k < |order| && Edge(g, order[k], m) ==> m in order[..k]
  }

  /** A walk goes down in a topological order. */
  lemma {:induction false} WalkGoesDown(g: Graph, order: seq<Name>, w: seq<Name>, k: nat, p: nat) returns (q: nat)
    requires Topological(g, order) && IsWalk(g, w) && k < |w|
    requires p < |order| && order[p] == w[0]
    ensures q <= p && order[q] == w[k] && (k > 0 ==> q < p)
    decreases k
  {
    if k == 0 {
      q := p;
    } else {
      var r := WalkGoesDown(g, order, w, k - 1, p);
      assert Edge(g, w[k - 1], w[k]);
      assert w[k] in order[..r];
      q :| 0 <= q < r && order[q] == w[k];
    }
  }

  /** A step of a topological order is on no cycle. */
  lemma {:induction false} NoCycleFrom(g: Graph, order: seq<Name>, w: seq<Name>, p: nat)
    requires Topological(g, order) && |w| > 0 && p < |order| && order[p] == w[0]
    ensures !IsCycle(g, w)
    decreases p
  {
    if IsCycle(g, w) {
      var q := WalkGoesDown(g, order, w, |w| - 1, p);
      NoCycleFrom(g, order, w, q);
    }
  }

  /** Where all steps stand in a topological order, there is no cycle. */
  lemma TopologicalHasNoCycle(g: Graph, order: seq<Name>)
    requires Topological(g, order) && forall n :: n in g ==> n in order
    ensures !HasCycle(g)
  {
    forall w: seq<Name>
      ensures !IsCycle(g, w)
    {
      if |w| > 1 && w[0] in g {
        var p :| 0 <= p < |order| && order[p] == w[0];
        NoCycleFrom(g, order, w, p);
      } else if |w| > 1 {
        assert !Edge(g, w[0], w[1]);
      }
    }
  }

  // ---- the search ----

  predicate NoCycleDiag(diags: seq<Diag>) {
    forall k :: 0 <= k < |diags| ==> !diags[k].Cycle?
  }

  /** Every reported edge lies on a cycle. */
  ghost predicate SoundDiags(g: Graph, diags: seq<Diag>) {
    forall k :: 0 <= k < |diags| && diags[k].Cycle? ==> OnCycle(g, diags[k].step, diags[k].need)
  }

  /** Gray is the current path, black is what is finished. */
  ghost predicate Colored(g: Graph, color: map<Name, Color>, path: seq<Name>, order: seq<Name>) {
    && color.Keys == g.Keys
    && (forall n :: n in path ==> n in g) && (forall n :: n in order ==> n in g)
    && (forall n :: n in g ==> (color[n] == Gray <==> n in path))
    && (forall n :: n in g ==> (color[n] == Black <==> n in order))
    && IsWalk(g, path)
  }

  /** An edge back to the current path closes a cycle. */
  lemma BackEdge(g: Graph, path: seq<Name>, need: Name)
    requires IsWalk(g, path) && |path| > 0 && need in path && Edge(g, path[|path| - 1], need)
    ensures OnCycle(g, path[|path| - 1], need)
  {
    var k :| 0 <= k < |path| && path[k] == need;
    var w := [path[|path| - 1]] + path[k..];
    assert IsCycle(g, w);
  }

  function Whites(color: map<Name, Color>): set<Name> {
    set n | n in color && color[n] == White
  }

  /** What holds whenever the search is at the end of `path`. */
  ghost predicate Searching(g: Graph, color: map<Name, Color>, diags: seq<Diag>, order: seq<Name>, path: seq<Name>) {
    && Colored(g, color, path, order)
    && SoundDiags(g, diags)
    && (NoCycleDiag(diags) ==> Topological(g, order))
  }

  /** Everything added is a cycle report. */
  predicate NewAreCycles(before: seq<Diag>, after: seq<Diag>) {
    before <= after && forall k :: |before| <= k < |after| ==> after[k].Cycle?
  }

  /** The needs looked at so far are finished, unless a cycle was reported. */
  ghost predicate NeedsDone(g: Graph, diags: seq<Diag>, order: seq<Name>, needs: seq<Name>, i: nat) {
    NoCycleDiag(diags) ==> forall k :: 0 <= k < i <= |needs| && needs[k] in g ==> needs[k] in order
  }

  lemma EnterStep(g: Graph, color: map<Name, Color>, diags: seq<Diag>, order: seq<Name>, path: seq<Name>, name: Name)
    requires Searching(g, color, diags, order, path) && name in g && color[name] == White
    requires path == [] || Edge(g, path[|path| - 1], name)
    ensures Searching(g, color[name := Gray], diags, order, path + [name])
    ensures Whites(color[name := Gray]) == Whites(color) - {name}
  {
    hide SoundDiags, Topological, Edge;
  }

  lemma ReportStep(g: Graph, color: map<Name, Color>, diags: seq<Diag>, order: seq<Name>, path: seq<Name>, need: Name)
    requires Searching(g, color, diags, order, path) && |path| > 0
    requires Edge(g, path[|path| - 1], need) && color[need] == Gray
    ensures Searching(g, color, diags + [Cycle(path[|path| - 1], need)], order, path)
    ensures !NoCycleDiag(diags + [Cycle(path[|path| - 1], need)])
  {
    var more := diags + [Cycle(path[|path| - 1], need)];
    BackEdge(g, path, need);
    hide Topological, OnCycle, Edge, IsWalk;
    assert more[|diags|].Cycle?;
  }

  lemma LeaveStep(g: Graph, color: map<Name, Color>, diags: seq<Diag>, order: seq<Name>, path: seq<Name>, name: Name)
    requires Searching(g, color, diags, order, path + [name]) && name !in path
    requires name in g && NeedsDone(g, diags, order, g[name], |g[name]|)
    ensures Searching(g, color[name := Black], diags, order + [name], path)
    ensures Whites(color[name := Black]) <= Whites(color)
  {
    hide SoundDiags, OnCycle;
    var here := path + [name];
    assert IsWalk(g, path) by {
      forall k, l | 0 <= k < l == k + 1 < |path|
        ensures Edge(g, path[k], path[l])
      {
        assert Edge(g, here[k], here[l]);
      }
    }
    assert name in here;
    hide IsWalk;
    if NoCycleDiag(diags) {
      OrderGrows(g, order, name);
    }
    hide Topological, NeedsDone, NoCycleDiag;
  }

  lemma OrderGrows(g: Graph, order: seq<Name>, name: Name)
    requires Topological(g, order) && name in g && forall k :: 0 <= k < |g[name]| && g[name][k] in g ==> g[name][k] in order
    ensures Topological(g, order + [name])
  {
    var more := order + [name];
    forall k, m | 0 <= k < |more| && Edge(g, more[k], m)
      ensures m in more[..k]
    {
      if k < |order| {
        assert more[k] == order[k] && more[..k] == order[..k];
      } else {
        assert more[..k] == order;
      }
    }
  }

  class Search {
    const graph: Graph
    var color: map<Name, Color>
    var diags: seq<Diag>
    ghost var order: seq<Name>

    constructor (graph: Graph, diags: seq<Diag>)
      requires NoCycleDiag(diags)
      ensures this.graph == graph && this.diags == diags && order == []
      ensures At([])
    {
      this.graph, this.diags, order := graph, diags, [];
      color := map n | n in graph :: White;
    }

    ghost predicate At(path: seq<Name>)
      reads this
    {
      Searching(graph, color, diags, order, path)
    }

    /** Visits `name` and everything it reaches over white steps. `path` is the way to it. */
    method Visit(name: Name, ghost path: seq<Name>)
      requires At(path) && name in graph && name in color && color[name] == White && name !in path
      requires path == [] || Edge(graph, path[|path| - 1], name)
      modifies this
      ensures At(path)
      ensures NewAreCycles(old(diags), diags)
      ensures old(order) <= order && name in order && Whites(color) <= old(Whites(color))
      decreases Whites(color)
    {
      hide Searching, NoCycleDiag, Whites;
      EnterStep(graph, color, diags, order, path, name);
      InWhites(color, name);
      color := color[name := Gray];
      ghost var here := path + [name];
      var needs := graph[name];
      for i := 0 to |needs|
        invariant At(here) && NeedsDone(graph, diags, order, needs, i)
        invariant NewAreCycles(old(diags), diags)
        invariant old(order) <= order && Whites(color) <= old(Whites(color)) - {name}
      {
        var need := needs[i];
        KnownSteps(graph, color, diags, order, here, need);
        if need in color {
          if color[need] == Gray {
            ReportStep(graph, color, diags, order, here, need);
            diags := diags + [Cycle(name, need)];
          } else if color[need] == White {
            ghost var before := diags;
            Visit(need, here);
            CleanBefore(before, diags);
          }
        }
      }
      LeaveStep(graph, color, diags, order, path, name);
      color := color[name := Black];
      order := order + [name];
    }

    /** Starts a visit from every step, in some order. */
    method VisitAll()
      requires At([])
      modifies this
      ensures At([]) && NewAreCycles(old(diags), diags)
      ensures forall n :: n in graph ==> n in order
    {
      hide Searching;
      var names := graph.Keys;
      while names != {}
        invariant At([]) && names <= graph.Keys
        invariant NewAreCycles(old(diags), diags)
        invariant forall n :: n in graph && n !in names ==> n in order
      {
        var name :| name in names;
        FinishedStep(graph, color, diags, order, name);
        if color[name] == White {
          Visit(name, []);
        }
        names := names - {name};
      }
    }
  }

  lemma InWhites(color: map<Name, Color>, name: Name)
    requires name in color && color[name] == White
    ensures name in Whites(color)
  {
  }

  lemma KnownSteps(g: Graph, color: map<Name, Color>, diags: seq<Diag>, order: seq<Name>, path: seq<Name>, n: Name)
    requires Searching(g, color, diags, order, path)
    ensures n in color <==> n in g
    ensures n in color ==> (color[n] == Black <==> n in order) && (color[n] == Gray <==> n in path)
  {
  }

  lemma CleanBefore(before: seq<Diag>, after: seq<Diag>)
    requires before <= after
    ensures NoCycleDiag(after) ==> NoCycleDiag(before)
  {
  }

  // ---- names and needs ----

  predicate Named(steps: seq<Step>, name: Name) {
    exists k :: 0 <= k < |steps| && steps[k].name == name
  }

  /** One report for every step whose name an earlier step has. */
  function Duplicates(steps: seq<Step>): (diags: seq<Diag>) {
    if steps == [] then []
    else
      var before, last := steps[..|steps| - 1], steps[|steps| - 1];
      Duplicates(before) + if Named(before, last.name) then [Duplicate(last.name)] else []
  }

  /** One report for every need of a step that no step is named. */
  function UndefinedNeeds(all: seq<Step>, step: Name, needs: seq<Name>): (diags: seq<Diag>) {
    if needs == [] then []
    else
      var last := needs[|needs| - 1];
      UndefinedNeeds(all, step, needs[..|needs| - 1]) + if Named(all, last) then [] else [Undefined(step, last)]
  }

  function UndefinedIn(all: seq<Step>, steps: seq<Step>): (diags: seq<Diag>) {
    if steps == [] then []
    else
      var last := steps[|steps| - 1];
      UndefinedIn(all, steps[..|steps| - 1]) + UndefinedNeeds(all, last.name, last.needs)
  }

  predicate DistinctNames(steps: seq<Step>) {
    forall j, k :: 0 <= j < k < |steps| ==> steps[j].name != steps[k].name
  }

  predicate NeedsDefined(all: seq<Step>, steps: seq<Step>) {
    forall k, m :: 0 <= k < |steps| && 0 <= m < |steps[k].needs| ==> Named(all, steps[k].needs[m])
  }

  lemma {:induction false} DuplicatesAreExact(steps: seq<Step>)
    ensures Duplicates(steps) == [] <==> DistinctNames(steps)
    ensures NoCycleDiag(Duplicates(steps))
    decreases |steps|
  {
    if steps != [] {
      var before, last := steps[..|steps| - 1], steps[|steps| - 1];
      DuplicatesAreExact(before);
      if DistinctNames(before) && !Named(before, last.name) {
        assert DistinctNames(steps);
      }
    }
  }

  lemma {:induction false} UndefinedNeedsAreExact(all: seq<Step>, step: Name, needs: seq<Name>)
    ensures UndefinedNeeds(all, step, needs) == [] <==> forall m :: 0 <= m < |needs| ==> Named(all, needs[m])
    ensures NoCycleDiag(UndefinedNeeds(all, step, needs))
    decreases |needs|
  {
    if needs != [] {
      hide Named;
      var before := needs[..|needs| - 1];
      UndefinedNeedsAreExact(all, step, before);
      assert forall m :: 0 <= m < |before| ==> before[m] == needs[m];
    }
  }

  lemma {:induction false} UndefinedIsExact(all: seq<Step>, steps: seq<Step>)
    ensures UndefinedIn(all, steps) == [] <==> NeedsDefined(all, steps)
    ensures NoCycleDiag(UndefinedIn(all, steps))
    decreases |steps|
  {
    if steps != [] {
      var before, last := steps[..|steps| - 1], steps[|steps| - 1];
      UndefinedIsExact(all, before);
      UndefinedNeedsAreExact(all, last.name, last.needs);
      hide Named, UndefinedNeeds;
      NeedsDefinedSplits(all, before, last);
      assert before + [last] == steps;
    }
  }

  lemma NeedsDefinedSplits(all: seq<Step>, before: seq<Step>, last: Step)
    ensures NeedsDefined(all, before + [last]) <==>
            NeedsDefined(all, before) && forall m :: 0 <= m < |last.needs| ==> Named(all, last.needs[m])
  {
    var steps := before + [last];
    hide Named;
    assert steps[|before|] == last;
    assert forall k :: 0 <= k < |before| ==> steps[k] == before[k];
  }

  lemma {:induction false} GraphHasAllSteps(steps: seq<Step>)
    ensures forall n :: n in GraphOf(steps) <==> Named(steps, n)
    decreases |steps|
  {
    if steps != [] {
      GraphHasAllSteps(steps[..|steps| - 1]);
    }
  }

  /** Where names are distinct, the graph has the needs of every step. */
  lemma {:induction false} GraphOfDistinct(steps: seq<Step>, k: nat)
    requires DistinctNames(steps) && k < |steps|
    ensures steps[k].name in GraphOf(steps) && GraphOf(steps)[steps[k].name] == steps[k].needs
    decreases |steps|
  {
    if k < |steps| - 1 {
      GraphOfDistinct(steps[..|steps| - 1], k);
    }
  }

  // ---- the checks ----

  method FindDuplicates(steps: seq<Step>) returns (diags: seq<Diag>)
    ensures diags == Duplicates(steps)
  {
    diags := [];
    var seen: set<Name> := {};
    for i := 0 to |steps|
      invariant diags == Duplicates(steps[..i])
      invariant forall n :: n in seen <==> Named(steps[..i], n)
    {
      var name := steps[i].name;
      assert steps[..i + 1][..i] == steps[..i];
      if name in seen {
        diags := diags + [Duplicate(name)];
      }
      seen := seen + {name};
    }
    assert steps[..|steps|] == steps;
  }

  method FindUndefined(steps: seq<Step>) returns (diags: seq<Diag>)
    ensures diags == UndefinedIn(steps, steps)
  {
    diags := [];
    var names := set k | 0 <= k < |steps| :: steps[k].name;
    for i := 0 to |steps|
      invariant diags == UndefinedIn(steps, steps[..i])
    {
      var step := steps[i];
      ghost var before := diags;
      for j := 0 to |step.needs|
        invariant diags == before + UndefinedNeeds(steps, step.name, step.needs[..j])
      {
        var need := step.needs[j];
        assert step.needs[..j + 1][..j] == step.needs[..j];
        if need !in names {
          diags := diags + [Undefined(step.name, need)];
        }
      }
      assert step.needs[..|step.needs|] == step.needs && steps[..i + 1][..i] == steps[..i];
    }
    assert steps[..|steps|] == steps;
  }

  method ByName(steps: seq<Step>) returns (g: Graph)
    ensures g == GraphOf(steps)
  {
    g := map[];
    for i := 0 to |steps|
      invariant g == GraphOf(steps[..i])
    {
      assert steps[..i + 1][..i] == steps[..i];
      g := g[steps[i].name := steps[i].needs];
    }
    assert steps[..|steps|] == steps;
  }

  /** Checks a workflow. When no cycle is reported, `order` is an order to run all steps in. */
  method Lint(steps: seq<Step>) returns (diags: seq<Diag>, ghost order: seq<Name>)
    ensures NewAreCycles(Duplicates(steps) + UndefinedIn(steps, steps), diags)
    ensures SoundDiags(GraphOf(steps), diags)
    ensures NoCycleDiag(diags) <==> !HasCycle(GraphOf(steps))
    ensures NoCycleDiag(diags) ==> Topological(GraphOf(steps), order) && forall k :: 0 <= k < |steps| ==> steps[k].name in order
    ensures diags == [] <==> DistinctNames(steps) && NeedsDefined(steps, steps) && !HasCycle(GraphOf(steps))
  {
    diags := FindDuplicates(steps);
    var undefined := FindUndefined(steps);
    DuplicatesAreExact(steps);
    UndefinedIsExact(steps, steps);
    NoCyclesTogether(diags, undefined);
    hide Duplicates, UndefinedIn, DistinctNames, NeedsDefined, NoCycleDiag, Searching, HasCycle, SoundDiags, Topological, GraphOf;
    diags := diags + undefined;
    var g := ByName(steps);
    var search := new Search(g, diags);
    ghost var first := diags;
    search.VisitAll();
    diags, order := search.diags, search.order;
    AllVisited(g, search.color, diags, order);
    GraphHasAllSteps(steps);
    NothingReported(first, diags);
  }

  lemma NothingReported(first: seq<Diag>, diags: seq<Diag>)
    requires NewAreCycles(first, diags)
    ensures diags == [] <==> first == [] && NoCycleDiag(diags)
  {
    if first == [] && |diags| > 0 {
      assert diags[0].Cycle?;
    }
  }

  lemma NoCyclesTogether(one: seq<Diag>, two: seq<Diag>)
    requires NoCycleDiag(one) && NoCycleDiag(two)
    ensures NoCycleDiag(one + two) && (one + two == [] <==> one == [] && two == [])
  {
  }

  lemma FinishedStep(g: Graph, color: map<Name, Color>, diags: seq<Diag>, order: seq<Name>, n: Name)
    requires Searching(g, color, diags, order, []) && n in g
    ensures n in color && (color[n] != White ==> n in order)
  {
  }

  lemma AllVisited(g: Graph, color: map<Name, Color>, diags: seq<Diag>, order: seq<Name>)
    requires Searching(g, color, diags, order, []) && forall n :: n in g ==> n in order
    ensures SoundDiags(g, diags)
    ensures NoCycleDiag(diags) <==> !HasCycle(g)
    ensures NoCycleDiag(diags) ==> Topological(g, order)
  {
    if NoCycleDiag(diags) {
      TopologicalHasNoCycle(g, order);
    } else {
      var k :| 0 <= k < |diags| && diags[k].Cycle?;
      assert OnCycle(g, diags[k].step, diags[k].need);
    }
  }
}
