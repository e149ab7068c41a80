/**
 * internal/deps/composition.go: a Composition holds, per distribution, the
 * apps and their dependencies. It checks that dependencies resolve, and it
 * computes the order in which apps must be deployed, as a list or as a DOT
 * graph. `forEach` hands every visited app to a callback; here it returns
 * the apps in the order it visits them, and the callers replay that trace.
 */
module DepsComposition {
  import opened Wrappers
  import opened GoStrings
  import opened Graphs
  import opened TopoSort
  import opened DepsModel
  import Datastructs

  /** Verify's error: an app named like the start vertex, or the joined
      errors of every missing reference. */
  datatype VerifyError = ReservedAppName | Dangling(refs: seq<MissingRef>)

  /** Why no order was computed. `IndexOutOfRange` stands for the run-time
      panic of the as-written DependencyOrder. */
  datatype CompError = NoApps | UnknownApp(name: string) | NoDAG | IndexOutOfRange

  /** The inner loops of Verify: the references of one kind of app `a` that
      name no app of `D`, in the order they are listed. */
  method MissingOfKind(D: AppMap, d: string, a: string, kind: DepKind, deps: seq<string>) returns (refs: seq<MissingRef>)
    ensures Elems(refs) == KindMissing(D, d, a, kind, deps)
    ensures NoDuplicates(refs)
  {
    refs := [];
    for i := 0 to |deps|
      invariant Elems(refs) == KindMissing(D, d, a, kind, deps[..i])
      invariant forall r :: r in refs ==> r.index < i
      invariant NoDuplicates(refs)
    {
      assert deps[..i + 1] == deps[..i] + [deps[i]];
      KindMissingSnoc(D, d, a, kind, deps[..i], deps[i]);
      if deps[i] !in D {
        refs := refs + [MissingRef(d, a, kind, i, deps[i])];
      }
    }
    assert deps[..|deps|] == deps;
  }

  /** One more listed dependency adds at most its own missing reference. */
  lemma KindMissingSnoc(D: AppMap, d: string, a: string, kind: DepKind, deps: seq<string>, x: string)
    ensures KindMissing(D, d, a, kind, deps + [x]) ==
      KindMissing(D, d, a, kind, deps) + (if x in D then {} else {MissingRef(d, a, kind, |deps|, x)})
  {
    var ext := deps + [x];
    forall r | r in KindMissing(D, d, a, kind, ext)
      ensures r in KindMissing(D, d, a, kind, deps) + (if x in D then {} else {MissingRef(d, a, kind, |deps|, x)})
    {
      var i :| 0 <= i < |ext| && ext[i] !in D && r == MissingRef(d, a, kind, i, ext[i]);
      if i < |deps| {
        assert ext[i] == deps[i];
      }
    }
    forall r | r in KindMissing(D, d, a, kind, deps) ensures r in KindMissing(D, d, a, kind, ext) {
      var i :| 0 <= i < |deps| && deps[i] !in D && r == MissingRef(d, a, kind, i, deps[i]);
      assert ext[i] == deps[i];
    }
    if x !in D {
      assert ext[|deps|] == x;
    }
  }

  /** The loops of forEachRecursive that put every dependency not seen yet into `wanted`. */
  method AddUnseen(wanted: set<string>, seen: set<string>, deps: seq<string>) returns (w: set<string>)
    ensures w == wanted + (Elems(deps) - seen)
  {
    w := wanted;
    for i := 0 to |deps|
      invariant w == wanted + (Elems(deps[..i]) - seen)
    {
      assert deps[..i + 1] == deps[..i] + [deps[i]];
      if deps[i] !in seen {
        w := w + {deps[i]};
      }
    }
    assert deps[..|deps|] == deps;
  }

  /** One dependency loop of the createGraph callback: each of `ends`
      becomes a vertex with an edge from `v`. */
  method AddFan(g: Graph, v: string, ends: seq<string>)
    requires g.directed && v in g.adjacency
    modifies g
    ensures g.directed
    ensures g.EdgeSet() == old(g.EdgeSet()) + Fan(v, ends)
    ensures g.adjacency.Keys == old(g.adjacency.Keys) + Elems(ends)
  {
    for i := 0 to |ends|
      invariant g.directed
      invariant g.EdgeSet() == old(g.EdgeSet()) + Fan(v, ends[..i])
      invariant g.adjacency.Keys == old(g.adjacency.Keys) + Elems(ends[..i])
    {
      assert ends[..i + 1] == ends[..i] + [ends[i]];
      FanSnoc(v, ends[..i], ends[i]);
      g.AddVertex(ends[i]);
      g.AddEdge(v, ends[i]);
    }
    assert ends[..|ends|] == ends;
  }

  /** One turn of forEachRecursive's loop: `app` is marked seen, its hard
      and then its soft dependencies not seen yet become wanted, and `app`
      is no longer wanted. */
  method Visit(wanted: set<string>, seen: set<string>, app: string, deps: Dependencies)
    returns (wanted': set<string>, seen': set<string>)
    ensures seen' == seen + {app}
    ensures wanted' == (wanted + (DepNames(deps) - seen')) - {app}
  {
    seen' := seen + {app};
    wanted' := AddUnseen(wanted, seen', deps.hardDeps);
    wanted' := AddUnseen(wanted', seen', deps.softDeps);
    wanted' := wanted' - {app};
  }

  /** The state of forEachRecursive's loop: `seen` and `wanted` are
      disjoint; together they hold the requested apps `A` and the
      dependencies of every app seen, and they stay inside the closure `C`. */
  ghost predicate Visiting(D: AppMap, A: set<string>, C: set<string>, wanted: set<string>, seen: set<string>) {
    wanted !! seen && seen <= D.Keys && A <= seen + wanted && seen + wanted <= C &&
    forall a :: a in seen ==> DepNames(D[a]) <= seen + wanted
  }

  /** Visiting a wanted app keeps the loop state and shrinks what is left of `C`. */
  lemma VisitStep(D: AppMap, A: set<string>, C: set<string>, wanted: set<string>, seen: set<string>, x: string)
    requires Visiting(D, A, C, wanted, seen) && x in wanted && x in D
    requires DepNames(D[x]) <= C
    ensures Visiting(D, A, C, (wanted + (DepNames(D[x]) - (seen + {x}))) - {x}, seen + {x})
    ensures |C - (seen + {x})| < |C - seen|
  {
    SmallerRest(C - seen, {x});
    assert C - (seen + {x}) == (C - seen) - {x};
  }

  /** The callback of createGraph for one app: the app hangs from the start
      vertex, each hard dependency from the app, each soft dependency from
      the start vertex. */
  method AddAppToGraph(g: Graph, app: string, deps: Dependencies)
    requires g.directed
    modifies g
    ensures g.directed
    ensures g.EdgeSet() == old(g.EdgeSet()) + AppEdges(app, deps)
    ensures g.adjacency.Keys == old(g.adjacency.Keys) + {RootVertexName, app} + DepNames(deps)
  {
    g.AddVertex(app);
    g.AddEdge(RootVertexName, app);
    AddFan(g, app, deps.hardDeps);
    AddFan(g, RootVertexName, deps.softDeps);
  }

  /** One dependency loop of the DependencyOrderDot callback: each of `ends`
      becomes a node, with an edge from `v` appended. */
  method AddDotFan(nodes: set<string>, edges: seq<DotEdge>, v: string, ends: seq<string>, dotted: bool)
    returns (nodes': set<string>, edges': seq<DotEdge>)
    ensures nodes' == nodes + Elems(ends)
    ensures Elems(edges') == Elems(edges) + DotFan(v, ends, dotted)
    ensures |edges'| == |edges| + |ends| && edges'[..|edges|] == edges
  {
    nodes', edges' := nodes, edges;
    for i := 0 to |ends|
      invariant nodes' == nodes + Elems(ends[..i])
      invariant Elems(edges') == Elems(edges) + DotFan(v, ends[..i], dotted)
      invariant |edges'| == |edges| + i && edges'[..|edges|] == edges
    {
      assert ends[..i + 1] == ends[..i] + [ends[i]];
      DotFanSnoc(v, ends[..i], ends[i], dotted);
      var e := DotEdge(v, ends[i], dotted);
      assert Elems(edges' + [e]) == Elems(edges') + {e};
      nodes' := nodes' + {ends[i]};
      edges' := edges' + [e];
    }
    assert ends[..|ends|] == ends;
  }

  /** The callback of DependencyOrderDot for one app: nodes for the app and
      its dependencies, a solid edge per hard and a dotted edge per soft
      dependency, appended in order. */
  method AddAppToDot(nodes: set<string>, edges: seq<DotEdge>, app: string, deps: Dependencies)
    returns (nodes': set<string>, edges': seq<DotEdge>)
    ensures nodes' == nodes + {app} + DepNames(deps)
    ensures Elems(edges') == Elems(edges) + AppDotEdges(app, deps)
    ensures |edges'| == |edges| + |deps.hardDeps| + |deps.softDeps| && edges'[..|edges|] == edges
  {
    var n1, e1 := AddDotFan(nodes + {app}, edges, app, deps.hardDeps, false);
    nodes', edges' := AddDotFan(n1, e1, app, deps.softDeps, true);
    assert edges'[..|edges|] == e1[..|edges|];
  }

  /** slices.Reverse: reverses the array in place. */
  method ReverseInPlace(a: array<string>)
    modifies a
    ensures a[..] == Reversed(old(a[..]))
  {
    var n := a.Length;
    var i := 0;
    while i < n / 2
      invariant 0 <= i <= n / 2
      invariant forall k :: 0 <= k < i ==> a[k] == old(a[n - 1 - k]) && a[n - 1 - k] == old(a[k])
      invariant forall k :: i <= k < n - i ==> a[k] == old(a[k])
    {
      a[i], a[n - 1 - i] := a[n - 1 - i], a[i];
      i := i + 1;
    }
  }

  /** The loop of forEachRecursive over the apps `D` of one distribution:
      starting from the requested apps, an app still wanted is taken in any
      order, recorded, and its hard and soft dependencies not seen yet become
      wanted; an app missing from `D` ends the walk. `C` is any closed set
      holding the requested apps, so the walk never leaves it. */
  method WalkDependencies(D: AppMap, apps: seq<string>, ghost C: set<string>)
    returns (r: Result<seq<string>, CompError>)
    requires Elems(apps) <= C && DepClosed(D, C)
    ensures r.Success? ==>
      NoDuplicates(r.value) && Elems(apps) <= Elems(r.value) <= C &&
      Elems(r.value) <= D.Keys && DepClosed(D, Elems(r.value))
    ensures r.Failure? ==> r.error.UnknownApp? && r.error.name in C && r.error.name !in D
  {
    var wanted := Datastructs.SliceToSet(apps);
    var seen: set<string> := {};
    var trace: seq<string> := [];
    while wanted != {}
      invariant Elems(trace) == seen && NoDuplicates(trace)
      invariant Visiting(D, Elems(apps), C, wanted, seen)
      decreases |C - seen|
    {
      var appName :| appName in wanted;
      if appName !in D {
        r := Failure(UnknownApp(appName));
        return;
      }
      VisitStep(D, Elems(apps), C, wanted, seen, appName);
      ConcatDistinct(trace, [appName]);
      wanted, seen := Visit(wanted, seen, appName, D[appName]);
      trace := trace + [appName];
    }
    r := Success(trace);
  }

  /** The inner loop of Verify over the apps of distribution `d`: `root`
      when one of them is named like the start vertex, otherwise every
      unresolved soft and hard dependency of its apps, each once. */
  method VerifyDistribution(dists: Distributions, d: string)
    returns (root: bool, errs: seq<MissingRef>)
    requires d in dists
    ensures root <==> RootVertexName in dists[d]
    ensures !root ==> Elems(errs) == AppsMissing(dists, d, dists[d].Keys) && NoDuplicates(errs)
  {
    var apps := dists[d];
    errs := [];
    var restA := apps.Keys;
    while restA != {}
      invariant restA <= apps.Keys
      invariant RootVertexName !in apps.Keys - restA
      invariant Elems(errs) == AppsMissing(dists, d, apps.Keys - restA)
      invariant NoDuplicates(errs)
      decreases |restA|
    {
      var a :| a in restA;
      if a == RootVertexName {
        root := true;
        return;
      }
      ghost var doneA := apps.Keys - restA;
      AppsMissingNames(dists, d, doneA);
      AppsMissingAdd(dists, d, doneA, a);
      var soft := MissingOfKind(apps, d, a, Soft, apps[a].softDeps);
      var hard := MissingOfKind(apps, d, a, Hard, apps[a].hardDeps);
      ConcatDistinct(errs, soft);
      ConcatDistinct(errs + soft, hard);
      errs := errs + soft + hard;
      assert apps.Keys - (restA - {a}) == doneA + {a};
      restA := restA - {a};
    }
    assert apps.Keys - restA == apps.Keys;
    root := false;
  }

  /** The graph createGraph builds: the start vertex, then for each visited
      app in `trace` its vertex and edges. */
  method BuildGraph(D: AppMap, trace: seq<string>) returns (g: Graph)
    requires Elems(trace) <= D.Keys
    ensures fresh(g) && g.directed
    ensures g.EdgeSet() == GraphEdges(D, Elems(trace))
    ensures g.adjacency.Keys == GraphVertices(D, Elems(trace))
  {
    g := new Graph.NewDigraph();
    g.AddVertex(RootVertexName);
    GraphOfNothing(D);
    ghost var done: set<string> := {};
    for i := 0 to |trace|
      invariant fresh(g) && g.directed
      invariant done == Elems(trace[..i]) && done <= D.Keys
      invariant g.EdgeSet() == GraphEdges(D, done)
      invariant g.adjacency.Keys == GraphVertices(D, done)
    {
      PrefixElems(trace, i);
      assert trace[i] in Elems(trace);
      GraphAdd(D, done, trace[i]);
      AddAppToGraph(g, trace[i], D[trace[i]]);
      done := done + {trace[i]};
    }
    assert trace[..|trace|] == trace;
  }

  /** The DOT graph DependencyOrderDot builds: for each visited app in
      `trace` its node, and a node and an edge per dependency. */
  method BuildDot(D: AppMap, trace: seq<string>) returns (dot: DotGraph)
    requires Elems(trace) <= D.Keys
    ensures dot.nodes == Elems(trace) + DepsOf(D, Elems(trace))
    ensures Elems(dot.edges) == DotEdges(D, Elems(trace))
  {
    var nodes: set<string> := {};
    var edges: seq<DotEdge> := [];
    ghost var done: set<string> := {};
    for i := 0 to |trace|
      invariant done == Elems(trace[..i]) && done <= D.Keys
      invariant nodes == done + DepsOf(D, done)
      invariant Elems(edges) == DotEdges(D, done)
    {
      PrefixElems(trace, i);
      assert trace[i] in Elems(trace);
      DotAdd(D, done, trace[i]);
      nodes, edges := AddAppToDot(nodes, edges, trace[i], D[trace[i]]);
      done := done + {trace[i]};
    }
    assert trace[..|trace|] == trace;
    dot := DotGraph(nodes, edges);
  }

  class Composition {
    /** distribution name → app name → dependencies. */
    var distribution: Distributions

    /** NewComposition: no distributions. */
    constructor NewComposition()
      ensures distribution == map[]
    {
      distribution := map[];
    }

    /** Verify: an app named like the start vertex is refused at once;
        otherwise every dependency that names no app of its distribution is
        reported, each once, and there is no error when none does. */
    method Verify() returns (err: Option<VerifyError>)
      ensures err == Some(ReservedAppName) <==> HasRootApp(distribution)
      ensures err == None <==> !HasRootApp(distribution) && AllResolved(distribution)
      ensures err.Some? && err.value.Dangling? ==>
        Elems(err.value.refs) == MissingRefs(distribution) && NoDuplicates(err.value.refs) && err.value.refs != []
    {
      var errs: seq<MissingRef> := [];
      var restD := distribution.Keys;
      while restD != {}
        invariant restD <= distribution.Keys
        invariant forall d :: d in distribution.Keys - restD ==> RootVertexName !in distribution[d]
        invariant Elems(errs) == MissingIn(distribution, distribution.Keys - restD)
        invariant NoDuplicates(errs)
        decreases |restD|
      {
        var d :| d in restD;
        ghost var doneD := distribution.Keys - restD;
        var root, found := VerifyDistribution(distribution, d);
        if root {
          err := Some(ReservedAppName);
          return;
        }
        MissingInNames(distribution, doneD);
        AppsMissingNames(distribution, d, distribution[d].Keys);
        ConcatDistinct(errs, found);
        MissingInAdd(distribution, doneD, d);
        errs := errs + found;
        assert distribution.Keys - (restD - {d}) == doneD + {d};
        restD := restD - {d};
      }
      assert distribution.Keys - restD == distribution.Keys;
      assert !HasRootApp(distribution);
      NoMissingIffResolved(distribution);
      if errs == [] {
        assert MissingRefs(distribution) == {};
        err := None;
      } else {
        assert errs[0] in MissingRefs(distribution);
        err := Some(Dangling(errs));
      }
    }

    /** Add: stores the app under `d`, creating the distribution when it is
        missing; a nil app is stored without dependencies. */
    method Add(d: string, appName: string, app: Option<Dependencies>)
      modifies this
      ensures distribution == WithApp(old(distribution), d, appName, app)
    {
      var distr: AppMap;
      if d !in distribution {
        distr := map[];
        distribution := distribution[d := distr];
      } else {
        distr := distribution[d];
      }
      var deps := if app.None? then NoDependencies else app.value;
      distribution := distribution[d := distr[appName := deps]];
    }

    /** IsEmpty: there is no distribution. */
    function IsEmpty(): (r: bool)
      reads this
      ensures r <==> distribution.Keys == {}
    {
      |distribution| == 0
    }

    /** forEachRecursive: visits the requested apps and, transitively, their
        hard and soft dependencies, each once; stops at the first name that
        is no app of the distribution. */
    method ForEachRecursive(d: string, apps: seq<string>) returns (r: Result<seq<string>, CompError>)
      ensures d !in distribution ==> r == Failure(NoApps)
      ensures d in distribution ==>
        var D := distribution[d];
        var C := Closure(D, Elems(apps));
        (r.Success? <==> C <= D.Keys) &&
        (r.Success? ==> Elems(r.value) == C && NoDuplicates(r.value)) &&
        (r.Failure? ==> r.error.UnknownApp? && r.error.name in C && r.error.name !in D)
    {
      if d !in distribution {
        r := Failure(NoApps);
        return;
      }
      var D := distribution[d];
      ClosureIsLeast(D, Elems(apps));
      r := WalkDependencies(D, apps, Closure(D, Elems(apps)));
      if r.Success? {
        ClosureWithin(D, Elems(apps), Elems(r.value));
      }
    }

    /** forEach: with no app requested, every app of the distribution once;
        otherwise what forEachRecursive visits. */
    method ForEach(d: string, apps: seq<string>) returns (r: Result<seq<string>, CompError>)
      ensures d !in distribution ==> r == Failure(NoApps)
      ensures d in distribution ==>
        var D := distribution[d];
        var A := Selected(D, apps);
        (r.Success? <==> A <= D.Keys) &&
        (r.Success? ==> Elems(r.value) == A && NoDuplicates(r.value)) &&
        (r.Failure? ==> r.error.UnknownApp? && r.error.name in A && r.error.name !in D)
    {
      if |apps| > 0 {
        r := ForEachRecursive(d, apps);
        return;
      }
      if d !in distribution {
        r := Failure(NoApps);
        return;
      }
      var D := distribution[d];
      var trace: seq<string> := [];
      var rest := D.Keys;
      while rest != {}
        invariant Elems(trace) + rest == D.Keys
        invariant Elems(trace) !! rest
        invariant NoDuplicates(trace)
        decreases |rest|
      {
        var a :| a in rest;
        trace := trace + [a];
        rest := rest - {a};
      }
      r := Success(trace);
    }

    /** createGraph: the directed graph of the visited apps, rooted at the
        start vertex. */
    method CreateGraph(d: string, apps: seq<string>) returns (r: Result<Graph, CompError>)
      ensures d !in distribution ==> r == Failure(NoApps)
      ensures d in distribution ==>
        var D := distribution[d];
        var A := Selected(D, apps);
        (r.Success? <==> A <= D.Keys) &&
        (r.Success? ==>
           fresh(r.value) && r.value.directed &&
           r.value.EdgeSet() == GraphEdges(D, A) && r.value.adjacency.Keys == GraphVertices(D, A)) &&
        (r.Failure? ==> r.error.UnknownApp? && r.error.name in A && r.error.name !in D)
    {
      if d !in distribution {
        r := Failure(NoApps);
        return;
      }
      var visit := ForEach(d, apps);
      if visit.Failure? {
        r := Failure(visit.error);
        return;
      }
      var g := BuildGraph(distribution[d], visit.value);
      r := Success(g);
    }

    /** createGraph, TopologicalSort and ListToSlice: the first steps that
        both versions of DependencyOrder share. */
    method SortedVertices(d: string, apps: seq<string>) returns (r: Result<seq<string>, CompError>)
      ensures d !in distribution ==> r == Failure(NoApps)
      ensures d in distribution ==>
        var D := distribution[d];
        var A := Selected(D, apps);
        (r.Success? <==> A <= D.Keys && SortOf(D, A).Some?) &&
        (r.Success? ==> r.value == SortOf(D, A).value.order) &&
        (r == Failure(NoDAG) <==> A <= D.Keys && SortOf(D, A).None?) &&
        (r.Failure? && r.error != NoDAG ==> r.error.UnknownApp? && r.error.name in A && r.error.name !in D)
    {
      var gr := CreateGraph(d, apps);
      if gr.Failure? {
        r := Failure(gr.error);
        return;
      }
      var sorted, _, err := TopologicalSort(gr.value);
      if err.Some? {
        r := Failure(NoDAG);
        return;
      }
      var order := Datastructs.ListToSlice(sorted);
      r := Success(order);
    }

    /** DependencyOrder as written: when nothing is visited the sort is
        empty, and taking its first element panics. */
    method DependencyOrderAsWritten(d: string, apps: seq<string>) returns (r: Result<seq<string>, CompError>)
      ensures d !in distribution ==> r == Failure(NoApps)
      ensures d in distribution ==>
        var D := distribution[d];
        var A := Selected(D, apps);
        (r == Failure(IndexOutOfRange) <==> apps == [] && D == map[]) &&
        (r.Success? <==> A <= D.Keys && A != {} && SortOf(D, A).Some?) &&
        (r.Success? ==> |SortOf(D, A).value.order| >= 1 && r.value == OrderFromSort(SortOf(D, A).value.order))
    {
      var sr := SortedVertices(d, apps);
      if sr.Failure? {
        r := Failure(sr.error);
        if d in distribution {
          SelectedEmpty(distribution[d], apps);
          SortOfNothing(distribution[d]);
        }
        return;
      }
      var order := sr.value;
      var D := distribution[d];
      ghost var A := Selected(D, apps);
      SortEmptyIffNoApps(D, A);
      SelectedEmpty(D, apps);
      SortOfNothing(D);
      if |order| == 0 {
        r := Failure(IndexOutOfRange);
        return;
      }
      r := DropRootAndReverse(D, apps, order);
    }

    /** DependencyOrder: the visited apps and their dependencies, each
        dependency before the apps that need it; no apps to order is an
        error, and so is a loop in the graph. */
    method DependencyOrder(d: string, apps: seq<string>) returns (r: Result<seq<string>, CompError>)
      ensures d !in distribution ==> r == Failure(NoApps)
      ensures d in distribution ==>
        var D := distribution[d];
        var A := Selected(D, apps);
        (r.Success? <==> A <= D.Keys && A != {} && SortOf(D, A).Some?) &&
        (r.Success? ==> |SortOf(D, A).value.order| >= 1 && r.value == OrderFromSort(SortOf(D, A).value.order)) &&
        (r == Failure(NoApps) <==> apps == [] && D == map[]) &&
        (r == Failure(NoDAG) <==> A <= D.Keys && SortOf(D, A).None?) &&
        (r.Failure? && r.error.UnknownApp? ==> r.error.name in A && r.error.name !in D) &&
        r != Failure(IndexOutOfRange)
    {
      var sr := SortedVertices(d, apps);
      if sr.Failure? {
        r := Failure(sr.error);
        if d in distribution {
          SelectedEmpty(distribution[d], apps);
          SortOfNothing(distribution[d]);
        }
        return;
      }
      var order := sr.value;
      var D := distribution[d];
      ghost var A := Selected(D, apps);
      SortEmptyIffNoApps(D, A);
      SelectedEmpty(D, apps);
      SortOfNothing(D);
      if |order| == 0 {
        r := Failure(NoApps);
        return;
      }
      r := DropRootAndReverse(D, apps, order);
    }

    /** The end of DependencyOrder for a non-empty sort: the first element
        is always the start vertex, so the BUG panic cannot happen; it is
        dropped and the rest reversed. */
    method DropRootAndReverse(D: AppMap, apps: seq<string>, order: seq<string>) returns (r: Result<seq<string>, CompError>)
      requires Selected(D, apps) <= D.Keys && SortOf(D, Selected(D, apps)).Some?
      requires order == SortOf(D, Selected(D, apps)).value.order && |order| >= 1
      ensures r == Success(OrderFromSort(order))
    {
      ghost var A := Selected(D, apps);
      SortFailsIffHardCycle(D, A);
      SortEmptyIffNoApps(D, A);
      SortStartsAtRoot(D, A);
      if order[0] != RootVertexName {
        assert false;
      }
      var rest := order[1..];
      var a := new string[|rest|](k requires 0 <= k < |rest| => rest[k]);
      assert a[..] == rest;
      ReverseInPlace(a);
      r := Success(a[..]);
    }

    /** DependencyOrderDot: the visited apps and their dependencies as
        nodes, hard dependencies as solid and soft ones as dotted edges.
        A loop is drawn, not refused. */
    method DependencyOrderDot(d: string, apps: seq<string>) returns (r: Result<DotGraph, CompError>)
      ensures d !in distribution ==> r == Failure(NoApps)
      ensures d in distribution ==>
        var D := distribution[d];
        var A := Selected(D, apps);
        (r.Success? <==> A <= D.Keys) &&
        (r.Success? ==> r.value.nodes == A + DepsOf(D, A) && Elems(r.value.edges) == DotEdges(D, A)) &&
        (r.Failure? ==> r.error.UnknownApp? && r.error.name in A && r.error.name !in D)
    {
      var visit := ForEach(d, apps);
      if visit.Failure? {
        r := Failure(visit.error);
        return;
      }
      var dot := BuildDot(distribution[d], visit.value);
      r := Success(dot);
    }
  }
}
