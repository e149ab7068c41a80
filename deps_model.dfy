/**
 * The pure side of internal/deps/composition.go: the dependency data of a
 * composition, the apps a request reaches, the graph createGraph builds from
 * them, what Verify checks, and what the sort of that graph means.
 */
module DepsModel {
  import opened Wrappers
  import opened GoStrings
  import opened Graphs
  import opened TopoSort

  /** The soft and hard dependencies of one app, in file order. */
  datatype Dependencies = Dependencies(softDeps: seq<string>, hardDeps: seq<string>)

  /** What Add stores for a nil `*Dependencies`. */
  const NoDependencies := Dependencies([], [])

  /** The start vertex of every graph; no app may carry this name. */
  const RootVertexName: string := "root-9e4ecaef-60a4-4300-b0a4-ff3bd1dd7a71"

  /** The apps of one distribution, by name. */
  type AppMap = map<string, Dependencies>

  /** The apps of every distribution; a distribution whose app map is nil is absent. */
  type Distributions = map<string, AppMap>

  function DepNames(deps: Dependencies): set<string> {
    Elems(deps.softDeps) + Elems(deps.hardDeps)
  }

  //---------------------------------------------------------------------------
  // Add
  //---------------------------------------------------------------------------

  /** The distributions after Add(d, n, app): the app map of `d` is created
      when missing and `n` is set, a nil app becoming one without dependencies. */
  function WithApp(dists: Distributions, d: string, n: string, app: Option<Dependencies>): Distributions {
    var apps := if d in dists then dists[d] else map[];
    dists[d := apps[n := if app.Some? then app.value else NoDependencies]]
  }

  /** Add creates the distribution, stores the app under its name and
      leaves every other app of every distribution as it was. */
  lemma WithAppEffect(dists: Distributions, d: string, n: string, app: Option<Dependencies>)
    ensures var r := WithApp(dists, d, n, app);
      r.Keys == dists.Keys + {d} &&
      r[d].Keys == (if d in dists then dists[d].Keys else {}) + {n} &&
      r[d][n] == (if app.Some? then app.value else NoDependencies) &&
      forall e, m :: e in dists && m in dists[e] && (e != d || m != n) ==>
        e in r && m in r[e] && r[e][m] == dists[e][m]
  {
  }

  /** Adding the same app twice is adding it once. */
  lemma WithAppIdempotent(dists: Distributions, d: string, n: string, app: Option<Dependencies>)
    ensures WithApp(WithApp(dists, d, n, app), d, n, app) == WithApp(dists, d, n, app)
  {
    var r := WithApp(dists, d, n, app);
    assert r[d][n := r[d][n]] == r[d];
  }

  //---------------------------------------------------------------------------
  // Verify
  //---------------------------------------------------------------------------

  datatype DepKind = Soft | Hard

  /** The `index`-th dependency of `kind` of `app` in `distribution` names
      `dep`, which is no app of that distribution. */
  datatype MissingRef = MissingRef(distribution: string, app: string, kind: DepKind, index: nat, dep: string)

  /** The unresolved references among the dependencies `deps` of one kind
      of app `a` in distribution `d`, whose apps are `D`. */
  ghost function KindMissing(D: AppMap, d: string, a: string, kind: DepKind, deps: seq<string>): set<MissingRef> {
    set i | 0 <= i < |deps| && deps[i] !in D :: MissingRef(d, a, kind, i, deps[i])
  }

  /** The unresolved references of one app: its soft ones and its hard ones. */
  ghost function AppMissing(dists: Distributions, d: string, a: string): set<MissingRef>
    requires d in dists && a in dists[d]
  {
    KindMissing(dists[d], d, a, Soft, dists[d][a].softDeps) +
    KindMissing(dists[d], d, a, Hard, dists[d][a].hardDeps)
  }

  /** The unresolved references of the apps `names` of distribution `d`. */
  ghost function AppsMissing(dists: Distributions, d: string, names: set<string>): set<MissingRef>
    requires d in dists
  {
    set a, r | a in names && a in dists[d] && r in AppMissing(dists, d, a) :: r
  }

  /** The unresolved references of every app of the distributions `ds`. */
  ghost function MissingIn(dists: Distributions, ds: set<string>): set<MissingRef> {
    set d, r | d in ds && d in dists && r in AppsMissing(dists, d, dists[d].Keys) :: r
  }

  /** Every unresolved reference of every app. */
  ghost function MissingRefs(dists: Distributions): set<MissingRef> {
    MissingIn(dists, dists.Keys)
  }

  /** A reference of the apps `names` of `d` names `d` and one of those apps. */
  lemma AppsMissingNames(dists: Distributions, d: string, names: set<string>)
    requires d in dists
    ensures forall r :: r in AppsMissing(dists, d, names) ==> r.distribution == d && r.app in names
  {
  }

  /** A reference of the distributions `ds` names one of them. */
  lemma MissingInNames(dists: Distributions, ds: set<string>)
    ensures forall r :: r in MissingIn(dists, ds) ==> r.distribution in ds
  {
    forall r | r in MissingIn(dists, ds) ensures r.distribution in ds {
      var d :| d in ds && d in dists && r in AppsMissing(dists, d, dists[d].Keys);
      AppsMissingNames(dists, d, dists[d].Keys);
    }
  }

  /** Taking one more app adds its references. */
  lemma AppsMissingAdd(dists: Distributions, d: string, names: set<string>, a: string)
    requires d in dists && a in dists[d]
    ensures AppsMissing(dists, d, names + {a}) == AppsMissing(dists, d, names) + AppMissing(dists, d, a)
  {
  }

  /** Taking one more distribution adds the references of all its apps. */
  lemma MissingInAdd(dists: Distributions, ds: set<string>, d: string)
    requires d in dists
    ensures MissingIn(dists, ds + {d}) == MissingIn(dists, ds) + AppsMissing(dists, d, dists[d].Keys)
  {
  }

  /** Every dependency names an app of the same distribution. */
  ghost predicate AllResolved(dists: Distributions) {
    forall d, a :: d in dists && a in dists[d] ==> DepNames(dists[d][a]) <= dists[d].Keys
  }

  /** Some distribution has an app named like the start vertex. */
  ghost predicate HasRootApp(dists: Distributions) {
    exists d :: d in dists && RootVertexName in dists[d]
  }

  /** No reference is missing exactly when every dependency resolves. */
  lemma NoMissingIffResolved(dists: Distributions)
    ensures MissingRefs(dists) == {} <==> AllResolved(dists)
  {
    if !AllResolved(dists) {
      var d, a :| d in dists && a in dists[d] && !(DepNames(dists[d][a]) <= dists[d].Keys);
      var x :| x in DepNames(dists[d][a]) && x !in dists[d];
      UnresolvedIsMissing(dists, d, a, x);
    }
    if MissingRefs(dists) != {} {
      var r :| r in MissingRefs(dists);
      MissingIsUnresolved(dists, r);
    }
  }

  /** A dependency that names no app gives a missing reference. */
  lemma UnresolvedIsMissing(dists: Distributions, d: string, a: string, x: string)
    requires d in dists && a in dists[d] && x in DepNames(dists[d][a]) && x !in dists[d]
    ensures exists r :: r in MissingRefs(dists) && r.dep == x
  {
    var deps := dists[d][a];
    var r;
    if x in deps.softDeps {
      var i :| 0 <= i < |deps.softDeps| && deps.softDeps[i] == x;
      r := MissingRef(d, a, Soft, i, x);
    } else {
      var i :| 0 <= i < |deps.hardDeps| && deps.hardDeps[i] == x;
      r := MissingRef(d, a, Hard, i, x);
    }
    assert r in AppMissing(dists, d, a);
    assert r in AppsMissing(dists, d, dists[d].Keys);
  }

  /** A missing reference names a dependency of its app that is no app. */
  lemma MissingIsUnresolved(dists: Distributions, r: MissingRef)
    requires r in MissingRefs(dists)
    ensures r.distribution in dists && r.app in dists[r.distribution]
    ensures r.dep in DepNames(dists[r.distribution][r.app]) && r.dep !in dists[r.distribution]
  {
    var d :| d in dists && r in AppsMissing(dists, d, dists[d].Keys);
    var a :| a in dists[d] && r in AppMissing(dists, d, a);
  }

  /** A distribution without apps passes Verify: it has no app named like
      the start vertex and no unresolved reference. */
  lemma EmptyDistributionVerifies(d: string)
    ensures !HasRootApp(map[d := map[]]) && AllResolved(map[d := map[]])
  {
  }

  //---------------------------------------------------------------------------
  // The apps a request reaches
  //---------------------------------------------------------------------------

  /** Every dependency name of every app. */
  ghost function AllDepNames(D: AppMap): set<string> {
    set a, x | a in D && x in DepNames(D[a]) :: x
  }

  /** `T` holds the dependencies of each of its members that is an app. */
  ghost predicate DepClosed(D: AppMap, T: set<string>) {
    forall a :: a in T && a in D ==> DepNames(D[a]) <= T
  }

  /** `x` lies in every closed set that holds the requested apps `A`. */
  ghost predicate InClosure(D: AppMap, A: set<string>, x: string) {
    forall T :: A <= T && DepClosed(D, T) ==> x in T
  }

  /** The requested apps and everything they depend on, directly or not. */
  ghost function Closure(D: AppMap, A: set<string>): set<string> {
    set x | x in A + AllDepNames(D) && InClosure(D, A, x)
  }

  /** A dependency of a reached app is reached. */
  lemma InClosureStep(D: AppMap, A: set<string>, a: string, x: string)
    requires InClosure(D, A, a) && a in D && x in DepNames(D[a])
    ensures InClosure(D, A, x)
  {
  }

  /** The closure is the least closed set holding the requested apps. */
  lemma ClosureIsLeast(D: AppMap, A: set<string>)
    ensures A <= Closure(D, A)
    ensures DepClosed(D, Closure(D, A))
    ensures forall T :: A <= T && DepClosed(D, T) ==> Closure(D, A) <= T
  {
    var C := Closure(D, A);
    forall a, x | a in C && a in D && x in DepNames(D[a]) ensures x in C {
      InClosureStep(D, A, a, x);
      assert x in AllDepNames(D);
    }
  }

  /** The dependencies of a reached app are reached. */
  lemma ClosureStep(D: AppMap, A: set<string>, a: string)
    requires a in Closure(D, A) && a in D
    ensures DepNames(D[a]) <= Closure(D, A)
  {
    ClosureIsLeast(D, A);
  }

  /** A closed set of apps that holds the request holds its closure. */
  lemma ClosureWithin(D: AppMap, A: set<string>, T: set<string>)
    requires A <= T && DepClosed(D, T)
    ensures Closure(D, A) <= T
  {
    ClosureIsLeast(D, A);
  }

  /** The apps forEach visits: all of the distribution for an empty request,
      otherwise the closure of the request. */
  ghost function Selected(D: AppMap, apps: seq<string>): set<string> {
    if |apps| == 0 then D.Keys else Closure(D, Elems(apps))
  }

  /** Every app among the dependencies of the visited apps is visited too. */
  lemma SelectedTakesReachedApps(D: AppMap, apps: seq<string>)
    ensures DepsOf(D, Selected(D, apps)) * D.Keys <= Selected(D, apps)
  {
    if |apps| > 0 {
      ClosureIsLeast(D, Elems(apps));
    }
  }

  //---------------------------------------------------------------------------
  // The graph createGraph builds
  //---------------------------------------------------------------------------

  /** The start vertex points at every visited app. */
  ghost function RootEdges(A: set<string>): set<Edge> {
    set a | a in A :: Edge(RootVertexName, a)
  }

  /** Each visited app points at its hard dependencies. */
  ghost function HardEdges(D: AppMap, A: set<string>): set<Edge> {
    set a, h | a in A && a in D && h in D[a].hardDeps :: Edge(a, h)
  }

  /** The start vertex points at the soft dependencies of every visited app. */
  ghost function SoftEdges(D: AppMap, A: set<string>): set<Edge> {
    set a, s | a in A && a in D && s in D[a].softDeps :: Edge(RootVertexName, s)
  }

  ghost function GraphEdges(D: AppMap, A: set<string>): set<Edge> {
    RootEdges(A) + HardEdges(D, A) + SoftEdges(D, A)
  }

  /** The edges the callback of createGraph adds for app `a`. */
  ghost function AppEdges(a: string, deps: Dependencies): set<Edge> {
    {Edge(RootVertexName, a)} + Fan(a, deps.hardDeps) + Fan(RootVertexName, deps.softDeps)
  }

  /** The edges from `v` to each of `ends`. */
  ghost function Fan(v: string, ends: seq<string>): set<Edge> {
    set w | w in ends :: Edge(v, w)
  }

  lemma FanSnoc(v: string, ends: seq<string>, w: string)
    ensures Fan(v, ends + [w]) == Fan(v, ends) + {Edge(v, w)}
  {
  }

  /** Visiting one more app adds its edges and its vertices. */
  lemma GraphAdd(D: AppMap, A: set<string>, a: string)
    requires a in D
    ensures GraphEdges(D, A + {a}) == GraphEdges(D, A) + AppEdges(a, D[a])
    ensures GraphVertices(D, A + {a}) == GraphVertices(D, A) + {a} + DepNames(D[a])
  {
    var E := GraphEdges(D, A + {a});
    forall e | e in AppEdges(a, D[a]) ensures e in E {
      if e != Edge(RootVertexName, a) {
        if h :| h in D[a].hardDeps && e == Edge(a, h) {
          assert e in HardEdges(D, A + {a});
        } else {
          var s :| s in D[a].softDeps && e == Edge(RootVertexName, s);
          assert e in SoftEdges(D, A + {a});
        }
      }
    }
    forall e | e in E ensures e in GraphEdges(D, A) + AppEdges(a, D[a]) {
      if e in HardEdges(D, A + {a}) {
        var b, h :| b in A + {a} && b in D && h in D[b].hardDeps && e == Edge(b, h);
        if b != a { assert e in HardEdges(D, A); }
      } else if e in SoftEdges(D, A + {a}) {
        var b, s :| b in A + {a} && b in D && s in D[b].softDeps && e == Edge(RootVertexName, s);
        if b != a { assert e in SoftEdges(D, A); }
      }
    }
    assert DepsOf(D, A + {a}) == DepsOf(D, A) + DepNames(D[a]);
  }

  /** Visiting no app leaves the start vertex alone. */
  lemma GraphOfNothing(D: AppMap)
    ensures GraphEdges(D, {}) == {} && GraphVertices(D, {}) == {RootVertexName}
  {
  }

  /** The dependency names of the visited apps. */
  ghost function DepsOf(D: AppMap, A: set<string>): set<string> {
    set a, x | a in A && a in D && x in DepNames(D[a]) :: x
  }

  /** The vertices of the graph: the start vertex, the apps, their dependencies. */
  ghost function GraphVertices(D: AppMap, A: set<string>): set<string> {
    {RootVertexName} + A + DepsOf(D, A)
  }

  /** The start vertex is one of the visited apps or one of their dependencies. */
  ghost predicate RootNamed(D: AppMap, A: set<string>) {
    RootVertexName in A || RootVertexName in DepsOf(D, A)
  }

  /** With at least one app visited, every vertex is the end of an edge, so
      the sort lists exactly the graph's vertices. */
  lemma GraphEndpoints(D: AppMap, A: set<string>)
    requires A != {}
    ensures Endpoints(GraphEdges(D, A)) == GraphVertices(D, A)
  {
    var E := GraphEdges(D, A);
    var a0 :| a0 in A;
    assert Edge(RootVertexName, a0) in E;
    forall v | v in GraphVertices(D, A) ensures v in Endpoints(E) {
      if v in A {
        assert Edge(RootVertexName, v) in E;
      } else if v in DepsOf(D, A) {
        var a :| a in A && a in D && v in DepNames(D[a]);
        if v in D[a].hardDeps {
          assert Edge(a, v) in E;
        } else {
          assert Edge(RootVertexName, v) in E;
        }
      }
    }
    forall v | v in Endpoints(E) ensures v in GraphVertices(D, A) {
      var e :| e in E && (e.start == v || e.stop == v);
      if e in HardEdges(D, A) {
        var a, h :| a in A && a in D && h in D[a].hardDeps && e == Edge(a, h);
        assert h in DepNames(D[a]);
      } else if e in SoftEdges(D, A) {
        var a, s :| a in A && a in D && s in D[a].softDeps && e == Edge(RootVertexName, s);
        assert s in DepNames(D[a]);
      }
    }
  }

  /** An edge into the start vertex exists exactly when the start vertex is named. */
  lemma RootInEdges(D: AppMap, A: set<string>)
    ensures RootNamed(D, A) <==> exists e :: e in GraphEdges(D, A) && e.stop == RootVertexName
  {
    var E := GraphEdges(D, A);
    if RootVertexName in A {
      assert Edge(RootVertexName, RootVertexName) in E;
    } else if RootVertexName in DepsOf(D, A) {
      var a :| a in A && a in D && RootVertexName in DepNames(D[a]);
      if RootVertexName in D[a].hardDeps {
        assert Edge(a, RootVertexName) in E;
      } else {
        assert Edge(RootVertexName, RootVertexName) in E;
      }
    }
    if e :| e in E && e.stop == RootVertexName {
      if e in HardEdges(D, A) {
        var a, h :| a in A && a in D && h in D[a].hardDeps && e == Edge(a, h);
        assert h in DepNames(D[a]);
      } else if e in SoftEdges(D, A) {
        var a, s :| a in A && a in D && s in D[a].softDeps && e == Edge(RootVertexName, s);
        assert s in DepNames(D[a]);
      }
    }
  }

  /** Every vertex other than the start vertex is the end of some edge. */
  lemma {:induction false} VerticesEntered(D: AppMap, A: set<string>)
    ensures forall v :: v in GraphVertices(D, A) && v != RootVertexName ==>
      exists u :: Edge(u, v) in GraphEdges(D, A)
  {
    var E := GraphEdges(D, A);
    forall v | v in GraphVertices(D, A) && v != RootVertexName
      ensures exists u :: Edge(u, v) in E
    {
      if v in A {
        assert Edge(RootVertexName, v) in E;
      } else {
        var a :| a in A && a in D && v in DepNames(D[a]);
        if v in D[a].hardDeps {
          assert Edge(a, v) in E;
        } else {
          assert Edge(RootVertexName, v) in E;
        }
      }
    }
  }

  /** Naming the start vertex always closes a cycle through it. */
  lemma RootNamedMakesCycle(D: AppMap, A: set<string>)
    requires RootNamed(D, A)
    ensures exists p :: IsCycle(GraphEdges(D, A), p)
  {
    var E := GraphEdges(D, A);
    if RootVertexName in A {
      assert Edge(RootVertexName, RootVertexName) in E;
      assert IsCycle(E, [RootVertexName]);
    } else {
      var a :| a in A && a in D && RootVertexName in DepNames(D[a]);
      if RootVertexName in D[a].hardDeps {
        assert Edge(a, RootVertexName) in E && Edge(RootVertexName, a) in E;
        assert IsCycle(E, [RootVertexName, a]);
      } else {
        assert Edge(RootVertexName, RootVertexName) in E;
        assert IsCycle(E, [RootVertexName]);
      }
    }
  }

  /** Each edge that does not leave the start vertex is a hard-dependency edge. */
  lemma NonRootEdgeIsHard(D: AppMap, A: set<string>, e: Edge)
    requires e in GraphEdges(D, A) && e.start != RootVertexName
    ensures e in HardEdges(D, A)
  {
  }

  /** While the start vertex is not named, the graph has a cycle exactly
      when the hard dependencies among the visited apps do: soft
      dependencies never close one. */
  lemma CycleIffHardCycle(D: AppMap, A: set<string>)
    requires !RootNamed(D, A)
    ensures (exists p :: IsCycle(GraphEdges(D, A), p)) <==> (exists p :: IsCycle(HardEdges(D, A), p))
  {
    var E := GraphEdges(D, A);
    RootInEdges(D, A);
    if p :| IsCycle(E, p) {
      forall i | 0 <= i < |p| ensures Edge(p[i], p[if i + 1 < |p| then i + 1 else 0]) in HardEdges(D, A) {
        var prev := if i == 0 then |p| - 1 else i - 1;
        assert Edge(p[prev], p[if prev + 1 < |p| then prev + 1 else 0]) in E;
        assert p[i] != RootVertexName;
        NonRootEdgeIsHard(D, A, Edge(p[i], p[if i + 1 < |p| then i + 1 else 0]));
      }
      assert IsCycle(HardEdges(D, A), p);
    }
    if p :| IsCycle(HardEdges(D, A), p) {
      assert IsCycle(E, p);
    }
  }

  /** On a clean composition no visited app names the start vertex. */
  lemma VerifiedIsRootFree(dists: Distributions, d: string, A: set<string>)
    requires !HasRootApp(dists) && AllResolved(dists)
    requires d in dists && A <= dists[d].Keys
    ensures !RootNamed(dists[d], A)
  {
    var D := dists[d];
    assert RootVertexName !in D;
    forall a, x | a in A && a in D && x in DepNames(D[a]) ensures x != RootVertexName {
      assert x in D.Keys;
    }
  }

  //---------------------------------------------------------------------------
  // DependencyOrder
  //---------------------------------------------------------------------------

  /** What TopologicalSort computes for the graph of the visited apps. */
  ghost function SortOf(D: AppMap, A: set<string>): Option<Layering> {
    Kahn(GraphEdges(D, A), Endpoints(GraphEdges(D, A)), 0)
  }

  /** The sort of the graph fails exactly when a cycle exists; when the start
      vertex is not named, exactly when the hard dependencies loop. */
  lemma SortFailsIffHardCycle(D: AppMap, A: set<string>)
    ensures SortOf(D, A).None? <==> exists p :: IsCycle(GraphEdges(D, A), p)
    ensures !RootNamed(D, A) ==> (SortOf(D, A).None? <==> exists p :: IsCycle(HardEdges(D, A), p))
    ensures RootNamed(D, A) ==> SortOf(D, A).None?
  {
    KahnFailsIffCycle(GraphEdges(D, A));
    if RootNamed(D, A) {
      RootNamedMakesCycle(D, A);
    } else {
      CycleIffHardCycle(D, A);
    }
  }

  /** With the start vertex not named and some app visited, the start
      vertex is the only vertex without an incoming edge. */
  lemma RootOnlySource(D: AppMap, A: set<string>)
    requires !RootNamed(D, A) && A != {}
    ensures Sources(GraphEdges(D, A), Endpoints(GraphEdges(D, A))) == {RootVertexName}
  {
    var E := GraphEdges(D, A);
    var V := Endpoints(E);
    GraphEndpoints(D, A);
    RootInEdges(D, A);
    forall v | v in V && v != RootVertexName ensures v !in Sources(E, V) {
      if v in A {
        assert Edge(RootVertexName, v) in InEdgesFrom(E, V, v);
      } else {
        var a :| a in A && a in D && v in DepNames(D[a]);
        if v in D[a].hardDeps {
          assert Edge(a, v) in InEdgesFrom(E, V, v);
        } else {
          assert Edge(RootVertexName, v) in InEdgesFrom(E, V, v);
        }
      }
    }
    assert InEdgesFrom(E, V, RootVertexName) == {};
  }

  /** So the sort puts the start vertex first. */
  lemma SortStartsAtRoot(D: AppMap, A: set<string>)
    requires !RootNamed(D, A) && A != {} && SortOf(D, A).Some?
    ensures |SortOf(D, A).value.order| >= 1 && SortOf(D, A).value.order[0] == RootVertexName
  {
    var E := GraphEdges(D, A);
    var V := Endpoints(E);
    RootOnlySource(D, A);
    GraphEndpoints(D, A);
    KahnStep(E, V, 0);
    var s := SortedElems({RootVertexName});
    assert |s| == 1 && s[0] in Elems(s);
  }

  /** The sort lists nothing exactly when no app is visited. */
  lemma SortEmptyIffNoApps(D: AppMap, A: set<string>)
    requires SortOf(D, A).Some?
    ensures |SortOf(D, A).value.order| == 0 <==> A == {}
  {
    KahnPermutes(GraphEdges(D, A), Endpoints(GraphEdges(D, A)), 0);
    if A != {} {
      GraphEndpoints(D, A);
      assert RootVertexName in Endpoints(GraphEdges(D, A));
    } else {
      GraphOfNothing(D);
    }
  }

  /** With nothing visited the graph has no edge, and its sort is empty. */
  lemma SortOfNothing(D: AppMap)
    ensures SortOf(D, {}) == Some(Layering([], map[]))
  {
    GraphOfNothing(D);
    assert Endpoints(GraphEdges(D, {})) == {};
  }

  /** forEach visits nothing exactly when no app is requested and the
      distribution has none. */
  lemma SelectedEmpty(D: AppMap, apps: seq<string>)
    ensures Selected(D, apps) == {} <==> apps == [] && D == map[]
  {
    if |apps| > 0 {
      ClosureIsLeast(D, Elems(apps));
      assert apps[0] in Selected(D, apps);
    } else if D != map[] {
      var a :| a in D;
      assert a in Selected(D, apps);
    }
  }

  /** The result of DependencyOrder for a sorted list `order`: the list
      without its first element, back to front. */
  function OrderFromSort(order: seq<string>): seq<string>
    requires |order| >= 1
  {
    Reversed(order[1..])
  }

  /** Dropping the first element of a duplicate-free order whose edges point
      forward and reversing the rest makes every edge point backward. */
  lemma ReversedTail(E: set<Edge>, order: seq<string>)
    requires |order| >= 1 && NoDuplicates(order)
    requires forall i, j :: 0 <= i < |order| && 0 <= j < |order| && Edge(order[i], order[j]) in E ==> i < j
    ensures var o := OrderFromSort(order);
      Elems(o) == Elems(order) - {order[0]} && NoDuplicates(o) &&
      forall i, j :: 0 <= i < |o| && 0 <= j < |o| && Edge(o[j], o[i]) in E ==> i < j
  {
    var tail := order[1..];
    assert Elems(order) == Elems(tail) + {order[0]};
    assert order[0] !in Elems(tail);
    ReversedKeepsElems(tail);
    var o := Reversed(tail);
    var m := |tail|;
    forall i, j | 0 <= i < |o| && 0 <= j < |o| && Edge(o[j], o[i]) in E
      ensures i < j
    {
      assert o[j] == order[m - j] && o[i] == order[m - i];
    }
  }

  /** An order in which every edge of the graph points backward places each
      hard dependency of a visited app before that app. */
  lemma HardDepsBefore(D: AppMap, A: set<string>, o: seq<string>)
    requires Elems(o) == A + DepsOf(D, A) && DepsOf(D, A) * D.Keys <= A
    requires forall i, j :: 0 <= i < |o| && 0 <= j < |o| && Edge(o[j], o[i]) in GraphEdges(D, A) ==> i < j
    ensures forall i, j :: 0 <= i < |o| && 0 <= j < |o| && o[j] in D && o[i] in D[o[j]].hardDeps ==> i < j
  {
    forall i, j | 0 <= i < |o| && 0 <= j < |o| && o[j] in D && o[i] in D[o[j]].hardDeps
      ensures i < j
    {
      assert o[j] in Elems(o);
      assert (A + DepsOf(D, A)) * D.Keys <= A;
      assert o[j] in A;
      assert Edge(o[j], o[i]) in HardEdges(D, A);
    }
  }

  /** What DependencyOrder makes of any list of the graph's vertices that
      starts at the start vertex and along which every edge points forward. */
  lemma OrderOfSortedGraph(D: AppMap, A: set<string>, order: seq<string>)
    requires |order| >= 1 && order[0] == RootVertexName && NoDuplicates(order)
    requires Elems(order) == {RootVertexName} + (A + DepsOf(D, A)) && !RootNamed(D, A)
    requires DepsOf(D, A) * D.Keys <= A
    requires forall i, j :: 0 <= i < |order| && 0 <= j < |order| && Edge(order[i], order[j]) in GraphEdges(D, A) ==> i < j
    ensures var o := OrderFromSort(order);
      Elems(o) == A + DepsOf(D, A) && NoDuplicates(o) &&
      forall i, j :: 0 <= i < |o| && 0 <= j < |o| && o[j] in D && o[i] in D[o[j]].hardDeps ==> i < j
  {
    ReversedTail(GraphEdges(D, A), order);
    HardDepsBefore(D, A, OrderFromSort(order));
  }

  /** The sort lists each vertex of the graph once. */
  lemma SortListsVertices(D: AppMap, A: set<string>)
    requires A != {} && SortOf(D, A).Some?
    ensures Elems(SortOf(D, A).value.order) == {RootVertexName} + (A + DepsOf(D, A))
    ensures NoDuplicates(SortOf(D, A).value.order)
  {
    GraphEndpoints(D, A);
    KahnPermutes(GraphEdges(D, A), Endpoints(GraphEdges(D, A)), 0);
  }

  /** Every edge of the graph points forward in the sort. */
  lemma SortEdgesForward(D: AppMap, A: set<string>)
    requires SortOf(D, A).Some?
    ensures var order := SortOf(D, A).value.order;
      forall i, j :: 0 <= i < |order| && 0 <= j < |order| && Edge(order[i], order[j]) in GraphEdges(D, A) ==> i < j
  {
    KahnEdgesPointForward(GraphEdges(D, A), Endpoints(GraphEdges(D, A)), 0);
  }

  /** A successful DependencyOrder lists every app and dependency of the
      graph once, and places each hard dependency before the app needing it. */
  lemma DependencyOrderMeaning(D: AppMap, A: set<string>)
    requires !RootNamed(D, A) && A != {} && SortOf(D, A).Some?
    requires DepsOf(D, A) * D.Keys <= A
    ensures |SortOf(D, A).value.order| >= 1
    ensures var o := OrderFromSort(SortOf(D, A).value.order);
      Elems(o) == A + DepsOf(D, A) && NoDuplicates(o) &&
      forall i, j :: 0 <= i < |o| && 0 <= j < |o| && o[j] in D && o[i] in D[o[j]].hardDeps ==> i < j
  {
    SortStartsAtRoot(D, A);
    SortListsVertices(D, A);
    SortEdgesForward(D, A);
    OrderOfSortedGraph(D, A, SortOf(D, A).value.order);
  }

  //---------------------------------------------------------------------------
  // DependencyOrderDot
  //---------------------------------------------------------------------------

  /** An edge of the DOT graph; soft dependencies are drawn dotted. */
  datatype DotEdge = DotEdge(src: string, dst: string, dotted: bool)

  /** The DOT graph: its nodes and its edges in the order they were added. */
  datatype DotGraph = DotGraph(nodes: set<string>, edges: seq<DotEdge>)

  /** The edges DependencyOrderDot draws for one app. */
  ghost function AppDotEdges(a: string, deps: Dependencies): set<DotEdge> {
    DotFan(a, deps.hardDeps, false) + DotFan(a, deps.softDeps, true)
  }

  /** The DOT edges from `v` to each of `ends`, all dotted or all solid. */
  ghost function DotFan(v: string, ends: seq<string>, dotted: bool): set<DotEdge> {
    set w | w in ends :: DotEdge(v, w, dotted)
  }

  lemma DotFanSnoc(v: string, ends: seq<string>, w: string, dotted: bool)
    ensures DotFan(v, ends + [w], dotted) == DotFan(v, ends, dotted) + {DotEdge(v, w, dotted)}
  {
  }

  /** The edges DependencyOrderDot draws for the visited apps `A`. */
  ghost function DotEdges(D: AppMap, A: set<string>): set<DotEdge> {
    set a, e | a in A && a in D && e in AppDotEdges(a, D[a]) :: e
  }

  /** The solid edges are the hard-dependency edges of the sorted graph,
      and each dotted edge is a soft dependency of its source. */
  lemma DotEdgesMeaning(D: AppMap, A: set<string>)
    ensures (set e | e in DotEdges(D, A) && !e.dotted :: Edge(e.src, e.dst)) == HardEdges(D, A)
    ensures forall e :: e in DotEdges(D, A) && e.dotted ==> e.src in A && e.src in D && e.dst in D[e.src].softDeps
  {
    var solid := set e | e in DotEdges(D, A) && !e.dotted :: Edge(e.src, e.dst);
    forall e | e in HardEdges(D, A) ensures e in solid {
      var a, h :| a in A && a in D && h in D[a].hardDeps && e == Edge(a, h);
      assert DotEdge(a, h, false) in AppDotEdges(a, D[a]);
      assert DotEdge(a, h, false) in DotEdges(D, A);
    }
    forall e | e in solid ensures e in HardEdges(D, A) {
      var de :| de in DotEdges(D, A) && !de.dotted && e == Edge(de.src, de.dst);
      var a :| a in A && a in D && de in AppDotEdges(a, D[a]);
    }
    forall e | e in DotEdges(D, A) && e.dotted ensures e.src in A && e.src in D && e.dst in D[e.src].softDeps {
      var a :| a in A && a in D && e in AppDotEdges(a, D[a]);
    }
  }

  /** Visiting one more app adds its nodes and edges. */
  lemma DotAdd(D: AppMap, A: set<string>, a: string)
    requires a in D
    ensures DotEdges(D, A + {a}) == DotEdges(D, A) + AppDotEdges(a, D[a])
    ensures A + {a} + DepsOf(D, A + {a}) == A + DepsOf(D, A) + {a} + DepNames(D[a])
  {
    assert DepsOf(D, A + {a}) == DepsOf(D, A) + DepNames(D[a]);
  }
}
