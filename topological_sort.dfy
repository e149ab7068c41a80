/**
 * internal/graphs/topological_sort.go: Kahn's algorithm with a lexicographic
 * tie-break. `Kahn` states what the algorithm computes as a function of the
 * edge set alone; `TopologicalSort` is the imperative loop over the in-degree
 * map, proved to return exactly `Kahn`'s result.
 */
module TopoSort {
  import opened Wrappers
  import opened GoStrings
  import opened Graphs

  /** ErrNoDAG: the graph is not a DAG. */
  datatype SortError = ErrNoDAG

  /** The sorted vertices and the topological class (pass number) of each. */
  datatype Layering = Layering(order: seq<string>, classes: map<string, int>)

  /** The vertices that occur as the start or the end of an edge. */
  ghost function Endpoints(E: set<Edge>): set<string> {
    (set e | e in E :: e.start) + (set e | e in E :: e.stop)
  }

  /** The edges into `v` whose start is still in `R`. */
  ghost function InEdgesFrom(E: set<Edge>, R: set<string>, v: string): set<Edge> {
    set e | e in E && e.start in R && e.stop == v
  }

  /** The vertices of `R` without an incoming edge from `R`. */
  ghost function Sources(E: set<Edge>, R: set<string>): set<string> {
    set v | v in R && InEdgesFrom(E, R, v) == {}
  }

  /** Every vertex of `Z` in class `cls`. */
  function ClassMap(Z: set<string>, cls: int): map<string, int> {
    map v | v in Z :: cls
  }

  /** `o` and `c` already output, followed by what `k` outputs. */
  function Prepend(o: seq<string>, c: map<string, int>, k: Option<Layering>): Option<Layering> {
    match k
    case None => None
    case Some(l) => Some(Layering(o + l.order, c + l.classes))
  }

  /** Kahn's algorithm on the vertices `R`, numbering passes from `cls`:
      each pass takes every source of what remains, lists it in ascending
      order with class `cls`, and removes it; no source left means no DAG. */
  ghost function Kahn(E: set<Edge>, R: set<string>, cls: int): Option<Layering>
    decreases |R|
  {
    if R == {} then Some(Layering([], map[]))
    else
      var Z := Sources(E, R);
      if Z == {} then None
      else
        SmallerRest(R, Z);
        Prepend(SortedElems(Z), ClassMap(Z, cls), Kahn(E, R - Z, cls + 1))
  }

  lemma SmallerRest(R: set<string>, Z: set<string>)
    requires Z != {} && Z <= R
    ensures |R - Z| < |R|
  {
    var z :| z in Z;
    assert R - Z <= R - {z};
  }

  /** Sorted by (class, name): classes never decrease along the order, and
      inside one class the names ascend. */
  ghost predicate ClassOrdered(l: Layering) {
    forall i, j :: 0 <= i < j < |l.order| ==>
      l.order[i] in l.classes && l.order[j] in l.classes &&
      (l.classes[l.order[i]] < l.classes[l.order[j]] ||
       (l.classes[l.order[i]] == l.classes[l.order[j]] && Less(l.order[i], l.order[j])))
  }

  /** A path along edges of `E`: p[i] → p[i + 1]. */
  ghost predicate IsPath(E: set<Edge>, p: seq<string>) {
    forall i :: 0 <= i < |p| - 1 ==> Edge(p[i], p[i + 1]) in E
  }

  /** A sequence of vertices that closes into a cycle of edges of `E`
      (a single vertex with a self-loop included). */
  ghost predicate IsCycle(E: set<Edge>, p: seq<string>) {
    |p| >= 1 && forall i :: 0 <= i < |p| ==> Edge(p[i], p[if i + 1 < |p| then i + 1 else 0]) in E
  }

  //---------------------------------------------------------------------------
  // What Kahn computes
  //---------------------------------------------------------------------------

  /** One pass of Kahn, unfolded: the sources listed in ascending order in
      class `cls`, then the sort of the rest. */
  lemma KahnStep(E: set<Edge>, R: set<string>, cls: int)
    requires R != {} && Kahn(E, R, cls).Some?
    ensures var Z := Sources(E, R);
      Z != {} && Z <= R && |R - Z| < |R| && Kahn(E, R - Z, cls + 1).Some? &&
      Kahn(E, R, cls).value == Layering(SortedElems(Z) + Kahn(E, R - Z, cls + 1).value.order,
                                        ClassMap(Z, cls) + Kahn(E, R - Z, cls + 1).value.classes)
  {
    SmallerRest(R, Sources(E, R));
  }

  /** On success every vertex is listed exactly once. */
  lemma {:induction false} KahnPermutes(E: set<Edge>, R: set<string>, cls: int)
    requires Kahn(E, R, cls).Some?
    ensures var l := Kahn(E, R, cls).value;
      Elems(l.order) == R && NoDuplicates(l.order) && |l.order| == |R|
    decreases |R|
  {
    if R != {} {
      KahnStep(E, R, cls);
      var Z := Sources(E, R);
      var rest := Kahn(E, R - Z, cls + 1).value;
      KahnPermutes(E, R - Z, cls + 1);
      LayerPermutes(SortedElems(Z), Z, rest.order, R);
    }
  }

  /** One layer `Z` in ascending order, followed by a listing of the rest
      of `R` without repeats, lists `R` without repeats. */
  lemma LayerPermutes(s: seq<string>, Z: set<string>, rest: seq<string>, R: set<string>)
    requires StrictlySorted(s) && Elems(s) == Z && Z <= R
    requires Elems(rest) == R - Z && NoDuplicates(rest) && |rest| == |R - Z|
    ensures Elems(s + rest) == R && NoDuplicates(s + rest) && |s + rest| == |R|
  {
    StrictlySortedHasNoDuplicates(s);
    ConcatDistinct(s, rest);
    DistinctLength(s + rest);
  }

  /** On success every vertex gets a class, of at least `cls`. */
  lemma {:induction false} KahnClasses(E: set<Edge>, R: set<string>, cls: int)
    requires Kahn(E, R, cls).Some?
    ensures var l := Kahn(E, R, cls).value;
      l.classes.Keys == R && (forall v :: v in R ==> cls <= l.classes[v])
    decreases |R|
  {
    if R != {} {
      KahnStep(E, R, cls);
      var Z := Sources(E, R);
      KahnClasses(E, R - Z, cls + 1);
      var rest := Kahn(E, R - Z, cls + 1).value.classes;
      ClassMapUnion(Z, cls, rest, R);
    }
  }

  /** The classes of one layer `Z` joined with those of the rest of `R`. */
  lemma ClassMapUnion(Z: set<string>, cls: int, rest: map<string, int>, R: set<string>)
    requires Z <= R && rest.Keys == R - Z && forall v :: v in rest ==> cls + 1 <= rest[v]
    ensures var c := ClassMap(Z, cls) + rest;
      c.Keys == R && forall v :: v in R ==> cls <= c[v] && (c[v] == cls <==> v in Z)
  {
  }

  /** One class listed in ascending order, followed by a layering sorted by
      (class, name) whose classes are all higher, is sorted by (class, name). */
  lemma LayerThenRest(s: seq<string>, Z: set<string>, cls: int, rest: Layering)
    requires StrictlySorted(s) && Elems(s) == Z
    requires ClassOrdered(rest)
    requires forall v :: v in Elems(rest.order) ==> v in rest.classes && cls < rest.classes[v] && v !in Z
    requires rest.classes.Keys !! Z
    ensures ClassOrdered(Layering(s + rest.order, ClassMap(Z, cls) + rest.classes))
  {
    var l := Layering(s + rest.order, ClassMap(Z, cls) + rest.classes);
    forall i, j | 0 <= i < j < |l.order|
      ensures l.order[i] in l.classes && l.order[j] in l.classes &&
        (l.classes[l.order[i]] < l.classes[l.order[j]] ||
         (l.classes[l.order[i]] == l.classes[l.order[j]] && Less(l.order[i], l.order[j])))
    {
      if j < |s| {
        assert l.order[i] == s[i] && l.order[j] == s[j];
        assert s[i] in Elems(s) && s[j] in Elems(s);
      } else if i < |s| {
        assert l.order[i] == s[i] && s[i] in Elems(s);
        assert l.order[j] == rest.order[j - |s|] && rest.order[j - |s|] in Elems(rest.order);
      } else {
        assert l.order[i] == rest.order[i - |s|] && l.order[j] == rest.order[j - |s|];
        assert rest.order[i - |s|] !in Z && rest.order[j - |s|] !in Z;
      }
    }
  }

  /** The order is sorted by (class, name). */
  lemma {:induction false} KahnClassOrdered(E: set<Edge>, R: set<string>, cls: int)
    requires Kahn(E, R, cls).Some?
    ensures ClassOrdered(Kahn(E, R, cls).value)
    decreases |R|
  {
    if R != {} {
      KahnStep(E, R, cls);
      var Z := Sources(E, R);
      var rest := Kahn(E, R - Z, cls + 1).value;
      KahnClassOrdered(E, R - Z, cls + 1);
      KahnPermutes(E, R - Z, cls + 1);
      KahnClasses(E, R - Z, cls + 1);
      LayerThenRest(SortedElems(Z), Z, cls, rest);
    }
  }

  /** In a layering sorted by (class, name) whose classes rise along every
      edge, every edge between listed vertices points forward. */
  lemma ForwardEdges(E: set<Edge>, l: Layering)
    requires ClassOrdered(l)
    requires forall v :: v in Elems(l.order) ==> v in l.classes
    requires forall e :: e in E && e.start in Elems(l.order) && e.stop in Elems(l.order) ==>
      l.classes[e.start] < l.classes[e.stop]
    ensures forall i, j :: 0 <= i < |l.order| && 0 <= j < |l.order| && Edge(l.order[i], l.order[j]) in E ==> i < j
  {
    forall i, j | 0 <= i < |l.order| && 0 <= j < |l.order| && Edge(l.order[i], l.order[j]) in E
      ensures i < j
    {
      assert l.order[i] in Elems(l.order) && l.order[j] in Elems(l.order);
      assert l.classes[l.order[i]] < l.classes[l.order[j]];
    }
  }

  /** The first pass takes exactly the vertices without incoming edges. */
  lemma KahnFirstClass(E: set<Edge>, R: set<string>, cls: int)
    requires Kahn(E, R, cls).Some?
    ensures forall v :: v in R ==>
      v in Kahn(E, R, cls).value.classes &&
      (Kahn(E, R, cls).value.classes[v] == cls <==> v in Sources(E, R))
  {
    if R != {} {
      KahnStep(E, R, cls);
      var Z := Sources(E, R);
      KahnClasses(E, R - Z, cls + 1);
      ClassMapUnion(Z, cls, Kahn(E, R - Z, cls + 1).value.classes, R);
    }
  }

  /** On success every edge between vertices of `R` goes from a lower to a higher class. */
  lemma {:induction false} KahnRaisesClass(E: set<Edge>, R: set<string>, cls: int)
    requires Kahn(E, R, cls).Some?
    ensures var l := Kahn(E, R, cls).value;
      forall e :: e in E && e.start in R && e.stop in R ==>
        e.start in l.classes && e.stop in l.classes && l.classes[e.start] < l.classes[e.stop]
    decreases |R|
  {
    KahnClasses(E, R, cls);
    if R != {} {
      KahnStep(E, R, cls);
      var Z := Sources(E, R);
      var rest := Kahn(E, R - Z, cls + 1).value;
      var l := Kahn(E, R, cls).value;
      KahnRaisesClass(E, R - Z, cls + 1);
      KahnClasses(E, R - Z, cls + 1);
      forall e | e in E && e.start in R && e.stop in R
        ensures l.classes[e.start] < l.classes[e.stop]
      {
        assert e in InEdgesFrom(E, R, e.stop);
        assert e.stop !in Z;
        assert l.classes[e.stop] == rest.classes[e.stop];
        if e.start !in Z {
          assert l.classes[e.start] == rest.classes[e.start];
        }
      }
    }
  }

  /** On success every edge between listed vertices points forward in the order. */
  lemma KahnEdgesPointForward(E: set<Edge>, R: set<string>, cls: int)
    requires Kahn(E, R, cls).Some?
    ensures var l := Kahn(E, R, cls).value;
      forall i, j :: 0 <= i < |l.order| && 0 <= j < |l.order| && Edge(l.order[i], l.order[j]) in E ==> i < j
  {
    KahnPermutes(E, R, cls);
    KahnClasses(E, R, cls);
    KahnRaisesClass(E, R, cls);
    KahnClassOrdered(E, R, cls);
    ForwardEdges(E, Kahn(E, R, cls).value);
  }

  //---------------------------------------------------------------------------
  // Kahn fails exactly when there is a cycle
  //---------------------------------------------------------------------------

  /** Along a path each step raises the class, so the k-th vertex's class
      exceeds the first one's by at least k. */
  lemma {:induction false} ClassesClimb(E: set<Edge>, R: set<string>, classes: map<string, int>, p: seq<string>, k: nat)
    requires IsPath(E, p) && k < |p|
    requires forall i :: 0 <= i < |p| ==> p[i] in R
    requires R <= classes.Keys
    requires forall e :: e in E && e.start in R && e.stop in R ==> classes[e.start] < classes[e.stop]
    ensures classes[p[0]] + k <= classes[p[k]]
  {
    if k > 0 {
      ClassesClimb(E, R, classes, p, k - 1);
      assert Edge(p[k - 1], p[k]) in E;
    }
  }

  /** After a successful sort no path through the sorted vertices closes back
      to its first vertex. */
  lemma NoClosingEdge(E: set<Edge>, R: set<string>, cls: int, p: seq<string>)
    requires Kahn(E, R, cls).Some?
    requires |p| >= 1 && IsPath(E, p)
    requires forall i :: 0 <= i < |p| ==> p[i] in R
    ensures Edge(p[|p| - 1], p[0]) !in E
  {
    var l := Kahn(E, R, cls).value;
    KahnClasses(E, R, cls);
    KahnRaisesClass(E, R, cls);
    ClassesClimb(E, R, l.classes, p, |p| - 1);
  }

  /** A walk backwards along edges, staying inside `R`: w[i + 1] → w[i]. */
  ghost predicate BackWalk(E: set<Edge>, R: set<string>, w: seq<string>) {
    (forall i :: 0 <= i < |w| ==> w[i] in R) &&
    (forall i :: 0 <= i < |w| - 1 ==> Edge(w[i + 1], w[i]) in E)
  }

  /** When no vertex of `R` is a source, a backward walk of any length exists. */
  lemma {:induction false} LongBackWalk(E: set<Edge>, R: set<string>, n: nat)
    requires R != {} && Sources(E, R) == {}
    ensures exists w :: |w| == n + 1 && BackWalk(E, R, w)
  {
    if n == 0 {
      var v :| v in R;
      assert BackWalk(E, R, [v]);
    } else {
      LongBackWalk(E, R, n - 1);
      var w :| |w| == n && BackWalk(E, R, w);
      var last := w[n - 1];
      assert last !in Sources(E, R);
      var e :| e in InEdgesFrom(E, R, last);
      var w' := w + [e.start];
      assert BackWalk(E, R, w');
    }
  }

  /** A sequence longer than the set it stays in repeats an element. */
  lemma {:induction false} Pigeonhole(R: set<string>, w: seq<string>)
    requires forall i :: 0 <= i < |w| ==> w[i] in R
    requires |w| > |R|
    ensures exists i, j :: 0 <= i < j < |w| && w[i] == w[j]
    decreases |w|
  {
    if w[0] in w[1..] {
      var j :| 0 <= j < |w[1..]| && w[1..][j] == w[0];
      assert w[0] == w[j + 1];
    } else {
      var t := w[1..];
      assert forall i :: 0 <= i < |t| ==> t[i] == w[i + 1] && t[i] != w[0];
      Pigeonhole(R - {w[0]}, t);
      var i, j :| 0 <= i < j < |t| && t[i] == t[j];
      assert w[i + 1] == w[j + 1];
    }
  }

  /** A backward walk that returns to a vertex, read forwards, is a cycle. */
  lemma CycleFromRepeat(E: set<Edge>, R: set<string>, w: seq<string>, i: nat, j: nat)
    requires BackWalk(E, R, w) && i < j < |w| && w[i] == w[j]
    ensures exists p :: IsCycle(E, p) && forall k :: 0 <= k < |p| ==> p[k] in R
  {
    var p := seq(j - i, k requires 0 <= k < j - i => w[j - k]);
    forall k | 0 <= k < |p| ensures Edge(p[k], p[if k + 1 < |p| then k + 1 else 0]) in E {
      assert Edge(w[j - k], w[j - k - 1]) in E;
      if k + 1 == |p| {
        assert w[j - k - 1] == w[i];
      }
    }
    assert IsCycle(E, p);
  }

  /** A failed sort means some cycle runs through the remaining vertices. */
  lemma {:induction false} CycleWhenStuck(E: set<Edge>, R: set<string>, cls: int)
    requires Kahn(E, R, cls).None?
    ensures exists p :: IsCycle(E, p) && forall k :: 0 <= k < |p| ==> p[k] in R
    decreases |R|
  {
    var Z := Sources(E, R);
    if Z == {} {
      LongBackWalk(E, R, |R|);
      var w :| |w| == |R| + 1 && BackWalk(E, R, w);
      Pigeonhole(R, w);
      var i, j :| 0 <= i < j < |w| && w[i] == w[j];
      CycleFromRepeat(E, R, w, i, j);
    } else {
      SmallerRest(R, Z);
      CycleWhenStuck(E, R - Z, cls + 1);
    }
  }

  /** The sort of a graph's edge-endpoint vertices fails if and only if its
      edges contain a cycle (a self-loop included). */
  lemma KahnFailsIffCycle(E: set<Edge>)
    ensures Kahn(E, Endpoints(E), 0).None? <==> exists p :: IsCycle(E, p)
  {
    var V := Endpoints(E);
    if Kahn(E, V, 0).None? {
      CycleWhenStuck(E, V, 0);
    } else {
      forall p ensures !IsCycle(E, p) {
        if |p| >= 1 && IsPath(E, p) {
          if p[0] in V {
            forall k | 0 <= k < |p| ensures p[k] in V {
              if k + 1 < |p| {
                assert Edge(p[k], p[k + 1]) in E;
              } else if k > 0 {
                assert Edge(p[k - 1], p[k]) in E;
              }
            }
            NoClosingEdge(E, V, 0, p);
          } else {
            assert Edge(p[|p| - 1], p[0]) !in E;
          }
        } else if |p| >= 1 {
          var k :| 0 <= k < |p| - 1 && Edge(p[k], p[k + 1]) !in E;
          assert (if k + 1 < |p| then k + 1 else 0) == k + 1;
        }
      }
    }
  }

  //---------------------------------------------------------------------------
  // The loops of topological_sort.go
  //---------------------------------------------------------------------------

  /** The edges of `P` that end at `v`. */
  ghost function EndingAt(P: set<Edge>, v: string): set<Edge> {
    set e | e in P && e.stop == v
  }

  /** The vertices whose count in the in-degree map is zero. */
  function ZeroIn(inEdges: map<string, int>): set<string> {
    set v | v in inEdges && inEdges[v] == 0
  }

  /** The in-degree map of `E` restricted to the vertices `R`. */
  ghost predicate CountsInEdges(E: set<Edge>, inEdges: map<string, int>) {
    forall v :: v in inEdges ==> inEdges[v] == |InEdgesFrom(E, inEdges.Keys, v)|
  }

  /** No edge leaves the vertex set `R`. */
  ghost predicate Closed(E: set<Edge>, R: set<string>) {
    forall e :: e in E && e.start in R ==> e.stop in R
  }

  /** The part of `xs` that lies in `Z`, in the same order. */
  ghost function FilterIn(xs: seq<string>, Z: set<string>): seq<string> {
    if xs == [] then []
    else if xs[|xs| - 1] in Z then FilterIn(xs[..|xs| - 1], Z) + [xs[|xs| - 1]]
    else FilterIn(xs[..|xs| - 1], Z)
  }

  lemma {:induction false} FilterInSorted(xs: seq<string>, Z: set<string>)
    requires StrictlySorted(xs)
    ensures StrictlySorted(FilterIn(xs, Z)) && Elems(FilterIn(xs, Z)) == Elems(xs) * Z
  {
    if xs != [] {
      var init := xs[..|xs| - 1];
      var last := xs[|xs| - 1];
      assert StrictlySorted(init) by {
        forall i, j | 0 <= i < j < |init| ensures Less(init[i], init[j]) {
          assert init[i] == xs[i] && init[j] == xs[j];
        }
      }
      FilterInSorted(init, Z);
      assert xs == init + [last];
      assert Elems(xs) == Elems(init) + {last};
      var f := FilterIn(init, Z);
      if last in Z {
        var g := f + [last];
        assert Elems(g) == Elems(f) + {last};
        forall i, j | 0 <= i < j < |g| ensures Less(g[i], g[j]) {
          if j == |g| - 1 {
            assert g[i] in Elems(f);
            var k :| 0 <= k < |init| && init[k] == g[i];
            assert xs[k] == g[i];
          } else {
            assert g[i] == f[i] && g[j] == f[j];
          }
        }
      }
    }
  }

  /** Filtering an ascending list by a set of its elements lists that set in ascending order. */
  lemma FilterInIsSortedElems(xs: seq<string>, Z: set<string>)
    requires StrictlySorted(xs) && Z <= Elems(xs)
    ensures FilterIn(xs, Z) == SortedElems(Z)
  {
    FilterInSorted(xs, Z);
    assert Elems(xs) * Z == Z;
    SortedElemsUnique(FilterIn(xs, Z));
  }

  lemma EndpointsAdd(P: set<Edge>, e: Edge)
    ensures Endpoints(P + {e}) == Endpoints(P) + {e.start, e.stop}
  {
  }

  lemma EndingAtAdd(P: set<Edge>, e: Edge, v: string)
    requires e !in P
    ensures |EndingAt(P + {e}, v)| == |EndingAt(P, v)| + (if v == e.stop then 1 else 0)
  {
    if v == e.stop {
      assert EndingAt(P + {e}, v) == EndingAt(P, v) + {e};
    } else {
      assert EndingAt(P + {e}, v) == EndingAt(P, v);
    }
  }

  /** Counting one more edge `e` keeps the map exact for the edges seen. */
  lemma CountStep(P: set<Edge>, e: Edge, before: map<string, int>, after: map<string, int>)
    requires e !in P
    requires before.Keys == Endpoints(P)
    requires forall v :: v in before ==> before[v] == |EndingAt(P, v)|
    requires after.Keys == before.Keys + {e.start, e.stop}
    requires forall v :: v in after ==>
      after[v] == (if v in before then before[v] else 0) + (if v == e.stop then 1 else 0)
    ensures after.Keys == Endpoints(P + {e})
    ensures forall v :: v in after ==> after[v] == |EndingAt(P + {e}, v)|
  {
    EndpointsAdd(P, e);
    forall v | v in after ensures after[v] == |EndingAt(P + {e}, v)| {
      EndingAtAdd(P, e, v);
      if v !in before {
        assert EndingAt(P, v) == {};
      }
    }
  }

  lemma EndingAtAll(E: set<Edge>, v: string)
    ensures EndingAt(E, v) == InEdgesFrom(E, Endpoints(E), v)
  {
  }

  /** The first loop: for every edge create its start with count 0 if missing
      and add one to the count of its end. The result maps every endpoint to
      its number of incoming edges. */
  method CountInEdges(g: Graph) returns (inEdges: map<string, int>)
    ensures inEdges.Keys == Endpoints(g.EdgeSet())
    ensures CountsInEdges(g.EdgeSet(), inEdges)
  {
    ghost var E := g.EdgeSet();
    inEdges := map[];
    var es := g.EdgesIter();
    ghost var P: set<Edge> := {};
    for i := 0 to |es|
      invariant P == Elems(es[..i])
      invariant inEdges.Keys == Endpoints(P)
      invariant forall v :: v in inEdges ==> inEdges[v] == |EndingAt(P, v)|
    {
      var e := es[i];
      PrefixStep(es, i);
      ghost var before := inEdges;
      if e.start !in inEdges {
        inEdges := inEdges[e.start := 0];
      }
      inEdges := inEdges[e.stop := (if e.stop in inEdges then inEdges[e.stop] else 0) + 1];
      CountStep(P, e, before, inEdges);
      P := P + {e};
    }
    assert es[..|es|] == es;
    forall v | v in inEdges ensures inEdges[v] == |InEdgesFrom(E, inEdges.Keys, v)| {
      EndingAtAll(E, v);
    }
  }

  /** The scan over the sorted vertices: the vertices still in the map with
      count zero, in ascending order, each recorded in class `tClass`. */
  method CollectClass(sortedInEdges: seq<string>, inEdges: map<string, int>, classes: map<string, int>, tClass: int)
    returns (topClass: seq<string>, classes': map<string, int>)
    requires StrictlySorted(sortedInEdges) && inEdges.Keys <= Elems(sortedInEdges)
    ensures topClass == SortedElems(ZeroIn(inEdges))
    ensures classes' == classes + ClassMap(ZeroIn(inEdges), tClass)
  {
    ghost var Z := ZeroIn(inEdges);
    topClass := [];
    classes' := classes;
    for i := 0 to |sortedInEdges|
      invariant topClass == FilterIn(sortedInEdges[..i], Z)
      invariant classes' == classes + ClassMap(Elems(topClass), tClass)
    {
      var v := sortedInEdges[i];
      assert sortedInEdges[..i + 1] == sortedInEdges[..i] + [v];
      assert sortedInEdges[..i + 1][..i] == sortedInEdges[..i];
      if v in inEdges {
        var inDegree := inEdges[v];
        if inDegree == 0 {
          ClassMapAdd(topClass, v, tClass);
          topClass := topClass + [v];
          classes' := classes'[v := tClass];
        }
      }
    }
    assert sortedInEdges[..|sortedInEdges|] == sortedInEdges;
    FilterInIsSortedElems(sortedInEdges, Z);
  }

  lemma ClassMapAdd(t: seq<string>, v: string, cls: int)
    ensures ClassMap(Elems(t + [v]), cls) == ClassMap(Elems(t), cls)[v := cls]
  {
    assert Elems(t + [v]) == Elems(t) + {v};
  }

  /** removeEdgesFromVertex: decrement the count of every neighbour of `v`.
      As in Go, a neighbour missing from the map reads as 0 and is created. */
  method RemoveEdgesFromVertex(g: Graph, inEdges: map<string, int>, v: string) returns (r: map<string, int>)
    ensures r.Keys == inEdges.Keys + Adjacent(g.adjacency, v)
    ensures forall w :: w in r ==>
      r[w] == (if w in inEdges then inEdges[w] else 0) - (if w in Adjacent(g.adjacency, v) then 1 else 0)
  {
    var ends := g.HalfedgesIter(v);
    r := inEdges;
    for k := 0 to |ends|
      invariant r.Keys == inEdges.Keys + Elems(ends[..k])
      invariant forall w :: w in r ==>
        r[w] == (if w in inEdges then inEdges[w] else 0) - (if w in Elems(ends[..k]) then 1 else 0)
    {
      var neighbor := ends[k];
      PrefixStep(ends, k);
      r := r[neighbor := (if neighbor in r then r[neighbor] else 0) - 1];
    }
    assert ends[..|ends|] == ends;
  }

  lemma CountDrop(E: set<Edge>, R: set<string>, v: string, w: string)
    requires v in R && v != w
    ensures |InEdgesFrom(E, R - {v}, w)| == |InEdgesFrom(E, R, w)| - (if Edge(v, w) in E then 1 else 0)
  {
    if Edge(v, w) in E {
      assert InEdgesFrom(E, R - {v}, w) == InEdgesFrom(E, R, w) - {Edge(v, w)};
    } else {
      assert InEdgesFrom(E, R - {v}, w) == InEdgesFrom(E, R, w);
    }
  }

  /** A neighbour of a vertex of the remaining set `R` is in `R` and is not a source. */
  lemma NeighbourNotSource(adj: map<string, set<string>>, E: set<Edge>, R: set<string>, v: string, w: string)
    requires E == EdgesOf(adj) && v in R && w in Adjacent(adj, v)
    requires Closed(E, R)
    ensures Edge(v, w) in E && w in R && w !in Sources(E, R)
  {
    assert Edge(v, w) in E;
    assert Edge(v, w) in InEdgesFrom(E, R, w);
  }

  /** Taking one source out of the remaining set keeps the counts exact. */
  lemma RemoveOneKeepsCounts(adj: map<string, set<string>>, E: set<Edge>, before: map<string, int>,
                             after: map<string, int>, v: string)
    requires E == EdgesOf(adj) && v in before
    requires CountsInEdges(E, before)
    requires Adjacent(adj, v) <= before.Keys - {v}
    requires after.Keys == before.Keys - {v}
    requires forall w :: w in after ==> after[w] == before[w] - (if w in Adjacent(adj, v) then 1 else 0)
    ensures CountsInEdges(E, after)
  {
    forall w | w in after ensures after[w] == |InEdgesFrom(E, after.Keys, w)| {
      CountDrop(E, before.Keys, v, w);
      assert Edge(v, w) in E <==> w in Adjacent(adj, v);
    }
  }

  /** removeEdgesFromVertex(v) followed by delete(inEdges, v): when every
      neighbour of `v` is another vertex still in the map, the counts stay
      exact for the remaining vertices. */
  method RemoveVertex(g: Graph, inEdges: map<string, int>, v: string, ghost E: set<Edge>) returns (r: map<string, int>)
    requires E == g.EdgeSet() && v in inEdges
    requires CountsInEdges(E, inEdges)
    requires Adjacent(g.adjacency, v) <= inEdges.Keys - {v}
    ensures r.Keys == inEdges.Keys - {v}
    ensures CountsInEdges(E, r)
  {
    r := RemoveEdgesFromVertex(g, inEdges, v);
    r := r - {v};
    RemoveOneKeepsCounts(g.adjacency, E, inEdges, r, v);
  }

  /** The second inner loop: remove the vertices of one class, updating the
      counts of their neighbours and listing them in order. */
  method RemoveClass(g: Graph, inEdges: map<string, int>, topClass: seq<string>, ghost E: set<Edge>)
    returns (inEdges': map<string, int>, listed: seq<string>)
    requires E == g.EdgeSet()
    requires CountsInEdges(E, inEdges)
    requires Closed(E, inEdges.Keys)
    requires NoDuplicates(topClass) && Elems(topClass) == Sources(E, inEdges.Keys)
    ensures inEdges'.Keys == inEdges.Keys - Elems(topClass)
    ensures CountsInEdges(E, inEdges')
    ensures listed == topClass
  {
    ghost var R := inEdges.Keys;
    ghost var Z := Sources(E, R);
    inEdges' := inEdges;
    listed := [];
    for j := 0 to |topClass|
      invariant inEdges'.Keys == R - Elems(topClass[..j])
      invariant CountsInEdges(E, inEdges')
      invariant listed == topClass[..j]
    {
      var v := topClass[j];
      PrefixStep(topClass, j);
      assert v in Elems(topClass);
      forall w | w in Adjacent(g.adjacency, v) ensures w in inEdges'.Keys - {v} {
        NeighbourNotSource(g.adjacency, E, R, v, w);
      }
      inEdges' := RemoveVertex(g, inEdges', v, E);
      listed := listed + [v];
    }
    assert topClass[..|topClass|] == topClass;
  }

  /** With exact counts, the zero-count vertices are the sources. */
  lemma ZeroInAreSources(E: set<Edge>, inEdges: map<string, int>)
    requires CountsInEdges(E, inEdges)
    ensures ZeroIn(inEdges) == Sources(E, inEdges.Keys)
  {
  }

  lemma PrependAssoc(o: seq<string>, c: map<string, int>, o2: seq<string>, c2: map<string, int>, k: Option<Layering>)
    ensures Prepend(o, c, Prepend(o2, c2, k)) == Prepend(o + o2, c + c2, k)
  {
    if k.Some? {
      assert o + (o2 + k.value.order) == (o + o2) + k.value.order;
      assert c + (c2 + k.value.classes) == (c + c2) + k.value.classes;
    }
  }

  /** One pass of Kahn when some vertex remains: no source means failure,
      otherwise the sources come first. */
  lemma KahnUnfold(E: set<Edge>, R: set<string>, cls: int)
    requires R != {}
    ensures Sources(E, R) == {} ==> Kahn(E, R, cls).None?
    ensures Sources(E, R) != {} ==>
      Kahn(E, R, cls) == Prepend(SortedElems(Sources(E, R)), ClassMap(Sources(E, R), cls),
                                 Kahn(E, R - Sources(E, R), cls + 1))
  {
  }

  /** Removing the sources keeps the remaining set closed under edges. */
  lemma RemoveSourcesClosed(E: set<Edge>, R: set<string>)
    requires Closed(E, R)
    ensures Closed(E, R - Sources(E, R))
  {
    forall e | e in E && e.start in R - Sources(E, R) ensures e.stop !in Sources(E, R) {
      assert e in InEdgesFrom(E, R, e.stop);
    }
  }

  /** The loop invariant of TopologicalSort survives one pass. */
  lemma PassKeepsKahn(E: set<Edge>, V: set<string>, R: set<string>, order: seq<string>, classes: map<string, int>, t: int)
    requires R != {} && Sources(E, R) != {}
    requires Kahn(E, V, 0) == Prepend(order, classes, Kahn(E, R, t))
    ensures Kahn(E, V, 0) == Prepend(order + SortedElems(Sources(E, R)), classes + ClassMap(Sources(E, R), t),
                                     Kahn(E, R - Sources(E, R), t + 1))
  {
    var Z := Sources(E, R);
    KahnUnfold(E, R, t);
    PrependAssoc(order, classes, SortedElems(Z), ClassMap(Z, t), Kahn(E, R - Z, t + 1));
  }

  /** A pass without sources makes the whole sort fail. */
  lemma PassFails(E: set<Edge>, V: set<string>, R: set<string>, order: seq<string>, classes: map<string, int>, t: int)
    requires R != {} && Sources(E, R) == {}
    requires Kahn(E, V, 0) == Prepend(order, classes, Kahn(E, R, t))
    ensures Kahn(E, V, 0).None?
  {
    KahnUnfold(E, R, t);
  }

  lemma PrependNothing(k: Option<Layering>)
    ensures Prepend([], map[], k) == k
  {
    if k.Some? {
      assert [] + k.value.order == k.value.order;
      assert map[] + k.value.classes == k.value.classes;
    }
  }

  lemma PrependEnd(o: seq<string>, c: map<string, int>, t: int, E: set<Edge>)
    ensures Prepend(o, c, Kahn(E, {}, t)) == Some(Layering(o, c))
  {
    assert o + [] == o;
    assert c + map[] == c;
  }

  /** One pass of the outer loop of TopologicalSort over the vertices still
      in the in-degree map: collect the zero-count vertices in ascending order
      as class `tClass`, report when there are none, otherwise remove them. */
  method Pass(g: Graph, sortedInEdges: seq<string>, inEdges: map<string, int>, order: seq<string>,
              classes: map<string, int>, tClass: int, ghost E: set<Edge>, ghost V: set<string>)
    returns (inEdges': map<string, int>, order': seq<string>, classes': map<string, int>, stuck: bool)
    requires E == g.EdgeSet() && inEdges != map[]
    requires StrictlySorted(sortedInEdges) && inEdges.Keys <= Elems(sortedInEdges)
    requires SortState(E, V, inEdges, order, classes, tClass)
    ensures stuck ==> Kahn(E, V, 0).None?
    ensures !stuck ==> inEdges'.Keys <= inEdges.Keys && |inEdges'| < |inEdges|
    ensures !stuck ==> SortState(E, V, inEdges', order', classes', tClass + 1)
  {
    ghost var R := inEdges.Keys;
    ghost var Z := Sources(E, R);
    ZeroInAreSources(E, inEdges);
    var topClass;
    topClass, classes' := CollectClass(sortedInEdges, inEdges, classes, tClass);
    StrictlySortedHasNoDuplicates(topClass);
    if |topClass| == 0 {
      PassFails(E, V, R, order, classes, tClass);
      return inEdges, order, classes', true;
    }
    PassKeepsKahn(E, V, R, order, classes, tClass);
    RemoveSourcesClosed(E, R);
    SmallerRest(R, Z);
    var listed;
    inEdges', listed := RemoveClass(g, inEdges, topClass, E);
    order' := order + listed;
    stuck := false;
  }

  /** The state between two passes of TopologicalSort: `inEdges` counts,
      for the vertices not yet output, their incoming edges, no edge leaves
      them, and what is output followed by Kahn's run on them is the whole
      run. */
  ghost predicate SortState(E: set<Edge>, V: set<string>, inEdges: map<string, int>,
                            order: seq<string>, classes: map<string, int>, tClass: int) {
    inEdges.Keys <= V && CountsInEdges(E, inEdges) && Closed(E, inEdges.Keys) &&
    Kahn(E, V, 0) == Prepend(order, classes, Kahn(E, inEdges.Keys, tClass))
  }

  /** TopologicalSort: on success the order and classes `Kahn` gives for the
      edge-endpoint vertices; on a cycle ErrNoDAG with an empty list and map. */
  method TopologicalSort(g: Graph) returns (order: seq<string>, classes: map<string, int>, err: Option<SortError>)
    ensures Kahn(g.EdgeSet(), Endpoints(g.EdgeSet()), 0).None? ==>
      err == Some(ErrNoDAG) && order == [] && classes == map[]
    ensures Kahn(g.EdgeSet(), Endpoints(g.EdgeSet()), 0).Some? ==>
      err == None && Kahn(g.EdgeSet(), Endpoints(g.EdgeSet()), 0).value == Layering(order, classes)
  {
    ghost var E := g.EdgeSet();
    ghost var V := Endpoints(E);
    var inEdges := CountInEdges(g);
    var sortedInEdges := SortedEdges(inEdges);
    classes := map[];
    order := [];
    err := None;
    var tClass := 0;
    PrependNothing(Kahn(E, V, 0));
    while |inEdges| > 0
      invariant inEdges.Keys <= Elems(sortedInEdges)
      invariant SortState(E, V, inEdges, order, classes, tClass)
      decreases |inEdges|
    {
      var stuck;
      ghost var before := inEdges;
      inEdges, order, classes, stuck := Pass(g, sortedInEdges, inEdges, order, classes, tClass, E, V);
      if stuck {
        err := Some(ErrNoDAG);
        classes := map[];
        order := [];
        return;
      }
      tClass := tClass + 1;
    }
    assert inEdges.Keys == {};
    PrependEnd(order, classes, tClass, E);
    assert Kahn(E, V, 0) == Some(Layering(order, classes));
  }
}
