/**
 * internal/graphs/graph.go: a graph of string-named vertices stored as an
 * adjacency set per vertex. The `*Set` of half-edges kept for a vertex is
 * represented by its contents, the set of end vertices.
 */
module Graphs {
  import opened GoStrings

  /** An edge from `start` to `stop` (Go's `Edge{Start, End}`). */
  datatype Edge = Edge(start: string, stop: string)

  /** The adjacency set of `v`, empty when `v` is not a vertex. */
  function Adjacent(adj: map<string, set<string>>, v: string): set<string> {
    if v in adj then adj[v] else {}
  }

  /** Every pair (v, w) with w in the adjacency set of v. */
  ghost function EdgesOf(adj: map<string, set<string>>): set<Edge> {
    set v, w | v in adj && w in adj[v] :: Edge(v, w)
  }

  /** The adjacency after AddVertex(v). */
  function WithVertex(adj: map<string, set<string>>, v: string): map<string, set<string>> {
    if v in adj then adj else adj[v := {}]
  }

  /** The adjacency after AddEdge(v1, v2). */
  function WithEdge(adj: map<string, set<string>>, directed: bool, v1: string, v2: string): map<string, set<string>> {
    var a := WithVertex(WithVertex(adj, v1), v2);
    var b := a[v1 := a[v1] + {v2}];
    if directed then b else b[v2 := b[v2] + {v1}]
  }

  /** AddVertex adds an absent vertex with no neighbours and changes nothing else. */
  lemma WithVertexAdds(adj: map<string, set<string>>, v: string)
    ensures WithVertex(adj, v).Keys == adj.Keys + {v}
    ensures forall u :: u in WithVertex(adj, v) ==> WithVertex(adj, v)[u] == Adjacent(adj, u)
    ensures v in adj ==> WithVertex(adj, v) == adj
    ensures EdgesOf(WithVertex(adj, v)) == EdgesOf(adj)
  {
  }

  /** AddEdge: both ends become vertices, v2 joins v1's set (and v1 joins v2's
      when undirected), and no other adjacency set changes. */
  lemma WithEdgeAdds(adj: map<string, set<string>>, directed: bool, v1: string, v2: string)
    ensures WithEdge(adj, directed, v1, v2).Keys == adj.Keys + {v1, v2}
    ensures forall u :: u in WithEdge(adj, directed, v1, v2) ==>
      WithEdge(adj, directed, v1, v2)[u] ==
        Adjacent(adj, u) + (if u == v1 then {v2} else {}) + (if !directed && u == v2 then {v1} else {})
  {
  }

  /** The edges after AddEdge are the old ones plus v1→v2 (and v2→v1 when undirected). */
  lemma WithEdgeEdges(adj: map<string, set<string>>, directed: bool, v1: string, v2: string)
    ensures EdgesOf(WithEdge(adj, directed, v1, v2)) ==
      EdgesOf(adj) + {Edge(v1, v2)} + (if directed then {} else {Edge(v2, v1)})
  {
    var r := WithEdge(adj, directed, v1, v2);
    var extra := {Edge(v1, v2)} + (if directed then {} else {Edge(v2, v1)});
    assert EdgesOf(adj) + extra <= EdgesOf(r) by {
      WithEdgeAdds(adj, directed, v1, v2);
      forall e | e in EdgesOf(adj) + extra ensures e in EdgesOf(r) {
        if e in EdgesOf(adj) {
          assert e.stop in Adjacent(adj, e.start);
        }
        assert e.stop in r[e.start];
      }
    }
    assert EdgesOf(r) <= EdgesOf(adj) + extra by {
      WithEdgeAdds(adj, directed, v1, v2);
      forall e | e in EdgesOf(r) ensures e in EdgesOf(adj) + extra {
        assert e.stop in r[e.start];
        if e.stop in Adjacent(adj, e.start) {
          assert e in EdgesOf(adj);
        }
      }
    }
  }

  /** AddEdge is idempotent. */
  lemma WithEdgeIdempotent(adj: map<string, set<string>>, directed: bool, v1: string, v2: string)
    ensures WithEdge(WithEdge(adj, directed, v1, v2), directed, v1, v2) == WithEdge(adj, directed, v1, v2)
  {
    var r := WithEdge(adj, directed, v1, v2);
    var rr := WithEdge(r, directed, v1, v2);
    WithEdgeAdds(adj, directed, v1, v2);
    WithEdgeAdds(r, directed, v1, v2);
    assert rr.Keys == r.Keys;
    forall u | u in r ensures rr[u] == r[u] { }
  }

  /** The sum of the sizes of all adjacency sets, in any order of the keys. */
  ghost function SumSizes(adj: map<string, set<string>>): nat
    decreases |adj|
  {
    if adj == map[] then 0
    else
      var k :| k in adj;
      |adj[k]| + SumSizes(adj - {k})
  }

  /** SumSizes can peel off any key first. */
  lemma {:induction false} SumSizesAnyKey(adj: map<string, set<string>>, k: string)
    requires k in adj
    ensures SumSizes(adj) == |adj[k]| + SumSizes(adj - {k})
    decreases |adj|
  {
    var j :| j in adj && SumSizes(adj) == |adj[j]| + SumSizes(adj - {j});
    if j != k {
      SumSizesAnyKey(adj - {j}, k);
      SumSizesAnyKey(adj - {k}, j);
      assert adj - {j} - {k} == adj - {k} - {j};
    }
  }

  ghost function OutEdges(v: string, ends: set<string>): set<Edge> {
    set w | w in ends :: Edge(v, w)
  }

  lemma {:induction false} OutEdgesCount(v: string, ends: set<string>)
    ensures |OutEdges(v, ends)| == |ends|
    decreases |ends|
  {
    if ends != {} {
      var w :| w in ends;
      OutEdgesCount(v, ends - {w});
      assert OutEdges(v, ends) == OutEdges(v, ends - {w}) + {Edge(v, w)};
    }
  }

  /** The edges of `adj` are those out of `k` and those of the other vertices. */
  lemma EdgesOfSplit(adj: map<string, set<string>>, k: string)
    requires k in adj
    ensures EdgesOf(adj) == EdgesOf(adj - {k}) + OutEdges(k, adj[k])
    ensures EdgesOf(adj - {k}) !! OutEdges(k, adj[k])
  {
  }

  /** The number of half-edges is the number of directed edges. */
  lemma {:induction false} EdgesCount(adj: map<string, set<string>>)
    ensures |EdgesOf(adj)| == SumSizes(adj)
    decreases |adj|
  {
    if adj != map[] {
      var k :| k in adj;
      SumSizesAnyKey(adj, k);
      EdgesCount(adj - {k});
      OutEdgesCount(k, adj[k]);
      EdgesOfSplit(adj, k);
    }
  }

  /** internal/graphs/graph.go line 85: a graph given by its adjacency sets. */
  class Graph {
    var adjacency: map<string, set<string>>
    var directed: bool

    /** NewGraph: an empty undirected graph. */
    constructor NewGraph()
      ensures adjacency == map[] && !directed
    {
      adjacency := map[];
      directed := false;
    }

    /** NewDigraph: an empty directed graph. */
    constructor NewDigraph()
      ensures adjacency == map[] && directed
    {
      adjacency := map[];
      directed := true;
    }

    ghost function EdgeSet(): set<Edge>
      reads this
    {
      EdgesOf(adjacency)
    }

    method AddVertex(v: string)
      modifies this
      ensures directed == old(directed)
      ensures adjacency == WithVertex(old(adjacency), v)
      ensures adjacency.Keys == old(adjacency.Keys) + {v} && EdgeSet() == old(EdgeSet())
    {
      WithVertexAdds(adjacency, v);
      if v !in adjacency {
        adjacency := adjacency[v := {}];
      }
    }

    method AddEdge(v1: string, v2: string)
      modifies this
      ensures directed == old(directed)
      ensures adjacency == WithEdge(old(adjacency), old(directed), v1, v2)
      ensures EdgeSet() == old(EdgeSet()) + {Edge(v1, v2)} + (if directed then {} else {Edge(v2, v1)})
      ensures adjacency.Keys == old(adjacency.Keys) + {v1, v2}
    {
      WithEdgeEdges(adjacency, directed, v1, v2);
      WithEdgeAdds(adjacency, directed, v1, v2);
      AddVertex(v1);
      AddVertex(v2);
      adjacency := adjacency[v1 := adjacency[v1] + {v2}];
      if !directed {
        adjacency := adjacency[v2 := adjacency[v2] + {v1}];
      }
    }

    /** NVertices: the number of vertices. */
    function NVertices(): (n: nat)
      reads this
      ensures n == |adjacency.Keys|
    {
      |adjacency|
    }

    /** NEdges: the total of the adjacency-set sizes, halved for an undirected
        graph; for a directed graph that is the number of edges. */
    method NEdges() returns (n: int)
      ensures n == if directed then SumSizes(adjacency) else SumSizes(adjacency) / 2
      ensures directed ==> n == |EdgeSet()|
    {
      n := 0;
      var rest := adjacency.Keys;
      while rest != {}
        invariant rest <= adjacency.Keys
        invariant n == SumSizes(adjacency - rest)
        decreases |rest|
      {
        var v :| v in rest;
        SumSizesAnyKey(adjacency - (rest - {v}), v);
        assert adjacency - (rest - {v}) - {v} == adjacency - rest;
        n := n + |adjacency[v]|;
        rest := rest - {v};
      }
      assert adjacency - {} == adjacency;
      if !directed {
        n := n / 2;
      }
      EdgesCount(adjacency);
    }

    /** EdgesIter: every edge once, in no particular order. */
    method EdgesIter() returns (es: seq<Edge>)
      ensures Elems(es) == EdgeSet()
      ensures NoDuplicates(es)
    {
      es := [];
      var rest := adjacency.Keys;
      while rest != {}
        invariant rest <= adjacency.Keys
        invariant Elems(es) == EdgesOf(adjacency - rest)
        invariant NoDuplicates(es)
        decreases |rest|
      {
        var v :| v in rest;
        var ends := adjacency[v];
        ghost var before := es;
        while ends != {}
          invariant ends <= adjacency[v]
          invariant Elems(es) == Elems(before) + OutEdges(v, adjacency[v] - ends)
          invariant NoDuplicates(es)
          decreases |ends|
        {
          var w :| w in ends;
          assert Edge(v, w) !in Elems(es);
          es := es + [Edge(v, w)];
          ends := ends - {w};
        }
        assert EdgesOf(adjacency - (rest - {v})) == EdgesOf(adjacency - rest) + OutEdges(v, adjacency[v]);
        rest := rest - {v};
      }
      assert adjacency - {} == adjacency;
    }

    /** HalfedgesIter: the ends of the edges leaving `v`, each once; nothing
        when `v` is not a vertex. */
    method HalfedgesIter(v: string) returns (ends: seq<string>)
      ensures Elems(ends) == Adjacent(adjacency, v)
      ensures forall w :: w in ends <==> Edge(v, w) in EdgeSet()
      ensures NoDuplicates(ends)
    {
      ends := [];
      if v in adjacency {
        var rest := adjacency[v];
        while rest != {}
          invariant Elems(ends) + rest == adjacency[v]
          invariant Elems(ends) !! rest
          invariant NoDuplicates(ends)
          decreases |rest|
        {
          var w :| w in rest;
          ends := ends + [w];
          rest := rest - {w};
        }
      }
    }
  }

  /** sortedEdges: the keys of the in-degree map in ascending order. */
  method SortedEdges(m: map<string, int>) returns (sorted: seq<string>)
    ensures sorted == SortedElems(m.Keys)
    ensures StrictlySorted(sorted) && Elems(sorted) == m.Keys && |sorted| == |m|
  {
    var keys: seq<string> := [];
    var rest := m.Keys;
    while rest != {}
      invariant Elems(keys) + rest == m.Keys
      invariant Elems(keys) !! rest
      invariant NoDuplicates(keys)
      decreases |rest|
    {
      var k :| k in rest;
      ConcatDistinct(keys, [k]);
      keys := keys + [k];
      rest := rest - {k};
    }
    SortOfDistinct(keys);
    sorted := Sort(keys);
  }
}
