/**
 * The part of networkx's DiGraph that the knowledge-graph code relies on.
 *
 * A graph keeps its vertices in first-insertion order with an attribute dictionary per
 * vertex, and its edges, one per ordered pair, in first-insertion order with an attribute
 * dictionary per edge. `add_node` on a present vertex merges the given attributes into its
 * dictionary; `add_edge` first inserts each missing endpoint with an empty dictionary and
 * then merges the given attributes into the pair's dictionary.
 *
 * `Graph` is the value of such a graph; class `DiGraph` holds one in fields that
 * `AddNode` and `AddEdge` update in place.
 */
module DiGraphs {

  type Attrs = map<string, string>
  type Edge<N> = (N, N)

  predicate Distinct<T(==)>(s: seq<T>)
  {
    forall i, j :: 0 <= i < j < |s| ==> s[i] != s[j]
  }

  /** A sequence without repetitions has as many elements as its set of elements. */
  lemma {:induction false} DistinctCard<T>(s: seq<T>)
    requires Distinct(s)
    ensures |set x | x in s| == |s|
  {
    if s != [] {
      var rest := s[1..];
      assert Distinct(rest) by {
        forall i, j | 0 <= i < j < |rest| ensures rest[i] != rest[j] {
          assert rest[i] == s[i + 1] && rest[j] == s[j + 1];
        }
      }
      DistinctCard(rest);
      assert s[0] !in rest by {
        forall k | 0 <= k < |rest| ensures rest[k] != s[0] {
          assert rest[k] == s[k + 1];
        }
      }
      assert (set x | x in s) == {s[0]} + (set x | x in rest) by {
        assert s == [s[0]] + rest;
      }
    }
  }

  /** The targets v of the pairs (n, v) in `es`, in the order of `es`. */
  function Targets<N(==,!new)>(es: seq<Edge<N>>, n: N): (r: seq<N>)
    ensures forall v :: v in r <==> (n, v) in es
    ensures Distinct(es) ==> Distinct(r)
  {
    if es == [] then []
    else
      var rest := Targets(es[1..], n);
      assert Distinct(es) ==> es[0] !in es[1..] by {
        if Distinct(es) {
          forall k | 0 <= k < |es[1..]| ensures es[1..][k] != es[0] {
            assert es[1..][k] == es[k + 1];
          }
        }
      }
      assert Distinct(es) ==> Distinct(es[1..]) by {
        if Distinct(es) {
          forall i, j | 0 <= i < j < |es[1..]| ensures es[1..][i] != es[1..][j] {
            assert es[1..][i] == es[i + 1] && es[1..][j] == es[j + 1];
          }
        }
      }
      assert forall e :: e in es <==> e == es[0] || e in es[1..] by {
        assert es == [es[0]] + es[1..];
      }
      (if es[0].0 == n then [es[0].1] else []) + rest
  }

  /** The sources u of the pairs (u, n) in `es`, in the order of `es`. */
  function Sources<N(==,!new)>(es: seq<Edge<N>>, n: N): (r: seq<N>)
    ensures forall u :: u in r <==> (u, n) in es
    ensures Distinct(es) ==> Distinct(r)
  {
    if es == [] then []
    else
      var rest := Sources(es[1..], n);
      assert Distinct(es) ==> es[0] !in es[1..] by {
        if Distinct(es) {
          forall k | 0 <= k < |es[1..]| ensures es[1..][k] != es[0] {
            assert es[1..][k] == es[k + 1];
          }
        }
      }
      assert Distinct(es) ==> Distinct(es[1..]) by {
        if Distinct(es) {
          forall i, j | 0 <= i < j < |es[1..]| ensures es[1..][i] != es[1..][j] {
            assert es[1..][i] == es[i + 1] && es[1..][j] == es[j + 1];
          }
        }
      }
      assert forall e :: e in es <==> e == es[0] || e in es[1..] by {
        assert es == [es[0]] + es[1..];
      }
      (if es[0].1 == n then [es[0].0] else []) + rest
  }

  /** The elements of `s` that satisfy `p`, in the order of `s`. */
  function Keep<T(!new)>(s: seq<T>, p: T -> bool): (r: seq<T>)
    ensures forall x :: x in r <==> x in s && p(x)
    ensures Distinct(s) ==> Distinct(r)
  {
    if s == [] then []
    else
      var rest := Keep(s[1..], p);
      assert Distinct(s) ==> s[0] !in s[1..] && Distinct(s[1..]) by {
        if Distinct(s) {
          forall k | 0 <= k < |s[1..]| ensures s[1..][k] != s[0] {
            assert s[1..][k] == s[k + 1];
          }
          forall i, j | 0 <= i < j < |s[1..]| ensures s[1..][i] != s[1..][j] {
            assert s[1..][i] == s[i + 1] && s[1..][j] == s[j + 1];
          }
        }
      }
      assert forall x :: x in s <==> x == s[0] || x in s[1..] by {
        assert s == [s[0]] + s[1..];
      }
      (if p(s[0]) then [s[0]] else []) + rest
  }

  datatype Graph<N(==,!new)> = Graph(nodes: seq<N>, nodeData: map<N, Attrs>,
                            edges: seq<Edge<N>>, edgeData: map<Edge<N>, Attrs>)
  {
    /**
     * The bookkeeping networkx keeps consistent: each vertex is listed once and has a
     * dictionary, each edge is listed once and has a dictionary, and both endpoints of
     * every edge are vertices.
     */
    ghost predicate Valid()
    {
      && Distinct(nodes) && (forall n :: n in nodes <==> n in nodeData)
      && Distinct(edges) && (forall e :: e in edges <==> e in edgeData)
      && (forall e :: e in edgeData ==> e.0 in nodeData && e.1 in nodeData)
    }

    /** Whether `n` is a vertex. */
    predicate HasNode(n: N)
    {
      n in nodeData
    }

    /** The dictionary stored for vertex `n`, or an empty one when `n` is absent. */
    function NodeAttrs(n: N): Attrs
    {
      if n in nodeData then nodeData[n] else map[]
    }

    /** The dictionary stored for pair `e`, or an empty one when there is no such edge. */
    function EdgeAttrs(e: Edge<N>): Attrs
    {
      if e in edgeData then edgeData[e] else map[]
    }

    /**
     * `G.add_node(n, **attrs)`: `n` becomes a vertex (appended to the order if new) and
     * `attrs` is merged into its dictionary, the given keys replacing earlier values.
     */
    function AddNode(n: N, attrs: Attrs): (g: Graph<N>)
      ensures g.nodeData.Keys == nodeData.Keys + {n}
      ensures g.nodeData[n] == NodeAttrs(n) + attrs
      ensures forall m :: m in nodeData && m != n ==> g.nodeData[m] == nodeData[m]
      ensures g.edges == edges && g.edgeData == edgeData
      ensures Valid() ==> g.Valid() && g.nodes == if n in nodeData then nodes else nodes + [n]
    {
      if n in nodeData then
        Graph(nodes, nodeData[n := nodeData[n] + attrs], edges, edgeData)
      else
        assert map[] + attrs == attrs;
        Graph(nodes + [n], nodeData[n := attrs], edges, edgeData)
    }

    /** The endpoint insertion of `add_edge`: a missing vertex gets an empty dictionary. */
    function EnsureNode(n: N): (g: Graph<N>)
      ensures g.nodeData.Keys == nodeData.Keys + {n}
      ensures forall m :: m in nodeData ==> g.nodeData[m] == nodeData[m]
      ensures n !in nodeData ==> g.nodeData[n] == map[]
      ensures g.edges == edges && g.edgeData == edgeData
      ensures Valid() ==> g.Valid()
    {
      if n in nodeData then this else AddNode(n, map[])
    }

    /** The attribute update of `add_edge` on the pair `e`. */
    function MergeEdge(e: Edge<N>, attrs: Attrs): (g: Graph<N>)
      ensures g.nodes == nodes && g.nodeData == nodeData
      ensures g.edgeData.Keys == edgeData.Keys + {e}
      ensures g.edgeData[e] == EdgeAttrs(e) + attrs
      ensures forall d :: d in edgeData && d != e ==> g.edgeData[d] == edgeData[d]
      ensures Valid() && e.0 in nodeData && e.1 in nodeData ==> g.Valid()
    {
      if e in edgeData then
        Graph(nodes, nodeData, edges, edgeData[e := edgeData[e] + attrs])
      else
        assert map[] + attrs == attrs;
        Graph(nodes, nodeData, edges + [e], edgeData[e := attrs])
    }

    /**
     * `G.add_edge(u, v, **attrs)`: missing endpoints become vertices with empty
     * dictionaries, (u, v) becomes an edge (appended if new) and `attrs` is merged into
     * its dictionary; nothing else changes.
     */
    function AddEdge(u: N, v: N, attrs: Attrs): (g: Graph<N>)
      ensures g.nodeData.Keys == nodeData.Keys + {u, v}
      ensures g.edgeData.Keys == edgeData.Keys + {(u, v)}
    {
      EnsureNode(u).EnsureNode(v).MergeEdge((u, v), attrs)
    }

    /** What `add_edge` stores: empty dictionaries for new endpoints, `attrs` merged into the pair's. */
    lemma AddEdgeData(u: N, v: N, attrs: Attrs)
      ensures forall m :: m in nodeData ==> AddEdge(u, v, attrs).nodeData[m] == nodeData[m]
      ensures forall m :: m in AddEdge(u, v, attrs).nodeData && m !in nodeData ==> AddEdge(u, v, attrs).nodeData[m] == map[]
      ensures AddEdge(u, v, attrs).edgeData[(u, v)] == EdgeAttrs((u, v)) + attrs
      ensures forall e :: e in edgeData && e != (u, v) ==> AddEdge(u, v, attrs).edgeData[e] == edgeData[e]
    {
      var withV := EnsureNode(u).EnsureNode(v);
      assert withV.edgeData == edgeData;
    }

    lemma AddEdgeKeepsValid(u: N, v: N, attrs: Attrs)
      requires Valid()
      ensures AddEdge(u, v, attrs).Valid()
    {
      var withV := EnsureNode(u).EnsureNode(v);
      assert withV.Valid();
      assert AddEdge(u, v, attrs) == withV.MergeEdge((u, v), attrs);
    }

    /** `list(G.successors(n))`: exactly the v with an edge n -> v, each once. */
    function Successors(n: N): (r: seq<N>)
      requires Valid()
      ensures forall v :: v in r <==> (n, v) in edgeData
      ensures Distinct(r)
    {
      Targets(edges, n)
    }

    /** `list(G.predecessors(n))`: exactly the u with an edge u -> n, each once. */
    function Predecessors(n: N): (r: seq<N>)
      requires Valid()
      ensures forall u :: u in r <==> (u, n) in edgeData
      ensures Distinct(r)
    {
      Sources(edges, n)
    }

    /**
     * `G.subgraph(S)`: the vertices of S with their dictionaries, and the edges with both
     * endpoints in S with theirs.
     */
    function Subgraph(S: set<N>): (h: Graph<N>)
      ensures forall x :: x in h.nodeData <==> x in nodeData && x in S
      ensures forall x :: x in h.nodeData ==> h.nodeData[x] == nodeData[x]
      ensures forall e :: e in h.edgeData <==> e in edgeData && e.0 in S && e.1 in S
      ensures forall e :: e in h.edgeData ==> h.edgeData[e] == edgeData[e]
    {
      Graph(Keep(nodes, x => x in S), map x | x in nodeData && x in S :: nodeData[x],
            Keep(edges, (e: Edge<N>) => e.0 in S && e.1 in S),
            map e | e in edgeData && e.0 in S && e.1 in S :: edgeData[e])
    }

    /** A subgraph of a well-formed graph is well formed: each kept edge keeps both endpoints. */
    lemma SubgraphKeepsValid(S: set<N>)
      requires Valid()
      ensures Subgraph(S).Valid()
    {
    }

    /** `len(G.nodes())` and `len(G.edges())`: the numbers of distinct vertices and pairs. */
    function NodeCount(): (c: nat)
      requires Valid()
      ensures c == |nodeData.Keys|
    {
      DistinctCard(nodes);
      assert (set x | x in nodes) == nodeData.Keys;
      |nodes|
    }

    function EdgeCount(): (c: nat)
      requires Valid()
      ensures c == |edgeData.Keys|
    {
      DistinctCard(edges);
      assert (set x | x in edges) == edgeData.Keys;
      |edges|
    }
  }

  /** A new networkx DiGraph: no vertices and no edges. */
  function Empty<N(==,!new)>(): (g: Graph<N>)
    ensures g.Valid() && g.nodeData.Keys == {} && g.edgeData.Keys == {}
  {
    Graph([], map[], [], map[])
  }

  /** A networkx DiGraph object, updated in place by `add_node` and `add_edge`. */
  class DiGraph<N(==,!new)> {
    var nodes: seq<N>
    var nodeData: map<N, Attrs>
    var edges: seq<Edge<N>>
    var edgeData: map<Edge<N>, Attrs>

    function View(): Graph<N>
      reads this
    {
      Graph(nodes, nodeData, edges, edgeData)
    }

    ghost predicate Valid()
      reads this
    {
      View().Valid()
    }

    /** An empty graph. */
    constructor ()
      ensures View() == Empty() && Valid()
    {
      nodes, nodeData, edges, edgeData := [], map[], [], map[];
    }

    method AddNode(n: N, attrs: Attrs)
      modifies this
      ensures View() == old(View()).AddNode(n, attrs)
      ensures old(Valid()) ==> Valid()
    {
      if n in nodeData {
        nodeData := nodeData[n := nodeData[n] + attrs];
      } else {
        nodes := nodes + [n];
        nodeData := nodeData[n := attrs];
      }
    }

    /** The endpoint insertion of `add_edge`. */
    method EnsureNode(n: N)
      modifies this
      ensures View() == old(View()).EnsureNode(n)
      ensures old(Valid()) ==> Valid()
    {
      if n !in nodeData {
        nodes, nodeData := nodes + [n], nodeData[n := map[]];
      }
    }

    /** The attribute update of `add_edge` on the pair `e`. */
    method MergeEdge(e: Edge<N>, attrs: Attrs)
      modifies this
      ensures View() == old(View()).MergeEdge(e, attrs)
      ensures old(Valid()) && e.0 in nodeData && e.1 in nodeData ==> Valid()
    {
      if e in edgeData {
        edgeData := edgeData[e := edgeData[e] + attrs];
      } else {
        edges, edgeData := edges + [e], edgeData[e := attrs];
      }
    }

    method AddEdge(u: N, v: N, attrs: Attrs)
      modifies this
      ensures View() == old(View()).AddEdge(u, v, attrs)
      ensures old(Valid()) ==> Valid()
    {
      EnsureNode(u);
      EnsureNode(v);
      MergeEdge((u, v), attrs);
    }
  }
}
