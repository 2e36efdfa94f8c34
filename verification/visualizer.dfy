/**
 * KnowledgeGraphVisualizer (utils/visualizer.py): the colour and marker tables, and the
 * part of `create_subgraph_visualization` that decides what to draw: the graph built from
 * the dictionaries (edge attribute "relationship") and the vertices within `depth` hops of
 * the focus entity, edges taken in either direction.
 */
module Visualizer {
  import opened Wrappers
  import opened GraphDicts
  import opened DiGraphs
  import opened KnowledgeGraph

  // ----- The lookup tables of __init__ -----

  const GenderColors: map<string, string> :=
    map["male" := "#ADD8E6", "female" := "#FFB6C1", "unknown" := "#D3D3D3"]

  const TypeMarkers: map<string, string> :=
    map["Person" := "o", "PERSON" := "o", "Location" := "s", "GPE" := "s",
        "Organization" := "^", "ORG" := "^", "Entity" := "D"]

  const TypeColors: map<string, string> :=
    map["Person" := "#90EE90", "PERSON" := "#90EE90", "Location" := "#FFD700", "GPE" := "#FFD700",
        "Organization" := "#FFA07A", "ORG" := "#FFA07A", "Entity" := "#E6E6FA"]

  /**
   * The three genders have three different colours; the marker and colour tables list the
   * same types, with one marker shape per kind of entity.
   */
  lemma ColourTables()
    ensures GenderColors.Keys == {"male", "female", "unknown"}
    ensures var colours := [GenderColors["male"], GenderColors["female"], GenderColors["unknown"]];
            forall i, j :: 0 <= i < j < 3 ==> colours[i] != colours[j]
    ensures TypeMarkers.Keys == TypeColors.Keys
    ensures TypeMarkers["Person"] == TypeMarkers["PERSON"] && TypeMarkers["Location"] == TypeMarkers["GPE"]
    ensures TypeMarkers["Organization"] == TypeMarkers["ORG"]
    ensures var shapes := [TypeMarkers["Person"], TypeMarkers["Location"], TypeMarkers["Organization"], TypeMarkers["Entity"]];
            forall i, j :: 0 <= i < j < 4 ==> shapes[i] != shapes[j]
  {
  }

  /** The marker of a node type: its table entry, or a circle for a type the table does not list. */
  function MarkerFor(nodeType: string): (m: string)
    ensures nodeType in TypeMarkers ==> m == TypeMarkers[nodeType]
    ensures nodeType !in TypeMarkers ==> m == "o"
    ensures m in {"o", "s", "^", "D"}
  {
    if nodeType in TypeMarkers then TypeMarkers[nodeType] else "o"
  }

  /**
   * The fill colour of a drawn node, looked up by its gender, or the KeyError for a node
   * without a gender or with a gender the colour table does not list.
   */
  function NodeColor(attrs: Attrs): (r: Result<string, string>)
    ensures r.Ok? <==> "gender" in attrs && attrs["gender"] in {"male", "female", "unknown"}
    ensures "gender" !in attrs ==> r == Err(KeyError("gender"))
    ensures "gender" in attrs && r.Err? ==> r.error == KeyError(attrs["gender"])
    ensures r.Ok? ==> r.value == GenderColors[attrs["gender"]]
  {
    if "gender" !in attrs then Err(KeyError("gender"))
    else if attrs["gender"] in GenderColors then Ok(GenderColors[attrs["gender"]])
    else Err(KeyError(attrs["gender"]))
  }

  /** A listed node that gave no gender is drawn light gray; one that gave an unlisted gender raises. */
  lemma ListedNodeColor(e: NodeEntry)
    ensures e.gender == DefaultGender ==> NodeColor(NodeAttributes(e)) == Ok("#D3D3D3")
    ensures e.gender !in GenderColors ==> NodeColor(NodeAttributes(e)) == Err(KeyError(e.gender))
  {
    assert "gender" in NodeAttributes(e) && NodeAttributes(e)["gender"] == e.gender;
  }

  // ----- The neighbourhood, as a specification -----

  /** An edge between u and v in either direction. */
  predicate Linked<N(==,!new)>(g: Graph<N>, u: N, v: N)
  {
    (u, v) in g.edgeData || (v, u) in g.edgeData
  }

  /** The vertices one edge away, in either direction, from some vertex of `S`. */
  function Adj<N(==,!new)>(g: Graph<N>, S: set<N>): (r: set<N>)
    ensures forall v :: v in r <==> exists u :: u in S && Linked(g, u, v)
  {
    var r := (set e | e in g.edgeData && e.0 in S :: e.1) + (set e | e in g.edgeData && e.1 in S :: e.0);
    assert forall u, v :: u in S && Linked(g, u, v) ==> v in r by {
      forall u, v | u in S && Linked(g, u, v) ensures v in r {
        if (u, v) in g.edgeData {
          assert (u, v).1 == v;
        } else {
          assert (v, u).0 == v;
        }
      }
    }
    r
  }

  /** The vertices within k hops of `f`: the set `nodes` after k rounds. */
  function Ball<N(==,!new)>(g: Graph<N>, f: N, k: nat): set<N>
  {
    if k == 0 then {f} else Ball(g, f, k - 1) + Adj(g, Ball(g, f, k - 1))
  }

  /** The set `current_nodes` after k rounds: the vertices first reached in round k. */
  function Frontier<N(==,!new)>(g: Graph<N>, f: N, k: nat): (r: set<N>)
    ensures k > 0 ==> r !! Ball(g, f, k - 1) && Ball(g, f, k) == Ball(g, f, k - 1) + r
    ensures r <= Ball(g, f, k)
  {
    if k == 0 then {f} else Ball(g, f, k) - Ball(g, f, k - 1)
  }

  /** A sequence of vertices in which neighbours are linked by an edge in either direction. */
  predicate IsWalk<N(==,!new)>(g: Graph<N>, w: seq<N>)
  {
    |w| >= 1 && forall i :: 0 <= i < |w| - 1 ==> Linked(g, w[i], w[i + 1])
  }

  /** The sets grow with the number of rounds. */
  lemma {:induction false} BallMonotone<N(!new)>(g: Graph<N>, f: N, j: nat, k: nat)
    requires j <= k
    ensures Ball(g, f, j) <= Ball(g, f, k)
    decreases k
  {
    if j < k {
      BallMonotone(g, f, j, k - 1);
    }
  }

  /** The focus is always collected, and with no rounds it is all that is collected. */
  lemma FocusCollected<N(!new)>(g: Graph<N>, f: N, k: nat)
    ensures f in Ball(g, f, k)
    ensures Ball(g, f, 0) == {f}
  {
    BallMonotone(g, f, 0, k);
  }

  /** In a well-formed graph that has `f` as a vertex, everything collected is a vertex. */
  lemma {:induction false} BallInVertices<N(!new)>(g: Graph<N>, f: N, k: nat)
    requires g.Valid() && f in g.nodeData
    ensures Ball(g, f, k) <= g.nodeData.Keys
  {
    if k > 0 {
      BallInVertices(g, f, k - 1);
      forall v | v in Adj(g, Ball(g, f, k - 1)) ensures v in g.nodeData {
        var u :| u in Ball(g, f, k - 1) && Linked(g, u, v);
      }
    }
  }

  /** A walk without its last vertex is a walk. */
  lemma WalkPrefix<N(!new)>(g: Graph<N>, w: seq<N>)
    requires IsWalk(g, w) && |w| > 1
    ensures IsWalk(g, w[..|w| - 1])
  {
    var w' := w[..|w| - 1];
    forall i | 0 <= i < |w'| - 1 ensures Linked(g, w'[i], w'[i + 1]) {
      assert w'[i] == w[i] && w'[i + 1] == w[i + 1];
    }
  }

  /** A walk followed by a vertex linked to its last one is a walk. */
  lemma WalkExtend<N(!new)>(g: Graph<N>, w: seq<N>, x: N)
    requires IsWalk(g, w) && Linked(g, w[|w| - 1], x)
    ensures IsWalk(g, w + [x])
  {
    var w' := w + [x];
    forall i | 0 <= i < |w'| - 1 ensures Linked(g, w'[i], w'[i + 1]) {
      if i < |w| - 1 {
        assert w'[i] == w[i] && w'[i + 1] == w[i + 1];
      }
    }
  }

  /** Every vertex at the end of a walk of at most k steps from `f` is collected. */
  lemma {:induction false} WalkEndCollected<N(!new)>(g: Graph<N>, f: N, k: nat, w: seq<N>)
    requires IsWalk(g, w) && w[0] == f && |w| <= k + 1
    ensures w[|w| - 1] in Ball(g, f, k)
    decreases |w|
  {
    if |w| == 1 {
      FocusCollected(g, f, k);
    } else {
      var w' := w[..|w| - 1];
      WalkPrefix(g, w);
      WalkEndCollected(g, f, k - 1, w');
      var u, v := w'[|w'| - 1], w[|w| - 1];
      assert u in Ball(g, f, k - 1) && Linked(g, u, v);
    }
  }

  /** Every collected vertex is the end of a walk of at most k steps from `f`. */
  lemma {:induction false} CollectedHasWalk<N(!new)>(g: Graph<N>, f: N, k: nat, x: N)
    requires x in Ball(g, f, k)
    ensures exists w :: IsWalk(g, w) && w[0] == f && |w| <= k + 1 && w[|w| - 1] == x
    decreases k
  {
    if k == 0 {
      assert IsWalk(g, [f]) && [f][0] == f;
    } else if x in Ball(g, f, k - 1) {
      CollectedHasWalk(g, f, k - 1, x);
    } else {
      var u :| u in Ball(g, f, k - 1) && Linked(g, u, x);
      CollectedHasWalk(g, f, k - 1, u);
      var w :| IsWalk(g, w) && w[0] == f && |w| <= k && w[|w| - 1] == u;
      WalkExtend(g, w, x);
      var w' := w + [x];
      assert w'[0] == f && w'[|w'| - 1] == x;
    }
  }

  /**
   * After k rounds the collected set is exactly the set of vertices reachable from the
   * focus in at most k hops, ignoring edge direction.
   */
  lemma BallIsReach<N(!new)>(g: Graph<N>, f: N, k: nat)
    ensures forall x :: x in Ball(g, f, k) <==>
              exists w :: IsWalk(g, w) && w[0] == f && |w| <= k + 1 && w[|w| - 1] == x
  {
    forall x | x in Ball(g, f, k)
      ensures exists w :: IsWalk(g, w) && w[0] == f && |w| <= k + 1 && w[|w| - 1] == x
    {
      CollectedHasWalk(g, f, k, x);
    }
    forall x | exists w :: IsWalk(g, w) && w[0] == f && |w| <= k + 1 && w[|w| - 1] == x
      ensures x in Ball(g, f, k)
    {
      var w :| IsWalk(g, w) && w[0] == f && |w| <= k + 1 && w[|w| - 1] == x;
      WalkEndCollected(g, f, k, w);
    }
  }

  /** The neighbours of a union are the union of the neighbours. */
  lemma AdjUnion<N(!new)>(g: Graph<N>, A: set<N>, B: set<N>)
    ensures Adj(g, A + B) == Adj(g, A) + Adj(g, B)
  {
  }

  /** Expanding only the frontier adds what expanding all collected vertices adds. */
  lemma {:induction false} FrontierSuffices<N(!new)>(g: Graph<N>, f: N, k: nat)
    ensures Ball(g, f, k) + Adj(g, Frontier(g, f, k)) == Ball(g, f, k + 1)
  {
    if k > 0 {
      var prev := Ball(g, f, k - 1);
      AdjUnion(g, prev, Frontier(g, f, k));
      assert Adj(g, Ball(g, f, k)) == Adj(g, prev) + Adj(g, Frontier(g, f, k));
    }
  }

  // ----- create_subgraph_visualization -----

  /** The vertices of one-element set, one edge away: its predecessors and its successors. */
  lemma AdjSingle<N(!new)>(g: Graph<N>, x: N)
    requires g.Valid()
    ensures Adj(g, {x}) == (set u | u in g.Predecessors(x)) + (set v | v in g.Successors(x))
  {
  }

  /** The inner loop: `next_nodes` gathers the predecessors and successors of `current_nodes`. */
  method NeighboursOf<N(==,!new)>(G: DiGraph<N>, current: set<N>) returns (next: set<N>)
    requires G.Valid()
    ensures next == Adj(G.View(), current)
  {
    var g := G.View();
    next := {};
    var rest := current;
    while rest != {}
      invariant rest <= current
      invariant next == Adj(g, current - rest)
      decreases |rest|
    {
      var node :| node in rest;
      AdjSingle(g, node);
      AdjUnion(g, current - rest, {node});
      assert current - (rest - {node}) == (current - rest) + {node};
      next := next + (set u | u in g.Predecessors(node));
      next := next + (set v | v in g.Successors(node));
      rest := rest - {node};
    }
  }

  /**
   * The outer loop: `depth` rounds (none when `depth` is negative, as with `range`), each
   * expanding the frontier and adding what is new to the collected set.
   */
  method ExpandNeighbourhood<N(==,!new)>(G: DiGraph<N>, focus: N, depth: int) returns (nodes: set<N>)
    requires G.Valid() && focus in G.nodeData
    ensures nodes == Ball(G.View(), focus, if depth < 0 then 0 else depth)
    ensures focus in nodes && nodes <= G.nodeData.Keys
  {
    var g := G.View();
    nodes := {focus};
    var current := {focus};
    var rounds := if depth < 0 then 0 else depth;
    FocusCollected(g, focus, rounds);
    BallInVertices(g, focus, rounds);
    for i := 0 to rounds
      invariant nodes == Ball(g, focus, i)
      invariant current == Frontier(g, focus, i)
    {
      var next := NeighboursOf(G, current);
      FrontierSuffices(g, focus, i);
      current := next - nodes;
      nodes := nodes + current;
    }
  }

  datatype Subgraph =
    | NotFound(message: string)
    | Found(nodes: set<string>, view: Graph<string>)

  /**
   * The part of `create_subgraph_visualization` before drawing: the graph, then either the
   * "not found" text or the collected vertices and the subgraph they induce. A KeyError
   * of the construction propagates.
   */
  method CreateSubgraph(graph: GraphDict, focus: string, depth: int) returns (r: Result<Subgraph, string>)
    ensures r.Ok? <==> Build(graph, "relationship").Ok?
    ensures r.Err? ==> r.error == Build(graph, "relationship").error
    ensures r.Ok? ==> var g := Build(graph, "relationship").value;
              && (focus !in g.nodeData ==> r.value == NotFound("Entity '" + focus + "' not found in graph"))
              && (focus in g.nodeData ==>
                    var S := Ball(g, focus, if depth < 0 then 0 else depth);
                    r.value == Found(S, g.Subgraph(S)))
  {
    var built := CreateNetworkxGraph(graph, "relationship");
    if built.Err? {
      return Err(built.error);
    }
    var G := built.value;
    if focus !in G.nodeData {
      return Ok(NotFound("Entity '" + focus + "' not found in graph"));
    }
    BuildValid(graph, "relationship");
    var nodes := ExpandNeighbourhood(G, focus, depth);
    return Ok(Found(nodes, G.View().Subgraph(nodes)));
  }

  /**
   * For a focus that is a vertex, the drawn subgraph has the collected vertices as its
   * vertices: the focus, its neighbourhood, and nothing outside the graph.
   */
  lemma SubgraphVertices(graph: GraphDict, focus: string, depth: nat)
    requires Build(graph, "relationship").Ok? && focus in Build(graph, "relationship").value.nodeData
    ensures var g := Build(graph, "relationship").value;
            var S := Ball(g, focus, depth);
            && focus in S
            && S <= g.nodeData.Keys
            && (forall x :: x in g.Subgraph(S).nodeData <==> x in S)
  {
    var g := Build(graph, "relationship").value;
    BuildValid(graph, "relationship");
    FocusCollected(g, focus, depth);
    BallInVertices(g, focus, depth);
  }
}
