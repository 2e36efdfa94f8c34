/**
 * KnowledgeGraphAnalyzer (utils/graph.py): the conversion of the dictionary shape into a
 * directed graph, and the queries answered from that graph.
 *
 * The conversion is shared with the visualizer, which stores the relationship type
 * under the edge attribute "relationship" where the analyzer uses "type"; `edgeKey`
 * names that attribute.
 */
module KnowledgeGraph {
  import opened Wrappers
  import opened GraphDicts
  import opened DiGraphs

  const DefaultType := "Entity"
  const DefaultGender := "unknown"
  const DefaultRelation := "RELATED_TO"

  /** A node dictionary as the node loop reads it: its id, and its type and gender with defaults. */
  datatype NodeEntry = NodeEntry(id: string, nodeType: string, gender: string)

  /** A relationship dictionary as the edge loop reads it. */
  datatype Rel = Rel(source: string, target: string, relType: string)

  /** A node entry: the id is required, the type and gender fall back to their defaults. */
  function ReadNode(n: NodeRecord): (r: Result<NodeEntry, string>)
    ensures r.Ok? <==> n.id.Some?
    ensures r.Err? ==> r.error == KeyError("id")
    ensures r.Ok? ==> && r.value.id == n.id.value
                      && r.value.nodeType == (if n.nodeType.Some? then n.nodeType.value else DefaultType)
                      && r.value.gender == (if n.gender.Some? then n.gender.value else DefaultGender)
  {
    match n.id
    case None => Err(KeyError("id"))
    case Some(id) => Ok(NodeEntry(id, OrDefault(n.nodeType, DefaultType), OrDefault(n.gender, DefaultGender)))
  }

  /** A relationship entry: source, target and type are required, read in that order; the first absent key raises. */
  function ReadRel(r: RelRecord): (x: Result<Rel, string>)
    ensures x.Ok? <==> r.source.Some? && r.target.Some? && r.relType.Some?
    ensures x.Ok? ==> x.value == Rel(r.source.value, r.target.value, r.relType.value)
    ensures r.source.None? ==> x == Err(KeyError("source"))
    ensures r.source.Some? && r.target.None? ==> x == Err(KeyError("target"))
    ensures r.source.Some? && r.target.Some? && r.relType.None? ==> x == Err(KeyError("type"))
  {
    match (r.source, r.target, r.relType)
    case (None, _, _) => Err(KeyError("source"))
    case (_, None, _) => Err(KeyError("target"))
    case (_, _, None) => Err(KeyError("type"))
    case (Some(s), Some(t), Some(ty)) => Ok(Rel(s, t, ty))
  }

  /** The keyword arguments of `add_node` for one entry. */
  function NodeAttributes(e: NodeEntry): (m: Attrs)
    ensures m.Keys == {"type", "gender"} && m["type"] == e.nodeType && m["gender"] == e.gender
  {
    map["type" := e.nodeType, "gender" := e.gender]
  }

  /** The node loop, continued from graph `g` over the remaining entries. */
  function AddNodes(g: Graph<string>, es: seq<NodeEntry>): Graph<string>
    decreases |es|
  {
    if es == [] then g
    else AddNodes(g.AddNode(es[0].id, NodeAttributes(es[0])), es[1..])
  }

  /** The edge loop, continued from graph `g` over the remaining relationships. */
  function AddEdges(g: Graph<string>, rels: seq<Rel>, edgeKey: string): Graph<string>
    decreases |rels|
  {
    if rels == [] then g
    else AddEdges(g.AddEdge(rels[0].source, rels[0].target, map[edgeKey := rels[0].relType]), rels[1..], edgeKey)
  }

  /** The node loop over dictionaries: it stops with the KeyError of the first one without an id. */
  function NodesFrom(g: Graph<string>, ns: seq<NodeRecord>): Result<Graph<string>, string>
  {
    match ReadAll(ns, ReadNode)
    case Err(e) => Err(e)
    case Ok(es) => Ok(AddNodes(g, es))
  }

  /** The edge loop over dictionaries: it stops with the KeyError of the first incomplete one. */
  function EdgesFrom(g: Graph<string>, rs: seq<RelRecord>, edgeKey: string): Result<Graph<string>, string>
  {
    match ReadAll(rs, ReadRel)
    case Err(e) => Err(e)
    case Ok(rels) => Ok(AddEdges(g, rels, edgeKey))
  }

  /** The graph of the entries: the node loop from an empty graph, then the edge loop. */
  function Construct(es: seq<NodeEntry>, rels: seq<Rel>, edgeKey: string): Graph<string>
  {
    AddEdges(AddNodes(Empty(), es), rels, edgeKey)
  }

  /**
   * `_create_networkx_graph`: `graph['nodes']`, the node loop, `graph['relationships']` and
   * the edge loop, each raising a KeyError that ends the construction.
   */
  function Build(graph: GraphDict, edgeKey: string): (r: Result<Graph<string>, string>)
    ensures graph.nodes.None? ==> r == Err(KeyError("nodes"))
    ensures graph.nodes.Some? && NodesFrom(Empty(), graph.nodes.value).Err? ==>
              r == NodesFrom(Empty(), graph.nodes.value)
    ensures graph.relationships.None? ==> r.Err?
    ensures graph.nodes.Some? && NodesFrom(Empty(), graph.nodes.value).Ok? && graph.relationships.None? ==>
              r == Err(KeyError("relationships"))
    ensures graph.nodes.Some? && NodesFrom(Empty(), graph.nodes.value).Ok? && graph.relationships.Some? &&
            ReadAll(graph.relationships.value, ReadRel).Err? ==>
              r == Err(ReadAll(graph.relationships.value, ReadRel).error)
  {
    match graph.nodes
    case None => Err(KeyError("nodes"))
    case Some(ns) =>
      match NodesFrom(Empty(), ns)
      case Err(e) => Err(e)
      case Ok(g) =>
        match graph.relationships
        case None => Err(KeyError("relationships"))
        case Some(rs) => EdgesFrom(g, rs, edgeKey)
  }

  /** `Build` succeeds exactly when every key it reads is present, and then yields `Construct`. */
  lemma BuildOk(graph: GraphDict, edgeKey: string)
    ensures Build(graph, edgeKey).Ok? <==>
              && graph.nodes.Some? && graph.relationships.Some?
              && (forall i :: 0 <= i < |graph.nodes.value| ==> graph.nodes.value[i].id.Some?)
              && (forall i :: 0 <= i < |graph.relationships.value| ==> ReadRel(graph.relationships.value[i]).Ok?)
    ensures Build(graph, edgeKey).Ok? ==>
              Build(graph, edgeKey).value ==
                Construct(ReadAll(graph.nodes.value, ReadNode).value,
                          ReadAll(graph.relationships.value, ReadRel).value, edgeKey)
  {
    if graph.nodes.Some? {
      var ns := graph.nodes.value;
      if !(forall i :: 0 <= i < |ns| ==> ns[i].id.Some?) {
        var i :| 0 <= i < |ns| && ns[i].id.None?;
        assert !ReadNode(ns[i]).Ok?;
      }
    }
  }

  /** One turn of the node loop. */
  lemma NodesFromStep(g: Graph<string>, ns: seq<NodeRecord>, i: nat)
    requires i < |ns| && ReadNode(ns[i]).Ok?
    ensures NodesFrom(g, ns[i..]) ==
              NodesFrom(g.AddNode(ns[i].id.value, NodeAttributes(ReadNode(ns[i]).value)), ns[i + 1..])
  {
    assert ns[i..][1..] == ns[i + 1..];
  }

  /** One turn of the edge loop. */
  lemma EdgesFromStep(g: Graph<string>, rs: seq<RelRecord>, i: nat, edgeKey: string)
    requires i < |rs| && ReadRel(rs[i]).Ok?
    ensures var r := ReadRel(rs[i]).value;
            EdgesFrom(g, rs[i..], edgeKey) ==
              EdgesFrom(g.AddEdge(r.source, r.target, map[edgeKey := r.relType]), rs[i + 1..], edgeKey)
  {
    assert rs[i..][1..] == rs[i + 1..];
  }

  /** A constructed graph is well formed. */
  lemma BuildValid(graph: GraphDict, edgeKey: string)
    requires Build(graph, edgeKey).Ok?
    ensures Build(graph, edgeKey).value.Valid()
  {
    BuildOk(graph, edgeKey);
    ConstructShape(ReadAll(graph.nodes.value, ReadNode).value, ReadAll(graph.relationships.value, ReadRel).value, edgeKey);
  }

  /** The imperative construction: a fresh DiGraph filled by the two loops. */
  method CreateNetworkxGraph(graph: GraphDict, edgeKey: string) returns (r: Result<DiGraph<string>, string>)
    ensures r.Ok? <==> Build(graph, edgeKey).Ok?
    ensures r.Err? ==> r.error == Build(graph, edgeKey).error
    ensures r.Ok? ==> fresh(r.value) && r.value.View() == Build(graph, edgeKey).value
  {
    var G := new DiGraph<string>();
    if graph.nodes.None? {
      var missing := KeyError("nodes");
      assert Build(graph, edgeKey) == Err(missing);
      return Err(missing);
    }
    var ns := graph.nodes.value;
    for i := 0 to |ns|
      invariant fresh(G)
      invariant NodesFrom(G.View(), ns[i..]) == NodesFrom(Empty(), ns)
    {
      var entry := ReadNode(ns[i]);
      if entry.Err? {
        return Err(entry.error);
      }
      NodesFromStep(G.View(), ns, i);
      G.AddNode(entry.value.id, NodeAttributes(entry.value));
    }
    assert ns[|ns|..] == [];
    if graph.relationships.None? {
      var missing := KeyError("relationships");
      assert Build(graph, edgeKey) == Err(missing);
      return Err(missing);
    }
    var rs := graph.relationships.value;
    for i := 0 to |rs|
      invariant fresh(G)
      invariant EdgesFrom(G.View(), rs[i..], edgeKey) == Build(graph, edgeKey)
    {
      var rel := ReadRel(rs[i]);
      if rel.Err? {
        return Err(rel.error);
      }
      EdgesFromStep(G.View(), rs, i, edgeKey);
      G.AddEdge(rel.value.source, rel.value.target, map[edgeKey := rel.value.relType]);
    }
    assert rs[|rs|..] == [];
    return Ok(G);
  }

  // ----- What the construction promises -----

  /** The ids of the entries. */
  function Ids(es: seq<NodeEntry>): set<string>
    decreases |es|
  {
    if es == [] then {} else {es[0].id} + Ids(es[1..])
  }

  /** The sources and targets of the relationships. */
  function Endpoints(rels: seq<Rel>): set<string>
    decreases |rels|
  {
    if rels == [] then {} else {rels[0].source, rels[0].target} + Endpoints(rels[1..])
  }

  /** The (source, target) pairs of the relationships. */
  function Pairs(rels: seq<Rel>): set<Edge<string>>
    decreases |rels|
  {
    if rels == [] then {} else {(rels[0].source, rels[0].target)} + Pairs(rels[1..])
  }

  lemma {:induction false} IdsMembers(es: seq<NodeEntry>)
    ensures forall x :: x in Ids(es) <==> exists i :: 0 <= i < |es| && es[i].id == x
    decreases |es|
  {
    if es != [] {
      IdsMembers(es[1..]);
      assert forall i :: 1 <= i < |es| ==> es[i] == es[1..][i - 1];
      forall x | x in Ids(es) ensures exists i :: 0 <= i < |es| && es[i].id == x {
        if es[0].id != x {
          assert x in Ids(es[1..]);
          var j :| 0 <= j < |es[1..]| && es[1..][j].id == x;
          assert es[j + 1].id == x;
        }
      }
    }
  }

  lemma {:induction false} EndpointsMembers(rels: seq<Rel>)
    ensures forall x :: x in Endpoints(rels) <==>
              exists i :: 0 <= i < |rels| && (rels[i].source == x || rels[i].target == x)
    decreases |rels|
  {
    if rels != [] {
      EndpointsMembers(rels[1..]);
      assert forall i :: 1 <= i < |rels| ==> rels[i] == rels[1..][i - 1];
      forall x | x in Endpoints(rels)
        ensures exists i :: 0 <= i < |rels| && (rels[i].source == x || rels[i].target == x)
      {
        if rels[0].source != x && rels[0].target != x {
          assert x in Endpoints(rels[1..]);
          var j :| 0 <= j < |rels[1..]| && (rels[1..][j].source == x || rels[1..][j].target == x);
          assert rels[j + 1] == rels[1..][j];
        }
      }
    }
  }

  lemma {:induction false} PairsMembers(rels: seq<Rel>)
    ensures forall u, v :: (u, v) in Pairs(rels) <==>
              exists i :: 0 <= i < |rels| && rels[i].source == u && rels[i].target == v
    decreases |rels|
  {
    if rels != [] {
      PairsMembers(rels[1..]);
      assert forall i :: 1 <= i < |rels| ==> rels[i] == rels[1..][i - 1];
      forall u, v | (u, v) in Pairs(rels)
        ensures exists i :: 0 <= i < |rels| && rels[i].source == u && rels[i].target == v
      {
        if rels[0].source != u || rels[0].target != v {
          assert (u, v) in Pairs(rels[1..]);
          var j :| 0 <= j < |rels[1..]| && rels[1..][j].source == u && rels[1..][j].target == v;
          assert rels[j + 1] == rels[1..][j];
        }
      }
    }
  }

  /** No later entry has the same id as the i-th. */
  predicate LastWithId(es: seq<NodeEntry>, i: int)
    requires 0 <= i < |es|
  {
    forall j :: i < j < |es| ==> es[j].id != es[i].id
  }

  /** No later relationship has the same (source, target) pair as the i-th. */
  predicate LastWithPair(rels: seq<Rel>, i: int)
    requires 0 <= i < |rels|
  {
    forall j :: i < j < |rels| ==> rels[j].source != rels[i].source || rels[j].target != rels[i].target
  }

  /** Every attribute dictionary of the vertices uses only the keys `add_node` is given. */
  ghost predicate NodeKeysWithin(g: Graph<string>)
  {
    forall x :: x in g.nodeData ==> g.nodeData[x].Keys <= {"type", "gender"}
  }

  /** Every attribute dictionary of the edges uses only the key `edgeKey`. */
  ghost predicate EdgeKeysWithin(g: Graph<string>, edgeKey: string)
  {
    forall e :: e in g.edgeData ==> g.edgeData[e].Keys <= {edgeKey}
  }

  /** Regrouping of one step of a fold into a union. */
  lemma UnionRegroup<T>(h: set<T>, mid: set<T>, base: set<T>, step: set<T>, rest: set<T>, all: set<T>)
    requires h == mid + rest && mid == base + step && all == step + rest
    ensures h == base + all
  {
  }

  /** The node loop adds exactly the listed ids as vertices and leaves the edges alone. */
  lemma {:induction false} AddNodesShape(g: Graph<string>, es: seq<NodeEntry>)
    ensures AddNodes(g, es).nodeData.Keys == g.nodeData.Keys + Ids(es)
    ensures AddNodes(g, es).edges == g.edges && AddNodes(g, es).edgeData == g.edgeData
    ensures g.Valid() ==> AddNodes(g, es).Valid()
    decreases |es|
  {
    if es != [] {
      var g' := g.AddNode(es[0].id, NodeAttributes(es[0]));
      AddNodesShape(g', es[1..]);
      UnionRegroup(AddNodes(g', es[1..]).nodeData.Keys, g'.nodeData.Keys,
                   g.nodeData.Keys, {es[0].id}, Ids(es[1..]), Ids(es));
    }
  }

  /** The node loop leaves the dictionaries of unlisted vertices alone. */
  lemma {:induction false} AddNodesUnlisted(g: Graph<string>, es: seq<NodeEntry>)
    ensures forall x :: x in g.nodeData && x !in Ids(es) ==>
              x in AddNodes(g, es).nodeData && AddNodes(g, es).nodeData[x] == g.nodeData[x]
    decreases |es|
  {
    if es != [] {
      AddNodesUnlisted(g.AddNode(es[0].id, NodeAttributes(es[0])), es[1..]);
    }
  }

  /** The node loop gives each listed id the attributes of the last entry with that id. */
  lemma {:induction false} AddNodesAttributes(g: Graph<string>, es: seq<NodeEntry>)
    requires NodeKeysWithin(g)
    ensures NodeKeysWithin(AddNodes(g, es))
    ensures forall i :: 0 <= i < |es| && LastWithId(es, i) ==>
              es[i].id in AddNodes(g, es).nodeData &&
              AddNodes(g, es).nodeData[es[i].id] == NodeAttributes(es[i])
    decreases |es|
  {
    if es != [] {
      var e0 := es[0];
      var g' := g.AddNode(e0.id, NodeAttributes(e0));
      assert g'.nodeData[e0.id] == NodeAttributes(e0) by {
        assert g.NodeAttrs(e0.id) + NodeAttributes(e0) == NodeAttributes(e0);
      }
      var tail := es[1..];
      AddNodesUnlisted(g', tail);
      AddNodesAttributes(g', tail);
      forall i | 0 <= i < |es| && LastWithId(es, i)
        ensures es[i].id in AddNodes(g, es).nodeData && AddNodes(g, es).nodeData[es[i].id] == NodeAttributes(es[i])
      {
        if i == 0 {
          assert e0.id !in Ids(tail) by {
            IdsMembers(tail);
            forall j | 0 <= j < |tail| ensures tail[j].id != e0.id {
              assert tail[j] == es[j + 1];
            }
          }
        } else {
          assert tail[i - 1] == es[i];
          assert LastWithId(tail, i - 1) by {
            forall j | i - 1 < j < |tail| ensures tail[j].id != tail[i - 1].id {
              assert tail[j] == es[j + 1];
            }
          }
        }
      }
    }
  }

  /** The edge loop adds exactly the named endpoints as vertices. */
  lemma {:induction false} AddEdgesNodeKeys(g: Graph<string>, rels: seq<Rel>, edgeKey: string)
    ensures AddEdges(g, rels, edgeKey).nodeData.Keys == g.nodeData.Keys + Endpoints(rels)
    decreases |rels|
  {
    if rels != [] {
      var r0 := rels[0];
      var g' := g.AddEdge(r0.source, r0.target, map[edgeKey := r0.relType]);
      AddEdgesNodeKeys(g', rels[1..], edgeKey);
      UnionRegroup(AddEdges(g', rels[1..], edgeKey).nodeData.Keys, g'.nodeData.Keys,
                   g.nodeData.Keys, {r0.source, r0.target}, Endpoints(rels[1..]), Endpoints(rels));
    }
  }

  /** The edge loop adds exactly the named pairs as edges. */
  lemma {:induction false} AddEdgesEdgeKeys(g: Graph<string>, rels: seq<Rel>, edgeKey: string)
    ensures AddEdges(g, rels, edgeKey).edgeData.Keys == g.edgeData.Keys + Pairs(rels)
    decreases |rels|
  {
    if rels != [] {
      var r0 := rels[0];
      var g' := g.AddEdge(r0.source, r0.target, map[edgeKey := r0.relType]);
      AddEdgesEdgeKeys(g', rels[1..], edgeKey);
      UnionRegroup(AddEdges(g', rels[1..], edgeKey).edgeData.Keys, g'.edgeData.Keys,
                   g.edgeData.Keys, {(r0.source, r0.target)}, Pairs(rels[1..]), Pairs(rels));
    }
  }

  /** The edge loop keeps the graph well formed. */
  lemma {:induction false} AddEdgesValid(g: Graph<string>, rels: seq<Rel>, edgeKey: string)
    requires g.Valid()
    ensures AddEdges(g, rels, edgeKey).Valid()
    decreases |rels|
  {
    if rels != [] {
      var r0 := rels[0];
      var a := map[edgeKey := r0.relType];
      g.AddEdgeKeepsValid(r0.source, r0.target, a);
      AddEdgesValid(g.AddEdge(r0.source, r0.target, a), rels[1..], edgeKey);
    }
  }

  /**
   * The edge loop leaves the dictionaries of existing vertices alone and gives each
   * vertex it inserts an empty one.
   */
  lemma {:induction false} AddEdgesNodeData(g: Graph<string>, rels: seq<Rel>, edgeKey: string)
    ensures forall x :: x in g.nodeData ==>
              x in AddEdges(g, rels, edgeKey).nodeData && AddEdges(g, rels, edgeKey).nodeData[x] == g.nodeData[x]
    ensures forall x :: x in AddEdges(g, rels, edgeKey).nodeData && x !in g.nodeData ==>
              AddEdges(g, rels, edgeKey).nodeData[x] == map[]
    decreases |rels|
  {
    if rels != [] {
      var r0 := rels[0];
      var a := map[edgeKey := r0.relType];
      g.AddEdgeData(r0.source, r0.target, a);
      AddEdgesNodeData(g.AddEdge(r0.source, r0.target, a), rels[1..], edgeKey);
    }
  }

  /** The edge loop leaves the dictionaries of unnamed pairs alone. */
  lemma {:induction false} AddEdgesUnlisted(g: Graph<string>, rels: seq<Rel>, edgeKey: string)
    ensures forall e :: e in g.edgeData && e !in Pairs(rels) ==>
              e in AddEdges(g, rels, edgeKey).edgeData && AddEdges(g, rels, edgeKey).edgeData[e] == g.edgeData[e]
    decreases |rels|
  {
    if rels != [] {
      var r0 := rels[0];
      var a := map[edgeKey := r0.relType];
      g.AddEdgeData(r0.source, r0.target, a);
      AddEdgesUnlisted(g.AddEdge(r0.source, r0.target, a), rels[1..], edgeKey);
    }
  }

  /** The edge loop keeps every edge dictionary within the key `edgeKey`. */
  lemma {:induction false} AddEdgesKeysWithin(g: Graph<string>, rels: seq<Rel>, edgeKey: string)
    requires EdgeKeysWithin(g, edgeKey)
    ensures EdgeKeysWithin(AddEdges(g, rels, edgeKey), edgeKey)
    decreases |rels|
  {
    if rels != [] {
      var r0 := rels[0];
      var a := map[edgeKey := r0.relType];
      g.AddEdgeData(r0.source, r0.target, a);
      AddEdgesKeysWithin(g.AddEdge(r0.source, r0.target, a), rels[1..], edgeKey);
    }
  }

  /** The first relationship's pair, named by no later one, keeps the type the first step stores. */
  lemma FirstPairKept(g: Graph<string>, rels: seq<Rel>, edgeKey: string)
    requires EdgeKeysWithin(g, edgeKey) && rels != [] && LastWithPair(rels, 0)
    ensures (rels[0].source, rels[0].target) in AddEdges(g, rels, edgeKey).edgeData &&
            AddEdges(g, rels, edgeKey).edgeData[(rels[0].source, rels[0].target)] == map[edgeKey := rels[0].relType]
  {
    var r0 := rels[0];
    var e := (r0.source, r0.target);
    var a := map[edgeKey := r0.relType];
    var g' := g.AddEdge(e.0, e.1, a);
    g.AddEdgeData(e.0, e.1, a);
    assert g'.edgeData[e] == a by {
      assert g.EdgeAttrs(e) + a == a;
    }
    var tail := rels[1..];
    assert e !in Pairs(tail) by {
      PairsMembers(tail);
      forall j | 0 <= j < |tail| ensures tail[j].source != e.0 || tail[j].target != e.1 {
        assert tail[j] == rels[j + 1];
      }
    }
    AddEdgesUnlisted(g', tail, edgeKey);
  }

  /** The edge loop gives each named pair the type of the last relationship with that pair. */
  lemma {:induction false} AddEdgesAttributes(g: Graph<string>, rels: seq<Rel>, edgeKey: string)
    requires EdgeKeysWithin(g, edgeKey)
    ensures forall i :: 0 <= i < |rels| && LastWithPair(rels, i) ==>
              (rels[i].source, rels[i].target) in AddEdges(g, rels, edgeKey).edgeData &&
              AddEdges(g, rels, edgeKey).edgeData[(rels[i].source, rels[i].target)] == map[edgeKey := rels[i].relType]
    decreases |rels|
  {
    if rels != [] {
      var r0 := rels[0];
      var a := map[edgeKey := r0.relType];
      var g' := g.AddEdge(r0.source, r0.target, a);
      var tail := rels[1..];
      assert EdgeKeysWithin(g', edgeKey) by {
        g.AddEdgeData(r0.source, r0.target, a);
      }
      AddEdgesAttributes(g', tail, edgeKey);
      forall i | 0 <= i < |rels| && LastWithPair(rels, i)
        ensures (rels[i].source, rels[i].target) in AddEdges(g, rels, edgeKey).edgeData &&
                AddEdges(g, rels, edgeKey).edgeData[(rels[i].source, rels[i].target)] == map[edgeKey := rels[i].relType]
      {
        if i == 0 {
          FirstPairKept(g, rels, edgeKey);
        } else {
          assert tail[i - 1] == rels[i];
          assert LastWithPair(tail, i - 1) by {
            forall j | i - 1 < j < |tail|
              ensures tail[j].source != tail[i - 1].source || tail[j].target != tail[i - 1].target
            {
              assert tail[j] == rels[j + 1];
            }
          }
        }
      }
    }
  }

  /** A union with an empty set. */
  lemma UnionWithEmpty<T>(h: set<T>, e: set<T>, x: set<T>)
    requires h == e + x && e == {}
    ensures h == x
  {
  }

  /** Two folds from an empty set. */
  lemma UnionFromEmpty<T>(h: set<T>, mid: set<T>, e: set<T>, x: set<T>, y: set<T>)
    requires h == mid + y && mid == e + x && e == {}
    ensures h == x + y
  {
  }

  /**
   * The constructed graph is well formed; its vertices are exactly the listed ids and the
   * relationship endpoints (an endpoint needs no node entry), and its edges exactly the
   * named (source, target) pairs, one per pair.
   */
  lemma ConstructShape(es: seq<NodeEntry>, rels: seq<Rel>, edgeKey: string)
    ensures Construct(es, rels, edgeKey).Valid()
    ensures Construct(es, rels, edgeKey).nodeData.Keys == Ids(es) + Endpoints(rels)
    ensures Construct(es, rels, edgeKey).edgeData.Keys == Pairs(rels)
  {
    var g := AddNodes(Empty(), es);
    var h := Construct(es, rels, edgeKey);
    AddNodesShape(Empty(), es);
    AddEdgesValid(g, rels, edgeKey);
    AddEdgesNodeKeys(g, rels, edgeKey);
    UnionFromEmpty(h.nodeData.Keys, g.nodeData.Keys, Empty<string>().nodeData.Keys, Ids(es), Endpoints(rels));
    AddEdgesEdgeKeys(g, rels, edgeKey);
    UnionWithEmpty(h.edgeData.Keys, Empty<string>().edgeData.Keys, Pairs(rels));
  }

  /**
   * A listed id carries the type and gender of the LAST entry with that id; a vertex that
   * only occurs as an endpoint carries no attributes at all.
   */
  lemma ConstructNodeAttributes(es: seq<NodeEntry>, rels: seq<Rel>, edgeKey: string)
    ensures forall i :: 0 <= i < |es| && LastWithId(es, i) ==>
              es[i].id in Construct(es, rels, edgeKey).nodeData &&
              Construct(es, rels, edgeKey).nodeData[es[i].id] == NodeAttributes(es[i])
    ensures forall x :: x in Construct(es, rels, edgeKey).nodeData && x !in Ids(es) ==>
              Construct(es, rels, edgeKey).nodeData[x] == map[]
  {
    var g := AddNodes(Empty(), es);
    AddNodesShape(Empty(), es);
    AddNodesAttributes(Empty(), es);
    AddEdgesNodeData(g, rels, edgeKey);
  }

  /** The dictionary of each edge holds only the type of the LAST relationship with its pair. */
  lemma ConstructEdgeAttributes(es: seq<NodeEntry>, rels: seq<Rel>, edgeKey: string)
    ensures forall i :: 0 <= i < |rels| && LastWithPair(rels, i) ==>
              (rels[i].source, rels[i].target) in Construct(es, rels, edgeKey).edgeData &&
              Construct(es, rels, edgeKey).edgeData[(rels[i].source, rels[i].target)] == map[edgeKey := rels[i].relType]
  {
    AddNodesShape(Empty(), es);
    AddEdgesAttributes(AddNodes(Empty(), es), rels, edgeKey);
  }

  // ----- get_graph_metrics: the counts -----

  datatype Counts = Counts(nodeCount: nat, edgeCount: nat)

  /** `node_count` and `edge_count` of `get_graph_metrics`. */
  function GraphCounts(g: Graph<string>): (c: Counts)
    requires g.Valid()
    ensures c.nodeCount == |g.nodeData.Keys| && c.edgeCount == |g.edgeData.Keys|
  {
    Counts(g.NodeCount(), g.EdgeCount())
  }

  /** For a constructed graph: the distinct vertices, and the distinct ordered pairs. */
  lemma ConstructCounts(es: seq<NodeEntry>, rels: seq<Rel>)
    ensures Construct(es, rels, "type").Valid()
    ensures GraphCounts(Construct(es, rels, "type")) == Counts(|Ids(es) + Endpoints(rels)|, |Pairs(rels)|)
  {
    ConstructShape(es, rels, "type");
  }

  // ----- get_node_neighbors -----

  datatype Neighbors =
    | Names(inNames: seq<string>, outNames: seq<string>)
    | Labelled(inPairs: seq<(string, string)>, outPairs: seq<(string, string)>)

  /** The type stored on edge `e`, or the default relation when it has none. */
  function EdgeLabel(g: Graph<string>, e: Edge<string>): (r: string)
    ensures "type" in g.EdgeAttrs(e) ==> r == g.EdgeAttrs(e)["type"]
    ensures "type" !in g.EdgeAttrs(e) ==> r == DefaultRelation
  {
    if "type" in g.EdgeAttrs(e) then g.EdgeAttrs(e)["type"] else DefaultRelation
  }

  /** Each neighbour u of `node` paired with the label of the edge between them. */
  function LabelAll(g: Graph<string>, us: seq<string>, edgeOf: string -> Edge<string>): (r: seq<(string, string)>)
    ensures |r| == |us|
    ensures forall i :: 0 <= i < |us| ==> r[i] == (us[i], EdgeLabel(g, edgeOf(us[i])))
    ensures forall u, t :: (u, t) in r <==> u in us && t == EdgeLabel(g, edgeOf(u))
    ensures Distinct(us) ==> Distinct(r)
  {
    var r := seq(|us|, i requires 0 <= i < |us| => (us[i], EdgeLabel(g, edgeOf(us[i]))));
    assert forall u, t :: u in us && t == EdgeLabel(g, edgeOf(u)) ==> (u, t) in r by {
      forall u, t | u in us && t == EdgeLabel(g, edgeOf(u)) ensures (u, t) in r {
        var i :| 0 <= i < |us| && us[i] == u;
        assert r[i] == (u, t);
      }
    }
    r
  }

  /** The in- and out-neighbours of `node`, with edge types when `includeTypes` holds. */
  function GetNodeNeighbors(g: Graph<string>, node: string, includeTypes: bool): (r: Neighbors)
    requires g.Valid()
    ensures r.Labelled? <==> includeTypes
    ensures !g.HasNode(node) ==> r == if includeTypes then Labelled([], []) else Names([], [])
    ensures r.Names? ==>
              && (forall u :: u in r.inNames <==> (u, node) in g.edgeData)
              && (forall v :: v in r.outNames <==> (node, v) in g.edgeData)
              && Distinct(r.inNames) && Distinct(r.outNames)
    ensures r.Labelled? ==>
              && (forall u, t :: (u, t) in r.inPairs <==> (u, node) in g.edgeData && t == EdgeLabel(g, (u, node)))
              && (forall v, t :: (v, t) in r.outPairs <==> (node, v) in g.edgeData && t == EdgeLabel(g, (node, v)))
              && Distinct(r.inPairs) && Distinct(r.outPairs)
  {
    if !g.HasNode(node) then
      (if includeTypes then Labelled([], []) else Names([], []))
    else
      var ins, outs := g.Predecessors(node), g.Successors(node);
      if includeTypes then
        var inPairs := LabelAll(g, ins, u => (u, node));
        var outPairs := LabelAll(g, outs, v => (node, v));
        Labelled(inPairs, outPairs)
      else
        Names(ins, outs)
  }

  /**
   * In a graph built by the analyzer every edge carries a 'type', so the label of each
   * incoming and outgoing pair is the type of the last relationship with that pair and
   * the 'RELATED_TO' default never applies.
   */
  lemma AnalyzerLabelsAreRelationTypes(es: seq<NodeEntry>, rels: seq<Rel>, i: int)
    requires 0 <= i < |rels| && LastWithPair(rels, i)
    ensures EdgeLabel(Construct(es, rels, "type"), (rels[i].source, rels[i].target)) == rels[i].relType
  {
    ConstructEdgeAttributes(es, rels, "type");
  }

  // ----- get_shortest_paths: the guards -----

  /**
   * `get_shortest_paths(source, target)`. `allShortest` stands for networkx's
   * all_shortest_paths on this graph: the paths, or None when it raises NetworkXNoPath.
   */
  function GetShortestPaths(g: Graph<string>, source: string, target: string,
                            allShortest: (string, string) -> Option<seq<seq<string>>>): (r: seq<seq<string>>)
    ensures !g.HasNode(source) || !g.HasNode(target) ==> r == []
    ensures g.HasNode(source) && g.HasNode(target) ==>
              r == match allShortest(source, target) case Some(ps) => ps case None => []
  {
    if !g.HasNode(source) || !g.HasNode(target) then []
    else
      match allShortest(source, target)
      case Some(paths) => paths
      case None => []
  }

  // ----- find_communities -----

  /** The nodes of `partition` in community `c`, in iteration order. */
  function Members(partition: seq<(string, int)>, c: int): (r: seq<string>)
    ensures forall x :: x in r <==> (x, c) in partition
  {
    if partition == [] then []
    else
      var last := partition[|partition| - 1];
      var front := partition[..|partition| - 1];
      assert partition == front + [last];
      Members(front, c) + (if last.1 == c then [last.0] else [])
  }

  /** The community ids of `partition` in order of first appearance. */
  function CommunityIds(partition: seq<(string, int)>): (r: seq<int>)
    ensures forall c :: c in r <==> exists x :: (x, c) in partition
    ensures Distinct(r)
  {
    if partition == [] then []
    else
      var last := partition[|partition| - 1];
      var front := partition[..|partition| - 1];
      assert partition == front + [last];
      var ids := CommunityIds(front);
      if last.1 in ids then ids else ids + [last.1]
  }

  /** A sequence without elements is empty. */
  lemma NoElementsEmpty<T>(s: seq<T>)
    ensures (forall x :: x !in s) ==> s == []
  {
    if s != [] {
      assert s[0] in s;
    }
  }

  /**
   * The grouping loop of `find_communities` over Louvain's partition (node -> community
   * id, in dictionary order). The result dictionary is `order` with `communities`.
   */
  method GroupCommunities(partition: seq<(string, int)>) returns (order: seq<int>, communities: map<int, seq<string>>)
    ensures order == CommunityIds(partition)
    ensures forall c :: c in communities <==> c in order
    ensures forall c :: c in communities ==> communities[c] == Members(partition, c)
  {
    order, communities := [], map[];
    for i := 0 to |partition|
      invariant order == CommunityIds(partition[..i])
      invariant forall c :: c in communities <==> c in order
      invariant forall c :: c in communities ==> communities[c] == Members(partition[..i], c)
    {
      var (node, cid) := partition[i];
      assert partition[..i + 1][..i] == partition[..i] && partition[..i + 1][i] == partition[i];
      assert forall c :: Members(partition[..i + 1], c) == Members(partition[..i], c) + (if c == cid then [node] else []);
      if cid !in communities {
        NoElementsEmpty(Members(partition[..i], cid));
        communities := communities[cid := []];
        order := order + [cid];
      }
      communities := communities[cid := communities[cid] + [node]];
    }
    assert partition[..|partition|] == partition;
  }

  /**
   * When the partition lists every node once, every node is in exactly one group: the
   * one keyed by its community id.
   */
  lemma {:induction false} EachNodeInOneCommunity(partition: seq<(string, int)>)
    requires forall i, j :: 0 <= i < j < |partition| ==> partition[i].0 != partition[j].0
    ensures forall i, c :: 0 <= i < |partition| ==>
              (partition[i].0 in Members(partition, c) <==> c == partition[i].1)
  {
    forall i, c | 0 <= i < |partition|
      ensures partition[i].0 in Members(partition, c) <==> c == partition[i].1
    {
      if partition[i].0 in Members(partition, c) {
        var j :| 0 <= j < |partition| && partition[j] == (partition[i].0, c);
        assert i == j;
      }
    }
  }

  /**
   * `find_communities`. `louvain` is Louvain's partition, or None when the package
   * cannot be imported; `components` are networkx's weakly connected components.
   */
  method FindCommunities(louvain: Option<seq<(string, int)>>, components: seq<seq<string>>)
    returns (order: seq<int>, communities: map<int, seq<string>>)
    ensures louvain.Some? ==>
              && order == CommunityIds(louvain.value)
              && (forall c :: c in communities <==> c in order)
              && (forall c :: c in communities ==> communities[c] == Members(louvain.value, c))
    ensures louvain.None? ==>
              && |order| == |components|
              && (forall i :: 0 <= i < |order| ==> order[i] == i)
              && (forall c :: c in communities <==> 0 <= c < |components|)
              && (forall c :: 0 <= c < |components| ==> communities[c] == components[c])
  {
    if louvain.Some? {
      order, communities := GroupCommunities(louvain.value);
    } else {
      order := seq(|components|, i => i);
      communities := map i | 0 <= i < |components| :: components[i];
    }
  }
}
