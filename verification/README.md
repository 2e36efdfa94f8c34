# Knowledge-graph core of arthantar, in Dafny

arthantar translates English text into Indian languages. Before translating, it builds a
knowledge graph of the entities in the text: people, places and organisations, with their
types, genders and relationships. The graph arrives as a dictionary:
`{"nodes": [{"id", "type", "gender"}], "relationships": [{"source", "target", "type"}]}`.
This project models the three pieces of that pipeline that do exact, checkable work on the
dictionary:

- **The translator** (`utils/translator.py`) turns the graph into the metadata text
  `Knowledge Graph Structure: Nodes: … . Relationships: … .` and embeds it in the prompt
  of the enhanced translation. Both translation methods return an error string instead of
  raising. Module `Translator` models this as pure functions. The chat-completion service
  is a function parameter that returns the reply or the text of its exception. Module
  `MetadataCodec` is the partner of the metadata rendering: a reader for the metadata
  text, and the proof that reading back the text of plain fields gives the fields, in
  order.
- **The analyzer** (`utils/graph.py`, `KnowledgeGraphAnalyzer`) turns the dictionary
  into a networkx `DiGraph` and answers several queries: the node and edge counts, in- and
  out-neighbours with edge types, guarded shortest paths, and the grouping of a community
  partition. Module `KnowledgeGraph` models these.
  - The construction is an imperative method that fills a `DiGraph` object in two
    loops. It is proved equal to a functional specification (`Build`).
  - The lemmas about that specification state what the construction promises: every
    listed id and every relationship endpoint is a vertex, the last entry for an id wins,
    and there is one edge per ordered pair carrying the last type.
- **The visualizer** (`utils/visualizer.py`) builds the same graph, with the edge
  attribute `relationship` in place of `type`. It returns early when the focus entity
  is absent. Otherwise it expands a frontier `depth` times over predecessors and
  successors. Module `Visualizer` models the colour and marker tables, the graph
  construction and the two expansion loops. The loops are proved equal to `Ball`, and
  `Ball` is proved to be the set of vertices within `depth` undirected hops of the focus.

The networkx behaviour the code relies on is modelled in module `DiGraphs`:
- `add_node` merges attributes into a vertex's dictionary;
- `add_edge` inserts missing endpoints with empty dictionaries and merges the edge's
  attributes;
- `successors` and `predecessors` come in insertion order;
- `subgraph` induces the subgraph on a set of vertices;
- the counts are the numbers of distinct vertices and pairs.

Rows citing these below cite the calls in the repository's code; the contracts state
networkx's semantics.

Files:
- `wrappers.dfy`: `Option` and `Result`.
- `graph_dicts.dfy`: the dictionary shape, with an absent key as `None`; the text of a
  KeyError, which is Python's repr of the key; a loop that stops at the first KeyError.
- `digraphs.dfy`: the networkx directed graph, as a value and as a class.
- `knowledge_graph.dfy`: the analyzer.
- `visualizer.dfy`: the visualizer.
- `translator.dfy`: the translator.
- `metadata_codec.dfy`: the metadata reader.

## Model

| member | source | states |
|---|---|---|
| GraphDicts.ReadAll | utils/translator.py:36-39 | A loop over items that can raise a KeyError: it succeeds exactly when every item reads, and then yields the values in order, one per item |
| GraphDicts.ReadAllError | utils/translator.py:36-39 | A failed loop reports the error of the first item that fails, and every item before it reads |
| GraphDicts.ReadAllStops | utils/translator.py:36-39 | When the items before position i read and item i fails, the loop fails with item i's error |
| GraphDicts.Repr | utils/translator.py:66-67 | The text of a KeyError is the key between two equal quotes, the quote being the one `QuoteOf` chooses |
| GraphDicts.QuoteOf | utils/translator.py:66-67 | The key is put in double quotes exactly when it holds a single quote and no double quote; otherwise in single quotes |
| GraphDicts.EscapeChar | utils/translator.py:66-67 | A character is written as itself exactly when it is not a backslash, the chosen quote or an ASCII control character; otherwise it is written as an escape that starts with a backslash |
| GraphDicts.EscapeUnchanged | utils/translator.py:66-67 | A key with nothing to escape appears unchanged between the quotes |
| GraphDicts.EscapeMarks | utils/translator.py:66-67 | A key with a character to escape has a backslash between the quotes |
| GraphDicts.KeyErrorOfPlain | utils/translator.py:66-67 | A key without quotes, backslashes or control characters, such as 'gender', prints as itself in single quotes |
| GraphDicts.KeyErrorOfApostrophe | utils/visualizer.py:211 | A key with a single quote and no double quote, such as the gender it's, prints in double quotes with its single quotes unescaped |
| DiGraphs.Graph.AddNode | utils/graph.py:18-22 | `add_node`: the vertex set gains n; n's dictionary becomes its previous one (empty if new) merged with the given attributes, the given keys replacing old values; other vertices and all edges are unchanged; a new vertex is appended to the order; well-formedness is kept |
| DiGraphs.Graph.AddEdge | utils/graph.py:26-30 | `add_edge`: the vertex set gains u and v, and the edge set gains (u, v) |
| DiGraphs.Graph.AddEdgeData | utils/graph.py:26-30 | `add_edge` keeps old vertex dictionaries and gives new endpoints an empty dictionary; the pair's dictionary is its previous one merged with the attributes; other edges are unchanged |
| DiGraphs.Graph.AddEdgeKeepsValid | utils/graph.py:26-30 | `add_edge` keeps the graph well formed: no repeated vertex or pair, and both endpoints of every edge are vertices |
| DiGraphs.Graph.Successors | utils/graph.py:138 | `successors(n)`: exactly the v with an edge n -> v, each once |
| DiGraphs.Graph.Predecessors | utils/graph.py:137 | `predecessors(n)`: exactly the u with an edge u -> n, each once |
| DiGraphs.Graph.Subgraph | utils/visualizer.py:184 | `subgraph(S)`: the vertices in S with their dictionaries, and exactly the edges with both endpoints in S, with theirs |
| DiGraphs.Graph.SubgraphKeepsValid | utils/visualizer.py:184 | The subgraph of a well-formed graph is well formed |
| DiGraphs.Graph.NodeCount | utils/graph.py:37 | `len(G.nodes())` is the number of distinct vertices |
| DiGraphs.Graph.EdgeCount | utils/graph.py:38 | `len(G.edges())` is the number of distinct ordered pairs |
| DiGraphs.Empty | utils/graph.py:14 | A new DiGraph is well formed and has no vertices and no edges |
| DiGraphs.DiGraph.constructor | utils/graph.py:14 | The object starts as the empty graph |
| DiGraphs.DiGraph.AddNode | utils/graph.py:18-22 | The object's new state is `Graph.AddNode` of its old state, and a well-formed object stays well formed |
| DiGraphs.DiGraph.EnsureNode | utils/graph.py:26-30 | The endpoint step of `add_edge`: the new state is `Graph.EnsureNode` of the old state, and a well-formed object stays well formed |
| DiGraphs.DiGraph.MergeEdge | utils/graph.py:26-30 | The edge step of `add_edge`: the new state is `Graph.MergeEdge` of the old state, and an object that was well formed with both endpoints present stays well formed |
| DiGraphs.DiGraph.AddEdge | utils/graph.py:26-30 | The object's new state is `Graph.AddEdge` of its old state, and a well-formed object stays well formed |
| KnowledgeGraph.ReadNode | utils/graph.py:19-21 | A node entry reads exactly when it has an id (otherwise KeyError 'id'); a missing type becomes 'Entity' and a missing gender 'unknown' |
| KnowledgeGraph.ReadRel | utils/graph.py:27-29 | A relationship reads exactly when source, target and type are present; the first absent key, in that order, is the KeyError |
| KnowledgeGraph.NodeAttributes | utils/graph.py:18-22 | `add_node` receives exactly the keys type and gender, with the entry's values; `ConstructNodeAttributes` states what the graph then holds |
| KnowledgeGraph.Build | utils/graph.py:12-32 | Without 'nodes' the construction raises KeyError 'nodes' before anything else; a node's KeyError is raised before 'relationships' is looked up; once the nodes are read, an absent 'relationships' raises KeyError 'relationships' and an incomplete relationship raises the KeyError of the first one (`ReadAllError`); `BuildOk` and `BuildValid` state when it succeeds and what it builds |
| KnowledgeGraph.BuildOk | utils/graph.py:12-32 | The construction succeeds exactly when 'nodes' and 'relationships' are present, every node has an id and every relationship is complete; it then builds the node loop and then the edge loop over the entries read |
| KnowledgeGraph.BuildValid | utils/graph.py:12-32 | A constructed graph is well formed |
| KnowledgeGraph.CreateNetworkxGraph | utils/graph.py:12-32 | The two loops over a fresh DiGraph end in the graph `Build` describes, or return the same KeyError |
| KnowledgeGraph.AddNodesShape | utils/graph.py:17-22 | The node loop adds exactly the listed ids as vertices, leaves the edges alone and keeps the graph well formed |
| KnowledgeGraph.AddNodesUnlisted | utils/graph.py:17-22 | The node loop leaves the dictionary of every vertex it does not list unchanged |
| KnowledgeGraph.AddNodesAttributes | utils/graph.py:17-22 | After the node loop, a listed id carries the type and gender of the last entry with that id |
| KnowledgeGraph.AddEdgesNodeKeys | utils/graph.py:25-30 | The edge loop adds exactly the relationship endpoints as vertices |
| KnowledgeGraph.AddEdgesEdgeKeys | utils/graph.py:25-30 | The edge loop adds exactly the named (source, target) pairs as edges |
| KnowledgeGraph.AddEdgesValid | utils/graph.py:25-30 | The edge loop keeps the graph well formed |
| KnowledgeGraph.AddEdgesNodeData | utils/graph.py:25-30 | The edge loop keeps every vertex dictionary; an endpoint it inserts has an empty dictionary |
| KnowledgeGraph.AddEdgesUnlisted | utils/graph.py:25-30 | The edge loop leaves the dictionary of every pair it does not name unchanged |
| KnowledgeGraph.AddEdgesKeysWithin | utils/graph.py:25-30 | The edge loop stores no edge attribute other than the type key |
| KnowledgeGraph.AddEdgesAttributes | utils/graph.py:25-30 | After the edge loop, a named pair carries exactly the type of the last relationship with that pair |
| KnowledgeGraph.ConstructShape | utils/graph.py:12-32 | The graph's vertices are exactly the listed ids plus the relationship endpoints, and its edges exactly the named pairs, one per ordered pair |
| KnowledgeGraph.ConstructNodeAttributes | utils/graph.py:17-30 | A listed id carries the type and gender of its last entry; an endpoint that is never listed has no attributes |
| KnowledgeGraph.ConstructEdgeAttributes | utils/graph.py:25-30 | Each edge carries exactly the type of the last relationship with its pair |
| KnowledgeGraph.GraphCounts | utils/graph.py:37-38 | `node_count` and `edge_count` are the numbers of distinct vertices and of distinct ordered pairs |
| KnowledgeGraph.ConstructCounts | utils/graph.py:37-38 | For a constructed graph the counts are the size of (listed ids plus endpoints) and the number of distinct (source, target) pairs |
| KnowledgeGraph.EdgeLabel | utils/graph.py:141-144 | An edge's label is its 'type' when it has one, and exactly 'RELATED_TO' when it has none; `AnalyzerLabelsAreRelationTypes` shows the default never applies on a graph the analyzer built |
| KnowledgeGraph.LabelAll | utils/graph.py:141-144 | Each neighbour is paired with its edge's 'type', or 'RELATED_TO' when the edge has none, in order and without repeats |
| KnowledgeGraph.GetNodeNeighbors | utils/graph.py:132-153 | An unknown node gets empty 'in' and 'out' lists; otherwise 'in' holds exactly the u with u -> node and 'out' exactly the v with node -> v, each once, paired with the edge label when types are requested |
| KnowledgeGraph.AnalyzerLabelsAreRelationTypes | utils/graph.py:141-144 | On a graph the analyzer built, the label of an edge is the type of the last relationship with that pair, never the default |
| KnowledgeGraph.GetShortestPaths | utils/graph.py:121-130 | An absent source or target gives []; otherwise the result is networkx's paths, or [] when no path exists |
| KnowledgeGraph.Members | utils/graph.py:106-111 | The nodes grouped under a community id are exactly the partition's nodes with that id |
| KnowledgeGraph.CommunityIds | utils/graph.py:106-111 | The dictionary's keys are exactly the community ids that occur, each once, in order of first appearance |
| KnowledgeGraph.GroupCommunities | utils/graph.py:106-113 | The grouping loop returns one list per community id that occurs, with the id's nodes in partition order |
| KnowledgeGraph.EachNodeInOneCommunity | utils/graph.py:106-111 | When the partition names each node once, each node is in exactly one list: the one keyed by its own community id |
| KnowledgeGraph.FindCommunities | utils/graph.py:95-119 | With Louvain's partition: the grouping; without the package: the components keyed 0, 1, 2, … in order |
| Visualizer.ColourTables | utils/visualizer.py:10-34 | The gender table lists male, female and unknown, with three different colours; the marker and colour tables list the same types; Person and PERSON, Location and GPE, Organization and ORG share a marker, and the four kinds have four different markers |
| Visualizer.MarkerFor | utils/visualizer.py:214 | A listed type gets its table marker; any other type gets 'o'; markers are only 'o', 's', '^' and 'D' |
| Visualizer.NodeColor | utils/visualizer.py:10-14 | A node's colour is found exactly when its gender is male, female or unknown, and it is that gender's entry in the colour table; otherwise the KeyError text is the repr of 'gender' or of the unlisted gender |
| Visualizer.ListedNodeColor | utils/visualizer.py:146-152 | A listed node without a gender is drawn light gray; one with an unlisted gender raises the KeyError whose text is the repr of that gender |
| Visualizer.Adj | utils/visualizer.py:177-179 | The vertices one edge away, in either direction, from some vertex of the set |
| Visualizer.Frontier | utils/visualizer.py:180-181 | Each new frontier is disjoint from the nodes collected before it, and adding it gives the next collected set |
| Visualizer.BallMonotone | utils/visualizer.py:175-181 | The set collected for depth j is a subset of the set for any depth k >= j |
| Visualizer.FocusCollected | utils/visualizer.py:172-175 | The focus is always collected, and with depth 0 the set is exactly {focus} |
| Visualizer.BallInVertices | utils/visualizer.py:172-181 | For a focus that is a vertex, every collected node is a vertex of the graph |
| Visualizer.BallIsReach | utils/visualizer.py:175-181 | After k rounds the set is exactly the vertices reachable from the focus by a walk of at most k undirected hops |
| Visualizer.AdjUnion | utils/visualizer.py:177-179 | The neighbours of a union are the union of the neighbours |
| Visualizer.FrontierSuffices | utils/visualizer.py:176-181 | Expanding only the frontier adds exactly what expanding every collected node would add |
| Visualizer.AdjSingle | utils/visualizer.py:178-179 | The neighbours of one node are its predecessors and its successors |
| Visualizer.NeighboursOf | utils/visualizer.py:176-179 | The inner loop collects exactly the neighbours, in either direction, of the current frontier |
| Visualizer.ExpandNeighbourhood | utils/visualizer.py:163-181 | Run only for a focus that is a vertex: after `depth` rounds (none for a negative depth) the collected set is the set `Ball` describes for that depth, holds the focus and holds only vertices |
| Visualizer.CreateSubgraph | utils/visualizer.py:140-184 | A KeyError of the construction propagates; an absent focus gives the "Entity '…' not found in graph" text; otherwise the collected set and the subgraph it induces |
| Visualizer.SubgraphVertices | utils/visualizer.py:172-184 | For a focus that is a vertex, the drawn subgraph's vertices are exactly the collected set, which holds the focus and only vertices of the graph |
| Translator.ReadNodeFields | utils/translator.py:37 | A node renders exactly when id, type and gender are present; the first absent key, in that order, is the KeyError |
| Translator.ReadRelFields | utils/translator.py:43 | A relationship renders exactly when source, type and target are present; the first absent key, in that order, is the KeyError |
| Translator.RenderNode | utils/translator.py:37 | A node's text begins with its id and ends with its gender and ')'; `MetadataCodec.NodeAtRender` reads it back |
| Translator.RenderRel | utils/translator.py:43 | A relationship's text begins with its source and ends with its target; `MetadataCodec.RelAtRender` reads it back |
| Translator.Join | utils/translator.py:36-45 | `', '.join`: no parts give the empty string and one part gives that part; `MetadataCodec.NodesRender` and `RelsRender` read a joined list back |
| Translator.ListOrEmpty | utils/translator.py:32-33 | An absent list reads as the empty list, a present one as itself; `AbsentListsAreEmpty` states the effect on the metadata |
| Translator.MetadataText | utils/translator.py:48 | The metadata begins with the heading 'Knowledge Graph Structure: Nodes: ' and ends with a full stop; `MetadataCodec.MetadataRoundTrip` reads both lists back |
| Translator.Metadata | utils/translator.py:32-48 | The metadata renders exactly when every node and every relationship has all three of its keys |
| Translator.StandardContent | utils/translator.py:19 | The standard prompt ends with the text; `StandardContentLayout` places the target language |
| Translator.EnhancedContent | utils/translator.py:53-56 | The enhanced prompt ends with "Meta data: ", the metadata and a space; `EnhancedContentLayout` places the language and the text |
| Translator.StandardTranslation | utils/translator.py:12-26 | The standard translation never raises: it is the service's reply to one user message holding the standard prompt, or "Translation error: " and the service's error |
| Translator.EnhancedTranslation | utils/translator.py:28-67 | The enhanced translation never raises: a metadata KeyError gives "Enhanced translation error: " and its text; otherwise the service's reply to one user message holding the enhanced prompt, or the same prefix and the service's error |
| Translator.TranslationsAskOnce | utils/translator.py:12-67 | Two services that answer the one message the same way give the same translation; with unrenderable metadata the service makes no difference |
| Translator.MissingGenderMessage | utils/translator.py:36-39 | When the first incomplete node has an id and a type but no gender, the result is "Enhanced translation error: 'gender'" |
| Translator.MetadataErrorIsFirstMissingKey | utils/translator.py:32-48 | The metadata error is the KeyError of the first incomplete node or, when every node is complete, of the first incomplete relationship |
| Translator.AbsentListsAreEmpty | utils/translator.py:32-33 | A graph without 'nodes' or 'relationships' renders as if that list were empty; with neither, the metadata has empty lists between the fixed headings |
| Translator.EnhancedContentLayout | utils/translator.py:51-57 | The prompt names the target language first, then holds the text, and ends with "Meta data: ", the metadata and a space |
| Translator.StandardContentLayout | utils/translator.py:19 | The standard prompt names the target language first and ends with the text |
| MetadataCodec.NodeAtRender | utils/translator.py:37 | The rendering of a node with plain fields reads back as that node, and the reader stops right after it |
| MetadataCodec.RelAtRender | utils/translator.py:43 | The rendering of a relationship with plain fields reads back as that relationship, and the reader stops right after it |
| MetadataCodec.NodesRender | utils/translator.py:36-39 | Reading back the joined node renderings gives the nodes, in order |
| MetadataCodec.RelsRender | utils/translator.py:42-45 | Reading back the joined relationship renderings gives the relationships, in order |
| MetadataCodec.MetadataRoundTrip | utils/translator.py:48 | Reading back the metadata text of plain fields gives the node list and the relationship list, in order |
| MetadataCodec.MetadataKeepsEverything | utils/translator.py:32-48 | The metadata of a graph with plain values lists every node and every relationship, in order, with the values the rendering read |

## Left out

- The chat-completion service (the Groq client, `utils/translator.py:10, 15-24, 60-65`) is network I/O. It is the parameter `complete`, which returns the reply or the text of any exception it raised. The model choice and the client setup are not modelled.
- All drawing, layout and image export in `utils/visualizer.py` (`create_visualization_figure`, `get_image_bytes` and the drawing half of `create_subgraph_visualization`, including its title) is rendering and I/O. Only the colour and marker tables are modelled, and the colour lookup a drawn node makes.
- `TypeColors` is declared with its values, and only its keys are related to the marker table: the fill colour of drawn nodes comes from the gender table.
- Density, weak connectivity, diameter, clustering and the centrality measures (`utils/graph.py:39-93`) are floating-point networkx algorithms and are not modelled.
- Louvain community detection and networkx's weakly connected components are foreign code. Their results are inputs of `FindCommunities`. The `print` on the fallback path is console output and is not modelled.
- networkx's `all_shortest_paths` is foreign code. It is the parameter `allShortest` of `GetShortestPaths`; only the guards around it are modelled.
- `export_to_json` and `export_to_csv` are thin wrappers over `json` and `pandas` and are not modelled.
- `app.py`, the Streamlit pages and the graph generator `app.py` imports (entity extraction and gender inference) are not part of this model.
- The analyzer keeps its graph in the field `self.G`. Its queries here take that graph as a parameter instead of being methods of an analyzer object.
- Dictionary values are modelled as strings. A key that is present with a non-string value (a number or None) is outside the model; an absent key is modelled exactly.
- Default arguments are not modelled as defaults: the target language (`"Hindi"` in `utils/translator.py:12, 28`), `include_types` (`True` in `utils/graph.py:132`) and `depth` (`1` in `utils/visualizer.py:141`) are ordinary parameters that every caller passes.
- GraphDicts.EscapeChar: non-ASCII characters that Python does not consider printable are written unchanged; Python writes them as `\x`, `\u` or `\U` escapes. The printable test is Unicode data and is not modelled.
- KnowledgeGraph.GetNodeNeighbors: the contract states which neighbours are listed and that none repeats, not their order. The definition takes them in edge-insertion order, as networkx does.
- MetadataCodec.MetadataRoundTrip: the round trip is proved only for fields without the characters `, . ( ) [ ]`. Fields that contain them make the metadata text ambiguous, and the service reads such text as it is.
