# Weighted directed graphs and the graph poet, in Dafny

This project models the core of an MIT 6.005 problem set (problem set 2)
written in Java. The core has three parts.

- **A mutable weighted directed graph with labelled vertices**, in two
  representations:
  - `ConcreteVerticesGraph` keeps a list of mutable `Vertex` records. Each
    record holds a name and an outgoing `target -> weight` map.
  - `ConcreteEdgesGraph` keeps a vertex set and a list of immutable
    `Edge(source, target, weight)` records.
- **The construction of a word affinity graph** from a corpus. The words are
  lower-cased, and the weight of `w1 -> w2` is the number of times `w1` is
  immediately followed by `w2`.
- **`GraphPoet.poem`**, which inserts between each pair of adjacent input
  words the bridge word `b` with the heaviest two-edge path `w1 -> b -> w2`.

Layout, one module per component:

- `graphs.dfy` (module `Graphs`): the abstract value of a graph,
  `Graph(vertices: set<L>, edges: map<(L, L), int>)`. It defines the shared
  invariant `Valid`: every weight is positive and every endpoint is a
  vertex. It also defines the specification of every operation (`Add`,
  `SetEdge`, `Previous`, `Remove`, `Targets`, `Sources`, `Weight`) and the
  lemmas that relate them.
- `vertices_graph.dfy` (module `VerticesGraph`): the classes `Vertex` and
  `ConcreteVerticesGraph`. The list of records is a `seq<Vertex<L>>`. Its
  value view is a `seq<Row<L>>`, and `RowsModel` abstracts that view to a
  `Graphs.Graph`.
- `edges_graph.dfy` (module `EdgesGraph`): the datatype `Edge`, whose weight
  has the subset type `Positive`, and the class `ConcreteEdgesGraph`. The edge
  list is a `seq<Edge<L>>`, and `EdgeMap` abstracts it to a weight map.
- `text.dfy` (module `Text`): the string operations the poet uses. These are
  ASCII lower-casing, `split(" ")` with the empty pieces removed, joining
  with single spaces, and `List.indexOf`.
- `poet.dfy` (module `Poet`): the affinity graph `Affinity`, defined by
  counting adjacencies, and the bridge-choice specification `BestBridge`. It
  also holds the output assembly (`Piece`, `Render`) and the class
  `GraphPoet`, with its constructor loop and `Poem`.
- `poet_examples.dfy` (module `PoetExamples`): the documented examples, the
  "Hello, HELLO, hello, goodbye!" graph and the Mugar poem, proved on the
  model.
- `graph_examples.dfy` (module `GraphExamples`): call sequences of the graph
  test suite, made on one fresh object of each class.

Each mutating method of both graph classes keeps its class's `Valid()` and
states its effect as a function of the abstract value before the call:
`Model() == SetEdge(old(Model()), source, target, weight)`, and the result
is `Previous(old(Model()), …)`. The mutating methods of
`ConcreteVerticesGraph` also state their frame: after the call, each record
in the list was there before or is newly allocated. A client can therefore
make one mutating call after another on the same object. The two classes
implement the same contract. In `graph_examples.dfy` the same call sequences
are made on one fresh object of each class, and their results and final
models are proved.

Behaviours of the Java code that the model keeps as written:

- **Negative weights.** `ConcreteVerticesGraph.set` returns 0 and changes
  nothing. `ConcreteEdgesGraph.set` would build an `Edge` of non-positive
  weight and fail its assertion, so its `Set` requires `weight >= 0`.
  Neither class signals an error for a negative weight.
- **Splitting the input.** `poem` splits on the space character only. Tabs
  and newlines stay inside words.
- **The first-word test.** `poem` tests for the first word with
  `indexOf(currentWord) == 0`. So any later word that is string-equal to the
  first word is also appended as it is, with no space and no bridge
  (`RepeatedFirstWord`).
- **The graph inside the poet.** `GraphPoet` takes its graph from
  `Graph.empty()`, which is not part of this model. The model gives the poet a
  `ConcreteEdgesGraph<string>`.

## Model

| member | source | states |
|---|---|---|
| Graphs.Add | src/graph/ConcreteEdgesGraph.java:66-75 | `add(v)`: the vertices are the old ones plus v and no other, the edges are unchanged, and the graph invariant is kept |
| Graphs.SetEdge | src/graph/ConcreteVerticesGraph.java:58-87 | `set`: a positive weight writes the edge and adds both endpoints; weight 0 deletes the edge and keeps the vertices; a negative weight changes nothing (the vertex-list class's behaviour; the edge-list class admits no negative weight); every other pair keeps its edge and weight; the invariant is kept |
| Graphs.Previous | src/graph/ConcreteVerticesGraph.java:58-87 | `set` returns the edge's previous weight (0 when absent), and 0 for a negative weight |
| Graphs.Remove | src/graph/ConcreteEdgesGraph.java:141-153 | `remove(v)`: v stops being a vertex; no remaining edge touches v; every edge not touching v is kept with its weight, and no edge is added |
| Graphs.Targets | src/graph/ConcreteEdgesGraph.java:204-214 | `targets(s)` maps exactly the t with an edge s -> t, to that edge's weight (empty when s has none) |
| Graphs.Sources | src/graph/ConcreteEdgesGraph.java:192-202 | `sources(t)` maps exactly the s with an edge s -> t, to that edge's weight (empty when t is absent) |
| Graphs.Weight | src/graph/ConcreteVerticesGraph.java:66-68 | an edge's weight, 0 when absent; in a valid graph, positive exactly when the edge exists |
| Graphs.TargetsAfterSet | src/graph/ConcreteVerticesGraph.java:64-83 | after `set(s,t,w)`, only s's outgoing map changes: t gets w when w > 0 and is dropped when w = 0 |
| Graphs.TargetsAfterRemove | src/graph/ConcreteVerticesGraph.java:93-102 | after `remove(v)`, v has no targets and no other vertex keeps v as a target |
| Graphs.TargetsAfterWrite | src/graph/ConcreteEdgesGraph.java:205-213 | writing one pair's weight changes the targets of that pair's source only, at one key |
| Graphs.SourcesAfterWrite | src/graph/ConcreteEdgesGraph.java:193-201 | writing one pair's weight changes the sources of that pair's target only, at one key |
| Graphs.RemoveAfterWrite | src/graph/ConcreteEdgesGraph.java:146-148 | removing v commutes with writing a pair that does not touch v, and erases a pair that does |
| Graphs.EqualByTargets | src/graph/ConcreteVerticesGraph.java:132-141 | two graphs with the same vertices and the same `targets` of every label are equal |
| Graphs.AddThenSet | src/graph/ConcreteVerticesGraph.java:61-63 | adding both endpoints before writing a positive weight changes neither the result nor the returned weight |
| Graphs.RemoveAbsent | src/graph/ConcreteEdgesGraph.java:143-152 | removing a non-vertex from a valid graph changes nothing |
| Graphs.ClearAbsent | src/graph/ConcreteEdgesGraph.java:87-90 | `set(s,t,0)` on an absent edge returns 0 and changes nothing |
| Graphs.SetTwice | src/graph/ConcreteVerticesGraph.java:59-87 | repeating `set(s,t,w)` returns w and leaves the graph as the first call did |
| Graphs.SetThenClear | src/graph/ConcreteEdgesGraph.java:79-86 | `set(s,t,w>0)` and then `set(s,t,0)` returns w, removes exactly that edge, and t is no longer a target of s |
| Graphs.SetSequence | test/graph/GraphStaticTest.java:61-66 | `set(1,2,3)`, `set(1,2,4)`, `set(1,2,0)`, `set(1,2,0)` return 0, 3, 4, 0 |
| Graphs.SelfLoop | test/graph/GraphInstanceTest.java:157-166 | a self-loop `a -> a` of weight 3 is both `targets(a)` and `sources(a)`, and a is the only vertex |
| Graphs.EmptyQueries | test/graph/GraphInstanceTest.java:243-249 | the empty graph is valid, and its `sources` and `targets` are empty |
| Graphs.RemoveMiddle | test/graph/GraphInstanceTest.java:200-226 | removing v2 from v1 -> v2 -> v3 leaves v1 with no targets and v3 with no sources |
| VerticesGraph.Vertex.constructor | src/graph/ConcreteVerticesGraph.java:192-195 | a new record has the given name and no targets |
| VerticesGraph.Vertex.AreWeightsPositive | src/graph/ConcreteVerticesGraph.java:206-213 | true iff no stored weight is negative |
| VerticesGraph.Vertex.SetTarget | src/graph/ConcreteVerticesGraph.java:220-240 | weight 0 removes the target; a positive weight inserts or replaces it; stored weights stay positive |
| VerticesGraph.Vertex.GetTargetsMap | src/graph/ConcreteVerticesGraph.java:263-265 | a copy of the outgoing map, every weight in it positive |
| VerticesGraph.Vertex.GetWeight | src/graph/ConcreteVerticesGraph.java:272-274 | the weight stored for a present target, which is positive |
| VerticesGraph.Vertex.GetTargets | src/graph/ConcreteVerticesGraph.java:254-256 | exactly the targeted labels |
| VerticesGraph.Vertex.IsVertexInTargets | src/graph/ConcreteVerticesGraph.java:281-289 | true iff the label is a target |
| VerticesGraph.ConcreteVerticesGraph.constructor | src/graph/ConcreteVerticesGraph.java:16 | an empty list denotes the empty graph |
| VerticesGraph.ConcreteVerticesGraph.HasVertex | src/graph/ConcreteVerticesGraph.java:148-155 | true iff some record has the name, that is, iff it is a vertex |
| VerticesGraph.ConcreteVerticesGraph.IsVerticesNotDuplicate | src/graph/ConcreteVerticesGraph.java:34-45 | true iff no two records have the same name |
| VerticesGraph.ConcreteVerticesGraph.Add | src/graph/ConcreteVerticesGraph.java:47-56 | returns true iff the name was absent; then a record with no targets is appended; the model is `Add`; names stay distinct; every record was there before or is new |
| VerticesGraph.ConcreteVerticesGraph.Set | src/graph/ConcreteVerticesGraph.java:58-87 | returns `Previous` and leaves `SetEdge` of the old model, negative weights included; the invariant is kept; every record was there before or is new |
| VerticesGraph.ConcreteVerticesGraph.WriteEdge | src/graph/ConcreteVerticesGraph.java:61-73 | the `weight > 0` branch: returns the old weight and writes the edge, adding missing endpoints; every record was there before or is new |
| VerticesGraph.ConcreteVerticesGraph.WriteExisting | src/graph/ConcreteVerticesGraph.java:63-71 | the loop of that branch once both endpoints are records: returns the source's old weight for the target (0 when absent) and writes the edge, keeping the same list of records |
| VerticesGraph.ConcreteVerticesGraph.FindRecord | src/graph/ConcreteVerticesGraph.java:63-64 | the search for the source's record finds a position holding that name |
| VerticesGraph.ConcreteVerticesGraph.ClearEdge | src/graph/ConcreteVerticesGraph.java:74-86 | the `weight == 0` branch: returns the old weight (0 when absent) and deletes the edge |
| VerticesGraph.ConcreteVerticesGraph.WriteRecord | src/graph/ConcreteVerticesGraph.java:69 | `setTarget` on the source's record is `SetEdge` on the model, because distinct names make distinct records |
| VerticesGraph.ConcreteVerticesGraph.Remove | src/graph/ConcreteVerticesGraph.java:89-107 | returns whether v was a vertex; the model is `Remove`; no remaining record lists v as a target; every remaining record was there before |
| VerticesGraph.ConcreteVerticesGraph.Scan | src/graph/ConcreteVerticesGraph.java:94-101 | the loop of `remove` drops v from every record's map and finds v's position |
| VerticesGraph.ConcreteVerticesGraph.DropTarget | src/graph/ConcreteVerticesGraph.java:98-100 | one step of that loop: only record i changes, and only by losing v |
| VerticesGraph.ConcreteVerticesGraph.Vertices | src/graph/ConcreteVerticesGraph.java:109-117 | the set of record names is the model's vertex set |
| VerticesGraph.ConcreteVerticesGraph.Sources | src/graph/ConcreteVerticesGraph.java:119-129 | the scan equals `Graphs.Sources` of the model |
| VerticesGraph.ConcreteVerticesGraph.Targets | src/graph/ConcreteVerticesGraph.java:131-141 | the scan equals `Graphs.Targets` of the model: a copy of the record's map, or empty |
| VerticesGraph.RowsModelValid | src/graph/ConcreteVerticesGraph.java:18-23 | valid records denote a valid graph |
| VerticesGraph.AddRow | src/graph/ConcreteVerticesGraph.java:50-52 | appending a fresh record keeps the records valid and denotes `Add` |
| VerticesGraph.WriteRow | src/graph/ConcreteVerticesGraph.java:64-72 | writing into a record keeps the records valid and denotes `SetEdge` |
| VerticesGraph.RemoveRowModel | src/graph/ConcreteVerticesGraph.java:93-103 | stripping v from every map and deleting v's record denotes `Remove` |
| VerticesGraph.RemoveRowValid | src/graph/ConcreteVerticesGraph.java:93-103 | and keeps the records valid |
| VerticesGraph.SourcesOfModel | src/graph/ConcreteVerticesGraph.java:122-126 | what the `sources` scan accumulates equals the abstract sources |
| VerticesGraph.RowsTargets | src/graph/ConcreteVerticesGraph.java:134-138 | the last record with the name holds the abstract targets |
| EdgesGraph.ConcreteEdgesGraph.constructor | src/graph/ConcreteEdgesGraph.java:20-21 | an empty set and list denote the empty graph |
| EdgesGraph.ConcreteEdgesGraph.Add | src/graph/ConcreteEdgesGraph.java:66-75 | returns true iff the vertex was absent; the model is `Add`; the edges are unchanged |
| EdgesGraph.ConcreteEdgesGraph.Set | src/graph/ConcreteEdgesGraph.java:77-109 | returns `Previous` and leaves `SetEdge` of the old model; a written edge ends the list; clearing an absent edge leaves the list alone; the list stays duplicate-free |
| EdgesGraph.ConcreteEdgesGraph.AppendEdge | src/graph/ConcreteEdgesGraph.java:97-104 | `edges.add(new Edge(...))` for a pair not yet in the list: the edge ends the list and the model gains exactly that pair with its weight |
| EdgesGraph.ConcreteEdgesGraph.DropEdge | src/graph/ConcreteEdgesGraph.java:83 | `edges.remove(edge)` deletes exactly that pair from the model |
| EdgesGraph.ConcreteEdgesGraph.IsEdgeInGraph | src/graph/ConcreteEdgesGraph.java:117-124 | true iff the pair is an edge of the model |
| EdgesGraph.ConcreteEdgesGraph.FindEdge | src/graph/ConcreteEdgesGraph.java:132-139 | for a present pair, the list's edge for it, carrying the model's weight |
| EdgesGraph.ConcreteEdgesGraph.Remove | src/graph/ConcreteEdgesGraph.java:141-153 | returns whether v was a vertex; the model is `Remove`; exactly the edges not touching v stay in the list |
| EdgesGraph.RemoveIncidentEdges | src/graph/ConcreteEdgesGraph.java:141-153 | removing the edges found by source and by target leaves a duplicate-free list on the remaining vertices whose weight map is that of `Remove`, holding exactly the edges touching neither endpoint |
| EdgesGraph.RemoveNonVertex | src/graph/ConcreteEdgesGraph.java:141-153 | removing a label that is not a vertex changes nothing, since no edge touches it |
| EdgesGraph.ConcreteEdgesGraph.FindEdgesBySource | src/graph/ConcreteEdgesGraph.java:161-169 | the edges with that source, in list order |
| EdgesGraph.ConcreteEdgesGraph.FindEdgesByTarget | src/graph/ConcreteEdgesGraph.java:176-184 | the edges with that target, in list order |
| EdgesGraph.ConcreteEdgesGraph.Vertices | src/graph/ConcreteEdgesGraph.java:186-190 | a snapshot of the vertex set |
| EdgesGraph.ConcreteEdgesGraph.Sources | src/graph/ConcreteEdgesGraph.java:192-202 | the edge list filtered on target and keyed by source equals `Graphs.Sources` of the model |
| EdgesGraph.ConcreteEdgesGraph.Targets | src/graph/ConcreteEdgesGraph.java:204-214 | the edge list filtered on source and keyed by target equals `Graphs.Targets` of the model |
| EdgesGraph.ConcreteEdgesGraph.IsEdgeNotDuplicate | src/graph/ConcreteEdgesGraph.java:41-53 | true iff no two positions hold the same (source, target) pair |
| EdgesGraph.BySource | src/graph/ConcreteEdgesGraph.java:161-169 | an edge is kept iff it is in the list and has that source |
| EdgesGraph.ByTarget | src/graph/ConcreteEdgesGraph.java:176-184 | an edge is kept iff it is in the list and has that target |
| EdgesGraph.RemoveAll | src/graph/ConcreteEdgesGraph.java:148 | `removeAll`: an element stays iff it is not in the removal list |
| EdgesGraph.RemoveFirst | src/graph/ConcreteEdgesGraph.java:83 | `remove(edge)` on a list without the edge leaves the list unchanged |
| EdgesGraph.RemoveFirstAt | src/graph/ConcreteEdgesGraph.java:83 | `remove(edge)` deletes the first position holding the edge |
| EdgesGraph.EdgeMapAt | src/graph/ConcreteEdgesGraph.java:23-26 | in a duplicate-free list, each edge's weight is the model's weight of its pair |
| EdgesGraph.AppendFresh | src/graph/ConcreteEdgesGraph.java:93-106 | appending an edge with a new pair keeps the list duplicate-free and writes exactly that pair |
| EdgesGraph.EdgeMapRemoveAt | src/graph/ConcreteEdgesGraph.java:83-96 | deleting one edge of a duplicate-free list deletes its pair from the model |
| EdgesGraph.NoDuplicatesRemoveAll | src/graph/ConcreteEdgesGraph.java:148 | `removeAll` keeps the list duplicate-free |
| EdgesGraph.RemoveIncident | src/graph/ConcreteEdgesGraph.java:146-148 | removing exactly the incident edges yields the edges of `Graphs.Remove` |
| Text.Lower | src/poet/GraphPoet.java:84 | `toLowerCase` (ASCII): same length, each character lower-cased |
| Text.LowerIdempotent | src/poet/GraphPoet.java:132-133 | lower-casing twice is lower-casing once |
| Text.Words | src/poet/GraphPoet.java:120-121 | the pieces of `split(" ")` without the empty ones: each is non-empty and space-free |
| Text.WordsOfJoin | src/poet/GraphPoet.java:120-121 | splitting words joined by single spaces gives back the words |
| Text.WordsKeep | src/poet/GraphPoet.java:120-121 | laid end to end, the pieces are the input without its spaces |
| Text.WordsOfSpace | src/poet/GraphPoet.java:120-121 | a space separates: the pieces of `a + " " + b` are those of a followed by those of b |
| Text.WordsOfBlank | src/poet/GraphPoet.java:120-121 | an input of spaces only has no pieces |
| Text.JoinSnoc | src/poet/GraphPoet.java:159 | joining one more word appends one space and the word |
| Text.IndexOf | src/poet/GraphPoet.java:127 | `indexOf`: the first position of the word, or -1 exactly when it is absent |
| Poet.AffinityWeight | src/poet/GraphPoet.java:18-25 | the weight of a -> b is the number of adjacent occurrences of a and b; the edge exists iff that count is positive; the affinity graph is valid |
| Poet.AffinityStep | src/poet/GraphPoet.java:89-99 | reading one more word adds it as a vertex and raises the weight of previous -> word by one |
| Poet.AffinityNext | src/poet/GraphPoet.java:89-99 | the prefix of i+1 words is `set(prev, w, weight + 1)` after `add(w)` on the prefix of i words |
| Poet.AffinityStart | src/poet/GraphPoet.java:85-88 | the one-word prefix is a single vertex and no edge |
| Poet.AffinityEmpty | src/poet/GraphPoet.java:82 | no word gives the empty graph |
| Poet.AffinityVerticesLower | src/poet/GraphPoet.java:84 | every vertex of the graph built from lower-cased tokens is its own lower-case form, so the lower-cased lookups of `poem` match vertices regardless of the input's case |
| Poet.CountSnoc | src/poet/GraphPoet.java:91-98 | one more word adds exactly one adjacency, at the pair it ends |
| Poet.AffinityEdgeWitness | src/poet/GraphPoet.java:18-25 | every edge a -> b of the affinity graph comes from a position where a is immediately followed by b |
| Poet.AffinityEdgeAt | src/poet/GraphPoet.java:18-25 | every adjacent pair of the words is an edge of the affinity graph |
| PoetExamples.HelloAffinity | src/poet/GraphPoet.java:21-27 | the corpus "Hello, HELLO, hello, goodbye!" gives vertices "hello,", "goodbye!" and edges "hello," -> "hello," (2) and "hello," -> "goodbye!" (1) only |
| PoetExamples.HelloGraph | src/poet/GraphPoet.java:21-27 | the affinity graph of "hello, hello, hello, goodbye!" has exactly those two vertices and two weighted edges |
| Poet.OnlyBridge | src/poet/GraphPoet.java:30-33 | a bridge that is the only one is the only permitted choice |
| Poet.NothingToInsert | src/poet/GraphPoet.java:34 | with no two-edge path, inserting nothing is the only permitted choice |
| Poet.Consider | src/poet/GraphPoet.java:144-153 | one step of the bridge search: keeping the strictly heavier candidate preserves "best among those tried" |
| Poet.SearchDone | src/poet/GraphPoet.java:155-160 | once every target of prev was tried, a weight of 0 means no bridge exists, and otherwise the kept word is a heaviest bridge |
| Poet.Piece | src/poet/GraphPoet.java:127-160 | a word equal to the first is emitted alone; any other gets one space before it, and the bridge and a space when there is a bridge |
| Poet.RenderSnoc | src/poet/GraphPoet.java:125-163 | one more turn of the loop appends that word's piece to the poem |
| Poet.BestChoicesSnoc | src/poet/GraphPoet.java:132-160 | a permitted bridge choice for one more word keeps every choice so far permitted |
| Poet.RenderPlain | src/poet/GraphPoet.java:155-160 | with no bridges and no repeat of the first word, the poem is the words joined by single spaces |
| Poet.NoBridgePoem | src/poet/GraphPoet.java:155-160 | if no adjacent pair has a two-edge path, the output is the input words single-space separated |
| Poet.EmptyCorpusPoem | test/poet/GraphPoetTest.java:61-68 | with an empty corpus, a single-spaced input of distinct words comes back unchanged |
| Poet.BlankPoem | src/poet/GraphPoet.java:118-121 | an empty or all-space input gives "" |
| Poet.RepeatedFirstWord | src/poet/GraphPoet.java:127 | "a b a" renders as "a ba": a later copy of the first word is glued on with no space |
| PoetExamples.MugarBridgeOf | src/poet/GraphPoet.java:39-44 | in the Mugar corpus graph, "of" is the only permitted bridge from "test" to "the" |
| PoetExamples.MugarNoBridge | src/poet/GraphPoet.java:39-44 | in the Mugar corpus graph, nothing bridges "the" and "system." |
| PoetExamples.MugarLower | src/poet/GraphPoet.java:84 | lower-casing the scanned Mugar corpus gives its words |
| PoetExamples.MugarInput | src/poet/GraphPoet.java:120-121 | "Test the system." splits into "Test", "the", "system." |
| PoetExamples.MugarPoem | src/poet/GraphPoet.java:39-44 | on the Mugar corpus, any poem meeting `Poem`'s contract for "Test the system." is "Test of the system." |
| GraphExamples.SetEdgeModifier | test/graph/GraphInstanceTest.java:170-179 | `set(a, b, 1)` then `set(a, b, 2)`: the second call returns 1; a's targets are then {b := 2}, and the graph has two vertices |
| GraphExamples.RemoveThenSet | test/graph/GraphInstanceTest.java:201-211 | after `set(b, a, 1)`, a's sources are {b := 1}; `remove(a)` finds a; a is then neither a vertex nor a target of b, and `set(b, a, 2)` returns 0 |
| GraphExamples.VerticesSetEdgeModifier | test/graph/GraphInstanceTest.java:170-176 | the two `set` calls on one `ConcreteVerticesGraph` return 1 for the second call and leave the model of the abstract sequence |
| GraphExamples.EdgesSetEdgeModifier | test/graph/GraphInstanceTest.java:170-176 | the same on one `ConcreteEdgesGraph` |
| GraphExamples.VerticesRemoveThenSet | test/graph/GraphInstanceTest.java:201-210 | `set`, `remove`, `set` on one `ConcreteVerticesGraph`: `remove` returns true, the last `set` returns 0, and the model is that of the abstract sequence |
| GraphExamples.EdgesRemoveThenSet | test/graph/GraphInstanceTest.java:201-210 | the same on one `ConcreteEdgesGraph` |
| Poet.GraphPoet.constructor | src/poet/GraphPoet.java:72-102 | the graph built from the tokens is the affinity graph of the lower-cased tokens: vertices are the lower-cased tokens, and weights are adjacency counts |
| Poet.GraphPoet.ReadCorpus | src/poet/GraphPoet.java:82-101 | the token loop, started on the empty graph, leaves the affinity graph of the lower-cased tokens |
| Poet.GraphPoet.ReadWord | src/poet/GraphPoet.java:83-101 | one token: the graph of the first i words becomes that of the first i + 1, and the token becomes the previous word |
| Poet.GraphPoet.Follow | src/poet/GraphPoet.java:90-99 | one loop step: `add(w)`, then `set(prev, w, old weight + 1)` |
| Poet.GraphPoet.SelectBridge | src/poet/GraphPoet.java:132-154 | `maxWeightBridge == 0` iff no bridge exists; otherwise `maxBridgeWord` is a bridge whose path is at least as heavy as every other bridge's, and `maxWeightBridge` is its weight |
| Poet.GraphPoet.PathWeight | src/poet/GraphPoet.java:147-148 | the weight of prev -> b -> cur read off `sources(b)` and `targets(b)`, which is positive |
| Poet.GraphPoet.Emit | src/poet/GraphPoet.java:127-160 | the piece appended for one word, with a best-bridge choice for it: the first word alone; with no bridge, a space and the word |
| Poet.GraphPoet.Poem | src/poet/GraphPoet.java:116-165 | the output is `Render` of the split input; each word unequal to the first comes after a best bridge choice for its lower-cased predecessor and itself; when no adjacent pair has a bridge and the first word does not recur, the output is the input words joined by single spaces |

## Left out

- File reading in the `GraphPoet` constructor (`File`, `Scanner`, the
  `finally` close and the `IOException` path): the constructor takes the
  scanned tokens as a sequence.
- Poet.GraphPoet.constructor: requires every token to be non-empty, as
  `Scanner.next` guarantees. The loop still tests for the empty word, as the
  source does.
- EdgesGraph.ConcreteEdgesGraph.Set: requires `weight >= 0`, because a
  negative weight reaches `new Edge` and fails its weight assertion. Before
  it fails, the Java has already changed the graph: it removes the old edge
  (src/graph/ConcreteEdgesGraph.java:96) or adds both endpoints
  (src/graph/ConcreteEdgesGraph.java:102-103). The model has no error value
  and does not capture that partial change.
- VerticesGraph.Vertex.SetTarget: requires `weight >= 0`, because a
  negative weight would break the record's positive-weight check. `set`
  never passes one.
- `findEdge`'s fallback `new Edge("", "", 0)` is unreachable: `set` calls
  `findEdge` only after `isEdgeInGraph` succeeds, so `FindEdge` requires the
  pair to be present. The fallback would also break the positive-weight
  invariant.
- `toString` of both graphs, of `Vertex`, of `Edge` and of `GraphPoet`: these
  are diagnostic strings only.
- `checkRep`, the `assert` calls and `isVerticesNotNull`: they become the
  `Valid()` invariants. Every constructor establishes its class's
  invariant, and every other method that changes state requires it. Those
  methods also ensure it, except `Scan` and `DropTarget`, the steps inside
  `remove`, which state their effect on the records instead. Methods that
  change nothing require the invariant only where their result depends on it
  (`FindRecord`, `FindEdge`, `ConcreteVerticesGraph.Sources` and the poet's
  methods); the other queries hold on any state. Dafny values are never null.
- `Edge.isSame` and the getters of `Edge`: the datatype's fields and
  `Edge.Key()` stand for them.
- `isEdgeNotDuplicate` compares labels with `==`, which is reference
  equality on objects. The model compares by value.
- `HashMap`/`HashSet` iteration order: the bridge search takes candidates in
  an arbitrary order. `Poem` records each bridge choice as a ghost output.
  Its contract permits any heaviest bridge, and does not say which one wins
  a tie.
- `String.toLowerCase` and `String.split` on full Unicode: lower-casing is
  ASCII only, and splitting is on the space character.
- `Graph.empty()` and the `Graph` interface are not part of this model. The
  poet's graph is a `ConcreteEdgesGraph<string>`.
- The Java `int` width: weights, counts and sums are unbounded integers. An
  adjacency count past 2^31 - 1 does not wrap around as in the source. Nor
  does the path weight `currentWeights` of the bridge search, the sum of
  two edge weights (src/poet/GraphPoet.java:147-148). In Java that sum could
  wrap to a negative value and lose a heaviest bridge.
