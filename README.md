# London Tube route printer over an adjacency-map graph

This project models the core of a small Java program that finds routes on the London
Underground. It also proves properties of that model.

- **The graph.** `AdjacencyMapGraph` holds vertex and edge handles. Each vertex keeps a
  map from neighbour to connecting edge for its outgoing edges and one for its incoming
  edges. In an undirected graph these two are the same map object.
- **The network.** `LondonTube` builds an undirected graph of `Station` vertices and
  `LineSegment` edges from a list of lines. Each line is given as its name and its
  stations in order.
- **Station lookup.** A station is looked up by a key: its name with every non-letter
  removed and the letters upper-cased.
- **Directions.** A route, given as a list of edges followed from an origin, is printed
  as "Take the L line from S to", "Switch to the L line at S" and station names.

Modules, in dependency order:

- `Collections`: order-preserving filtering of sequences and dropping map values. These
  stand for the positional list's `remove` and the hash map's `remove`.
- `AdjacencyMaps`: the `Vertex` and `Edge` handles (owner graph and serial number) and the
  adjacency tables. It also holds the mirroring invariant between outgoing and incoming
  maps, with the lemmas that one put or one removal keeps it.
- `Graphs`: the `AdjacencyMapGraph` class.
  - Its fields are the two positional lists as sequences, plus the vertex and edge
    records (element, adjacency maps, endpoints, liveness).
  - Each mutating method states the whole new state.
  - Each query is a function whose error cases are the `IllegalArgumentException`s of
    the source.
  - A few methods construct small graphs to show the parallel-edge behaviour.
- `StationKeys`: the key of a station name and its properties.
- `Stations`: the `Station`, `Line` and `LineSegment` records and the `Network` type.
- `Instructions`: the tokens `printPath` emits, as pure functions of the route's line
  names and station names. It also gives an independent reading of a route as legs on
  one line each, and proves the two agree.
- `Routes`: what `printPath`'s loop has gathered after each edge (the vertices passed,
  the line names, the station names), stated on values.
- `LondonTube`:
  - `findStation`;
  - the line-building loop of `readNetwork` as methods on the graph object;
  - `printPath` as a method returning the tokens it prints.

The program's inputs and outputs are parameters and results here:

- The lines `readNetwork` reads from `london.txt` are passed in as a sequence of
  (line name, station names) pairs.
- What `printPath` writes to standard output is returned as a sequence of `Token`s.
  `Instructions.Text` gives each token's printed text.
- A thrown `IllegalArgumentException` is an `Err` result carrying which message it has.

Three behaviours of the code are easy to miss. The model follows the code in the first
two. The third is a defect, listed under "## Findings": there the model states the
behaviour as written and uses the evidently intended one elsewhere.

- **insertEdge.** Its `throws IllegalArgumentException` suggests that both vertices are
  checked before anything changes. The code instead creates the edge and appends it to
  the edge list before validating them.
  - A call with an invalid vertex therefore throws, yet leaves a valid edge that is in
    no adjacency map.
  - `Graphs.AdjacencyMapGraph.InsertEdge` models this, and `Graphs.FailedInsertion`
    exhibits it.
- **removeEdge with parallel edges.** `removeEdge` removes the map entries keyed by the
  edge's endpoints, whatever edge those entries hold.
  - So removing the first of two parallel edges also makes the second unreachable
    through `getEdge`. The second edge stays valid and in the edge list.
  - `Graphs.ShadowedRemoval` proves this.
- **The endpoint cast in removeEdge.** An edge's endpoint array is created as an array
  of `Vertex` (AdjacencyMapGraph.java:155). `removeEdge` casts it to an array of
  `InnerVertex` (line 92), a cast that fails at run time for every edge.
  - So `removeEdge` on a valid edge throws `ClassCastException` before it changes
    anything.
  - `removeVertex` throws in the same way for a vertex whose outgoing or incoming map
    holds an edge. A valid edge can touch a vertex whose maps are empty (after an
    `insertEdge` that failed on its other endpoint); removing that vertex does not throw
    (`Graphs.UnplacedIncidentEdge`).
  - `Graphs.AdjacencyMapGraph.RemoveEdge` and `RemoveVertex` model the removals as they
    are evidently meant to work.

## Model

| member | source | states |
|---|---|---|
| Graphs.AdjacencyMapGraph.constructor | AdjacencyMapGraph.java:6 | a new graph of the given kind has no vertices and no edges and satisfies the graph invariant |
| Graphs.AdjacencyMapGraph.NumVertices | AdjacencyMapGraph.java:8 | the number of vertices is the number of vertices with a position, which are exactly the members of the vertex list |
| Graphs.AdjacencyMapGraph.NumEdges | AdjacencyMapGraph.java:12 | the number of edges is the number of edges with a position, which are exactly the members of the edge list |
| Graphs.AdjacencyMapGraph.OutDegree | AdjacencyMapGraph.java:16-19 | fails with "Invalid vertex" exactly when the vertex is not valid in this graph; otherwise it is the size of its outgoing map |
| Graphs.AdjacencyMapGraph.InDegree | AdjacencyMapGraph.java:26-29 | fails exactly for an invalid vertex; otherwise it is the size of its incoming map; in an undirected graph it equals the out-degree, because the two maps are one |
| Graphs.AdjacencyMapGraph.OutgoingEdges | AdjacencyMapGraph.java:21-24 | fails exactly for an invalid vertex; otherwise it returns exactly the values of the vertex's outgoing map, each a valid edge that leaves the vertex (or, undirected, has it as an endpoint) |
| Graphs.AdjacencyMapGraph.IncomingEdges | AdjacencyMapGraph.java:31-34 | fails exactly for an invalid vertex; otherwise it returns exactly the values of the vertex's incoming map, each a valid edge that enters the vertex; undirected, it is the same collection as the outgoing edges |
| Graphs.AdjacencyMapGraph.OutgoingCount | AdjacencyMapGraph.java:16-24 | the outgoing edges of a valid vertex are as many as its out-degree: no edge is the value of two slots of one map |
| Graphs.AdjacencyMapGraph.IncomingCount | AdjacencyMapGraph.java:26-34 | the incoming edges of a valid vertex are as many as its in-degree |
| Graphs.AdjacencyMapGraph.GetEdge | AdjacencyMapGraph.java:36-39 | only the first vertex is validated; the result is present exactly when the second vertex is a key of the first's outgoing map, and then it is a valid edge from the first vertex to the second |
| Graphs.AdjacencyMapGraph.UndirectedGetEdge | AdjacencyMapGraph.java:36-39 | in an undirected graph, the edge between two valid vertices is found from either end |
| Graphs.AdjacencyMapGraph.KeyPairs | AdjacencyMapGraph.java:69-70 | the key-pair invariant: x is a key of w's outgoing map exactly when w is a key of x's incoming map, and both slots hold the same edge |
| Graphs.AdjacencyMapGraph.EndVertices | AdjacencyMapGraph.java:41-44 | fails with "Invalid edge" exactly for an edge that is not valid in this graph; otherwise it is the edge's endpoint pair as created |
| Graphs.AdjacencyMapGraph.Opposite | AdjacencyMapGraph.java:46-55 | fails with "Invalid edge" exactly for an invalid edge, and with "v is not incident to this edge" exactly when v is neither endpoint; for a valid edge it succeeds from either endpoint, returning the second endpoint when v is the first (checked first) and the first endpoint when v is only the second |
| Graphs.AdjacencyMapGraph.OppositeTwice | AdjacencyMapGraph.java:46-55 | crossing an edge from an endpoint and crossing it back returns to that endpoint |
| Graphs.AdjacencyMapGraph.GetEdgeOpposite | AdjacencyMapGraph.java:36-55 | the edge getEdge(u, v) finds leads from u to v: its opposite from u is v |
| Graphs.AdjacencyMapGraph.EdgeRecorded | AdjacencyMapGraph.java:147-164 | a valid edge has its element and its endpoints recorded |
| Graphs.AdjacencyMapGraph.InsertVertex | AdjacencyMapGraph.java:57-61 | the new vertex is new, valid and appended at the end of the vertex list, with empty maps and degree 0; the vertex count grows by one and edges are unchanged |
| Graphs.InsertVertexKeeps | AdjacencyMapGraph.java:121-128 | creating a vertex with a fresh serial and empty maps (one map, aliased, when undirected) keeps the graph invariant |
| Graphs.AdjacencyMapGraph.InsertEdge | AdjacencyMapGraph.java:63-74 | a new edge is always appended to the edge list and made valid, even when an endpoint is invalid; the result is the edge exactly when both vertices are valid, and then it is put in both maps so getEdge(u, v) (and undirected getEdge(v, u)) returns it; there is no duplicate check |
| Graphs.InsertEdgeKeeps | AdjacencyMapGraph.java:63-71 | recording the edge and, if both ends are live, the two puts keep the graph invariant |
| Graphs.NewEdgeKeeps | AdjacencyMapGraph.java:65-66 | recording a fresh edge without any put keeps the graph invariant |
| Graphs.PutKeeps | AdjacencyMapGraph.java:69-70 | the two puts of a recorded edge between live vertices keep the graph invariant |
| Graphs.AdjacencyMapGraph.RemoveEdge | AdjacencyMapGraph.java:89-98 | fails with "Invalid edge" and changes nothing for an invalid edge; otherwise it removes the entry keyed by the second endpoint from the first's outgoing map and the mirror entry, drops the edge from the edge list (one fewer), invalidates it, and leaves vertices unchanged |
| Graphs.RemoveEdgeKeeps | AdjacencyMapGraph.java:89-98 | removing a live edge this way keeps the graph invariant; when the edge sits in its own slot, the removal is exactly the removal of that edge from the maps |
| Graphs.AdjacencyMapGraph.RemoveNext | AdjacencyMapGraph.java:79-82 | one turn of removeVertex's loops removes one more edge held in the vertex's maps and keeps the invariant |
| Graphs.AdjacencyMapGraph.RemoveEach | AdjacencyMapGraph.java:79-82 | one loop of removeVertex removes every edge of the snapshot of a map's values |
| Graphs.RemoveVertexSteps | AdjacencyMapGraph.java:79-82 | the snapshot of the outgoing values, then the snapshot of the incoming values left afterwards, cover exactly the edges incident to the vertex |
| Graphs.RemoveVertexKeeps | AdjacencyMapGraph.java:84-85 | once every edge held in its maps is gone, removing the vertex from the list keeps the invariant and shortens the list by one |
| Graphs.AdjacencyMapGraph.RemovedVertexValid | AdjacencyMapGraph.java:76-86 | the state removeVertex leaves is valid, and no remaining map has the removed vertex as a key |
| Graphs.AdjacencyMapGraph.RemoveVertex | AdjacencyMapGraph.java:76-86 | fails with "Invalid vertex" and changes nothing for an invalid vertex; otherwise every edge held in its maps is removed from the maps and the edge list (a shadowed parallel edge survives, see Graphs.ShadowedVertexRemoval), the vertex leaves the vertex list (one fewer) and becomes invalid, and no vertex's map keeps it as a key |
| Graphs.TwoVertices | AdjacencyMapGraph.java:57-61 | two insertions give two distinct valid vertices in insertion order, with no edges |
| Graphs.OneEdge | AdjacencyMapGraph.java:63-71 | an edge inserted between two new vertices is their only adjacency |
| Graphs.ParallelEdges | AdjacencyMapGraph.java:63-74 | a second edge between the same pair is accepted: both edges are valid, there are two edges, and getEdge returns the second |
| Graphs.ShadowedVertexRemoval | AdjacencyMapGraph.java:76-86 | removing a vertex removes only the edges its maps hold: of two parallel edges from it, the first stays valid and counted, with an endpoint that is no longer valid |
| Graphs.UnplacedIncidentEdge | AdjacencyMapGraph.java:63-86 | an insertEdge that fails on a removed endpoint leaves a valid edge touching a vertex whose maps are empty; removeVertex as written does not throw for that vertex |
| Graphs.ShadowedRemoval | AdjacencyMapGraph.java:89-98 | removing the first of two parallel edges leaves the second valid and counted, yet getEdge finds nothing and the out-degree is 0 |
| Graphs.FailedInsertion | AdjacencyMapGraph.java:63-68 | inserting an edge at a removed vertex fails with "Invalid vertex" but leaves a valid edge in the edge list |
| Graphs.AdjacencyMapGraph.RemoveEdgeAsWritten | AdjacencyMapGraph.java:89-92 | removeEdge as written always throws: "Invalid edge" exactly for an invalid edge, and the endpoint-array ClassCastException exactly for a valid one |
| Graphs.AdjacencyMapGraph.RemoveVertexThrows | AdjacencyMapGraph.java:76-82 | removeVertex as written throws "Invalid vertex" exactly for an invalid vertex, and the ClassCastException exactly for a valid vertex with a non-empty outgoing or incoming map |
| Graphs.AdjacencyMapGraph.QuietRemoval | AdjacencyMapGraph.java:76-86 | where removeVertex as written does not throw, the vertex is valid and its maps hold no edge, so the intended removal removes no edge either |
| Graphs.CastFailure | AdjacencyMapGraph.java:89-98 | on a graph of one edge, removeEdge as written and removeVertex on its first endpoint throw the ClassCastException, while the intended removal succeeds and leaves no edge |
| Graphs.AdjacencyMapGraph.ValidVertex | AdjacencyMapGraph.java:101-106 | in a valid graph, a vertex passes `validate` exactly when it belongs to this graph and is in the vertex list |
| Graphs.AdjacencyMapGraph.ValidEdge | AdjacencyMapGraph.java:109-114 | in a valid graph, an edge passes `validate` exactly when it belongs to this graph and is in the edge list |
| Graphs.AdjacencyMapGraph.InMap | AdjacencyMapGraph.java:124-127 | a vertex's incoming map is its own incoming map in a directed graph and its outgoing map in an undirected one |
| AdjacencyMaps.InOf | AdjacencyMapGraph.java:124-127 | on the tables: the incoming map of a vertex is its entry in the incoming table when directed, and in the outgoing table when undirected |
| AdjacencyMaps.Attach | AdjacencyMapGraph.java:69-70 | a put into one vertex's map: the same vertices have maps, that map gains or replaces the entry, and every other map is unchanged |
| AdjacencyMaps.Detach | AdjacencyMapGraph.java:93-94 | a removal from one vertex's map: the same vertices have maps, that map loses the key, and every other map is unchanged |
| AdjacencyMaps.OutAfterPut | AdjacencyMapGraph.java:69-70 | after the two puts of insertEdge, u's outgoing map sends v to the edge (and, undirected, v's map sends u to it); no other map changes |
| AdjacencyMaps.InAfterPut | AdjacencyMapGraph.java:69-70 | in a directed graph, v's incoming map gains u with the edge; no other incoming map changes |
| AdjacencyMaps.PutKeepsKeys | AdjacencyMapGraph.java:69-70 | putting an edge from u to v keeps every key of every outgoing map, and afterwards v is a neighbour of u (and, undirected, u of v) |
| AdjacencyMaps.OutAfterRemove | AdjacencyMapGraph.java:93-94 | after the two removals of removeEdge, a's outgoing map no longer has b (and, undirected, b's no longer has a); no other map changes |
| AdjacencyMaps.InAfterRemove | AdjacencyMapGraph.java:93-94 | in a directed graph, b's incoming map no longer has a; no other incoming map changes |
| Collections.Filter | AdjacencyMapGraph.java:96 | the positional list's removal (here of the edge list, at line 84 of the vertex list): what is left holds exactly the members not removed and is no longer than before |
| Collections.FilterAppend | AdjacencyMapGraph.java:96 | removal keeps the order of what is left: filtering a concatenation filters each part in order |
| Collections.FilterSingle | AdjacencyMapGraph.java:96 | one element is kept exactly when it is not removed |
| StationKeys.ToUpper | LondonTube.java:143 | a lower-case ASCII letter becomes the upper-case letter 32 code points below it; every other character, upper-case letters included, is kept |
| StationKeys.Normalize | LondonTube.java:143 | the key is never longer than the name |
| StationKeys.NormalizeUpper | LondonTube.java:143 | a key consists of upper-case letters only |
| StationKeys.NormalizeAppend | LondonTube.java:143 | the key of a concatenation is the concatenation of the keys |
| StationKeys.NormalizeKey | LondonTube.java:143 | a string of upper-case letters is its own key |
| StationKeys.NormalizeIdempotent | LondonTube.java:143 | normalising twice is normalising once |
| StationKeys.IgnoresCase | LondonTube.java:143 | names that differ only in the case of letters have the same key |
| StationKeys.NonLettersVanish | LondonTube.java:143 | a string with no letters has the empty key |
| StationKeys.IgnoresNonLetters | LondonTube.java:143 | non-letters inserted anywhere do not change the key |
| LondonTube.FindIn | LondonTube.java:145-149 | what the search returns is a vertex of the list whose station name has the key |
| LondonTube.FindInNone | LondonTube.java:145-149 | nothing is found exactly when no vertex of the list has the key |
| LondonTube.FindInFirst | LondonTube.java:145-149 | what is found is the first match in list order: every vertex before it has another key |
| LondonTube.FindStation | LondonTube.java:142-150 | a station found is a valid vertex whose name has the same key as the query |
| LondonTube.FindByKey | LondonTube.java:142-150 | looking up a name and looking up its key find the same station |
| LondonTube.FindIgnoresCase | LondonTube.java:142-150 | queries differing only in letter case find the same station |
| LondonTube.FindIgnoresNonLetters | LondonTube.java:142-150 | queries differing only by non-letters find the same station |
| LondonTube.FindGrown | LondonTube.java:113-115 | a station found before vertices are appended is still the one found |
| LondonTube.FindAppended | LondonTube.java:113-115 | a name not found before is found, as the new vertex, once a station of that name is appended |
| LondonTube.KeysAppended | LondonTube.java:113-115 | appending a station whose key was not found keeps all station keys distinct |
| LondonTube.Locate | LondonTube.java:113-115 | the station findStation finds is reused and the graph object is unchanged; otherwise exactly one new station of that name is appended to the vertex list, given an empty outgoing map (and, directed, an empty incoming map), and no edge changes; either way the name now finds it and keys stay distinct |
| LondonTube.AddStop | LondonTube.java:109-128 | one turn of the building loop: the vertices are unchanged when the stop's name is found and otherwise gain exactly one new station of that name; when there is a previous station exactly one edge of the line from it to this stop is appended, otherwise none; the new outgoing and incoming tables are exactly those of putting that edge after the new station's empty maps; insertEdge always succeeds here, so getEdge from the previous station finds the new edge (and, undirected, from this stop back too); no map loses a key |
| LondonTube.BuildingStep | LondonTube.java:106-128 | one more turn extends the built prefix of the line by one station and, after the first, by one joining edge, and adds no vertex beyond the stations named after names not found |
| LondonTube.OnlyNamedStep | LondonTube.java:113-115 | a turn of the loop keeps the fact that every vertex added since the line began is a station named after one of its names that was not found, and that every new record is in the vertex list |
| LondonTube.KnownNamesAddNothing | LondonTube.java:106-128 | a line all of whose station names are already found adds no vertex |
| LondonTube.AddLine | LondonTube.java:106-128 | building a line of n stations appends exactly n - 1 edges (none for an empty line), edge k joining the station found for name k to the one found for name k + 1 and carrying a segment of the line; earlier vertices and edges keep their records; the only vertices added are stations named after names of the line that were not found; no two stations come to share a key; every two consecutive names of the line find stations that are neighbours in the outgoing maps (both ways, undirected), and no map loses a key |
| LondonTube.LinkedGrown | LondonTube.java:106-128 | growing the vertex list without losing keys of the outgoing maps keeps the segments of a line already linked |
| LondonTube.LinkedStep | LondonTube.java:109-128 | one more stop joined to the previous station extends the linked prefix of the line by one segment |
| LondonTube.StationsGrow | LondonTube.java:100-130 | after one more line, every vertex is still a station named in one of the lines built so far, and every vertex record is in the vertex list |
| LondonTube.NetworkLinkedStep | LondonTube.java:100-130 | adding a line keeps every earlier line's consecutive stations neighbours and links the new line's |
| LondonTube.SegmentEdge | LondonTube.java:113-127 | in a valid graph where two consecutive names of a line are linked, both names find stations and getEdge between them (both ways, undirected) finds an edge |
| LondonTube.NetworkStep | LondonTube.java:100-130 | a line added to a network whose earlier lines are built leaves those built and this one built after them, with every vertex a station named in one of them |
| LondonTube.ReadNetwork | LondonTube.java:89-139 | an undirected graph in which every given line is built, its edges following those of the lines before it; its vertices are exactly its station records, each a station named in some line, and no two stations share a key; in every line any two consecutive names find stations that are neighbours in the outgoing maps |
| Instructions.Text | LondonTube.java:71-85 | every printed piece ends in a newline, except "Take ... to ", which ends in a space and is completed by the next station name |
| Instructions.StepTokens | LondonTube.java:70-78 | for the first edge only "Take"; for an edge on the same line as the previous one nothing; on a new line the current station's name, "Switch", then "Take" |
| Instructions.Steps | LondonTube.java:63-84 | the loop prints nothing exactly for an empty route |
| Instructions.StepsSnoc | LondonTube.java:63-84 | the tokens of one more edge follow those of the edges before it |
| Instructions.Itinerary | LondonTube.java:57-86 | an empty route prints only the origin's name; every route ends with the name of the station reached last |
| Instructions.Legs | LondonTube.java:63-84 | the route read as stretches on one line: at least one and at most as many as edges, from the origin on the first edge's line to the destination on the last edge's line |
| Instructions.LegsJoined | LondonTube.java:63-84 | consecutive stretches meet at a station and lie on different lines, so each stretch is maximal |
| Instructions.JoinedSnoc | LondonTube.java:70-78 | a stretch on another line, starting where the last one ends, may follow it |
| Instructions.JoinedRetarget | LondonTube.java:70-78 | extending the last stretch to a further station keeps the stretches joined |
| Instructions.SingleLeg | LondonTube.java:63-84 | a route of one edge is one stretch, and the loop prints exactly its "Take" |
| Instructions.RenderStep | LondonTube.java:63-84 | one more edge adds to the rendering of the legs what one more turn of the loop prints |
| Instructions.StepsAreLegs | LondonTube.java:63-84 | with no line named "", the loop prints exactly "Take" for the first leg and, for each later leg, the station, "Switch" and "Take" |
| Instructions.RenderIgnoresEnd | LondonTube.java:63-84 | what the loop prints does not depend on where the last leg ends |
| Instructions.RenderCounts | LondonTube.java:70-78 | one "Take" per leg, and one switch and one station name before it per leg after the first |
| Instructions.LegsCount | LondonTube.java:70-80 | a new leg starts exactly where the line changes from one edge to the next |
| Instructions.ItineraryCounts | LondonTube.java:57-86 | for a non-empty route with no line named "", there are as many switches as line changes, one more "Take" than switches, and one more station name than switches |
| Instructions.SwitchOfStep | LondonTube.java:70-75 | a turn prints a switch to the edge's line at the current station exactly when there is a previous line distinct from it |
| Instructions.SwitchesAtChanges | LondonTube.java:70-80 | with no line named "", the switches printed are exactly one per change of line, to the new line at the station where it happens, in order |
| Instructions.ChangePoints | LondonTube.java:70-80 | there is one change point per line change |
| Instructions.EmptyLineName | LondonTube.java:70-78 | a line named "" defeats both tests: the next edge prints a new "Take" with no switch and no station name before it |
| Routes.WalkFrom | LondonTube.java:59-68 | the vertices passed start at the origin and, at each edge, move to the second endpoint if the current vertex is the first, else to the first |
| Routes.WalkUnique | LondonTube.java:59-82 | any sequence of vertices starting at the origin and crossing the edges this way is that walk |
| Routes.LinesOf | LondonTube.java:70-80 | the line name of each edge of the route, in order |
| Routes.NamesOf | LondonTube.java:71-85 | the station name of each vertex passed, in order |
| Routes.WalkStep | LondonTube.java:64-68 | crossing one more edge extends the walk by the vertex reached |
| Routes.NoteStep | LondonTube.java:70-80 | one more edge extends the recorded line names and station names |
| Routes.PrintStep | LondonTube.java:63-84 | one turn of the loop keeps the loop invariant: the vertices passed, the lines and stations seen, and the tokens printed so far being the steps for them |
| Routes.PrintedSoFar | LondonTube.java:63-84 | the loop's gathered values are the walk, line names and station names of the edges crossed |
| Routes.Cross | LondonTube.java:65-68 | crossing an edge from its first end gives its second end, from its second end (not also the first) its first end; the result is always an end |
| Routes.PrintedDone | LondonTube.java:84-85 | when the loop stops, the output is the steps of the edges crossed, and the name of the current station completes the itinerary |
| LondonTube.WalkCrosses | LondonTube.java:64-68 | where an edge is incident to the vertex reached, the walk's next vertex is opposite(current, edge) |
| LondonTube.FirstInvalid | LondonTube.java:63-64 | the index of the first edge of the route that is not valid in the graph: all before it are valid |
| LondonTube.PathOnRecord | LondonTube.java:63-64 | every edge before the first invalid one, and both its endpoints, have records |
| LondonTube.PrintPath | LondonTube.java:57-86 | for a route of valid edges: Ok, having printed the itinerary of the route's lines and the stations of its walk from the origin; at the first invalid edge: "Invalid edge", having printed only the steps for the edges before it |

## Left out

- `getPath` (LondonTube.java:45-55) is left out. It calls `GraphAlgorithms.BFS` and `constructPath`, which are not part of this model. `PrintPath` takes any route.
- `main` is left out: the console prompts, the "done" sentinel and the "Can't find" messages are console I/O.
- File reading in `readNetwork` is left out. This covers opening `london.txt`, the Scanner, trimming, the "Line" and "End" keywords and the exits with codes 1 and 2. `ReadNetwork` takes the lines already parsed.
- The `catch` with exit code 3 in `readNetwork` is not modelled. It is unreachable: every `insertEdge` there joins two valid stations of the graph, so `AddStop` always gets `Ok`.
- Every `toString` is left out, along with the `LineSegment` serial counter that only feeds it. `Station`'s line list and `addLine` are also left out, since nothing uses them.
- The internals of `ProbeHashMap` and `LinkedPositionalList` are left out. Maps are Dafny `map`s and the positional lists are `seq`s, so a position is simply membership in the list.
- Graph identity is an explicit `id` given to the constructor. It stands for Java object identity, and the class invariant relies on it. A distinct `id` per graph object is assumed, not enforced.
- `OutgoingEdges` and `IncomingEdges` return sets, because a hash map's iteration order is not visible.
- `RemoveVertex` removes a snapshot of each map's values in an order it chooses. The iteration order of the source's maps is not modelled.
- `RemoveEdge` skips an endpoint that belongs to no record of this graph. Such an endpoint can only come from an `insertEdge` that failed with vertices of another graph h, after the edge was already made. The source's removal would then delete h's own entry between those vertices; this cross-graph effect is not modelled, since each model graph holds only its own records.
- `RemoveEdge`: states removeEdge as evidently intended. As written, the endpoint cast throws for every valid edge; `RemoveEdgeAsWritten` states that.
- `RemoveVertex`: states removeVertex as evidently intended. As written, it throws ClassCastException and leaves the graph unchanged for a vertex whose outgoing or incoming map holds an edge; `RemoveVertexThrows` states that.
- `ToUpper`: models `toUpperCase` in a locale with ASCII case rules. The source's `toUpperCase()` follows the default locale, so in a Turkish locale 'i' becomes the dotted capital U+0130 and keys with an 'i' differ from the model's. Only ASCII letters reach it, since the regular expression removes everything else.
- `PrintPath` requires that the origin and the endpoints of the route's valid edges are vertices with records (`EndsRecorded`). The source would dereference any vertex object. The model keeps station names only in the graph's records, so it needs those records to exist.
- `AddLine`: at the level of a whole line it states that no map loses a key and that consecutive stations become neighbours, not the exact new tables; each `AddStop` states its exact tables.
- `Locate` and `AddStop` are the two halves of one turn of the source's building loop, split out as methods. They are not functions of their own in the source.

## Findings

| source | as written | input that shows it | evidently intended | confidence | as-written member | corrected member |
|---|---|---|---|---|---|---|
| AdjacencyMapGraph.java:92 | the endpoint array, created as `new Vertex[]{u,v}` at line 155, is cast to an array of `InnerVertex`, which throws ClassCastException; removeEdge on a valid edge, and removeVertex on a vertex whose outgoing or incoming map holds an edge, throw and change nothing | a graph with vertices u, v and one edge e from u to v; removeEdge(e) or removeVertex(u) | remove the edge from both endpoints' maps and from the edge list; remove every edge held in its maps, then the vertex | not executed | Graphs.AdjacencyMapGraph.RemoveEdgeAsWritten, Graphs.AdjacencyMapGraph.RemoveVertexThrows, Graphs.CastFailure | Graphs.AdjacencyMapGraph.RemoveEdge, Graphs.AdjacencyMapGraph.RemoveVertex |
