/** The adjacency-map graph: a container of vertex and edge handles in which every
    vertex keeps a map from neighbour to connecting edge for its outgoing edges and one
    for its incoming edges; in an undirected graph the two are one and the same map. */
module Graphs {
  import opened Collections
  import opened AdjacencyMaps

  /** The three IllegalArgumentException messages: "Invalid vertex", "Invalid edge",
      "v is not incident to this edge"; and the ClassCastException raised when the
      endpoint array of an edge, created as an array of Vertex, is cast to an array of
      InnerVertex. */
  datatype GraphError = InvalidVertex | InvalidEdge | NotIncident | EndpointCast

  datatype Option<T> = None | Some(value: T)

  /** The outcome of an operation that may throw. */
  datatype Result<T> = Ok(value: T) | Err(error: GraphError)

  /** The InnerVertex objects of one graph, one record per vertex ever created there
      (removed ones included): element, outgoing map and, in a directed graph, incoming
      map; `live` holds the vertices whose position is not null, `count` the serials
      handed out so far. */
  datatype VertexRecords<V> = VertexRecords(element: map<Vertex, V>, outgoing: AdjacencyTable,
                                            incoming: AdjacencyTable, live: set<Vertex>, count: nat)

  /** The InnerEdge objects of one graph: element and endpoint pair, with the same
      reading of `live` and `count`. */
  datatype EdgeRecords<E> = EdgeRecords(element: map<Edge, E>, endpoints: map<Edge, (Vertex, Vertex)>,
                                        live: set<Edge>, count: nat)

  /** The invariant of a graph object, on the values of its fields: a record for every
      handle created, each carrying this graph's identity and an earlier serial; the
      handles with a position are records and are exactly the members of the positional
      lists, which have no repetitions; the adjacency maps are mirrored (`Linked`). */
  ghost predicate Coherent<V, E>(id: nat, directed: bool, vertices: seq<Vertex>, edges: seq<Edge>,
                                 vr: VertexRecords<V>, er: EdgeRecords<E>)
  {
    && vr.outgoing.Keys == vr.element.Keys && er.endpoints.Keys == er.element.Keys
    && (forall v :: v in vr.element ==> v.graph == id && v.serial < vr.count)
    && (forall e :: e in er.element ==> e.graph == id && e.serial < er.count)
    && (forall v :: v in vr.live ==> v in vr.element)
    && (forall e :: e in er.live ==> e in er.element)
    && Distinct(vertices) && (forall v :: v in vertices <==> v in vr.live)
    && Distinct(edges) && (forall e :: e in edges <==> e in er.live)
    && Tables(directed, vr.outgoing, vr.incoming)
    && Linked(directed, vr.outgoing, vr.incoming, er.endpoints, vr.live, er.live)
  }

  class AdjacencyMapGraph<V, E> {
    /** Stands for the identity of this graph object. */
    const id: nat
    const isDirected: bool

    /** The positional lists, in insertion order. */
    var vertices: seq<Vertex>
    var edges: seq<Edge>

    /** The state held in the vertex and edge objects. */
    var vrec: VertexRecords<V>
    var erec: EdgeRecords<E>

    ghost predicate Valid()
      reads this
    {
      Coherent(id, isDirected, vertices, edges, vrec, erec)
    }

    /** `getIncoming()` of a vertex record. */
    function InMap(x: Vertex): (r: Adjacency)
      reads this
      ensures !isDirected && x in vrec.outgoing ==> r == vrec.outgoing[x]
      ensures isDirected && x in vrec.incoming ==> r == vrec.incoming[x]
    {
      InOf(isDirected, vrec.outgoing, vrec.incoming, x)
    }

    /** The graph object built in the constructor: both lists empty. */
    constructor (directed: bool, graphId: nat)
      ensures Valid()
      ensures id == graphId && isDirected == directed
      ensures vertices == [] && edges == []
      ensures vrec == VertexRecords(map[], map[], map[], {}, 0)
      ensures erec == EdgeRecords(map[], map[], {}, 0)
    {
      id, isDirected := graphId, directed;
      vertices, edges := [], [];
      vrec := VertexRecords(map[], map[], map[], {}, 0);
      erec := EdgeRecords(map[], map[], {}, 0);
    }

    /** What `Linked` says of one outgoing entry. */
    lemma EntryFacts(x: Vertex, y: Vertex)
      requires Valid() && x in vrec.outgoing && y in vrec.outgoing[x]
      ensures ValidVertex(x) && ValidVertex(y) && ValidEdge(vrec.outgoing[x][y])
      ensures var ends := erec.endpoints[vrec.outgoing[x][y]];
        ends == (x, y) || (!isDirected && ends == (y, x))
      ensures x in InMap(y) && InMap(y)[x] == vrec.outgoing[x][y]
    {
      assert EntryLinked(isDirected, vrec.outgoing, vrec.incoming, erec.endpoints, vrec.live, erec.live, x, y);
    }

    /** What `Linked` says of one incoming entry. */
    lemma InEntryFacts(y: Vertex, x: Vertex)
      requires Valid() && x in InMap(y)
      ensures x in vrec.outgoing && y in vrec.outgoing[x] && vrec.outgoing[x][y] == InMap(y)[x]
    {
      if isDirected {
        assert MirrorLinked(vrec.outgoing, vrec.incoming, y, x);
      } else {
        EntryFacts(y, x);
      }
    }

    /** `validate(Vertex)` succeeds: the handle is this graph's and still has a position. */
    predicate ValidVertex(v: Vertex): (r: bool)
      reads this
      ensures Valid() ==> (r <==> v.graph == id && v in vertices)
    {
      v.graph == id && v in vrec.live
    }

    /** `validate(Edge)` succeeds. */
    predicate ValidEdge(e: Edge): (r: bool)
      reads this
      ensures Valid() ==> (r <==> e.graph == id && e in edges)
    {
      e.graph == id && e in erec.live
    }

    function NumVertices(): (r: nat)
      reads this
      requires Valid()
      ensures r == |vrec.live|
    {
      LiveCount(vertices, vrec.live);
      |vertices|
    }

    function NumEdges(): (r: nat)
      reads this
      requires Valid()
      ensures r == |erec.live|
    {
      LiveCount(edges, erec.live);
      |edges|
    }

    function OutDegree(v: Vertex): (r: Result<nat>)
      reads this
      requires Valid()
      ensures r.Err? <==> !ValidVertex(v)
      ensures r.Err? ==> r.error == InvalidVertex
      ensures r.Ok? ==> r.value == |vrec.outgoing[v]|
    {
      if ValidVertex(v) then Ok(|vrec.outgoing[v]|) else Err(InvalidVertex)
    }

    function InDegree(v: Vertex): (r: Result<nat>)
      reads this
      requires Valid()
      ensures r.Err? <==> !ValidVertex(v)
      ensures r.Err? ==> r.error == InvalidVertex
      ensures r.Ok? ==> r.value == |InMap(v)|
      ensures !isDirected ==> r == OutDegree(v)
    {
      if ValidVertex(v) then Ok(|InMap(v)|) else Err(InvalidVertex)
    }

    /** The values of the outgoing map (an unordered collection: the map's iteration
        order is not part of the model). */
    function OutgoingEdges(v: Vertex): (r: Result<set<Edge>>)
      reads this
      requires Valid()
      ensures r.Err? <==> !ValidVertex(v)
      ensures r.Err? ==> r.error == InvalidVertex
      ensures r.Ok? ==> forall e :: e in r.value ==>
        ValidEdge(e) && (erec.endpoints[e].0 == v || (!isDirected && erec.endpoints[e].1 == v))
      ensures r.Ok? ==> forall y :: y in vrec.outgoing[v] ==> vrec.outgoing[v][y] in r.value
      ensures r.Ok? ==> forall e :: e in r.value ==> exists y :: y in vrec.outgoing[v] && vrec.outgoing[v][y] == e
    {
      if ValidVertex(v) then
        assert forall e :: e in vrec.outgoing[v].Values ==>
          ValidEdge(e) && (erec.endpoints[e].0 == v || (!isDirected && erec.endpoints[e].1 == v)) by {
          forall e | e in vrec.outgoing[v].Values
            ensures ValidEdge(e) && (erec.endpoints[e].0 == v || (!isDirected && erec.endpoints[e].1 == v))
          {
            var y :| y in vrec.outgoing[v] && vrec.outgoing[v][y] == e;
            EntryFacts(v, y);
          }
        }
        Ok(vrec.outgoing[v].Values)
      else Err(InvalidVertex)
    }

    function IncomingEdges(v: Vertex): (r: Result<set<Edge>>)
      reads this
      requires Valid()
      ensures r.Err? <==> !ValidVertex(v)
      ensures r.Err? ==> r.error == InvalidVertex
      ensures r.Ok? ==> forall e :: e in r.value ==>
        ValidEdge(e) && (erec.endpoints[e].1 == v || (!isDirected && erec.endpoints[e].0 == v))
      ensures r.Ok? ==> forall x :: x in InMap(v) ==> InMap(v)[x] in r.value
      ensures r.Ok? ==> forall e :: e in r.value ==> exists x :: x in InMap(v) && InMap(v)[x] == e
      ensures !isDirected ==> r == OutgoingEdges(v)
    {
      if ValidVertex(v) then
        assert forall e :: e in InMap(v).Values ==>
          ValidEdge(e) && (erec.endpoints[e].1 == v || (!isDirected && erec.endpoints[e].0 == v)) by {
          forall e | e in InMap(v).Values
            ensures ValidEdge(e) && (erec.endpoints[e].1 == v || (!isDirected && erec.endpoints[e].0 == v))
          {
            var x :| x in InMap(v) && InMap(v)[x] == e;
            InEntryFacts(v, x);
            EntryFacts(x, v);
          }
        }
        Ok(InMap(v).Values)
      else Err(InvalidVertex)
    }

    /** Only `u` is validated; a `v` that is not a key gives none. */
    function GetEdge(u: Vertex, v: Vertex): (r: Result<Option<Edge>>)
      reads this
      requires Valid()
      ensures r.Err? <==> !ValidVertex(u)
      ensures r.Err? ==> r.error == InvalidVertex
      ensures r.Ok? ==> (r.value.Some? <==> v in vrec.outgoing[u])
      ensures r.Ok? && r.value.Some? ==>
        ValidEdge(r.value.value) && ValidVertex(v) &&
        (erec.endpoints[r.value.value] == (u, v) || (!isDirected && erec.endpoints[r.value.value] == (v, u)))
    {
      if !ValidVertex(u) then Err(InvalidVertex)
      else if v in vrec.outgoing[u] then EntryFacts(u, v); Ok(Some(vrec.outgoing[u][v]))
      else Ok(None)
    }

    function EndVertices(e: Edge): (r: Result<(Vertex, Vertex)>)
      reads this
      requires Valid()
      ensures r.Err? <==> !ValidEdge(e)
      ensures r.Err? ==> r.error == InvalidEdge
      ensures r.Ok? ==> r.value == erec.endpoints[e]
    {
      if ValidEdge(e) then Ok(erec.endpoints[e]) else Err(InvalidEdge)
    }

    /** Only `e` is validated; `v` is compared with the endpoints, the first one first. */
    function Opposite(v: Vertex, e: Edge): (r: Result<Vertex>)
      reads this
      requires Valid()
      ensures r == Err(InvalidEdge) <==> !ValidEdge(e)
      ensures r == Err(NotIncident) <==>
        ValidEdge(e) && v != erec.endpoints[e].0 && v != erec.endpoints[e].1
      ensures r.Ok? ==>
        && ValidEdge(e)
        && ((v == erec.endpoints[e].0 && r.value == erec.endpoints[e].1) ||
            (v == erec.endpoints[e].1 && r.value == erec.endpoints[e].0))
      ensures ValidEdge(e) && v == erec.endpoints[e].0 ==> r == Ok(erec.endpoints[e].1)
      ensures ValidEdge(e) && v != erec.endpoints[e].0 && v == erec.endpoints[e].1 ==> r == Ok(erec.endpoints[e].0)
    {
      if !ValidEdge(e) then Err(InvalidEdge)
      else if erec.endpoints[e].0 == v then Ok(erec.endpoints[e].1)
      else if erec.endpoints[e].1 == v then Ok(erec.endpoints[e].0)
      else Err(NotIncident)
    }

    /** The key-pair invariant: `x` is a key of `w`'s outgoing map exactly when `w` is a
        key of `x`'s incoming map, and both entries hold the same edge. */
    lemma KeyPairs(w: Vertex, x: Vertex)
      requires Valid() && w in vrec.outgoing && x in vrec.outgoing
      ensures x in vrec.outgoing[w] <==> w in InMap(x)
      ensures x in vrec.outgoing[w] ==> vrec.outgoing[w][x] == InMap(x)[w]
    {
      if x in vrec.outgoing[w] {
        EntryFacts(w, x);
      }
      if w in InMap(x) {
        InEntryFacts(x, w);
      }
    }

    /** No edge sits in two slots of one outgoing map, so `outgoingEdges(v)` has
        `outDegree(v)` members. */
    lemma OutgoingCount(v: Vertex)
      requires Valid() && ValidVertex(v)
      ensures |OutgoingEdges(v).value| == OutDegree(v).value
    {
      var m := vrec.outgoing[v];
      forall a, b | a in m && b in m && m[a] == m[b] ensures a == b {
        EntryFacts(v, a);
        EntryFacts(v, b);
      }
      InjectiveValues(m);
    }

    /** The same for `incomingEdges(v)` and `inDegree(v)`. */
    lemma IncomingCount(v: Vertex)
      requires Valid() && ValidVertex(v)
      ensures |IncomingEdges(v).value| == InDegree(v).value
    {
      var m := InMap(v);
      forall a, b | a in m && b in m && m[a] == m[b] ensures a == b {
        InEntryFacts(v, a);
        InEntryFacts(v, b);
        EntryFacts(a, v);
        EntryFacts(b, v);
      }
      InjectiveValues(m);
    }

    /** In an undirected graph the edge between two vertices is found from either end. */
    lemma UndirectedGetEdge(u: Vertex, v: Vertex)
      requires Valid() && !isDirected && ValidVertex(u) && ValidVertex(v)
      ensures GetEdge(u, v) == GetEdge(v, u)
    {
      KeyPairs(u, v);
      KeyPairs(v, u);
    }

    /** The edge `getEdge(u, v)` returns leads from `u` to `v`. */
    lemma GetEdgeOpposite(u: Vertex, v: Vertex)
      requires Valid() && GetEdge(u, v).Ok? && GetEdge(u, v).value.Some?
      ensures Opposite(u, GetEdge(u, v).value.value) == Ok(v)
    {
    }

    /** Crossing an edge twice, from an endpoint, comes back to where it started. */
    lemma OppositeTwice(v: Vertex, e: Edge)
      requires Valid() && Opposite(v, e).Ok?
      ensures Opposite(Opposite(v, e).value, e) == Ok(v)
    {
    }

    /** A valid edge has its element and its endpoints recorded. */
    lemma EdgeRecorded(e: Edge)
      requires Valid() && ValidEdge(e)
      ensures e in erec.element && e in erec.endpoints
    {
    }

    /** A new record with empty maps, appended to the vertex list. */
    method InsertVertex(x: V) returns (v: Vertex)
      requires Valid()
      modifies this
      ensures Valid()
      ensures v.graph == id && v !in old(vrec.element) && ValidVertex(v)
      ensures NumVertices() == old(NumVertices()) + 1 && OutDegree(v) == Ok(0) && InDegree(v) == Ok(0)
      ensures vertices == old(vertices) + [v] && edges == old(edges) && erec == old(erec)
      ensures && vrec.element == old(vrec.element)[v := x]
              && vrec.outgoing == old(vrec.outgoing)[v := map[]]
              && vrec.incoming == (if isDirected then old(vrec.incoming)[v := map[]] else old(vrec.incoming))
              && vrec.live == old(vrec.live) + {v} && vrec.count == old(vrec.count) + 1
    {
      v := Vertex(id, vrec.count);
      InsertVertexKeeps(id, isDirected, vertices, edges, vrec, erec, v, x);
      vertices, vrec := vertices + [v], AddedVertex(isDirected, vrec, v, x);
    }

    /** The edge record is created and appended to the edge list before either endpoint
        is validated; only when both are valid do the two puts follow. There is no check
        for an existing edge from `u` to `v`: a second one replaces the first in the maps. */
    method InsertEdge(u: Vertex, v: Vertex, x: E) returns (r: Result<Edge>)
      requires Valid()
      modifies this
      ensures Valid()
      ensures var e := Edge(id, old(erec.count));
        && e !in old(erec.element)
        && edges == old(edges) + [e]
        && erec.element == old(erec.element)[e := x] && erec.endpoints == old(erec.endpoints)[e := (u, v)]
        && erec.live == old(erec.live) + {e} && erec.count == old(erec.count) + 1
        && (r.Ok? <==> old(ValidVertex(u) && ValidVertex(v)))
        && (r.Ok? ==> r.value == e)
        && (r.Err? ==> r.error == InvalidVertex)
        && vrec.element == old(vrec.element) && vrec.live == old(vrec.live) && vrec.count == old(vrec.count)
        && vrec.outgoing == (if r.Ok? then OutAfterPut(isDirected, old(vrec.outgoing), u, v, e) else old(vrec.outgoing))
        && vrec.incoming == (if r.Ok? then InAfterPut(isDirected, old(vrec.incoming), u, v, e) else old(vrec.incoming))
      ensures vertices == old(vertices)
      ensures r.Ok? ==> GetEdge(u, v) == Ok(Some(r.value))
      ensures r.Ok? && !isDirected ==> GetEdge(v, u) == Ok(Some(r.value))
    {
      var e := Edge(id, erec.count);
      var ok := ValidVertex(u) && ValidVertex(v);
      InsertEdgeKeeps(id, isDirected, vertices, edges, vrec, erec, u, v, x, e, ok);
      edges, erec, vrec := edges + [e], AddedEdge(erec, u, v, x, e), PutEdge(isDirected, vrec, u, v, e, ok);
      r := if ok then Ok(e) else Err(InvalidVertex);
    }

    /** The two removals go by the endpoint keys recorded in the edge, whatever edge those
        slots hold now; then the edge leaves the list. An endpoint that is not a record of
        this graph is skipped. */
    method RemoveEdge(e: Edge) returns (r: Result<()>)
      requires Valid()
      modifies this
      ensures Valid()
      ensures r.Err? <==> old(!ValidEdge(e))
      ensures r.Ok? ==> !ValidEdge(e) && NumEdges() == old(NumEdges()) - 1
      ensures r.Err? ==> r.error == InvalidEdge && unchanged(this)
      ensures r.Ok? ==>
        && e in erec.endpoints
        && vrec == old(vrec).(outgoing := OutAfterRemove(isDirected, old(vrec.outgoing), erec.endpoints[e].0, erec.endpoints[e].1),
                              incoming := InAfterRemove(isDirected, old(vrec.incoming), erec.endpoints[e].0, erec.endpoints[e].1))
        && erec == old(erec).(live := old(erec.live) - {e})
        && edges == Filter(old(edges), {e}) && |edges| == |old(edges)| - 1
      ensures r.Ok? && old(Placed(vrec.outgoing, erec.endpoints, e)) ==>
        vrec.outgoing == DropAll(old(vrec.outgoing), {e}) && vrec.incoming == DropAll(old(vrec.incoming), {e})
      ensures vertices == old(vertices)
    {
      if !ValidEdge(e) {
        return Err(InvalidEdge);
      }
      RemoveEdgeKeeps(id, isDirected, vertices, edges, vrec, erec, e);
      edges, erec, vrec := Filter(edges, {e}), erec.(live := erec.live - {e}), DetachEdge(isDirected, vrec, erec, e);
      r := Ok(());
    }


    /** removeEdge as the code stands: after `validate`, the cast of the endpoint array
        fails for every edge, since that array was created as an array of Vertex and not
        of InnerVertex. Nothing has changed when either exception is thrown. */
    function RemoveEdgeAsWritten(e: Edge): (r: Result<()>)
      reads this
      ensures r.Err?
      ensures r.error == InvalidEdge <==> !ValidEdge(e)
      ensures r.error == EndpointCast <==> ValidEdge(e)
    {
      if !ValidEdge(e) then Err(InvalidEdge) else Err(EndpointCast)
    }

    /** removeVertex as the code stands: the exception it throws, if any. The first
        `removeEdge` of its loops throws, so a valid vertex with any entry in its maps
        stays in the graph, which is left unchanged; one with empty maps is removed as
        `RemoveVertex` states. */
    function RemoveVertexThrows(v: Vertex): (r: Option<GraphError>)
      reads this
      requires Valid()
      ensures r == Some(InvalidVertex) <==> !ValidVertex(v)
      ensures r == Some(EndpointCast) <==> ValidVertex(v) && (vrec.outgoing[v] != map[] || InMap(v) != map[])
      ensures r.Some? ==> r == Some(InvalidVertex) || r == Some(EndpointCast)
    {
      if !ValidVertex(v) then Some(InvalidVertex)
      else if vrec.outgoing[v] != map[] || InMap(v) != map[] then Some(EndpointCast)
      else None
    }

    /** Where the code's removeVertex does not throw, the vertex's maps hold no edge, so
        `RemoveVertex` removes no edge either: the two agree there. */
    lemma QuietRemoval(v: Vertex)
      requires Valid() && RemoveVertexThrows(v) == None
      ensures ValidVertex(v) && Incident(isDirected, vrec.outgoing, vrec.incoming, v) == {}
    {
      assert vrec.outgoing[v].Values == {} && InMap(v).Values == {};
    }

    /** The state removeVertex leaves, stated on the values it started from and the edges
        `d` its two loops removed. */
    lemma RemovedVertexValid(v: Vertex, vs0: seq<Vertex>, es0: seq<Edge>, vr0: VertexRecords<V>,
                             er0: EdgeRecords<E>, d: set<Edge>)
      requires Coherent(id, isDirected, vs0, es0, vr0, er0) && v in vr0.live
      requires d == Incident(isDirected, vr0.outgoing, vr0.incoming, v)
      requires vertices == Filter(vs0, {v}) && edges == Filter(es0, d)
      requires vrec == vr0.(outgoing := DropAll(vr0.outgoing, d), incoming := DropAll(vr0.incoming, d), live := vr0.live - {v})
      requires erec == er0.(live := er0.live - d)
      ensures Valid() && |vertices| == |vs0| - 1
      ensures vrec.outgoing[v] == map[] && InMap(v) == map[] && forall x :: x in vrec.outgoing ==> v !in vrec.outgoing[x]
    {
      RemoveVertexKeeps(id, isDirected, vs0, es0, vr0, er0, v);
    }

    /** The state after removeEdge has been applied to the edges `done`, one by one, from
        a state with vertex records `vr0`, edge records `er0` and edge list `es0`, each of
        them placed when its turn came. */
    ghost predicate RemovedFrom(vr0: VertexRecords<V>, er0: EdgeRecords<E>, es0: seq<Edge>, done: set<Edge>)
      reads this
    {
      && vrec == vr0.(outgoing := DropAll(vr0.outgoing, done), incoming := DropAll(vr0.incoming, done))
      && erec == er0.(live := er0.live - done)
      && edges == Filter(es0, done)
    }

    /** One of the two loops of removeVertex: `removeEdge` on every edge of a snapshot `s`
        of an adjacency map's values, in an order the model leaves open. The edges
        `done0` have been removed before. Each edge of `s` is still valid and sits in its
        own slot when its turn comes, so each removal drops just that edge from the maps. */
    method RemoveEach(s: set<Edge>, ghost vr0: VertexRecords<V>, ghost er0: EdgeRecords<E>,
                      ghost es0: seq<Edge>, ghost done0: set<Edge>)
      requires Valid() && s !! done0 && RemovedFrom(vr0, er0, es0, done0)
      requires forall e :: e in s ==> e.graph == id && e in er0.live && Placed(vr0.outgoing, er0.endpoints, e)
      modifies this
      ensures Valid() && RemovedFrom(vr0, er0, es0, done0 + s) && vertices == old(vertices)
    {
      var todo := s;
      ghost var done := done0;
      while todo != {}
        invariant Valid() && RemovedFrom(vr0, er0, es0, done)
        invariant todo + done == done0 + s && todo <= s && todo !! done
        invariant vertices == old(vertices)
        decreases todo
      {
        var e :| e in todo;
        RemoveNext(e, vr0, er0, es0, done);
        todo, done := todo - {e}, done + {e};
      }
      assert done == done0 + s;
    }

    /** One turn of those loops: `removeEdge(e)` on an edge of the snapshot not yet removed. */
    method RemoveNext(e: Edge, ghost vr0: VertexRecords<V>, ghost er0: EdgeRecords<E>,
                      ghost es0: seq<Edge>, ghost done: set<Edge>)
      requires Valid() && e !in done && RemovedFrom(vr0, er0, es0, done)
      requires e.graph == id && e in er0.live && Placed(vr0.outgoing, er0.endpoints, e)
      modifies this
      ensures Valid() && RemovedFrom(vr0, er0, es0, done + {e}) && vertices == old(vertices)
    {
      PlacedSurvives(vr0.outgoing, er0.endpoints, e, done);
      var r := RemoveEdge(e);
      DropAllTwice(vr0.outgoing, done, {e});
      DropAllTwice(vr0.incoming, done, {e});
      FilterTwice(es0, done, {e});
    }

    /** Both loops over snapshots of the vertex's maps, then the vertex leaves the list and
        loses its position. Its record, now with empty maps, is kept. */
    method RemoveVertex(v: Vertex) returns (r: Result<()>)
      requires Valid()
      modifies this
      ensures Valid()
      ensures r.Err? <==> old(!ValidVertex(v))
      ensures r.Err? ==> r.error == InvalidVertex && unchanged(this)
      ensures r.Ok? ==> var d := old(Incident(isDirected, vrec.outgoing, vrec.incoming, v));
        && d <= old(erec.live)
        && vrec == old(vrec).(outgoing := DropAll(old(vrec.outgoing), d), incoming := DropAll(old(vrec.incoming), d),
                              live := old(vrec.live) - {v})
        && erec == old(erec).(live := old(erec.live) - d)
        && vertices == Filter(old(vertices), {v}) && edges == Filter(old(edges), d)
        && |vertices| == |old(vertices)| - 1
      ensures r.Ok? ==> && !ValidVertex(v) && vrec.outgoing[v] == map[] && InMap(v) == map[]
                        && forall x :: x in vrec.outgoing ==> v !in vrec.outgoing[x]
    {
      if !ValidVertex(v) {
        return Err(InvalidVertex);
      }
      ghost var vs0, es0, vr0, er0 := vertices, edges, vrec, erec;
      RemoveVertexSteps(id, isDirected, vertices, edges, vrec, erec, v);
      DropAllNothing(vr0.outgoing);
      DropAllNothing(vr0.incoming);
      FilterUntouched(es0, {});
      assert RemovedFrom(vr0, er0, es0, {});
      var first := vrec.outgoing[v].Values;
      RemoveEach(first, vr0, er0, es0, {});
      var second := InMap(v).Values;
      RemoveEach(second, vr0, er0, es0, {} + first);
      vertices, vrec := Filter(vertices, {v}), vrec.(live := vrec.live - {v});
      RemovedVertexValid(v, vs0, es0, vr0, er0, {} + first + second);
      r := Ok(());
    }
  }

  /** The vertex records once `v` is created with element `x`: the update `InsertVertex`'s
      ensures state field by field, named here for `InsertVertexKeeps`. */
  function AddedVertex<V>(directed: bool, vr: VertexRecords<V>, v: Vertex, x: V): VertexRecords<V> {
    vr.(element := vr.element[v := x], outgoing := vr.outgoing[v := map[]],
        incoming := if directed then vr.incoming[v := map[]] else vr.incoming,
        live := vr.live + {v}, count := vr.count + 1)
  }

  lemma InsertVertexKeeps<V, E>(id: nat, directed: bool, vertices: seq<Vertex>, edges: seq<Edge>,
                                vr: VertexRecords<V>, er: EdgeRecords<E>, v: Vertex, x: V)
    requires Coherent(id, directed, vertices, edges, vr, er) && v == Vertex(id, vr.count)
    ensures v !in vr.element && v !in vr.live
    ensures Coherent(id, directed, vertices + [v], edges, AddedVertex(directed, vr, v, x), er)
  {
    assert v !in vr.element && v !in vr.live && v !in vertices;
    LinkedNewVertex(directed, vr.outgoing, vr.incoming, er.endpoints, vr.live, er.live, v);
    DistinctAppend(vertices, v);
  }

  /** The edge records once `e` from `u` to `v` is created with element `x`: the update
      `InsertEdge`'s ensures state field by field, named here for `InsertEdgeKeeps`. */
  function AddedEdge<E>(er: EdgeRecords<E>, u: Vertex, v: Vertex, x: E, e: Edge): EdgeRecords<E> {
    er.(element := er.element[e := x], endpoints := er.endpoints[e := (u, v)],
        live := er.live + {e}, count := er.count + 1)
  }

  /** The vertex records after the two puts of insertEdge, if they happen: the same update
      as `InsertEdge`'s ensures on the maps, named here for `InsertEdgeKeeps`. */
  function PutEdge<V>(directed: bool, vr: VertexRecords<V>, u: Vertex, v: Vertex, e: Edge, ok: bool): VertexRecords<V> {
    if ok then vr.(outgoing := OutAfterPut(directed, vr.outgoing, u, v, e),
                   incoming := InAfterPut(directed, vr.incoming, u, v, e))
    else vr
  }

  lemma InsertEdgeKeeps<V, E>(id: nat, directed: bool, vertices: seq<Vertex>, edges: seq<Edge>,
                              vr: VertexRecords<V>, er: EdgeRecords<E>, u: Vertex, v: Vertex, x: E, e: Edge, ok: bool)
    requires Coherent(id, directed, vertices, edges, vr, er) && e == Edge(id, er.count)
    requires ok == (u.graph == id && u in vr.live && v.graph == id && v in vr.live)
    ensures e !in er.element
    ensures Coherent(id, directed, vertices, edges + [e], PutEdge(directed, vr, u, v, e, ok), AddedEdge(er, u, v, x, e))
  {
    NewEdgeKeeps(id, directed, vertices, edges, vr, er, u, v, x, e);
    if ok {
      PutKeeps(id, directed, vertices, edges + [e], vr, AddedEdge(er, u, v, x, e), u, v, e);
    }
  }

  /** Recording a fresh edge, before any put. */
  lemma NewEdgeKeeps<V, E>(id: nat, directed: bool, vertices: seq<Vertex>, edges: seq<Edge>,
                           vr: VertexRecords<V>, er: EdgeRecords<E>, u: Vertex, v: Vertex, x: E, e: Edge)
    requires Coherent(id, directed, vertices, edges, vr, er) && e == Edge(id, er.count)
    ensures e !in er.element
    ensures Coherent(id, directed, vertices, edges + [e], vr, AddedEdge(er, u, v, x, e))
  {
    assert e !in er.element && e !in er.endpoints && e !in er.live && e !in edges;
    LinkedNewEdge(directed, vr.outgoing, vr.incoming, er.endpoints, vr.live, er.live, e, (u, v));
    DistinctAppend(edges, e);
  }

  /** The two puts of a recorded edge between live vertices. */
  lemma PutKeeps<V, E>(id: nat, directed: bool, vertices: seq<Vertex>, edges: seq<Edge>,
                       vr: VertexRecords<V>, er: EdgeRecords<E>, u: Vertex, v: Vertex, e: Edge)
    requires Coherent(id, directed, vertices, edges, vr, er)
    requires u in vr.live && v in vr.live && e in er.live && er.endpoints[e] == (u, v)
    ensures Coherent(id, directed, vertices, edges, PutEdge(directed, vr, u, v, e, true), er)
  {
    LinkedPut(directed, vr.outgoing, vr.incoming, er.endpoints, vr.live, er.live, u, v, e);
  }

  /** The two snapshots of removeVertex: the values of `v`'s outgoing map, then those of
      its incoming map once the first loop is over. Every edge in them is live and placed
      when its turn comes, and together they are `Incident`, the edges held in `v`'s maps. */
  lemma RemoveVertexSteps<V, E>(id: nat, directed: bool, vertices: seq<Vertex>, edges: seq<Edge>,
                                vr: VertexRecords<V>, er: EdgeRecords<E>, v: Vertex)
    requires Coherent(id, directed, vertices, edges, vr, er) && v in vr.live
    ensures var first := vr.outgoing[v].Values;
      var second := InOf(directed, DropAll(vr.outgoing, {} + first), DropAll(vr.incoming, {} + first), v).Values;
      && (forall e :: e in first ==> e.graph == id && e in er.live && Placed(vr.outgoing, er.endpoints, e))
      && (forall e :: e in second ==> e.graph == id && e in er.live && Placed(vr.outgoing, er.endpoints, e))
      && first !! second
      && {} + first + second == Incident(directed, vr.outgoing, vr.incoming, v)
  {
    var first := vr.outgoing[v].Values;
    assert {} + first == first;
    var second := InOf(directed, DropAll(vr.outgoing, first), DropAll(vr.incoming, first), v).Values;
    var d := Incident(directed, vr.outgoing, vr.incoming, v);
    forall e | e in d ensures e in er.live && Placed(vr.outgoing, er.endpoints, e) {
      IncidentPlaced(directed, vr.outgoing, vr.incoming, er.endpoints, vr.live, er.live, v, e);
    }
    InOfDropAll(directed, vr.outgoing, vr.incoming, v, first);
    forall e | e in d ensures e in first + second {
      if e !in first {
        var x :| x in InOf(directed, vr.outgoing, vr.incoming, v) && InOf(directed, vr.outgoing, vr.incoming, v)[x] == e;
        assert Drop(InOf(directed, vr.outgoing, vr.incoming, v), first)[x] == e;
      }
    }
  }

  /** Once every edge held in `v`'s maps is gone, `v` may lose its position. */
  lemma RemoveVertexKeeps<V, E>(id: nat, directed: bool, vertices: seq<Vertex>, edges: seq<Edge>,
                                vr: VertexRecords<V>, er: EdgeRecords<E>, v: Vertex)
    requires Coherent(id, directed, vertices, edges, vr, er) && v in vr.live
    ensures var d := Incident(directed, vr.outgoing, vr.incoming, v);
      Coherent(id, directed, Filter(vertices, {v}), Filter(edges, d),
               vr.(outgoing := DropAll(vr.outgoing, d), incoming := DropAll(vr.incoming, d), live := vr.live - {v}),
               er.(live := er.live - d))
    ensures |Filter(vertices, {v})| == |vertices| - 1
    ensures var d := Incident(directed, vr.outgoing, vr.incoming, v);
      && DropAll(vr.outgoing, d)[v] == map[]
      && InOf(directed, DropAll(vr.outgoing, d), DropAll(vr.incoming, d), v) == map[]
      && (forall x :: x in DropAll(vr.outgoing, d) ==> v !in DropAll(vr.outgoing, d)[x])
  {
    var d := Incident(directed, vr.outgoing, vr.incoming, v);
    IncidentCleared(directed, vr.outgoing, vr.incoming, er.endpoints, vr.live, er.live, v);
    FilterDistinct(vertices, {v});
    FilterDistinct(edges, d);
    FilterOne(vertices, v);
  }

  /** The vertex records after the two removals of removeEdge: the same update as
      `RemoveEdge`'s ensures on the maps, named here for `RemoveEdgeKeeps`. */
  function DetachEdge<V, E>(directed: bool, vr: VertexRecords<V>, er: EdgeRecords<E>, e: Edge): VertexRecords<V>
    requires e in er.endpoints
  {
    var (a, b) := er.endpoints[e];
    vr.(outgoing := OutAfterRemove(directed, vr.outgoing, a, b),
        incoming := InAfterRemove(directed, vr.incoming, a, b))
  }

  lemma RemoveEdgeKeeps<V, E>(id: nat, directed: bool, vertices: seq<Vertex>, edges: seq<Edge>,
                              vr: VertexRecords<V>, er: EdgeRecords<E>, e: Edge)
    requires Coherent(id, directed, vertices, edges, vr, er) && e in er.live
    ensures e in er.endpoints && |Filter(edges, {e})| == |edges| - 1
    ensures Coherent(id, directed, vertices, Filter(edges, {e}), DetachEdge(directed, vr, er, e), er.(live := er.live - {e}))
    ensures Placed(vr.outgoing, er.endpoints, e) ==>
      && DetachEdge(directed, vr, er, e).outgoing == DropAll(vr.outgoing, {e})
      && DetachEdge(directed, vr, er, e).incoming == DropAll(vr.incoming, {e})
  {
    LinkedRemove(directed, vr.outgoing, vr.incoming, er.endpoints, vr.live, er.live, e);
    if Placed(vr.outgoing, er.endpoints, e) {
      RemovePlacedDrops(directed, vr.outgoing, vr.incoming, er.endpoints, vr.live, er.live, e);
    }
    FilterDistinct(edges, {e});
    FilterOne(edges, e);
  }

  /** A new graph holding two vertices and no edges. */
  method TwoVertices<V, E>(directed: bool, a: V, b: V) returns (g: AdjacencyMapGraph<V, E>, u: Vertex, v: Vertex)
    ensures fresh(g) && g.Valid() && g.isDirected == directed
    ensures g.ValidVertex(u) && g.ValidVertex(v) && u != v && g.vertices == [u, v]
    ensures g.vrec.outgoing[u] == map[] && g.edges == [] && g.erec.live == {}
  {
    g := new AdjacencyMapGraph(directed, 0);
    u := g.InsertVertex(a);
    v := g.InsertVertex(b);
  }

  /** A new graph holding two vertices joined by one edge. */
  method OneEdge<V, E>(directed: bool, a: V, b: V, x: E) returns (g: AdjacencyMapGraph<V, E>, u: Vertex, v: Vertex, e: Edge)
    ensures fresh(g) && g.Valid() && g.ValidVertex(u) && g.ValidVertex(v) && u != v
    ensures g.vrec.outgoing[u] == map[v := e] && g.edges == [e] && g.erec.live == {e} && g.erec.endpoints[e] == (u, v)
  {
    g, u, v := TwoVertices(directed, a, b);
    var r := g.InsertEdge(u, v, x);
    e := r.value;
  }

  /** On a graph of one edge, the code's removeEdge and its removeVertex on either
      endpoint throw ClassCastException, while the intended removal succeeds. */
  method CastFailure<V, E>(directed: bool, a: V, b: V, x: E)
    returns (g: AdjacencyMapGraph<V, E>, e: Edge, written: Result<()>, thrown: Option<GraphError>, intended: Result<()>)
    ensures written == Err(EndpointCast) && thrown == Some(EndpointCast)
    ensures intended.Ok? && g.Valid() && !g.ValidEdge(e) && g.NumEdges() == 0
  {
    var u, v;
    g, u, v, e := OneEdge(directed, a, b, x);
    assert e in g.erec.live && g.ValidEdge(e);
    written := g.RemoveEdgeAsWritten(e);
    thrown := g.RemoveVertexThrows(u);
    intended := g.RemoveEdge(e);
  }

  /** Two edges inserted between the same pair of new vertices: both stay in the edge
      list and are valid, while the maps hold only the second. */
  method ParallelEdges<V, E>(directed: bool, a: V, b: V, x: E, y: E)
    returns (g: AdjacencyMapGraph<V, E>, u: Vertex, v: Vertex, e1: Edge, e2: Edge)
    ensures g.Valid() && g.ValidVertex(u) && g.ValidVertex(v) && u != v
    ensures g.ValidEdge(e1) && g.ValidEdge(e2) && e1 != e2 && g.NumEdges() == 2
    ensures g.erec.endpoints[e1] == (u, v) && g.GetEdge(u, v) == Ok(Some(e2))
    ensures g.vrec.outgoing[u].Keys == {v} && fresh(g)
  {
    g, u, v, e1 := OneEdge(directed, a, b, x);
    var r := g.InsertEdge(u, v, y);
    e2 := r.value;
  }

  /** Removing the first of two parallel edges clears the slot the second occupies, so
      the second stays valid but can no longer be found. */
  method ShadowedRemoval<V, E>(directed: bool, a: V, b: V, x: E, y: E)
    returns (g: AdjacencyMapGraph<V, E>, u: Vertex, v: Vertex, e1: Edge, e2: Edge)
    ensures g.Valid() && e1 != e2 && g.ValidVertex(u) && g.ValidVertex(v)
    ensures !g.ValidEdge(e1) && g.ValidEdge(e2) && g.NumEdges() == 1
    ensures g.GetEdge(u, v) == Ok(None) && g.OutDegree(u) == Ok(0)
  {
    g, u, v, e1, e2 := ParallelEdges(directed, a, b, x, y);
    var r := g.RemoveEdge(e1);
  }

  /** Removing a vertex removes only the edges its maps hold: of two parallel edges from
      it, the first, which no map holds any more, stays valid, though one of its
      endpoints no longer is. */
  method ShadowedVertexRemoval<V, E>(directed: bool, a: V, b: V, x: E, y: E)
    returns (g: AdjacencyMapGraph<V, E>, u: Vertex, v: Vertex, e1: Edge, e2: Edge)
    ensures g.Valid() && !g.ValidVertex(u) && g.ValidVertex(v) && e1 != e2
    ensures g.ValidEdge(e1) && !g.ValidEdge(e2) && g.NumEdges() == 1 && g.erec.endpoints[e1] == (u, v)
  {
    g, u, v, e1, e2 := ParallelEdges(directed, a, b, x, y);
    IncidentPlaced(g.isDirected, g.vrec.outgoing, g.vrec.incoming, g.erec.endpoints, g.vrec.live, g.erec.live, u, e1);
    IncidentPlaced(g.isDirected, g.vrec.outgoing, g.vrec.incoming, g.erec.endpoints, g.vrec.live, g.erec.live, u, e2);
    var r := g.RemoveVertex(u);
  }

  /** An insertion whose endpoint has been removed fails, yet its edge stays in the
      edge list and counts as valid. */
  /** An edge whose insertion failed on a removed endpoint is valid and touches the other
      endpoint, whose maps stay empty: removeVertex as written does not throw for it. */
  method UnplacedIncidentEdge<V, E>(directed: bool, a: V, b: V, x: E)
    returns (g: AdjacencyMapGraph<V, E>, u: Vertex, w: Vertex, r: Result<Edge>)
    ensures g.Valid() && g.ValidVertex(u) && !g.ValidVertex(w) && r == Err(InvalidVertex)
    ensures g.NumEdges() == 1 && g.ValidEdge(g.edges[0]) && g.erec.endpoints[g.edges[0]] == (u, w)
    ensures g.RemoveVertexThrows(u) == None
  {
    g := new AdjacencyMapGraph(directed, 0);
    u := g.InsertVertex(a);
    w := g.InsertVertex(b);
    var _ := g.RemoveVertex(w);
    r := g.InsertEdge(u, w, x);
  }

  method FailedInsertion<V, E>(directed: bool, a: V, x: E)
    returns (g: AdjacencyMapGraph<V, E>, v: Vertex, r: Result<Edge>)
    ensures g.Valid() && !g.ValidVertex(v) && r == Err(InvalidVertex)
    ensures g.NumVertices() == 0 && g.NumEdges() == 1 && g.ValidEdge(g.edges[0])
  {
    g := new AdjacencyMapGraph(directed, 0);
    v := g.InsertVertex(a);
    var _ := g.RemoveVertex(v);
    r := g.InsertEdge(v, v, x);
  }
}
