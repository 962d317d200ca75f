/** The adjacency maps of an adjacency-map graph, as plain values: for every vertex record
    an outgoing map from neighbour to edge and, in a directed graph, an incoming map; in an
    undirected graph the incoming map of a vertex is its outgoing map. The lemmas here say
    how the map updates of insertEdge, removeEdge and removeVertex keep the maps mirrored. */
module AdjacencyMaps {
  import opened Collections

  /** A vertex handle. `graph` names the graph that created it (it stands for the
      enclosing-instance identity that `validate` compares); `serial` tells the handles
      of one graph apart. */
  datatype Vertex = Vertex(graph: nat, serial: nat)

  /** An edge handle, made the same way. */
  datatype Edge = Edge(graph: nat, serial: nat)

  /** One vertex's adjacency map, from neighbour to edge. */
  type Adjacency = map<Vertex, Edge>

  /** The maps of all vertex records, by vertex. */
  type AdjacencyTable = map<Vertex, Adjacency>

  /** `put(y, e)` on the adjacency map of `x`; nothing when `x` has no map in the table. */
  function Attach(adj: AdjacencyTable, x: Vertex, y: Vertex, e: Edge): (r: AdjacencyTable)
    ensures r.Keys == adj.Keys
    ensures x in adj ==> r[x] == adj[x][y := e]
    ensures forall z :: z in adj && z != x ==> r[z] == adj[z]
  {
    if x in adj then adj[x := adj[x][y := e]] else adj
  }

  /** `remove(y)` on the adjacency map of `x`; nothing when `x` has no map in the table. */
  function Detach(adj: AdjacencyTable, x: Vertex, y: Vertex): (r: AdjacencyTable)
    ensures r.Keys == adj.Keys
    ensures x in adj ==> r[x] == adj[x] - {y}
    ensures forall z :: z in adj && z != x ==> r[z] == adj[z]
  {
    if x in adj then adj[x := adj[x] - {y}] else adj
  }

  /** `getIncoming()` of `y`: its own incoming map when directed, its outgoing map (the
      alias) when undirected. */
  function InOf(directed: bool, out: AdjacencyTable, inc: AdjacencyTable, y: Vertex): (r: Adjacency)
    ensures !directed && y in out ==> r == out[y]
    ensures directed && y in inc ==> r == inc[y]
  {
    if directed then (if y in inc then inc[y] else map[])
    else (if y in out then out[y] else map[])
  }

  /** The outgoing table after the two puts of insertEdge: `e` under key `v` in the
      outgoing map of `u` and, as the incoming map of `v` is its outgoing map when the
      graph is undirected, under key `u` in that map too. */
  function OutAfterPut(directed: bool, out: AdjacencyTable, u: Vertex, v: Vertex, e: Edge): (r: AdjacencyTable)
    ensures r.Keys == out.Keys
    ensures u in out ==> v in r[u] && r[u][v] == e
    ensures !directed && v in out ==> u in r[v] && r[v][u] == e
    ensures directed ==> forall z :: z in out && z != u ==> r[z] == out[z]
    ensures !directed ==> forall z :: z in out && z != u && z != v ==> r[z] == out[z]
  {
    if directed then Attach(out, u, v, e) else Attach(Attach(out, u, v, e), v, u, e)
  }

  /** Every map of `t0` is still in `t`, with at least the keys it had. */
  ghost predicate KeysKept(t0: AdjacencyTable, t: AdjacencyTable) {
    forall x :: x in t0 ==> x in t && t0[x].Keys <= t[x].Keys
  }

  /** `b` is a key of the outgoing map of `a` and, when undirected, `a` one of `b`'s. */
  ghost predicate Adjacent(directed: bool, out: AdjacencyTable, a: Vertex, b: Vertex) {
    a in out && b in out[a] && (!directed ==> b in out && a in out[b])
  }

  /** The puts of insertEdge take no key away, and make `v` a neighbour of `u`. */
  lemma PutKeepsKeys(directed: bool, out: AdjacencyTable, u: Vertex, v: Vertex, e: Edge)
    requires u in out && v in out
    ensures KeysKept(out, OutAfterPut(directed, out, u, v, e))
    ensures Adjacent(directed, OutAfterPut(directed, out, u, v, e), u, v)
  {
    var t := Attach(out, u, v, e);
    var r := OutAfterPut(directed, out, u, v, e);
    forall x | x in out ensures x in r && out[x].Keys <= r[x].Keys {
      assert out[x].Keys <= t[x].Keys;
      if !directed {
        assert t[x].Keys <= Attach(t, v, u, e)[x].Keys;
      }
    }
  }

  /** The incoming table after the same two puts: `e` under key `u` in the incoming map
      of `v` when directed; unused, and unchanged, when undirected. */
  function InAfterPut(directed: bool, inc: AdjacencyTable, u: Vertex, v: Vertex, e: Edge): (r: AdjacencyTable)
    ensures r.Keys == inc.Keys
    ensures directed && v in inc ==> r[v] == inc[v][u := e]
    ensures forall z :: z in inc && (z != v || !directed) ==> r[z] == inc[z]
  {
    if directed then Attach(inc, v, u, e) else inc
  }

  /** The outgoing table after the two removals of removeEdge for endpoints (a, b): key
      `b` leaves the outgoing map of `a` and, when undirected, key `a` leaves that of `b`,
      which is its incoming map. */
  function OutAfterRemove(directed: bool, out: AdjacencyTable, a: Vertex, b: Vertex): (r: AdjacencyTable)
    ensures r.Keys == out.Keys
    ensures a in out ==> b !in r[a]
    ensures !directed && b in out ==> a !in r[b]
    ensures directed ==> forall z :: z in out && z != a ==> r[z] == out[z]
    ensures !directed ==> forall z :: z in out && z != a && z != b ==> r[z] == out[z]
  {
    if directed then Detach(out, a, b) else Detach(Detach(out, a, b), b, a)
  }

  /** The incoming table after the same two removals: key `a` leaves the incoming map
      of `b` when directed; unchanged when undirected. */
  function InAfterRemove(directed: bool, inc: AdjacencyTable, a: Vertex, b: Vertex): (r: AdjacencyTable)
    ensures r.Keys == inc.Keys
    ensures directed && b in inc ==> r[b] == inc[b] - {a}
    ensures forall z :: z in inc && (z != b || !directed) ==> r[z] == inc[z]
  {
    if directed then Detach(inc, b, a) else inc
  }

  /** The outgoing entry `x: y -> e` joins two live vertices by a live edge whose
      endpoints are (x, y) (or (y, x) when undirected), and `y`'s incoming map holds the
      mirror entry `x -> e`. */
  ghost predicate EntryLinked(directed: bool, out: AdjacencyTable, inc: AdjacencyTable,
                              ends: map<Edge, (Vertex, Vertex)>, lv: set<Vertex>, le: set<Edge>,
                              x: Vertex, y: Vertex)
  {
    && x in out && y in out[x]
    && x in lv && y in lv
    && out[x][y] in le && out[x][y] in ends
    && (ends[out[x][y]] == (x, y) || (!directed && ends[out[x][y]] == (y, x)))
    && x in InOf(directed, out, inc, y) && InOf(directed, out, inc, y)[x] == out[x][y]
  }

  /** The incoming entry `y: x -> e` mirrors the outgoing entry `x: y -> e`. */
  ghost predicate MirrorLinked(out: AdjacencyTable, inc: AdjacencyTable, y: Vertex, x: Vertex) {
    && y in inc && x in inc[y]
    && x in out && y in out[x] && out[x][y] == inc[y][x]
  }

  /** Every outgoing entry is linked, and (when directed) every incoming entry is a mirror.
      The facts about an entry are used by naming it (`EntryLinked(..., x, y)`), so that the
      solver does not unfold them for every map term it meets. */
  ghost predicate Linked(directed: bool, out: AdjacencyTable, inc: AdjacencyTable,
                         ends: map<Edge, (Vertex, Vertex)>, lv: set<Vertex>, le: set<Edge>)
  {
    && (forall x, y {:trigger EntryLinked(directed, out, inc, ends, lv, le, x, y)} ::
          x in out && y in out[x] ==> EntryLinked(directed, out, inc, ends, lv, le, x, y))
    && (directed ==> forall y, x {:trigger MirrorLinked(out, inc, y, x)} ::
          y in inc && x in inc[y] ==> MirrorLinked(out, inc, y, x))
  }

  /** A directed graph keeps an incoming map for every record; an undirected one keeps none. */
  ghost predicate Tables(directed: bool, out: AdjacencyTable, inc: AdjacencyTable) {
    if directed then inc.Keys == out.Keys else inc == map[]
  }

  /** insertVertex adds a record with empty maps. */
  lemma LinkedNewVertex(directed: bool, out: AdjacencyTable, inc: AdjacencyTable,
                        ends: map<Edge, (Vertex, Vertex)>, lv: set<Vertex>, le: set<Edge>, v: Vertex)
    requires Tables(directed, out, inc) && Linked(directed, out, inc, ends, lv, le)
    requires v !in out && v !in lv
    ensures Linked(directed, out[v := map[]], if directed then inc[v := map[]] else inc, ends, lv + {v}, le)
  {
    var out' := out[v := map[]];
    var inc' := if directed then inc[v := map[]] else inc;
    forall x, y | x in out' && y in out'[x] ensures EntryLinked(directed, out', inc', ends, lv + {v}, le, x, y) {
      assert x != v && out'[x] == out[x];
      assert EntryLinked(directed, out, inc, ends, lv, le, x, y);
      assert y != v;
      if directed {
        assert inc'[y] == inc[y];
      } else {
        assert out'[y] == out[y];
      }
    }
    if directed {
      forall y, x | y in inc' && x in inc'[y] ensures MirrorLinked(out', inc', y, x) {
        assert y != v && inc'[y] == inc[y];
        assert MirrorLinked(out, inc, y, x);
        assert x != v;
      }
    }
  }

  /** insertEdge first records a fresh edge, which no map refers to yet. */
  lemma LinkedNewEdge(directed: bool, out: AdjacencyTable, inc: AdjacencyTable,
                      ends: map<Edge, (Vertex, Vertex)>, lv: set<Vertex>, le: set<Edge>,
                      e: Edge, p: (Vertex, Vertex))
    requires Linked(directed, out, inc, ends, lv, le) && e !in ends
    ensures Linked(directed, out, inc, ends[e := p], lv, le + {e})
  {
    forall x, y | x in out && y in out[x] ensures EntryLinked(directed, out, inc, ends[e := p], lv, le + {e}, x, y) {
      assert EntryLinked(directed, out, inc, ends, lv, le, x, y);
    }
  }

  /** The two puts of insertEdge on live records keep the tables mirrored. */
  lemma LinkedPut(directed: bool, out: AdjacencyTable, inc: AdjacencyTable,
                  ends: map<Edge, (Vertex, Vertex)>, lv: set<Vertex>, le: set<Edge>,
                  u: Vertex, v: Vertex, e: Edge)
    requires Tables(directed, out, inc) && Linked(directed, out, inc, ends, lv, le)
    requires u in lv && v in lv && u in out && v in out
    requires e in le && e in ends && ends[e] == (u, v)
    ensures Linked(directed, OutAfterPut(directed, out, u, v, e), InAfterPut(directed, inc, u, v, e), ends, lv, le)
  {
    var out', inc' := OutAfterPut(directed, out, u, v, e), InAfterPut(directed, inc, u, v, e);
    assert out'.Keys == out.Keys;
    forall x, y | x in out' && y in out'[x] ensures EntryLinked(directed, out', inc', ends, lv, le, x, y) {
      if (x == u && y == v) || (!directed && x == v && y == u) {
      } else {
        assert y in out[x] && out'[x][y] == out[x][y];
        assert EntryLinked(directed, out, inc, ends, lv, le, x, y);
      }
    }
    if directed {
      forall y, x | y in inc' && x in inc'[y] ensures MirrorLinked(out', inc', y, x) {
        if !(y == v && x == u) {
          assert x in inc[y] && inc'[y][x] == inc[y][x];
          assert MirrorLinked(out, inc, y, x);
        }
      }
    }
  }

  /** The edge sits in the adjacency maps at the slot its endpoints name: `out[a][b] == e`
      for endpoints (a, b). */
  ghost predicate Placed(out: AdjacencyTable, ends: map<Edge, (Vertex, Vertex)>, e: Edge) {
    e in ends && ends[e].0 in out && ends[e].1 in out[ends[e].0] && out[ends[e].0][ends[e].1] == e
  }

  /** The edges in `v`'s outgoing and incoming maps (the two loops of removeVertex). */
  function Incident(directed: bool, out: AdjacencyTable, inc: AdjacencyTable, v: Vertex): set<Edge> {
    (if v in out then out[v].Values else {}) + InOf(directed, out, inc, v).Values
  }

  /** Whatever edge a map holds is placed. */
  lemma EntryPlaced(directed: bool, out: AdjacencyTable, inc: AdjacencyTable,
                    ends: map<Edge, (Vertex, Vertex)>, lv: set<Vertex>, le: set<Edge>, x: Vertex, y: Vertex)
    requires Linked(directed, out, inc, ends, lv, le) && x in out && y in out[x]
    ensures Placed(out, ends, out[x][y])
  {
    assert EntryLinked(directed, out, inc, ends, lv, le, x, y);
  }

  /** A placed edge is found under `v` exactly when `v` is one of its endpoints. */
  lemma IncidentPlaced(directed: bool, out: AdjacencyTable, inc: AdjacencyTable,
                       ends: map<Edge, (Vertex, Vertex)>, lv: set<Vertex>, le: set<Edge>, v: Vertex, e: Edge)
    requires Tables(directed, out, inc) && Linked(directed, out, inc, ends, lv, le)
    ensures e in Incident(directed, out, inc, v) ==> e in le && Placed(out, ends, e)
    ensures Placed(out, ends, e) ==> (e in Incident(directed, out, inc, v) <==> v == ends[e].0 || v == ends[e].1)
  {
    if v in out && e in out[v].Values {
      var y :| y in out[v] && out[v][y] == e;
      assert EntryLinked(directed, out, inc, ends, lv, le, v, y);
      EntryPlaced(directed, out, inc, ends, lv, le, v, y);
    }
    if e in InOf(directed, out, inc, v).Values {
      var x :| x in InOf(directed, out, inc, v) && InOf(directed, out, inc, v)[x] == e;
      if directed {
        assert MirrorLinked(out, inc, v, x);
        assert EntryLinked(directed, out, inc, ends, lv, le, x, v);
        EntryPlaced(directed, out, inc, ends, lv, le, x, v);
      } else {
        assert EntryLinked(directed, out, inc, ends, lv, le, v, x);
        EntryPlaced(directed, out, inc, ends, lv, le, v, x);
      }
    }
    if Placed(out, ends, e) {
      var (a, b) := ends[e];
      assert EntryLinked(directed, out, inc, ends, lv, le, a, b);
      if v == a {
        assert out[v][b] == e;
      }
      if v == b {
        assert InOf(directed, out, inc, v)[a] == e;
      }
    }
  }

  /** What `remove(y)` on `x`'s map leaves in the table. */
  lemma DetachFacts(adj: AdjacencyTable, a: Vertex, b: Vertex, x: Vertex, y: Vertex)
    ensures Detach(adj, a, b).Keys == adj.Keys
    ensures (x in Detach(adj, a, b) && y in Detach(adj, a, b)[x]) <==> (x in adj && y in adj[x] && (x, y) != (a, b))
    ensures x in adj && y in adj[x] && (x, y) != (a, b) ==> Detach(adj, a, b)[x][y] == adj[x][y]
  {
  }

  /** The two removals of removeEdge, by the endpoints of a recorded edge, keep the tables
      mirrored, and no map holds that edge afterwards. */
  lemma LinkedRemove(directed: bool, out: AdjacencyTable, inc: AdjacencyTable,
                     ends: map<Edge, (Vertex, Vertex)>, lv: set<Vertex>, le: set<Edge>, e: Edge)
    requires Tables(directed, out, inc) && Linked(directed, out, inc, ends, lv, le) && e in ends
    ensures Tables(directed, OutAfterRemove(directed, out, ends[e].0, ends[e].1), InAfterRemove(directed, inc, ends[e].0, ends[e].1))
    ensures Linked(directed, OutAfterRemove(directed, out, ends[e].0, ends[e].1),
                   InAfterRemove(directed, inc, ends[e].0, ends[e].1), ends, lv, le - {e})
  {
    var (a, b) := ends[e];
    if directed {
      LinkedRemoveDirected(out, inc, ends, lv, le, e);
    } else {
      LinkedRemoveUndirected(out, inc, ends, lv, le, e);
    }
  }

  lemma LinkedRemoveDirected(out: AdjacencyTable, inc: AdjacencyTable,
                             ends: map<Edge, (Vertex, Vertex)>, lv: set<Vertex>, le: set<Edge>, e: Edge)
    requires Tables(true, out, inc) && Linked(true, out, inc, ends, lv, le) && e in ends
    ensures Tables(true, Detach(out, ends[e].0, ends[e].1), Detach(inc, ends[e].1, ends[e].0))
    ensures Linked(true, Detach(out, ends[e].0, ends[e].1), Detach(inc, ends[e].1, ends[e].0), ends, lv, le - {e})
  {
    var (a, b) := ends[e];
    var out', inc' := Detach(out, a, b), Detach(inc, b, a);
    DetachFacts(out, a, b, a, b);
    DetachFacts(inc, b, a, b, a);
    forall x, y | x in out' && y in out'[x] ensures EntryLinked(true, out', inc', ends, lv, le - {e}, x, y) {
      RemoveKeepsEntryDirected(out, inc, ends, lv, le, e, x, y);
    }
    forall y, x | y in inc' && x in inc'[y] ensures MirrorLinked(out', inc', y, x) {
      RemoveKeepsMirrorDirected(out, inc, ends, lv, le, e, y, x);
    }
  }

  lemma RemoveKeepsEntryDirected(out: AdjacencyTable, inc: AdjacencyTable,
                                 ends: map<Edge, (Vertex, Vertex)>, lv: set<Vertex>, le: set<Edge>,
                                 e: Edge, x: Vertex, y: Vertex)
    requires Linked(true, out, inc, ends, lv, le) && e in ends
    requires x in Detach(out, ends[e].0, ends[e].1) && y in Detach(out, ends[e].0, ends[e].1)[x]
    ensures EntryLinked(true, Detach(out, ends[e].0, ends[e].1), Detach(inc, ends[e].1, ends[e].0), ends, lv, le - {e}, x, y)
  {
    var (a, b) := ends[e];
    DetachFacts(out, a, b, x, y);
    DetachFacts(inc, b, a, y, x);
    assert EntryLinked(true, out, inc, ends, lv, le, x, y);
  }

  lemma RemoveKeepsMirrorDirected(out: AdjacencyTable, inc: AdjacencyTable,
                                  ends: map<Edge, (Vertex, Vertex)>, lv: set<Vertex>, le: set<Edge>,
                                  e: Edge, y: Vertex, x: Vertex)
    requires Linked(true, out, inc, ends, lv, le) && e in ends
    requires y in Detach(inc, ends[e].1, ends[e].0) && x in Detach(inc, ends[e].1, ends[e].0)[y]
    ensures MirrorLinked(Detach(out, ends[e].0, ends[e].1), Detach(inc, ends[e].1, ends[e].0), y, x)
  {
    var (a, b) := ends[e];
    DetachFacts(out, a, b, x, y);
    DetachFacts(inc, b, a, y, x);
    assert MirrorLinked(out, inc, y, x);
  }

  lemma LinkedRemoveUndirected(out: AdjacencyTable, inc: AdjacencyTable,
                               ends: map<Edge, (Vertex, Vertex)>, lv: set<Vertex>, le: set<Edge>, e: Edge)
    requires Tables(false, out, inc) && Linked(false, out, inc, ends, lv, le) && e in ends
    ensures Linked(false, Detach(Detach(out, ends[e].0, ends[e].1), ends[e].1, ends[e].0), inc, ends, lv, le - {e})
  {
    var (a, b) := ends[e];
    var out' := Detach(Detach(out, a, b), b, a);
    forall x, y | x in out' && y in out'[x] ensures EntryLinked(false, out', inc, ends, lv, le - {e}, x, y) {
      RemoveKeepsEntryUndirected(out, inc, ends, lv, le, e, x, y);
    }
  }

  lemma RemoveKeepsEntryUndirected(out: AdjacencyTable, inc: AdjacencyTable,
                                   ends: map<Edge, (Vertex, Vertex)>, lv: set<Vertex>, le: set<Edge>,
                                   e: Edge, x: Vertex, y: Vertex)
    requires Linked(false, out, inc, ends, lv, le) && e in ends
    requires var out' := Detach(Detach(out, ends[e].0, ends[e].1), ends[e].1, ends[e].0);
      x in out' && y in out'[x]
    ensures EntryLinked(false, Detach(Detach(out, ends[e].0, ends[e].1), ends[e].1, ends[e].0), inc, ends, lv, le - {e}, x, y)
  {
    var (a, b) := ends[e];
    var mid := Detach(out, a, b);
    DetachFacts(mid, b, a, x, y);
    DetachFacts(out, a, b, x, y);
    DetachFacts(mid, b, a, y, x);
    DetachFacts(out, a, b, y, x);
    assert EntryLinked(false, out, inc, ends, lv, le, x, y);
  }

  /** For a placed edge, removing by endpoints is the same as dropping the edge from every map. */
  lemma RemovePlacedDrops(directed: bool, out: AdjacencyTable, inc: AdjacencyTable,
                          ends: map<Edge, (Vertex, Vertex)>, lv: set<Vertex>, le: set<Edge>, e: Edge)
    requires Tables(directed, out, inc) && Linked(directed, out, inc, ends, lv, le) && Placed(out, ends, e)
    ensures OutAfterRemove(directed, out, ends[e].0, ends[e].1) == DropAll(out, {e})
    ensures InAfterRemove(directed, inc, ends[e].0, ends[e].1) == DropAll(inc, {e})
  {
    OutRemovalDrops(directed, out, inc, ends, lv, le, e);
    if directed {
      InRemovalDrops(out, inc, ends, lv, le, e);
    }
  }

  lemma OutRemovalDrops(directed: bool, out: AdjacencyTable, inc: AdjacencyTable,
                        ends: map<Edge, (Vertex, Vertex)>, lv: set<Vertex>, le: set<Edge>, e: Edge)
    requires Linked(directed, out, inc, ends, lv, le) && Placed(out, ends, e)
    ensures OutAfterRemove(directed, out, ends[e].0, ends[e].1) == DropAll(out, {e})
  {
    var out' := OutAfterRemove(directed, out, ends[e].0, ends[e].1);
    forall x | x in out ensures x in out' && out'[x] == Drop(out[x], {e}) {
      OutRowDrops(directed, out, inc, ends, lv, le, e, x);
    }
    DetachFacts(out, ends[e].0, ends[e].1, ends[e].0, ends[e].1);
    DetachFacts(Detach(out, ends[e].0, ends[e].1), ends[e].1, ends[e].0, ends[e].0, ends[e].1);
    RowsDrop(out', out, {e});
  }

  lemma OutRowDrops(directed: bool, out: AdjacencyTable, inc: AdjacencyTable,
                    ends: map<Edge, (Vertex, Vertex)>, lv: set<Vertex>, le: set<Edge>, e: Edge, x: Vertex)
    requires Linked(directed, out, inc, ends, lv, le) && Placed(out, ends, e) && x in out
    ensures var out' := OutAfterRemove(directed, out, ends[e].0, ends[e].1);
      x in out' && out'[x] == Drop(out[x], {e})
  {
    var out' := OutAfterRemove(directed, out, ends[e].0, ends[e].1);
    forall y ensures && x in out' && (y in out'[x]) == (y in out[x] && out[x][y] != e)
                     && (y in out'[x] ==> out'[x][y] == out[x][y]) {
      OutSlotDrops(directed, out, inc, ends, lv, le, e, x, y);
    }
    RowDrop(out'[x], out[x], e);
  }

  lemma InRemovalDrops(out: AdjacencyTable, inc: AdjacencyTable,
                       ends: map<Edge, (Vertex, Vertex)>, lv: set<Vertex>, le: set<Edge>, e: Edge)
    requires Linked(true, out, inc, ends, lv, le) && Placed(out, ends, e)
    ensures Detach(inc, ends[e].1, ends[e].0) == DropAll(inc, {e})
  {
    var inc' := Detach(inc, ends[e].1, ends[e].0);
    forall y | y in inc ensures y in inc' && inc'[y] == Drop(inc[y], {e}) {
      InRowDrops(out, inc, ends, lv, le, e, y);
    }
    DetachFacts(inc, ends[e].1, ends[e].0, ends[e].1, ends[e].0);
    RowsDrop(inc', inc, {e});
  }

  lemma InRowDrops(out: AdjacencyTable, inc: AdjacencyTable,
                   ends: map<Edge, (Vertex, Vertex)>, lv: set<Vertex>, le: set<Edge>, e: Edge, y: Vertex)
    requires Linked(true, out, inc, ends, lv, le) && Placed(out, ends, e) && y in inc
    ensures var inc' := Detach(inc, ends[e].1, ends[e].0);
      y in inc' && inc'[y] == Drop(inc[y], {e})
  {
    var inc' := Detach(inc, ends[e].1, ends[e].0);
    forall x ensures && y in inc' && (x in inc'[y]) == (x in inc[y] && inc[y][x] != e)
                     && (x in inc'[y] ==> inc'[y][x] == inc[y][x]) {
      InSlotDrops(out, inc, ends, lv, le, e, y, x);
    }
    RowDrop(inc'[y], inc[y], e);
  }

  /** A map that keeps exactly the entries of `m` not holding `e` is `m` without `e`. */
  lemma RowDrop(m': Adjacency, m: Adjacency, e: Edge)
    requires forall y :: (y in m') == (y in m && m[y] != e)
    requires forall y :: y in m' ==> m'[y] == m[y]
    ensures m' == Drop(m, {e})
  {
  }

  /** A table whose every row is the old row without `d`, and no other row, is `DropAll`. */
  lemma RowsDrop(adj': AdjacencyTable, adj: AdjacencyTable, d: set<Edge>)
    requires adj'.Keys <= adj.Keys
    requires forall x :: x in adj ==> x in adj' && adj'[x] == Drop(adj[x], d)
    ensures adj' == DropAll(adj, d)
  {
  }

  /** The slot `x: y` goes in the removal exactly when it holds the placed edge. */
  lemma OutSlotDrops(directed: bool, out: AdjacencyTable, inc: AdjacencyTable,
                     ends: map<Edge, (Vertex, Vertex)>, lv: set<Vertex>, le: set<Edge>, e: Edge, x: Vertex, y: Vertex)
    requires Linked(directed, out, inc, ends, lv, le) && Placed(out, ends, e) && x in out
    ensures var out' := OutAfterRemove(directed, out, ends[e].0, ends[e].1);
      && x in out' && ((y in out'[x]) == (y in out[x] && out[x][y] != e))
      && (y in out'[x] ==> out'[x][y] == out[x][y])
  {
    var (a, b) := ends[e];
    assert EntryLinked(directed, out, inc, ends, lv, le, a, b);
    DetachFacts(out, a, b, x, y);
    DetachFacts(Detach(out, a, b), b, a, x, y);
    if y in out[x] {
      assert EntryLinked(directed, out, inc, ends, lv, le, x, y);
    }
  }

  /** The incoming slot `y: x` goes exactly when it holds the placed edge. */
  lemma InSlotDrops(out: AdjacencyTable, inc: AdjacencyTable,
                    ends: map<Edge, (Vertex, Vertex)>, lv: set<Vertex>, le: set<Edge>, e: Edge, y: Vertex, x: Vertex)
    requires Linked(true, out, inc, ends, lv, le) && Placed(out, ends, e) && y in inc
    ensures var inc' := Detach(inc, ends[e].1, ends[e].0);
      && y in inc' && ((x in inc'[y]) == (x in inc[y] && inc[y][x] != e))
      && (x in inc'[y] ==> inc'[y][x] == inc[y][x])
  {
    var (a, b) := ends[e];
    assert EntryLinked(true, out, inc, ends, lv, le, a, b);
    DetachFacts(inc, b, a, y, x);
    if x in inc[y] {
      assert MirrorLinked(out, inc, y, x);
      assert EntryLinked(true, out, inc, ends, lv, le, x, y);
    }
  }

  /** Dropping other edges leaves a placed edge placed. */
  lemma PlacedSurvives(out: AdjacencyTable, ends: map<Edge, (Vertex, Vertex)>, e: Edge, d: set<Edge>)
    requires Placed(out, ends, e) && e !in d
    ensures Placed(DropAll(out, d), ends, e)
  {
  }

  /** Dropping edges from both tables drops them from every incoming map. */
  lemma InOfDropAll(directed: bool, out: AdjacencyTable, inc: AdjacencyTable, y: Vertex, d: set<Edge>)
    ensures InOf(directed, DropAll(out, d), DropAll(inc, d), y) == Drop(InOf(directed, out, inc, y), d)
  {
  }

  /** Once every edge incident to `v` is dropped, no map refers to `v` any more and `v`
      may lose its position. */
  lemma IncidentCleared(directed: bool, out: AdjacencyTable, inc: AdjacencyTable,
                        ends: map<Edge, (Vertex, Vertex)>, lv: set<Vertex>, le: set<Edge>, v: Vertex)
    requires Tables(directed, out, inc) && Linked(directed, out, inc, ends, lv, le) && v in out
    ensures var d := Incident(directed, out, inc, v);
      && DropAll(out, d)[v] == map[]
      && InOf(directed, DropAll(out, d), DropAll(inc, d), v) == map[]
      && (forall x :: x in DropAll(out, d) ==> v !in DropAll(out, d)[x])
      && Linked(directed, DropAll(out, d), DropAll(inc, d), ends, lv - {v}, le - d)
  {
    var d := Incident(directed, out, inc, v);
    var out', inc' := DropAll(out, d), DropAll(inc, d);
    InOfDropAll(directed, out, inc, v, d);
    forall x | x in out' ensures v !in out'[x] {
      if v in out[x] {
        assert EntryLinked(directed, out, inc, ends, lv, le, x, v);
        assert out[x][v] in InOf(directed, out, inc, v).Values;
      }
    }
    assert out'[v] == map[] by {
      forall y | y in out[v] ensures out[v][y] in d { }
    }
    forall x, y | x in out' && y in out'[x] ensures EntryLinked(directed, out', inc', ends, lv - {v}, le - d, x, y) {
      assert y in out[x] && out'[x][y] == out[x][y] && out[x][y] !in d;
      assert EntryLinked(directed, out, inc, ends, lv, le, x, y);
      InOfDropAll(directed, out, inc, y, d);
    }
    if directed {
      forall y, x | y in inc' && x in inc'[y] ensures MirrorLinked(out', inc', y, x) {
        assert x in inc[y] && inc'[y][x] == inc[y][x] && inc[y][x] !in d;
        assert MirrorLinked(out, inc, y, x);
      }
    }
  }
}
