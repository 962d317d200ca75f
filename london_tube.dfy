/** The London Underground route finder on top of the graph: stations are looked up by
    their key, the network is built from lines given as lists of station names, and a
    route (a list of edges from an origin) is turned into directions. */
module LondonTube {
  import opened AdjacencyMaps
  import opened Graphs
  import opened StationKeys
  import opened Instructions
  import opened Stations
  import opened Routes

  /** The loop of findStation: the first vertex of `vs` whose station name has `key` as
      its key, if any. */
  function FindIn(vs: seq<Vertex>, element: map<Vertex, Station>, key: string): (r: Option<Vertex>)
    requires Recorded(vs, element)
    ensures r.Some? ==> r.value in vs && Normalize(element[r.value].name) == key
  {
    if vs == [] then None
    else if Normalize(element[vs[0]].name) == key then Some(vs[0])
    else FindIn(vs[1..], element, key)
  }

  /** Nothing is found exactly when no vertex has the key. */
  lemma {:induction false} FindInNone(vs: seq<Vertex>, element: map<Vertex, Station>, key: string)
    requires Recorded(vs, element)
    ensures FindIn(vs, element, key).None? <==> forall i :: 0 <= i < |vs| ==> Normalize(element[vs[i]].name) != key
  {
    if vs != [] {
      FindInNone(vs[1..], element, key);
      assert forall i :: 1 <= i < |vs| ==> vs[i] == vs[1..][i - 1];
    }
  }

  /** What is found is the first match: every vertex before it has another key. */
  lemma {:induction false} FindInFirst(vs: seq<Vertex>, element: map<Vertex, Station>, key: string)
    requires Recorded(vs, element) && FindIn(vs, element, key).Some?
    ensures exists i :: (0 <= i < |vs| && vs[i] == FindIn(vs, element, key).value &&
                        forall j :: 0 <= j < i ==> Normalize(element[vs[j]].name) != key)
  {
    if Normalize(element[vs[0]].name) != key {
      FindInFirst(vs[1..], element, key);
      var i :| 0 <= i < |vs[1..]| && vs[1..][i] == FindIn(vs[1..], element, key).value &&
        (forall j :: 0 <= j < i ==> Normalize(element[vs[1..][j]].name) != key);
      assert vs[i + 1] == FindIn(vs, element, key).value;
      forall j | 0 <= j < i + 1 ensures Normalize(element[vs[j]].name) != key {
        if j > 0 {
          assert vs[j] == vs[1..][j - 1];
        }
      }
    } else {
      assert vs[0] == FindIn(vs, element, key).value;
    }
  }

  /** findStation: the query is reduced to its key and compared with the key of every
      station name in vertex-list order. */
  function FindStation(g: Network, name: string): (r: Option<Vertex>)
    reads g
    requires g.Valid()
    ensures r.Some? ==> g.ValidVertex(r.value) && Normalize(g.vrec.element[r.value].name) == Normalize(name)
  {
    assert Recorded(g.vertices, g.vrec.element);
    FindIn(g.vertices, g.vrec.element, Normalize(name))
  }

  /** Looking a name up or looking its key up finds the same station. */
  lemma {:induction false} FindByKey(g: Network, name: string)
    requires g.Valid()
    ensures FindStation(g, name) == FindStation(g, Normalize(name))
  {
    NormalizeIdempotent(name);
  }

  /** Queries that differ only in the case of letters, or in non-letters anywhere, find
      the same station. */
  lemma {:induction false} FindIgnoresCase(g: Network, s: string, t: string)
    requires g.Valid() && |s| == |t| && forall i :: 0 <= i < |s| ==> SameLetter(s[i], t[i])
    ensures FindStation(g, s) == FindStation(g, t)
  {
    IgnoresCase(s, t);
  }

  lemma {:induction false} FindIgnoresNonLetters(g: Network, a: string, t: string, b: string)
    requires g.Valid() && forall i :: 0 <= i < |t| ==> !IsLetter(t[i])
    ensures FindStation(g, a + t + b) == FindStation(g, a + b)
  {
    IgnoresNonLetters(a, t, b);
  }

  /** The station names of the `i`-th and the `j`-th vertex of `vs` have different keys. */
  ghost predicate KeysApart(vs: seq<Vertex>, element: map<Vertex, Station>, i: nat, j: nat) {
    i < |vs| && j < |vs| && vs[i] in element && vs[j] in element
    && Normalize(element[vs[i]].name) != Normalize(element[vs[j]].name)
  }

  /** No two vertices of `vs` have station names with the same key. */
  ghost predicate DistinctKeys(vs: seq<Vertex>, element: map<Vertex, Station>) {
    Recorded(vs, element) && forall i, j :: 0 <= i < j < |vs| ==> KeysApart(vs, element, i, j)
  }

  /** The vertex list only grows at its end, and existing records keep their stations. */
  ghost predicate Grown(vs0: seq<Vertex>, el0: map<Vertex, Station>, vs: seq<Vertex>, el: map<Vertex, Station>) {
    vs0 <= vs && forall v :: v in el0 ==> v in el && el[v] == el0[v]
  }

  /** A station found before the vertex list grew is still the one found. */
  lemma {:induction false} FindGrown(vs0: seq<Vertex>, el0: map<Vertex, Station>, vs: seq<Vertex>,
                                     el: map<Vertex, Station>, key: string)
    requires Recorded(vs0, el0) && Recorded(vs, el) && Grown(vs0, el0, vs, el)
    requires FindIn(vs0, el0, key).Some?
    ensures FindIn(vs, el, key) == FindIn(vs0, el0, key)
  {
    assert vs[0] == vs0[0];
    if Normalize(el0[vs0[0]].name) != key {
      assert vs0[1..] <= vs[1..];
      FindGrown(vs0[1..], el0, vs[1..], el, key);
    }
  }

  /** A station not found before is found once a vertex named after it is appended. */
  lemma {:induction false} FindAppended(vs: seq<Vertex>, el: map<Vertex, Station>, w: Vertex, name: string)
    requires Recorded(vs, el) && w !in el && FindIn(vs, el, Normalize(name)).None?
    ensures Recorded(vs + [w], el[w := Station(name)])
    ensures FindIn(vs + [w], el[w := Station(name)], Normalize(name)) == Some(w)
  {
    if vs != [] {
      assert (vs + [w])[1..] == vs[1..] + [w];
      FindAppended(vs[1..], el, w, name);
    }
  }

  /** Appending a vertex whose key was not found keeps the keys apart. */
  lemma {:induction false} KeysAppended(vs: seq<Vertex>, el: map<Vertex, Station>, w: Vertex, name: string)
    requires DistinctKeys(vs, el) && w !in el && FindIn(vs, el, Normalize(name)).None?
    ensures DistinctKeys(vs + [w], el[w := Station(name)])
  {
    var vs', el' := vs + [w], el[w := Station(name)];
    FindInNone(vs, el, Normalize(name));
    forall i, j | 0 <= i < j < |vs'| ensures KeysApart(vs', el', i, j) {
      assert vs'[i] == vs[i] && vs[i] != w && el'[vs[i]] == el[vs[i]];
      if j < |vs| {
        assert KeysApart(vs, el, i, j);
        assert vs'[j] == vs[j] && vs[j] != w && el'[vs[j]] == el[vs[j]];
      } else {
        assert vs'[j] == w;
      }
    }
  }

  /** The number of edges a line of `n` stations contributes. */
  function Segments(n: nat): nat {
    if n == 0 then 0 else n - 1
  }

  /** The station named `name` can be found. */
  ghost predicate Located(vs: seq<Vertex>, el: map<Vertex, Station>, name: string) {
    Recorded(vs, el) && FindIn(vs, el, Normalize(name)).Some?
  }

  /** The `k`-th of `names` can be found. */
  ghost predicate StopLocated(vs: seq<Vertex>, el: map<Vertex, Station>, names: seq<string>, k: nat) {
    k < |names| && Located(vs, el, names[k])
  }

  /** Edge `e` is a segment of `line` from the station found for `a` to the one found
      for `b`. */
  ghost predicate Joins(vs: seq<Vertex>, el: map<Vertex, Station>, er: EdgeRecords<LineSegment>,
                        line: Line, a: string, b: string, e: Edge)
  {
    && Located(vs, el, a) && Located(vs, el, b)
    && e in er.element && e in er.endpoints && er.element[e] == LineSegment(line)
    && er.endpoints[e] == (FindIn(vs, el, Normalize(a)).value, FindIn(vs, el, Normalize(b)).value)
  }

  /** The edge at index `base + k` joins the `k`-th station of the line to the next. */
  ghost predicate SegmentBuilt(vs: seq<Vertex>, el: map<Vertex, Station>, es: seq<Edge>, er: EdgeRecords<LineSegment>,
                               line: Line, names: seq<string>, base: nat, k: nat)
  {
    k + 1 < |names| && base + k < |es| && Joins(vs, el, er, line, names[k], names[k + 1], es[base + k])
  }

  /** The stations named in `names` can all be found, and the edges of `es` from index
      `base` on join each named station to the next, carrying a segment of `line`. */
  ghost predicate LineBuilt(vs: seq<Vertex>, el: map<Vertex, Station>, es: seq<Edge>, er: EdgeRecords<LineSegment>,
                            line: Line, names: seq<string>, base: nat)
  {
    && Recorded(vs, el)
    && (forall k :: 0 <= k < |names| ==> StopLocated(vs, el, names, k))
    && base + Segments(|names|) <= |es|
    && (forall k :: 0 <= k < |names| - 1 ==> SegmentBuilt(vs, el, es, er, line, names, base, k))
  }

  /** The edge list only grows at its end, and existing edge records keep their element
      and endpoints. */
  ghost predicate EdgesGrown(es0: seq<Edge>, er0: EdgeRecords<LineSegment>, es: seq<Edge>, er: EdgeRecords<LineSegment>) {
    && es0 <= es
    && (forall e :: e in er0.element ==> e in er.element && er.element[e] == er0.element[e])
    && (forall e :: e in er0.endpoints ==> e in er.endpoints && er.endpoints[e] == er0.endpoints[e])
  }

  /** Appending a new edge record grows the edges. */
  lemma {:induction false} EdgeAppended(es0: seq<Edge>, er0: EdgeRecords<LineSegment>, es: seq<Edge>, er: EdgeRecords<LineSegment>,
                     e: Edge, x: LineSegment, ends: (Vertex, Vertex))
    requires e !in er0.element && e !in er0.endpoints && es == es0 + [e]
    requires er.element == er0.element[e := x] && er.endpoints == er0.endpoints[e := ends]
    ensures EdgesGrown(es0, er0, es, er)
  {
  }

  lemma {:induction false} JoinsGrown(vs0: seq<Vertex>, el0: map<Vertex, Station>, er0: EdgeRecords<LineSegment>,
                   vs: seq<Vertex>, el: map<Vertex, Station>, er: EdgeRecords<LineSegment>,
                   es0: seq<Edge>, es: seq<Edge>, line: Line, a: string, b: string, e: Edge)
    requires Joins(vs0, el0, er0, line, a, b, e) && Recorded(vs, el)
    requires Grown(vs0, el0, vs, el) && EdgesGrown(es0, er0, es, er)
    ensures Joins(vs, el, er, line, a, b, e)
  {
    FindGrown(vs0, el0, vs, el, Normalize(a));
    FindGrown(vs0, el0, vs, el, Normalize(b));
  }

  lemma {:induction false} LineBuiltGrows(vs0: seq<Vertex>, el0: map<Vertex, Station>, es0: seq<Edge>, er0: EdgeRecords<LineSegment>,
                       vs: seq<Vertex>, el: map<Vertex, Station>, es: seq<Edge>, er: EdgeRecords<LineSegment>,
                       line: Line, names: seq<string>, base: nat)
    requires LineBuilt(vs0, el0, es0, er0, line, names, base) && Recorded(vs, el)
    requires Grown(vs0, el0, vs, el) && EdgesGrown(es0, er0, es, er)
    ensures LineBuilt(vs, el, es, er, line, names, base)
  {
    forall k | 0 <= k < |names| ensures StopLocated(vs, el, names, k) {
      assert StopLocated(vs0, el0, names, k);
      FindGrown(vs0, el0, vs, el, Normalize(names[k]));
    }
    forall k | 0 <= k < |names| - 1 ensures SegmentBuilt(vs, el, es, er, line, names, base, k) {
      assert SegmentBuilt(vs0, el0, es0, er0, line, names, base, k);
      assert es[base + k] == es0[base + k];
      JoinsGrown(vs0, el0, er0, vs, el, er, es0, es, line, names[k], names[k + 1], es0[base + k]);
    }
  }

  /** What one turn of the building loop leaves behind, on the values of the graph's
      fields before (`vs0`, `el0`, `es0`, `er0`) and after: the vertices unchanged when
      `name` was found, and otherwise one new vertex `station` of that name appended, so
      that `name` finds `station` and the keys stay apart if they were; when there is a
      previous station `from`, one edge of `line` from it to `station` appended, and
      otherwise no edge. */
  ghost predicate StopAdded(vs0: seq<Vertex>, el0: map<Vertex, Station>, es0: seq<Edge>, er0: EdgeRecords<LineSegment>,
                            vs: seq<Vertex>, el: map<Vertex, Station>, es: seq<Edge>, er: EdgeRecords<LineSegment>,
                            line: Line, from: Option<Vertex>, name: string, station: Vertex)
  {
    && Recorded(vs0, el0) && Recorded(vs, el) && Grown(vs0, el0, vs, el)
    && (FindIn(vs0, el0, Normalize(name)).Some? ==> vs == vs0 && el == el0)
    && (FindIn(vs0, el0, Normalize(name)).None? ==>
          station !in el0 && vs == vs0 + [station] && el == el0[station := Station(name)])
    && FindIn(vs, el, Normalize(name)) == Some(station)
    && (DistinctKeys(vs0, el0) ==> DistinctKeys(vs, el))
    && EdgesGrown(es0, er0, es, er)
    && (from.None? ==> es == es0)
    && (from.Some? ==> |es| == |es0| + 1 && var e := es[|es0|];
         && e in er.element && e in er.endpoints
         && er.element[e] == LineSegment(line) && er.endpoints[e] == (from.value, station))
  }

  /** Vertex `j` of `vs` is a station named after one of `names` whose key `vs0` did
      not hold. */
  ghost predicate NamedStop(vs0: seq<Vertex>, el0: map<Vertex, Station>, vs: seq<Vertex>, el: map<Vertex, Station>,
                            names: seq<string>, j: nat)
  {
    && Recorded(vs0, el0) && j < |vs| && vs[j] in el
    && exists k :: 0 <= k < |names| && el[vs[j]] == Station(names[k]) && FindIn(vs0, el0, Normalize(names[k])).None?
  }

  /** The vertices beyond `vs0` are stations named after names of `names` that `vs0`
      could not find, and they are the only new vertex records. */
  ghost predicate OnlyNamed(vs0: seq<Vertex>, el0: map<Vertex, Station>, vs: seq<Vertex>, el: map<Vertex, Station>,
                            names: seq<string>)
  {
    && |vs0| <= |vs|
    && (forall j :: |vs0| <= j < |vs| ==> NamedStop(vs0, el0, vs, el, names, j))
    && (forall v :: v in el && v !in el0 ==> v in vs)
  }

  /** A line whose station names are all found already adds no vertex. */
  lemma {:induction false} KnownNamesAddNothing(vs0: seq<Vertex>, el0: map<Vertex, Station>,
                                                vs: seq<Vertex>, el: map<Vertex, Station>, names: seq<string>)
    requires Recorded(vs0, el0) && Grown(vs0, el0, vs, el) && OnlyNamed(vs0, el0, vs, el, names)
    requires forall k :: 0 <= k < |names| ==> Located(vs0, el0, names[k])
    ensures vs == vs0
  {
    if |vs| > |vs0| {
      // The first vertex added would be named after a name that was not found.
      ghost var first := NamedStop(vs0, el0, vs, el, names, |vs0|);
      assert false;
    }
  }

  /** The state of the building loop of one line after its first `i` stations: those
      stations are found and joined in order by the edges appended since, `from` being
      the station found for the last of them; vertices and edges only grew, and the keys
      stay apart if they were. */
  ghost predicate Building(vs0: seq<Vertex>, el0: map<Vertex, Station>, es0: seq<Edge>, er0: EdgeRecords<LineSegment>,
                           vs: seq<Vertex>, el: map<Vertex, Station>, es: seq<Edge>, er: EdgeRecords<LineSegment>,
                           line: Line, names: seq<string>, i: nat, from: Option<Vertex>)
  {
    && i <= |names|
    && Recorded(vs0, el0) && Recorded(vs, el) && Grown(vs0, el0, vs, el) && EdgesGrown(es0, er0, es, er)
    && OnlyNamed(vs0, el0, vs, el, names)
    && |es| == |es0| + Segments(i)
    && LineBuilt(vs, el, es, er, line, names[..i], |es0|)
    && (i == 0 <==> from.None?)
    && (i > 0 ==> from == FindIn(vs, el, Normalize(names[i - 1])))
    && (DistinctKeys(vs0, el0) ==> DistinctKeys(vs, el))
  }

  /** What building one line leaves behind: every station of `names` found and each
      joined to the next by an edge of `line`, those edges appended to `es0` in order;
      the only vertices added are stations named after names that were not found. */
  ghost predicate LineAdded(vs0: seq<Vertex>, el0: map<Vertex, Station>, es0: seq<Edge>, er0: EdgeRecords<LineSegment>,
                            vs: seq<Vertex>, el: map<Vertex, Station>, es: seq<Edge>, er: EdgeRecords<LineSegment>,
                            line: Line, names: seq<string>)
  {
    && Recorded(vs, el) && Grown(vs0, el0, vs, el) && EdgesGrown(es0, er0, es, er)
    && OnlyNamed(vs0, el0, vs, el, names)
    && |es| == |es0| + Segments(|names|)
    && LineBuilt(vs, el, es, er, line, names, |es0|)
    && (DistinctKeys(vs0, el0) ==> DistinctKeys(vs, el))
  }

  lemma {:induction false} BuildingStarts(vs: seq<Vertex>, el: map<Vertex, Station>, es: seq<Edge>, er: EdgeRecords<LineSegment>,
                       line: Line, names: seq<string>)
    requires Recorded(vs, el)
    ensures Building(vs, el, es, er, vs, el, es, er, line, names, 0, None)
  {
    assert LineBuilt(vs, el, es, er, line, names[..0], |es|);
  }

  /** The line's first station found: the one-station prefix is built. */
  lemma {:induction false} LineStarted(vs: seq<Vertex>, el: map<Vertex, Station>, es: seq<Edge>, er: EdgeRecords<LineSegment>,
                    line: Line, names: seq<string>, base: nat)
    requires 0 < |names| && Recorded(vs, el) && Located(vs, el, names[0]) && base <= |es|
    ensures LineBuilt(vs, el, es, er, line, names[..1], base)
  {
    assert names[..1][0] == names[0];
    assert StopLocated(vs, el, names[..1], 0);
  }

  /** A built prefix of `i` stations, one edge more joining station `i - 1` to station
      `i`: the prefix of `i + 1` stations is built. */
  lemma {:induction false} LineExtended(vs: seq<Vertex>, el: map<Vertex, Station>, es: seq<Edge>, er: EdgeRecords<LineSegment>,
                     line: Line, names: seq<string>, base: nat, i: nat)
    requires 0 < i < |names| && LineBuilt(vs, el, es, er, line, names[..i], base)
    requires base + i == |es| && Joins(vs, el, er, line, names[i - 1], names[i], es[base + i - 1])
    ensures LineBuilt(vs, el, es, er, line, names[..i + 1], base)
  {
    var pre, post := names[..i], names[..i + 1];
    assert forall k :: 0 <= k < i ==> post[k] == pre[k];
    assert post[i] == names[i];
    forall k | 0 <= k < i + 1 ensures StopLocated(vs, el, post, k) {
      if k < i {
        assert StopLocated(vs, el, pre, k);
      }
    }
    forall k | 0 <= k < i - 1 ensures SegmentBuilt(vs, el, es, er, line, post, base, k) {
      assert SegmentBuilt(vs, el, es, er, line, pre, base, k);
    }
    assert SegmentBuilt(vs, el, es, er, line, post, base, i - 1);
  }

  /** The line's prefix of `i` stations built before the turn, the prefix of `i + 1` is
      built after it. */
  lemma {:induction false} PrefixStep(vs1: seq<Vertex>, el1: map<Vertex, Station>, es1: seq<Edge>, er1: EdgeRecords<LineSegment>,
                   vs: seq<Vertex>, el: map<Vertex, Station>, es: seq<Edge>, er: EdgeRecords<LineSegment>,
                   line: Line, names: seq<string>, base: nat, i: nat, from: Option<Vertex>, station: Vertex)
    requires i < |names| && LineBuilt(vs1, el1, es1, er1, line, names[..i], base) && |es1| == base + Segments(i)
    requires (i == 0 <==> from.None?) && (i > 0 ==> from == FindIn(vs1, el1, Normalize(names[i - 1])))
    requires StopAdded(vs1, el1, es1, er1, vs, el, es, er, line, from, names[i], station)
    ensures LineBuilt(vs, el, es, er, line, names[..i + 1], base) && |es| == base + Segments(i + 1)
  {
    LineBuiltGrows(vs1, el1, es1, er1, vs, el, es, er, line, names[..i], base);
    if i > 0 {
      FindGrown(vs1, el1, vs, el, Normalize(names[i - 1]));
      LineExtended(vs, el, es, er, line, names, base, i);
    } else {
      LineStarted(vs, el, es, er, line, names, base);
    }
  }

  lemma {:induction false} GrownTwice(vs0: seq<Vertex>, el0: map<Vertex, Station>, vs1: seq<Vertex>, el1: map<Vertex, Station>,
                   vs: seq<Vertex>, el: map<Vertex, Station>)
    requires Grown(vs0, el0, vs1, el1) && Grown(vs1, el1, vs, el)
    ensures Grown(vs0, el0, vs, el)
  {
  }

  lemma {:induction false} EdgesGrownTwice(es0: seq<Edge>, er0: EdgeRecords<LineSegment>, es1: seq<Edge>, er1: EdgeRecords<LineSegment>,
                        es: seq<Edge>, er: EdgeRecords<LineSegment>)
    requires EdgesGrown(es0, er0, es1, er1) && EdgesGrown(es1, er1, es, er)
    ensures EdgesGrown(es0, er0, es, er)
  {
  }

  /** A stop found adds no vertex, and a stop appended is named after `names[i]`, which
      could not have been found before the line either. */
  lemma {:induction false} OnlyNamedStep(vs0: seq<Vertex>, el0: map<Vertex, Station>,
                                         vs1: seq<Vertex>, el1: map<Vertex, Station>,
                                         vs: seq<Vertex>, el: map<Vertex, Station>,
                                         names: seq<string>, i: nat, station: Vertex)
    requires i < |names| && Recorded(vs0, el0) && Recorded(vs1, el1) && Grown(vs0, el0, vs1, el1)
    requires OnlyNamed(vs0, el0, vs1, el1, names)
    requires FindIn(vs1, el1, Normalize(names[i])).Some? ==> vs == vs1 && el == el1
    requires FindIn(vs1, el1, Normalize(names[i])).None? ==>
               station !in el1 && vs == vs1 + [station] && el == el1[station := Station(names[i])]
    ensures OnlyNamed(vs0, el0, vs, el, names)
  {
    var key := Normalize(names[i]);
    if FindIn(vs1, el1, key).None? {
      if FindIn(vs0, el0, key).Some? {
        FindGrown(vs0, el0, vs1, el1, key);
        assert false;
      }
      forall j | |vs0| <= j < |vs| ensures NamedStop(vs0, el0, vs, el, names, j) {
        if j < |vs1| {
          assert NamedStop(vs0, el0, vs1, el1, names, j);
          var k :| 0 <= k < |names| && el1[vs1[j]] == Station(names[k]) && FindIn(vs0, el0, Normalize(names[k])).None?;
          assert vs[j] == vs1[j] && vs1[j] != station && el[vs[j]] == el1[vs1[j]];
        } else {
          assert vs[j] == station && el[station] == Station(names[i]);
        }
      }
      forall v | v in el && v !in el0 ensures v in vs {
        if v != station {
          assert v in vs1;
        }
      }
    }
  }

  /** One station more of the line: found, or appended, as `station`, and joined to the
      previous one by the edge appended last. */
  lemma {:induction false} BuildingStep(vs0: seq<Vertex>, el0: map<Vertex, Station>, es0: seq<Edge>, er0: EdgeRecords<LineSegment>,
                     vs1: seq<Vertex>, el1: map<Vertex, Station>, es1: seq<Edge>, er1: EdgeRecords<LineSegment>,
                     vs: seq<Vertex>, el: map<Vertex, Station>, es: seq<Edge>, er: EdgeRecords<LineSegment>,
                     line: Line, names: seq<string>, i: nat, from: Option<Vertex>, station: Vertex)
    requires i < |names| && Building(vs0, el0, es0, er0, vs1, el1, es1, er1, line, names, i, from)
    requires StopAdded(vs1, el1, es1, er1, vs, el, es, er, line, from, names[i], station)
    ensures Building(vs0, el0, es0, er0, vs, el, es, er, line, names, i + 1, Some(station))
  {
    PrefixStep(vs1, el1, es1, er1, vs, el, es, er, line, names, |es0|, i, from, station);
    OnlyNamedStep(vs0, el0, vs1, el1, vs, el, names, i, station);
    GrownTwice(vs0, el0, vs1, el1, vs, el);
    EdgesGrownTwice(es0, er0, es1, er1, es, er);
  }

  lemma {:induction false} BuildingEnds(vs0: seq<Vertex>, el0: map<Vertex, Station>, es0: seq<Edge>, er0: EdgeRecords<LineSegment>,
                     vs: seq<Vertex>, el: map<Vertex, Station>, es: seq<Edge>, er: EdgeRecords<LineSegment>,
                     line: Line, names: seq<string>, from: Option<Vertex>)
    requires Building(vs0, el0, es0, er0, vs, el, es, er, line, names, |names|, from)
    ensures LineAdded(vs0, el0, es0, er0, vs, el, es, er, line, names)
  {
    assert names[..|names|] == names;
  }

  /** A station found is reused: nothing changes. */
  lemma {:induction false} FoundStop(vs: seq<Vertex>, el: map<Vertex, Station>, es: seq<Edge>, er: EdgeRecords<LineSegment>,
                  name: string, station: Vertex)
    requires Recorded(vs, el) && FindIn(vs, el, Normalize(name)) == Some(station)
    ensures StopAdded(vs, el, es, er, vs, el, es, er, Line(""), None, name, station)
  {
  }

  /** A station not found is appended as a new vertex, which is then what the name finds. */
  lemma {:induction false} AppendedStop(vs: seq<Vertex>, el: map<Vertex, Station>, es: seq<Edge>, er: EdgeRecords<LineSegment>,
                     name: string, station: Vertex)
    requires Recorded(vs, el) && station !in el && FindIn(vs, el, Normalize(name)).None?
    ensures StopAdded(vs, el, es, er, vs + [station], el[station := Station(name)], es, er, Line(""), None, name, station)
  {
    FindAppended(vs, el, station, name);
    if DistinctKeys(vs, el) {
      KeysAppended(vs, el, station, name);
    }
  }

  /** Stations `k` and `k + 1` of `names` are found, and they are neighbours in the maps. */
  ghost predicate SegmentLinked(vs: seq<Vertex>, el: map<Vertex, Station>, out: AdjacencyTable, directed: bool,
                                names: seq<string>, k: nat)
  {
    && Recorded(vs, el) && k + 1 < |names|
    && FindIn(vs, el, Normalize(names[k])).Some? && FindIn(vs, el, Normalize(names[k + 1])).Some?
    && Adjacent(directed, out, FindIn(vs, el, Normalize(names[k])).value, FindIn(vs, el, Normalize(names[k + 1])).value)
  }

  /** Each of the first `n` stations of `names` is a neighbour of the next in the maps. */
  ghost predicate LineLinked(vs: seq<Vertex>, el: map<Vertex, Station>, out: AdjacencyTable, directed: bool,
                             names: seq<string>, n: nat)
  {
    forall k :: 0 <= k < n - 1 ==> SegmentLinked(vs, el, out, directed, names, k)
  }

  /** Neighbours stay neighbours while vertices are appended and maps only gain keys. */
  lemma {:induction false} LinkedGrown(vs0: seq<Vertex>, el0: map<Vertex, Station>, out0: AdjacencyTable,
                                       vs: seq<Vertex>, el: map<Vertex, Station>, out: AdjacencyTable,
                                       directed: bool, names: seq<string>, n: nat)
    requires Recorded(vs0, el0) && Recorded(vs, el) && Grown(vs0, el0, vs, el) && KeysKept(out0, out)
    requires LineLinked(vs0, el0, out0, directed, names, n)
    ensures LineLinked(vs, el, out, directed, names, n)
  {
    forall k | 0 <= k < n - 1 ensures SegmentLinked(vs, el, out, directed, names, k) {
      assert SegmentLinked(vs0, el0, out0, directed, names, k);
      FindGrown(vs0, el0, vs, el, Normalize(names[k]));
      FindGrown(vs0, el0, vs, el, Normalize(names[k + 1]));
    }
  }

  /** A turn of the building loop that joins the previous station to this one in the
      maps extends the linked prefix of the line by one station. */
  lemma {:induction false} LinkedStep(vs1: seq<Vertex>, el1: map<Vertex, Station>, out1: AdjacencyTable,
                                      vs: seq<Vertex>, el: map<Vertex, Station>, out: AdjacencyTable,
                                      directed: bool, names: seq<string>, i: nat, from: Option<Vertex>, station: Vertex)
    requires i < |names| && Recorded(vs1, el1) && Recorded(vs, el) && Grown(vs1, el1, vs, el) && KeysKept(out1, out)
    requires LineLinked(vs1, el1, out1, directed, names, i)
    requires FindIn(vs, el, Normalize(names[i])) == Some(station)
    requires i > 0 ==> from.Some? && from == FindIn(vs1, el1, Normalize(names[i - 1]))
    requires i > 0 ==> Adjacent(directed, out, from.value, station)
    ensures LineLinked(vs, el, out, directed, names, i + 1)
  {
    LinkedGrown(vs1, el1, out1, vs, el, out, directed, names, i);
    if i > 0 {
      FindGrown(vs1, el1, vs, el, Normalize(names[i - 1]));
      assert SegmentLinked(vs, el, out, directed, names, i - 1);
    }
  }

  /** The first half of a turn of the building loop: the station findStation finds, or
      else a new vertex for it. */
  method Locate(g: Network, name: string) returns (station: Vertex)
    requires g.Valid()
    modifies g
    ensures g.Valid() && g.ValidVertex(station) && g.edges == old(g.edges) && g.erec == old(g.erec)
    ensures StopAdded(old(g.vertices), old(g.vrec.element), g.edges, g.erec, g.vertices, g.vrec.element, g.edges, g.erec,
                      Line(""), None, name, station)
    ensures old(FindStation(g, name)).Some? ==> unchanged(g)
    ensures old(FindStation(g, name)).None? ==>
      && g.vertices == old(g.vertices) + [station] && g.vrec.element[station] == Station(name)
      && g.vrec.outgoing == old(g.vrec.outgoing)[station := map[]]
      && g.vrec.incoming == (if g.isDirected then old(g.vrec.incoming)[station := map[]] else old(g.vrec.incoming))
  {
    ghost var vs0, el0 := g.vertices, g.vrec.element;
    var found := FindStation(g, name);
    if found.None? {
      station := g.InsertVertex(Station(name));
      AppendedStop(vs0, el0, g.edges, g.erec, name, station);
    } else {
      station := found.value;
      FoundStop(vs0, el0, g.edges, g.erec, name, station);
    }
  }

  /** One turn of the building loop: the station is looked up and, if absent, inserted;
      if a previous station exists, an edge of the line joins it to this one. */
  method AddStop(g: Network, line: Line, from: Option<Vertex>, name: string) returns (station: Vertex)
    requires g.Valid() && (from.Some? ==> g.ValidVertex(from.value))
    modifies g
    ensures g.Valid() && g.ValidVertex(station)
    ensures StopAdded(old(g.vertices), old(g.vrec.element), old(g.edges), old(g.erec),
                      g.vertices, g.vrec.element, g.edges, g.erec, line, from, name, station)
    ensures var found := old(FindStation(g, name)).Some?;
            var out1 := if found then old(g.vrec.outgoing) else old(g.vrec.outgoing)[station := map[]];
            var in1 := if found || !g.isDirected then old(g.vrec.incoming) else old(g.vrec.incoming)[station := map[]];
      && g.vrec.outgoing == (if from.Some? then OutAfterPut(g.isDirected, out1, from.value, station, g.edges[|old(g.edges)|]) else out1)
      && g.vrec.incoming == (if from.Some? then InAfterPut(g.isDirected, in1, from.value, station, g.edges[|old(g.edges)|]) else in1)
    ensures from.Some? ==> g.GetEdge(from.value, station) == Ok(Some(g.edges[|old(g.edges)|]))
    ensures from.Some? && !g.isDirected ==> g.GetEdge(station, from.value) == Ok(Some(g.edges[|old(g.edges)|]))
    ensures KeysKept(old(g.vrec.outgoing), g.vrec.outgoing)
    ensures from.Some? ==> Adjacent(g.isDirected, g.vrec.outgoing, from.value, station)
  {
    station := Locate(g, name);
    if from.Some? {
      ghost var vs1, el1, es1, er1, out1 := g.vertices, g.vrec.element, g.edges, g.erec, g.vrec.outgoing;
      var r := g.InsertEdge(from.value, station, LineSegment(line));
      assert r.Ok?;
      EdgeAppended(es1, er1, g.edges, g.erec, Edge(g.id, er1.count), LineSegment(line), (from.value, station));
      assert g.edges[|es1|] == Edge(g.id, er1.count);
      PutKeepsKeys(g.isDirected, out1, from.value, station, r.value);
    }
  }

  /** The building loop of readNetwork for one line: consecutive stations of the list are
      joined by an edge of the line, stations already present being reused. */
  method AddLine(g: Network, line: Line, names: seq<string>)
    requires g.Valid()
    modifies g
    ensures g.Valid()
    ensures LineAdded(old(g.vertices), old(g.vrec.element), old(g.edges), old(g.erec),
                      g.vertices, g.vrec.element, g.edges, g.erec, line, names)
    ensures KeysKept(old(g.vrec.outgoing), g.vrec.outgoing)
    ensures LineLinked(g.vertices, g.vrec.element, g.vrec.outgoing, g.isDirected, names, |names|)
  {
    ghost var vs0, el0, es0, er0, out0 := g.vertices, g.vrec.element, g.edges, g.erec, g.vrec.outgoing;
    BuildingStarts(vs0, el0, es0, er0, line, names);
    var from: Option<Vertex> := None;
    var i := 0;
    while i < |names|
      invariant g.Valid() && (from.Some? ==> g.ValidVertex(from.value))
      invariant Building(vs0, el0, es0, er0, g.vertices, g.vrec.element, g.edges, g.erec, line, names, i, from)
      invariant KeysKept(out0, g.vrec.outgoing)
      invariant LineLinked(g.vertices, g.vrec.element, g.vrec.outgoing, g.isDirected, names, i)
    {
      ghost var vs1, el1, es1, er1, out1 := g.vertices, g.vrec.element, g.edges, g.erec, g.vrec.outgoing;
      var station := AddStop(g, line, from, names[i]);
      LinkedStep(vs1, el1, out1, g.vertices, g.vrec.element, g.vrec.outgoing, g.isDirected, names, i, from, station);
      BuildingStep(vs0, el0, es0, er0, vs1, el1, es1, er1, g.vertices, g.vrec.element, g.edges, g.erec,
                   line, names, i, from, station);
      from := Some(station);
      i := i + 1;
    }
    BuildingEnds(vs0, el0, es0, er0, g.vertices, g.vrec.element, g.edges, g.erec, line, names, from);
  }

  /** The number of edges the lines before line `j` contribute. */
  function EdgesBefore(lines: seq<(string, seq<string>)>, j: nat): (r: nat)
    requires j <= |lines|
  {
    if j == 0 then 0 else EdgesBefore(lines, j - 1) + Segments(|lines[j - 1].1|)
  }

  /** Line `l` of `lines` is built, from the edges following those of the lines before it. */
  ghost predicate LineOfNetwork(vs: seq<Vertex>, el: map<Vertex, Station>, es: seq<Edge>, er: EdgeRecords<LineSegment>,
                                lines: seq<(string, seq<string>)>, l: nat)
  {
    l < |lines| && LineBuilt(vs, el, es, er, Line(lines[l].0), lines[l].1, EdgesBefore(lines, l))
  }

  /** Vertex `i` of `vs` is a station named after a station name of one of the first `j`
      lines. */
  ghost predicate StationOfLines(vs: seq<Vertex>, el: map<Vertex, Station>, lines: seq<(string, seq<string>)>,
                                 j: nat, i: nat)
  {
    && i < |vs| && vs[i] in el
    && exists l, k :: 0 <= l < j && l < |lines| && 0 <= k < |lines[l].1| && el[vs[i]] == Station(lines[l].1[k])
  }

  /** The network after its first `j` lines: no two stations share a key, every one of
      those lines is built, and every vertex is a station named in one of them. */
  ghost predicate NetworkBuilt(vs: seq<Vertex>, el: map<Vertex, Station>, es: seq<Edge>, er: EdgeRecords<LineSegment>,
                               lines: seq<(string, seq<string>)>, j: nat)
  {
    && j <= |lines|
    && Recorded(vs, el) && DistinctKeys(vs, el)
    && |es| == EdgesBefore(lines, j)
    && (forall l :: 0 <= l < j ==> LineOfNetwork(vs, el, es, er, lines, l))
    && (forall i :: 0 <= i < |vs| ==> StationOfLines(vs, el, lines, j, i))
    && (forall v :: v in el ==> v in vs)
  }

  /** The stations of the first `j` lines, and those line `j` adds after them, are
      stations of the first `after` = `j + 1` lines; no vertex record is left out of the vertex list. */
  lemma {:induction false} StationsGrow(vs0: seq<Vertex>, el0: map<Vertex, Station>, vs: seq<Vertex>, el: map<Vertex, Station>,
                                        lines: seq<(string, seq<string>)>, j: nat, after: nat)
    requires j < |lines| && after == j + 1 && Recorded(vs0, el0) && Grown(vs0, el0, vs, el)
    requires forall i :: 0 <= i < |vs0| ==> StationOfLines(vs0, el0, lines, j, i)
    requires forall v :: v in el0 ==> v in vs0
    requires OnlyNamed(vs0, el0, vs, el, lines[j].1)
    ensures forall i :: 0 <= i < |vs| ==> StationOfLines(vs, el, lines, after, i)
    ensures forall v :: v in el ==> v in vs
  {
    forall i | 0 <= i < |vs| ensures StationOfLines(vs, el, lines, after, i) {
      if i < |vs0| {
        assert StationOfLines(vs0, el0, lines, j, i);
        var l, k :| 0 <= l < j && l < |lines| && 0 <= k < |lines[l].1| && el0[vs0[i]] == Station(lines[l].1[k]);
        assert vs[i] == vs0[i] && el[vs[i]] == el0[vs0[i]];
      } else {
        assert NamedStop(vs0, el0, vs, el, lines[j].1, i);
        var k :| 0 <= k < |lines[j].1| && el[vs[i]] == Station(lines[j].1[k]) && FindIn(vs0, el0, Normalize(lines[j].1[k])).None?;
      }
    }
    forall v | v in el ensures v in vs {
      if v in el0 {
        assert v in vs0;
      }
    }
  }

  /** Lines built before the graph grew are still built. */
  lemma {:induction false} LinesGrow(vs0: seq<Vertex>, el0: map<Vertex, Station>, es0: seq<Edge>, er0: EdgeRecords<LineSegment>,
                  vs: seq<Vertex>, el: map<Vertex, Station>, es: seq<Edge>, er: EdgeRecords<LineSegment>,
                  lines: seq<(string, seq<string>)>, j: nat)
    requires j <= |lines| && Recorded(vs, el) && Grown(vs0, el0, vs, el) && EdgesGrown(es0, er0, es, er)
    requires forall l :: 0 <= l < j ==> LineOfNetwork(vs0, el0, es0, er0, lines, l)
    ensures forall l :: 0 <= l < j ==> LineOfNetwork(vs, el, es, er, lines, l)
  {
    forall l | 0 <= l < j ensures LineOfNetwork(vs, el, es, er, lines, l) {
      assert LineOfNetwork(vs0, el0, es0, er0, lines, l);
      LineBuiltGrows(vs0, el0, es0, er0, vs, el, es, er, Line(lines[l].0), lines[l].1, EdgesBefore(lines, l));
    }
  }

  lemma {:induction false} NetworkStep(vs0: seq<Vertex>, el0: map<Vertex, Station>, es0: seq<Edge>, er0: EdgeRecords<LineSegment>,
                    vs: seq<Vertex>, el: map<Vertex, Station>, es: seq<Edge>, er: EdgeRecords<LineSegment>,
                    lines: seq<(string, seq<string>)>, j: nat)
    requires j < |lines| && NetworkBuilt(vs0, el0, es0, er0, lines, j)
    requires LineAdded(vs0, el0, es0, er0, vs, el, es, er, Line(lines[j].0), lines[j].1)
    ensures NetworkBuilt(vs, el, es, er, lines, j + 1)
  {
    LinesGrow(vs0, el0, es0, er0, vs, el, es, er, lines, j);
    StationsGrow(vs0, el0, vs, el, lines, j, j + 1);
    assert LineOfNetwork(vs, el, es, er, lines, j);
  }

  /** Line `l` of `lines` has each station a neighbour of the next in the maps of an
      undirected graph. */
  ghost predicate LinkedLine(vs: seq<Vertex>, el: map<Vertex, Station>, out: AdjacencyTable,
                             lines: seq<(string, seq<string>)>, l: nat)
  {
    l < |lines| && LineLinked(vs, el, out, false, lines[l].1, |lines[l].1|)
  }

  /** The first `j` lines are linked in the maps. */
  ghost predicate NetworkLinked(vs: seq<Vertex>, el: map<Vertex, Station>, out: AdjacencyTable,
                                lines: seq<(string, seq<string>)>, j: nat)
  {
    forall l :: 0 <= l < j ==> LinkedLine(vs, el, out, lines, l)
  }

  /** Adding line `j`, linked, to a network whose first `j` lines are linked, with no map
      losing a key, leaves the first `j + 1` lines linked. */
  lemma {:induction false} NetworkLinkedStep(vs0: seq<Vertex>, el0: map<Vertex, Station>, out0: AdjacencyTable,
                                             vs: seq<Vertex>, el: map<Vertex, Station>, out: AdjacencyTable,
                                             lines: seq<(string, seq<string>)>, j: nat)
    requires j < |lines| && Recorded(vs0, el0) && Recorded(vs, el) && Grown(vs0, el0, vs, el) && KeysKept(out0, out)
    requires NetworkLinked(vs0, el0, out0, lines, j)
    requires LineLinked(vs, el, out, false, lines[j].1, |lines[j].1|)
    ensures NetworkLinked(vs, el, out, lines, j + 1)
  {
    forall l | 0 <= l < j + 1 ensures LinkedLine(vs, el, out, lines, l) {
      if l < j {
        assert LinkedLine(vs0, el0, out0, lines, l);
        LinkedGrown(vs0, el0, out0, vs, el, out, false, lines[l].1, |lines[l].1|);
      }
    }
  }

  /** In the graph, a linked pair of consecutive stations is one that getEdge finds an
      edge between, from either station: the edge put last between them. */
  lemma SegmentEdge(g: Network, names: seq<string>, k: nat)
    requires g.Valid() && SegmentLinked(g.vertices, g.vrec.element, g.vrec.outgoing, g.isDirected, names, k)
    ensures var a, b := FindStation(g, names[k]), FindStation(g, names[k + 1]);
      && a.Some? && b.Some? && g.GetEdge(a.value, b.value).Ok? && g.GetEdge(a.value, b.value).value.Some?
      && (!g.isDirected ==> g.GetEdge(b.value, a.value).Ok? && g.GetEdge(b.value, a.value).value.Some?)
  {
  }

  /** readNetwork on lines given as (line name, station names) pairs, in file order: an
      undirected graph in which every line's stations are joined in order by edges of
      that line, the edges of each line following those of the lines before it, and no
      two stations share a key. */
  method ReadNetwork(lines: seq<(string, seq<string>)>) returns (g: Network)
    ensures fresh(g) && g.Valid() && !g.isDirected
    ensures NetworkBuilt(g.vertices, g.vrec.element, g.edges, g.erec, lines, |lines|)
    ensures NetworkLinked(g.vertices, g.vrec.element, g.vrec.outgoing, lines, |lines|)
  {
    g := new AdjacencyMapGraph(false, 0);
    var j := 0;
    while j < |lines|
      invariant g.Valid() && !g.isDirected && fresh(g)
      invariant NetworkBuilt(g.vertices, g.vrec.element, g.edges, g.erec, lines, j)
      invariant NetworkLinked(g.vertices, g.vrec.element, g.vrec.outgoing, lines, j)
    {
      ghost var vs0, el0, es0, er0, out0 := g.vertices, g.vrec.element, g.edges, g.erec, g.vrec.outgoing;
      AddLine(g, Line(lines[j].0), lines[j].1);
      NetworkStep(vs0, el0, es0, er0, g.vertices, g.vrec.element, g.edges, g.erec, lines, j);
      NetworkLinkedStep(vs0, el0, out0, g.vertices, g.vrec.element, g.vrec.outgoing, lines, j);
      j := j + 1;
    }
  }

  /** Where each edge of the path is incident to the vertex reached before it, the walk
      crosses the edge to its opposite vertex. */
  lemma {:induction false} WalkCrosses(g: Network, path: seq<Edge>, origin: Vertex, k: nat)
    requires g.Valid() && forall j :: 0 <= j < |path| ==> g.ValidEdge(path[j]) && path[j] in g.erec.endpoints
    requires k < |path| && g.Opposite(WalkFrom(g.erec.endpoints, path, origin)[k], path[k]).Ok?
    ensures WalkFrom(g.erec.endpoints, path, origin)[k + 1] ==
            g.Opposite(WalkFrom(g.erec.endpoints, path, origin)[k], path[k]).value
  {
    assert Crossed(g.erec.endpoints, path, WalkFrom(g.erec.endpoints, path, origin), k);
  }

  /** The index of the first edge of `path` that is not valid in `g`, or `|path|`. */
  function FirstInvalid(g: Network, path: seq<Edge>): (k: nat)
    reads g
    ensures k <= |path| && (forall i :: 0 <= i < k ==> g.ValidEdge(path[i]))
    ensures k < |path| ==> !g.ValidEdge(path[k])
    decreases |path|
  {
    if path == [] || !g.ValidEdge(path[0]) then 0 else 1 + FirstInvalid(g, path[1..])
  }

  /** The vertices printPath reads a station name from are records of `g`: the origin,
      and both endpoints of each valid edge of the path. */
  ghost predicate EndsRecorded(g: Network, path: seq<Edge>, origin: Vertex)
    reads g
    requires g.Valid()
  {
    && origin in g.vrec.element
    && forall k :: 0 <= k < |path| && g.ValidEdge(path[k]) ==>
         g.erec.endpoints[path[k]].0 in g.vrec.element && g.erec.endpoints[path[k]].1 in g.vrec.element
  }

  /** Edge `k` of `path` has its records, and so have both its endpoints. */
  ghost predicate EdgeOnRecord(er: EdgeRecords<LineSegment>, el: map<Vertex, Station>, path: seq<Edge>, k: nat) {
    && k < |path| && path[k] in er.element && path[k] in er.endpoints
    && er.endpoints[path[k]].0 in el && er.endpoints[path[k]].1 in el
  }

  /** Every edge before the first invalid one has its records, and so have its endpoints. */
  lemma {:induction false} PathOnRecord(g: Network, path: seq<Edge>, origin: Vertex)
    requires g.Valid() && EndsRecorded(g, path, origin)
    ensures forall k :: 0 <= k < FirstInvalid(g, path) ==> EdgeOnRecord(g.erec, g.vrec.element, path, k)
  {
    forall k | 0 <= k < FirstInvalid(g, path) ensures EdgeOnRecord(g.erec, g.vrec.element, path, k) {
      g.EdgeRecorded(path[k]);
    }
  }

  /** printPath: the tokens printed for `path` followed from `origin`. An edge that is not
      valid makes endVertices throw before anything is printed for it, leaving what the
      edges before it printed; otherwise the name of the last station reached ends the
      output. */
  method PrintPath(g: Network, path: seq<Edge>, origin: Vertex) returns (out: seq<Token>, r: Result<()>)
    requires g.Valid() && EndsRecorded(g, path, origin)
    ensures r.Ok? <==> FirstInvalid(g, path) == |path|
    ensures r.Err? ==> r.error == InvalidEdge
    ensures PrintedRoute(g.erec, g.vrec.element, path, origin, FirstInvalid(g, path), r.Ok?, out)
  {
    var er, el := g.erec, g.vrec.element;
    PathOnRecord(g, path, origin);
    ghost var stop := FirstInvalid(g, path);
    var current := origin;
    var previousLine := "";
    ghost var walk := [origin];
    ghost var lines: seq<string> := [];
    ghost var ats: seq<string> := [];
    out := [];
    var i := 0;
    while i < |path|
      invariant i <= stop
      invariant Printed(er, el, path, origin, i, current, previousLine, out, walk, lines, ats)
    {
      var v := g.EndVertices(path[i]);
      if v.Err? {
        r := Err(v.error);
        assert i == stop;
        PrintedDone(er, el, path, origin, i, current, previousLine, out, walk, lines, ats, false);
        return;
      }
      assert g.ValidEdge(path[i]) && i < stop;
      assert EdgeOnRecord(er, el, path, i);
      var next := if v.value.0 == current then v.value.1 else v.value.0;
      var lineName := er.element[path[i]].line.name;
      var here := el[current].name;
      ghost var out0 := out;
      if previousLine != lineName && previousLine != "" {
        out := out + [Arrive(here), Switch(lineName, here)];
      }
      if previousLine != lineName || previousLine == "" {
        out := out + [Take(lineName, here)];
      }
      assert out == out0 + StepTokens(previousLine, lineName, here);
      ghost var i0, current0, previous0, walk0, lines0, ats0 := i, current, previousLine, walk, lines, ats;
      previousLine := lineName;
      current := next;
      walk := walk + [next];
      lines := lines + [lineName];
      ats := ats + [here];
      i := i + 1;
      PrintStep(er, el, path, origin, i0, current0, previous0, out0, walk0, lines0, ats0,
                i, current, previousLine, out, walk, lines, ats);
    }
    assert i == stop;
    PrintedDone(er, el, path, origin, i, current, previousLine, out, walk, lines, ats, true);
    out := out + [Arrive(el[current].name)];
    r := Ok(());
  }
}