/** What printPath computes from a route: the vertices it passes, the line of each edge
    and the station each edge leaves from, and the state of its loop after each edge. */
module Routes {
  import opened AdjacencyMaps
  import opened Graphs
  import opened Instructions
  import opened Stations

  /** The vertex an edge with endpoints `ends` leads to from `v`, as printPath picks it:
      the second endpoint when `v` is the first, and the first one otherwise. */
  function Cross(ends: (Vertex, Vertex), v: Vertex): (r: Vertex)
    ensures r == ends.0 || r == ends.1
    ensures v == ends.0 ==> r == ends.1
    ensures v == ends.1 && v != ends.0 ==> r == ends.0
  {
    if ends.0 == v then ends.1 else ends.0
  }

  /** Vertex `k + 1` of `walk` is the one edge `k` of `path` leads to from vertex `k`. */
  ghost predicate Crossed(ends: map<Edge, (Vertex, Vertex)>, path: seq<Edge>, walk: seq<Vertex>, k: nat) {
    k < |path| && k + 1 < |walk| && path[k] in ends && walk[k + 1] == Cross(ends[path[k]], walk[k])
  }

  /** The vertices printPath passes through when it follows `path` from `origin`. */
  function WalkFrom(ends: map<Edge, (Vertex, Vertex)>, path: seq<Edge>, origin: Vertex): (r: seq<Vertex>)
    requires forall k :: 0 <= k < |path| ==> path[k] in ends
    ensures |r| == |path| + 1 && r[0] == origin
    ensures forall k :: 0 <= k < |path| ==> Crossed(ends, path, r, k)
    decreases |path|
  {
    if path == [] then [origin]
    else
      var n := |path| - 1;
      var w := WalkFrom(ends, path[..n], origin);
      var r := w + [Cross(ends[path[n]], w[n])];
      assert forall k :: 0 <= k < n ==> Crossed(ends, path[..n], w, k) ==> Crossed(ends, path, r, k);
      r
  }

  /** The line name of every edge of `path`. */
  function LinesOf(er: EdgeRecords<LineSegment>, path: seq<Edge>): (r: seq<string>)
    requires forall k :: 0 <= k < |path| ==> path[k] in er.element
    ensures |r| == |path| && forall k :: 0 <= k < |path| ==> r[k] == er.element[path[k]].line.name
    decreases |path|
  {
    if path == [] then [] else LinesOf(er, path[..|path| - 1]) + [er.element[path[|path| - 1]].line.name]
  }

  /** The station name of every vertex of `walk`. */
  function NamesOf(el: map<Vertex, Station>, walk: seq<Vertex>): (r: seq<string>)
    requires Recorded(walk, el)
    ensures |r| == |walk| && forall k :: 0 <= k < |walk| ==> r[k] == el[walk[k]].name
    decreases |walk|
  {
    if walk == [] then [] else NamesOf(el, walk[..|walk| - 1]) + [el[walk[|walk| - 1]].name]
  }

  /** A sequence of vertices that starts at `origin` and crosses the first `n` edges of
      `path` one after the other is the walk along them. */
  lemma {:induction false} WalkUnique(ends: map<Edge, (Vertex, Vertex)>, path: seq<Edge>, origin: Vertex,
                                      walk: seq<Vertex>, n: nat)
    requires n <= |path| && forall k :: 0 <= k < n ==> path[k] in ends
    requires |walk| == n + 1 && walk[0] == origin && forall k :: 0 <= k < n ==> Crossed(ends, path, walk, k)
    ensures walk == WalkFrom(ends, path[..n], origin)
  {
    if n > 0 {
      var w := walk[..n];
      assert forall k :: 0 <= k < n - 1 ==> Crossed(ends, path, walk, k) ==> Crossed(ends, path, w, k);
      WalkUnique(ends, path, origin, w, n - 1);
      assert path[..n][..n - 1] == path[..n - 1];
      assert Crossed(ends, path, walk, n - 1);
      assert walk == w + [walk[n]];
    }
  }

  /** `walk` starts at `origin` and crosses the first `i` edges of `path` one after the
      other, ending at `current`, and every vertex it passes is a record of `el`. */
  ghost predicate Walked(ends: map<Edge, (Vertex, Vertex)>, el: map<Vertex, Station>, path: seq<Edge>,
                         origin: Vertex, i: nat, current: Vertex, walk: seq<Vertex>)
  {
    && i <= |path| && (forall k :: 0 <= k < i ==> path[k] in ends)
    && |walk| == i + 1 && walk[0] == origin && current == walk[i] && Recorded(walk, el)
    && (forall k :: 0 <= k < i ==> Crossed(ends, path, walk, k))
  }

  /** `lines` and `ats` hold the line of each of the first `i` edges and the name of the
      station it leaves from; `previous` is the line of the last of them ("" before the
      first). */
  ghost predicate Noted(er: EdgeRecords<LineSegment>, el: map<Vertex, Station>, path: seq<Edge>, i: nat,
                        walk: seq<Vertex>, previous: string, lines: seq<string>, ats: seq<string>)
  {
    && i <= |path| && (forall k :: 0 <= k < i ==> path[k] in er.element)
    && |lines| == i && (forall k :: 0 <= k < i ==> lines[k] == er.element[path[k]].line.name)
    && i < |walk| && |ats| == i && (forall k :: 0 <= k < i ==> walk[k] in el && ats[k] == el[walk[k]].name)
    && previous == (if i == 0 then "" else lines[i - 1])
  }

  /** The state of printPath's loop after the first `i` edges of `path`: the vertices
      passed, the lines and stations noted, and, in `out`, what has been printed. */
  ghost predicate Printed(er: EdgeRecords<LineSegment>, el: map<Vertex, Station>, path: seq<Edge>, origin: Vertex,
                          i: nat, current: Vertex, previous: string, out: seq<Token>,
                          walk: seq<Vertex>, lines: seq<string>, ats: seq<string>)
  {
    && Walked(er.endpoints, el, path, origin, i, current, walk)
    && Noted(er, el, path, i, walk, previous, lines, ats)
    && out == Steps(lines, ats)
  }

  lemma {:induction false} WalkStep(ends: map<Edge, (Vertex, Vertex)>, el: map<Vertex, Station>, path: seq<Edge>,
                 origin: Vertex, i: nat, current: Vertex, walk: seq<Vertex>, next: Vertex)
    requires Walked(ends, el, path, origin, i, current, walk)
    requires i < |path| && path[i] in ends && next == Cross(ends[path[i]], current) && next in el
    ensures Walked(ends, el, path, origin, i + 1, next, walk + [next])
  {
    var walk' := walk + [next];
    assert forall k :: 0 <= k < i ==> Crossed(ends, path, walk, k) ==> Crossed(ends, path, walk', k);
    assert Crossed(ends, path, walk', i);
  }

  lemma {:induction false} NoteStep(er: EdgeRecords<LineSegment>, el: map<Vertex, Station>, path: seq<Edge>, i: nat,
                 walk: seq<Vertex>, previous: string, lines: seq<string>, ats: seq<string>, next: Vertex)
    requires Noted(er, el, path, i, walk, previous, lines, ats)
    requires i < |path| && path[i] in er.element && |walk| == i + 1 && walk[i] in el
    ensures var line := er.element[path[i]].line.name;
      Noted(er, el, path, i + 1, walk + [next], line, lines + [line], ats + [el[walk[i]].name])
  {
    var line, at := er.element[path[i]].line.name, el[walk[i]].name;
    var walk', lines', ats' := walk + [next], lines + [line], ats + [at];
    assert forall k :: 0 <= k < i + 1 ==> lines'[k] == er.element[path[k]].line.name;
    assert forall k :: 0 <= k < i + 1 ==> walk'[k] == walk[k];
  }

  /** One turn of printPath's loop: from the state after `i` edges, crossing edge `i` and
      printing its tokens leads to the state after `i + 1` edges (the primed values). */
  lemma {:induction false} PrintStep(er: EdgeRecords<LineSegment>, el: map<Vertex, Station>, path: seq<Edge>, origin: Vertex,
                  i: nat, current: Vertex, previous: string, out: seq<Token>,
                  walk: seq<Vertex>, lines: seq<string>, ats: seq<string>,
                  i': nat, current': Vertex, previous': string, out': seq<Token>,
                  walk': seq<Vertex>, lines': seq<string>, ats': seq<string>)
    requires Printed(er, el, path, origin, i, current, previous, out, walk, lines, ats)
    requires i < |path| && path[i] in er.element && path[i] in er.endpoints
    requires current' == Cross(er.endpoints[path[i]], current) && current' in el && current in el
    requires i' == i + 1 && previous' == er.element[path[i]].line.name
    requires out' == out + StepTokens(previous, previous', el[current].name)
    requires walk' == walk + [current'] && lines' == lines + [previous'] && ats' == ats + [el[current].name]
    ensures Printed(er, el, path, origin, i', current', previous', out', walk', lines', ats')
  {
    WalkStep(er.endpoints, el, path, origin, i, current, walk, current');
    NoteStep(er, el, path, i, walk, previous, lines, ats, current');
    StepsSnoc(lines, ats, previous', el[current].name);
  }

  /** What the printing loop has gathered after `n` edges is what the route's functions
      say of the first `n` edges. */
  lemma {:induction false} PrintedSoFar(er: EdgeRecords<LineSegment>, el: map<Vertex, Station>, path: seq<Edge>, origin: Vertex,
                     n: nat, current: Vertex, previous: string, out: seq<Token>,
                     walk: seq<Vertex>, lines: seq<string>, ats: seq<string>)
    requires Printed(er, el, path, origin, n, current, previous, out, walk, lines, ats)
    ensures walk == WalkFrom(er.endpoints, path[..n], origin)
    ensures lines == LinesOf(er, path[..n])
    ensures ats == NamesOf(el, walk)[..n]
    ensures ats + [el[current].name] == NamesOf(el, walk)
  {
    WalkUnique(er.endpoints, path, origin, walk, n);
  }

  /** What printPath has printed when it stops after the first `k` edges of `path`:
      with `complete`, the steps for those edges and the arrival at the last station
      reached; otherwise only the steps. */
  ghost predicate PrintedRoute(er: EdgeRecords<LineSegment>, el: map<Vertex, Station>, path: seq<Edge>,
                               origin: Vertex, k: nat, complete: bool, out: seq<Token>)
  {
    && k <= |path| && (forall j :: 0 <= j < k ==> path[j] in er.element && path[j] in er.endpoints)
    && var route := path[..k];
       && Recorded(WalkFrom(er.endpoints, route, origin), el)
       && var names := NamesOf(el, WalkFrom(er.endpoints, route, origin));
          out == if complete then Itinerary(LinesOf(er, route), names) else Steps(LinesOf(er, route), names[..k])
  }

  /** When printPath's loop stops after `n` edges, it has printed the route's steps; the
      arrival at `current` completes the route. */
  lemma {:induction false} PrintedDone(er: EdgeRecords<LineSegment>, el: map<Vertex, Station>, path: seq<Edge>, origin: Vertex,
                    n: nat, current: Vertex, previous: string, out: seq<Token>,
                    walk: seq<Vertex>, lines: seq<string>, ats: seq<string>, complete: bool)
    requires Printed(er, el, path, origin, n, current, previous, out, walk, lines, ats)
    ensures current in el
    ensures PrintedRoute(er, el, path, origin, n, complete,
                         if complete then out + [Arrive(el[current].name)] else out)
  {
    PrintedSoFar(er, el, path, origin, n, current, previous, out, walk, lines, ats);
    assert walk[n] in walk;
  }
}
