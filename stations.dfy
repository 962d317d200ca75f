/** The entities of the tube network: stations at the vertices, line segments on the
    edges. */
module Stations {
  import opened AdjacencyMaps
  import opened Graphs

  /** A station: its name (the list of lines a station keeps is never filled in). */
  datatype Station = Station(name: string)

  /** A tube line, known by its name. */
  datatype Line = Line(name: string)

  /** The element of an edge: the line the segment belongs to. */
  datatype LineSegment = LineSegment(line: Line)

  type Network = AdjacencyMapGraph<Station, LineSegment>

  /** The vertices in `vs` all have records in `element`. */
  ghost predicate Recorded(vs: seq<Vertex>, element: map<Vertex, Station>) {
    forall v :: v in vs ==> v in element
  }
}
