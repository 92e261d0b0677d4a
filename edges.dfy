/** Edges of the newer engine (polyhex/objects/edges.py): a segment between
    two vertex nodes of a hexagon, identified by its unordered endpoint pair
    and, together with its feature, by its feature key. */
module Edges {
  import opened Wrappers
  import opened Geometry
  import opened Nodes

  datatype HexagonEdge = HexagonEdge(
    hexagon: Coord, start: Node, end: Node, index: nat, feature: string, token: string)
  {
    /** Both ends are vertices. */
    predicate WellFormed() {
      start.kind.Vertex? && end.kind.Vertex?
    }

    /** The unordered pair of end point locations. */
    function SpatialKey(): set<Point>
      requires WellFormed()
    {
      {start.VertexKey(), end.VertexKey()}
    }

    /** The endpoint pair together with the edge feature. */
    function FeatureKey(): (set<Point>, string)
      requires WellFormed()
    {
      (SpatialKey(), feature)
    }

    /** Python equality: same feature key. */
    predicate Equal(other: HexagonEdge)
      requires WellFormed() && other.WellFormed()
    {
      FeatureKey() == other.FeatureKey()
    }

    /** The "path" distance is 1 when the edges share an end vertex (by
        vertex equality) and 0 otherwise; other kinds are not implemented. */
    function Distance(other: HexagonEdge, kwd: string): (r: Result<nat>)
      ensures r.Ok? <==> kwd == "path"
      ensures r.Err? ==> r.error == NotImplementedError
      ensures r.Ok? ==> r.value <= 1
      ensures r.Ok? ==> (r.value == 1 <==> SharesEndpoint(other))
    {
      if kwd == "path" then
        Ok(if (start.Equal(other.start) || start.Equal(other.end))
              || (end.Equal(other.end) || end.Equal(other.start)) then 1 else 0)
      else Err(NotImplementedError)
    }

    /** Some end of this edge equals some end of the other. */
    predicate SharesEndpoint(other: HexagonEdge) {
      exists a, b :: a in {start, end} && b in {other.start, other.end} && a.Equal(b)
    }

    /** The encoding: the feature code and the token code. */
    function Encoding(tables: EncodingTables): (r: Result<seq<int>>)
      ensures r.Ok? <==> feature in tables.feature && token in tables.token
      ensures r.Ok? ==> r.value == [tables.feature[feature], tables.token[token]]
      ensures r.Err? ==> r.error == KeyError
    {
      if feature in tables.feature && token in tables.token then
        Ok([tables.feature[feature], tables.token[token]])
      else Err(KeyError)
    }
  }

  /** A new edge carries the placeholder token. */
  function NewEdge(hexagon: Coord, start: Node, end: Node, index: nat, feature: string): (e: HexagonEdge)
    ensures e.token == Placeholder
    ensures e.start == start && e.end == end && e.feature == feature
  {
    HexagonEdge(hexagon, start, end, index, feature, Placeholder)
  }

  /** Keys do not depend on which vertex is the start. */
  lemma KeysIgnoreDirection(e: HexagonEdge)
    requires e.WellFormed()
    ensures var f := e.(start := e.end, end := e.start);
      f.WellFormed() && f.SpatialKey() == e.SpatialKey() && f.FeatureKey() == e.FeatureKey()
  {
  }

  /** Equal edges occupy the same segment and carry the same feature; the
      same segment with another feature is a different edge. */
  lemma EqualMeansSameSegmentAndFeature(e: HexagonEdge, f: HexagonEdge)
    requires e.WellFormed() && f.WellFormed()
    ensures e.Equal(f) <==> e.SpatialKey() == f.SpatialKey() && e.feature == f.feature
  {
  }

  /** The path distance is symmetric and an edge is at distance 1 from itself. */
  lemma PathDistanceSymmetric(e: HexagonEdge, f: HexagonEdge)
    ensures e.Distance(f, "path") == f.Distance(e, "path")
    ensures e.Distance(e, "path") == Ok(1)
  {
    EqualEquivalence(e.start, f.start, e.start);
    EqualEquivalence(e.start, f.end, e.start);
    EqualEquivalence(e.end, f.start, e.end);
    EqualEquivalence(e.end, f.end, e.end);
  }
}
