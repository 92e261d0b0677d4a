/** Edges of the older engine (polyhex/objects/old_edges.py): a segment
    between two vertex nodes of a hexagon, keyed by its end points and by
    its end points together with its habitat feature. */
module OldEdges {
  import opened Wrappers
  import opened Geometry
  import opened OldNodes

  /** An element of an edge key: an end point or the feature. */
  datatype KeyItem = At(point: Point) | Holds(feature: Option<Feature>)

  /** The key of an edge: its two end points and its feature. */
  type FeatureKey = set<KeyItem>

  function MakeKey(u: Point, v: Point, f: Option<Feature>): FeatureKey {
    {At(u), At(v), Holds(f)}
  }

  /** An edge with the display points u and v of its start and end. */
  datatype Edge = Edge(start: OldNode, end: OldNode, index: nat, feature: Option<Feature>,
                       encoding: Option<seq<int>>, hexagon: Coord, u: Point, v: Point)
  {
    /** The unordered pair of end points. */
    function SpatialKey(): SpatialKey {
      {u, v}
    }

    /** End points and feature. */
    function Key(): FeatureKey {
      MakeKey(u, v, feature)
    }

    function Start(): OldNode { start }

    function End(): OldNode { end }

    /** Python `==`: the end vertices match (by scaled display position) in
        either order; both comparisons are evaluated, the first one first. */
    function Equals(other: Edge): (r: Result<bool>)
      reads start, end, other.start, other.end
    {
      var e00 := start.Equal(other.start, "cartesian_coord");
      if e00.Err? then Err(e00.error)
      else
        var c1 :- if e00.value then end.Equal(other.end, "cartesian_coord") else Ok(false);
        var e01 := start.Equal(other.end, "cartesian_coord");
        if e01.Err? then Err(e01.error)
        else
          var c2 :- if e01.value then end.Equal(other.start, "cartesian_coord") else Ok(false);
          Ok(c1 || c2)
    }
  }

  /** Builds an edge between two located vertices; the habitat code of a
      feature must exist. */
  function NewEdge(v0: OldNode, v1: OldNode, index: nat, feature: Option<Feature>,
                   habitat: map<Feature, seq<int>>, hexagon: Coord): (r: Result<Edge>)
    requires v0.cartesianVector.Some? && v1.cartesianVector.Some?
    ensures r.Err? <==> feature.Some? && feature.value !in habitat
    ensures r.Err? ==> r.error == KeyError
    ensures r.Ok? ==> r.value.Start() == v0 && r.value.End() == v1 && r.value.feature == feature
    ensures r.Ok? ==> r.value.SpatialKey() == {v0.cartesianVector.value, v1.cartesianVector.value}
    ensures r.Ok? ==> (r.value.encoding.None? <==> feature.None?)
    ensures r.Ok? && feature.Some? ==> r.value.encoding == Some(habitat[feature.value])
  {
    if feature.Some? && feature.value !in habitat then Err(KeyError)
    else
      var enc := if feature.Some? then Some(habitat[feature.value]) else None;
      Ok(Edge(v0, v1, index, feature, enc, hexagon, v0.cartesianVector.value, v1.cartesianVector.value))
  }

  /** Two keys are equal exactly when the end point pairs and the features
      are: the same segment with another feature has another key. */
  lemma KeyIdentifiesSegmentAndFeature(u: Point, v: Point, f: Option<Feature>,
                                       u': Point, v': Point, f': Option<Feature>)
    ensures MakeKey(u, v, f) == MakeKey(u', v', f') <==> {u, v} == {u', v'} && f == f'
  {
    if MakeKey(u, v, f) == MakeKey(u', v', f') {
      assert Holds(f) in MakeKey(u', v', f');
      assert At(u) in MakeKey(u', v', f') && At(v) in MakeKey(u', v', f');
      assert At(u') in MakeKey(u, v, f) && At(v') in MakeKey(u, v, f);
    }
  }

  /** Keys do not depend on which vertex is the start. */
  lemma KeysIgnoreDirection(e: Edge)
    ensures e.(start := e.end, end := e.start, u := e.v, v := e.u).SpatialKey() == e.SpatialKey()
    ensures e.(start := e.end, end := e.start, u := e.v, v := e.u).Key() == e.Key()
  {
  }

  /** Once all four end vertices have a scaled position, equality is the
      match of end points in either order, and it is symmetric. */
  lemma EqualsWhenLocated(e: Edge, f: Edge)
    requires e.start.cartesianCoord.Some? && e.end.cartesianCoord.Some?
    requires f.start.cartesianCoord.Some? && f.end.cartesianCoord.Some?
    ensures e.Equals(f) == Ok(
      (e.start.cartesianCoord == f.start.cartesianCoord && e.end.cartesianCoord == f.end.cartesianCoord) ||
      (e.start.cartesianCoord == f.end.cartesianCoord && e.end.cartesianCoord == f.start.cartesianCoord))
    ensures e.Equals(f) == f.Equals(e)
  {
  }
}
