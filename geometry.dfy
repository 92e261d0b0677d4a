/** Axial hex-grid geometry of a pointy-top, clockwise hexagon
    (polyhex/objects/hexagons.py): neighbours, the display transform,
    the six vertices and the six edges of a cell. */
module Geometry {

  /** An axial coordinate (q, r). */
  datatype Coord = Coord(q: int, r: int)

  /** An integer point of the display grid. */
  datatype Point = Point(x: int, y: int)

  /** The unordered pair of end points that identifies an edge in space. */
  type SpatialKey = set<Point>

  /** The six neighbours of a cell, in clockwise order starting at the upper right. */
  function Neighbours(c: Coord): (ns: seq<Coord>)
    ensures |ns| == 6
  {
    [Coord(c.q + 1, c.r - 1), Coord(c.q + 1, c.r), Coord(c.q, c.r + 1),
     Coord(c.q - 1, c.r + 1), Coord(c.q - 1, c.r), Coord(c.q, c.r - 1)]
  }

  /** The neighbour that edge i of c faces. */
  function Neighbour(c: Coord, i: nat): Coord
    requires i < 6
  {
    Neighbours(c)[i]
  }

  /** Index of the opposite edge. */
  function Opposite(i: nat): (j: nat)
    requires i < 6
    ensures j < 6 && j != i
  {
    (i + 3) % 6
  }

  predicate Adjacent(a: Coord, b: Coord) {
    b in Neighbours(a)
  }

  /** The grid-native distance of the old engine: |dq| + |dr|. */
  function Distance(a: Coord, b: Coord): (d: nat)
    ensures d == 0 <==> a == b
  {
    (if a.q >= b.q then a.q - b.q else b.q - a.q) + (if a.r >= b.r then a.r - b.r else b.r - a.r)
  }

  /** Display position of a cell centre: x = 2q + r, y = -3r. */
  function AxialToCartesian(c: Coord): Point {
    Point(2 * c.q + c.r, -3 * c.r)
  }

  /** Offset of vertex i from the centre, clockwise from the top. */
  function VertexOffset(i: nat): Point
    requires i < 6
  {
    [Point(0, 2), Point(1, 1), Point(1, -1), Point(0, -2), Point(-1, -1), Point(-1, 1)][i]
  }

  function Vertex(c: Coord, i: nat): Point
    requires i < 6
  {
    var p := AxialToCartesian(c);
    var o := VertexOffset(i);
    Point(p.x + o.x, p.y + o.y)
  }

  /** The six vertices of a cell, in order. */
  function Vertices(c: Coord): (vs: seq<Point>)
    ensures |vs| == 6
    ensures forall i :: 0 <= i < 6 ==> vs[i] == Vertex(c, i)
  {
    [Vertex(c, 0), Vertex(c, 1), Vertex(c, 2), Vertex(c, 3), Vertex(c, 4), Vertex(c, 5)]
  }

  /** Edge i joins vertex i to vertex (i + 1) mod 6. */
  function EdgeKey(c: Coord, i: nat): (k: SpatialKey)
    requires i < 6
    ensures |k| == 2
  {
    var a := Vertex(c, i);
    var b := Vertex(c, (i + 1) % 6);
    assert a != b;
    {a, b}
  }

  /** Opposite offsets are negations of each other, so every cell is the
      opposite neighbour of each of its neighbours. */
  lemma NeighbourOfNeighbour(c: Coord, i: nat)
    requires i < 6
    ensures Neighbour(Neighbour(c, i), Opposite(i)) == c
  {
  }

  lemma DistanceSymmetric(a: Coord, b: Coord)
    ensures Distance(a, b) == Distance(b, a)
  {
  }

  lemma AdjacentSymmetric(a: Coord, b: Coord)
    ensures Adjacent(a, b) <==> Adjacent(b, a)
  {
  }

  /** The six neighbours are pairwise distinct and differ from the cell. */
  lemma NeighboursDistinct(c: Coord)
    ensures forall i, j :: 0 <= i < j < 6 ==> Neighbour(c, i) != Neighbour(c, j)
    ensures forall i :: 0 <= i < 6 ==> Neighbour(c, i) != c
  {
  }

  /** The display transform never sends two cells to the same point. */
  lemma AxialToCartesianInjective(a: Coord, b: Coord)
    ensures AxialToCartesian(a) == AxialToCartesian(b) ==> a == b
  {
  }

  /** Edge i of a cell and edge i + 3 of its i-th neighbour are the same
      segment, seen from either side. */
  lemma SharedEdge(c: Coord, i: nat)
    requires i < 6
    ensures EdgeKey(Neighbour(c, i), Opposite(i)) == EdgeKey(c, i)
  {
    var n := Neighbour(c, i);
    var j := Opposite(i);
    assert Vertex(n, j) == Vertex(c, (i + 1) % 6);
    assert Vertex(n, (j + 1) % 6) == Vertex(c, i);
  }

  /** Two cells share a segment only across the edge that faces the
      other: an edge key belongs to at most two cells. */
  lemma SharedEdgeUnique(c: Coord, i: nat, d: Coord, j: nat)
    requires i < 6 && j < 6
    requires EdgeKey(c, i) == EdgeKey(d, j)
    ensures (d == c && j == i) || (d == Neighbour(c, i) && j == Opposite(i))
  {
    var a, b := Vertex(c, i), Vertex(c, (i + 1) % 6);
    var a', b' := Vertex(d, j), Vertex(d, (j + 1) % 6);
    assert a' in {a, b} && b' in {a, b};
    assert (a' == a && b' == b) || (a' == b && b' == a);
  }

  /** The six edges of one cell have six different keys. */
  lemma EdgeKeysDistinct(c: Coord, i: nat, j: nat)
    requires i < 6 && j < 6 && i != j
    ensures EdgeKey(c, i) != EdgeKey(c, j)
  {
    if EdgeKey(c, i) == EdgeKey(c, j) {
      SharedEdgeUnique(c, i, c, j);
      NeighboursDistinct(c);
    }
  }
}
