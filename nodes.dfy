/** Nodes of the newer engine (polyhex/objects/nodes.py): a hexagon's
    centre and its six vertices. Their identity keys are fixed at
    construction; only the token placed on a node changes. */
module Nodes {
  import opened Wrappers
  import opened Geometry

  /** Which node this is: the centre of the hexagon at a hex coordinate, or
      the vertex with a given index at a display point. */
  datatype NodeKind = Centre(hexCoord: Coord) | Vertex(point: Point, index: nat)

  /** What the hash of a node is computed from: its type and its key. */
  datatype HashKey = CentreHash(coord: Coord) | VertexHash(point: Point, feature: string)

  /** The encoding tables of one node type: feature codes and token codes. */
  datatype EncodingTables = EncodingTables(feature: map<string, int>, token: map<string, int>)

  const Placeholder: string := "placeholder"

  class Node {
    const kind: NodeKind
    const feature: string
    var token: string

    /** Initialisation; only pointy-top hexagons are implemented. */
    static method New(kind: NodeKind, feature: string, top: string) returns (r: Result<Node>)
      ensures r.Ok? <==> top == "pointy"
      ensures r.Err? ==> r.error == NotImplementedError
      ensures r.Ok? ==> fresh(r.value) && r.value.kind == kind && r.value.feature == feature
      ensures r.Ok? ==> r.value.token == Placeholder
    {
      if top == "pointy" {
        var n := new Node(kind, feature);
        r := Ok(n);
      } else {
        r := Err(NotImplementedError);
      }
    }

    constructor (kind: NodeKind, feature: string)
      ensures this.kind == kind && this.feature == feature && token == Placeholder
    {
      this.kind := kind;
      this.feature := feature;
      token := Placeholder;
    }

    /** A centre is located by its hex coordinate, a vertex by its point. */
    function CentreKey(): Coord
      requires kind.Centre?
    {
      kind.hexCoord
    }

    function VertexKey(): Point
      requires kind.Vertex?
    {
      kind.point
    }

    /** A vertex's location together with its feature. */
    function FeatureKey(): (Point, string)
      requires kind.Vertex?
    {
      (kind.point, feature)
    }

    /** Python equality: centres by hex coordinate, vertices by feature key,
        and never a centre with a vertex. */
    predicate Equal(other: Node) {
      match (kind, other.kind)
      case (Centre(a), Centre(b)) => a == b
      case (Vertex(_, _), Vertex(_, _)) => FeatureKey() == other.FeatureKey()
      case _ => false
    }

    function HashInput(): (h: HashKey)
      ensures kind.Centre? ==> h == CentreHash(CentreKey())
      ensures kind.Vertex? ==> h == VertexHash(kind.point, feature)
    {
      match kind
      case Centre(c) => CentreHash(c)
      case Vertex(p, _) => VertexHash(p, feature)
    }

    /** Python encoding: the feature code and the token code; a missing
        entry raises KeyError. */
    function Encoding(tables: EncodingTables): (r: Result<seq<int>>)
      reads this
      ensures r.Ok? <==> feature in tables.feature && token in tables.token
      ensures r.Ok? ==> r.value == [tables.feature[feature], tables.token[token]]
      ensures r.Err? ==> r.error == KeyError
    {
      if feature in tables.feature && token in tables.token then
        Ok([tables.feature[feature], tables.token[token]])
      else Err(KeyError)
    }

    /** Places a token that the compatibility table allows on this
        node's feature. */
    method AddToken(newToken: string, compat: map<string, set<string>>) returns (o: Outcome)
      modifies this
      ensures o.Pass? <==> feature in compat && newToken in compat[feature]
      ensures o.Fail? ==> o.error == (if feature in compat then AssertionError else KeyError)
      ensures token == (if o.Pass? then newToken else old(token))
    {
      if feature !in compat {
        o := Fail(KeyError);
      } else if newToken !in compat[feature] {
        o := Fail(AssertionError);
      } else {
        token := newToken;
        o := Pass;
      }
    }
  }

  /** Equality and hashing agree: two nodes are equal exactly when their
      hashes are computed from the same input, so equal nodes share a
      dictionary slot. */
  lemma EqualIffSameHash(a: Node, b: Node)
    ensures a.Equal(b) <==> a.HashInput() == b.HashInput()
  {
  }

  /** Node equality is an equivalence relation. */
  lemma EqualEquivalence(a: Node, b: Node, c: Node)
    ensures a.Equal(a)
    ensures a.Equal(b) ==> b.Equal(a)
    ensures a.Equal(b) && b.Equal(c) ==> a.Equal(c)
  {
  }
}
