/** Nodes of the older engine (polyhex/objects/old_nodes.py): a hexagon
    centre or vertex located on the hex grid, on the display grid, or
    both. Its scaled display position, occupancy and token change in place. */
module OldNodes {
  import opened Wrappers
  import opened Geometry

  /** A terrain or slot feature, a key of the configuration tables. */
  type Feature = string

  /** A display position after scaling by the hexagon dimensions. */
  datatype Scaled = Scaled(x: real, y: real)

  /** The token field starts as Python False and later holds a token name. */
  datatype NodeToken = NoToken | Token(name: string)

  class OldNode {
    const system: Option<string>
    const hexCoord: Option<Coord>
    const cartesianVector: Option<Point>
    const feature: Option<Feature>
    const encoding: Option<seq<int>>
    var cartesianCoord: Option<Scaled>
    var free: bool
    var token: NodeToken

    /** Construction: some coordinates are required, and a feature must
        have a slot encoding. */
    static method New(slots: map<Feature, seq<int>>, feature: Option<Feature>, system: Option<string>,
                      hexCoord: Option<Coord>, cartesianVector: Option<Point>) returns (r: Result<OldNode>)
      ensures r.Err? <==> (hexCoord.None? && cartesianVector.None?) || (feature.Some? && feature.value !in slots)
      ensures r.Err? ==> r.error == (if hexCoord.None? && cartesianVector.None? then AssertionError else KeyError)
      ensures r.Ok? ==> fresh(r.value) && r.value.Fresh(slots, feature, system, hexCoord, cartesianVector)
    {
      if hexCoord.None? && cartesianVector.None? {
        return Err(AssertionError);
      }
      if feature.Some? && feature.value !in slots {
        return Err(KeyError);
      }
      var n := new OldNode(slots, feature, system, hexCoord, cartesianVector);
      r := Ok(n);
    }

    constructor (slots: map<Feature, seq<int>>, feature: Option<Feature>, system: Option<string>,
                 hexCoord: Option<Coord>, cartesianVector: Option<Point>)
      requires feature.Some? ==> feature.value in slots
      ensures Fresh(slots, feature, system, hexCoord, cartesianVector)
    {
      this.system := system;
      this.hexCoord := hexCoord;
      this.cartesianVector := cartesianVector;
      this.feature := feature;
      this.encoding := if feature.Some? then Some(slots[feature.value]) else None;
      cartesianCoord := None;
      free := true;
      token := NoToken;
    }

    /** The state of a node just built from these arguments: free, no
        token, no scaled position, and an encoding exactly when it has a
        feature. */
    predicate Fresh(slots: map<Feature, seq<int>>, feature: Option<Feature>, system: Option<string>,
                    hexCoord: Option<Coord>, cartesianVector: Option<Point>)
      reads this
    {
      this.system == system && this.hexCoord == hexCoord && this.cartesianVector == cartesianVector &&
      this.feature == feature &&
      (feature.Some? ==> feature.value in slots && encoding == Some(slots[feature.value])) &&
      (feature.None? ==> encoding.None?) &&
      cartesianCoord.None? && free && token == NoToken
    }

    /** Python `==` on nodes is deliberately unimplemented. */
    function EqualsOperator(other: OldNode): (r: Result<bool>)
      ensures r == Err(NotImplementedError)
    {
      Err(NotImplementedError)
    }

    /** Compares one kind of coordinates of two nodes. Hex coordinates
        compare as values. Scaled display positions compare elementwise
        as numpy arrays: a missing position on one side gives False, and
        on both sides the comparison yields a plain bool with no `.all()`,
        an AttributeError. */
    function Equal(other: OldNode, kind: string): (r: Result<bool>)
      reads this, other
      ensures kind !in {"cartesian_coord", "hex_coord"} ==> r == Err(AssertionError)
      ensures kind == "hex_coord" ==> r == Ok(hexCoord == other.hexCoord)
      ensures kind == "cartesian_coord" && cartesianCoord.Some? && other.cartesianCoord.Some? ==>
        r == Ok(cartesianCoord == other.cartesianCoord)
      ensures kind == "cartesian_coord" && (cartesianCoord.Some? != other.cartesianCoord.Some?) ==>
        r == Ok(false)
      ensures kind == "cartesian_coord" && cartesianCoord.None? && other.cartesianCoord.None? ==>
        r == Err(AttributeError)
    {
      if kind !in ["cartesian_coord", "hex_coord"] then Err(AssertionError)
      else if kind == "hex_coord" then Ok(hexCoord == other.hexCoord)
      else match (cartesianCoord, other.cartesianCoord)
        case (Some(a), Some(b)) => Ok(a == b)
        case (None, None) => Err(AttributeError)
        case _ => Ok(false)
    }

    /** The `cartesian_coord` property. */
    function CartesianCoord(): Option<Scaled>
      reads this
    {
      cartesianCoord
    }

    /** The `cartesian_coord` setter: only the scaled position changes, and
        reading it back yields the value set. */
    method SetCartesianCoord(c: Option<Scaled>)
      modifies this
      ensures CartesianCoord() == c
      ensures free == old(free) && token == old(token)
    {
      cartesianCoord := c;
    }
  }

  /** Where `equal` succeeds it is reflexive and symmetric. */
  lemma EqualSymmetric(a: OldNode, b: OldNode, kind: string)
    ensures a.Equal(b, kind) == b.Equal(a, kind)
    ensures kind == "hex_coord" ==> a.Equal(a, kind) == Ok(true)
    ensures kind == "cartesian_coord" && a.cartesianCoord.Some? ==> a.Equal(a, kind) == Ok(true)
  {
  }
}
