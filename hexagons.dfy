/** The hexagon of the older engine (polyhex/objects/hexagons.py): a
    pointy-top, clockwise cell in axial coordinates with a centre node, six
    vertex nodes and six edges, each edge carrying a habitat feature.
    Everything but its occupancy is fixed when it is built. */
module Hexagons {
  import opened Wrappers
  import opened Geometry
  import opened OldNodes
  import opened OldEdges
  import opened Pairs

  /** A Python argument that must be a number: an int, a float or
      something else. */
  datatype Scalar = Int(i: int) | Float(x: real) | Other

  /** The lookup tables of the configuration file: slot codes, habitat
      codes, and for each token the features it may be placed on. */
  datatype Config = Config(
    slots: map<Feature, seq<int>>,
    habitat: map<Feature, seq<int>>,
    tokenToHabitat: map<string, set<Option<Feature>>>)

  /** math.sqrt(3) as a double. */
  const Sqrt3: real := 1.7320508075688772

  /** A feature list of length 1 applies to all six positions; a list of
      length 6 is kept; any other length is a ValueError. */
  function Broadcast<T>(fs: seq<T>): (r: Result<seq<T>>)
    ensures r.Ok? <==> |fs| == 1 || |fs| == 6
    ensures r.Err? ==> r.error == ValueError
    ensures r.Ok? ==> |r.value| == 6 && forall i :: 0 <= i < 6 ==> r.value[i] == fs[if |fs| == 1 then 0 else i]
  {
    if |fs| == 1 then Ok([fs[0], fs[0], fs[0], fs[0], fs[0], fs[0]])
    else if |fs| == 6 then Ok(fs)
    else Err(ValueError)
  }

  function ScalarValue(s: Scalar): real
    requires !s.Other?
  {
    if s.Int? then s.i as real else s.x
  }

  /** The arguments every successful construction has. */
  predicate Accepted(system: string, centre: seq<Scalar>, radius: Scalar, top: string,
                     nodeFeature: Option<Feature>, vertexFeature: seq<Option<Feature>>,
                     edgeFeature: seq<Option<Feature>>, orientation: string, config: Config)
  {
    system == "axial" && |centre| == 2 && centre[0].Int? && centre[1].Int? && top == "pointy" &&
    (nodeFeature.Some? ==> nodeFeature.value in config.slots) &&
    !radius.Other? && orientation == "clockwise" &&
    |vertexFeature| in {1, 6} && |edgeFeature| in {1, 6} &&
    (forall f :: f in edgeFeature && f.Some? ==> f.value in config.habitat)
  }

  /** The validation that construction performs, in the order it performs
      it; None when construction succeeds, else the exception raised. */
  function CheckArguments(system: string, centre: seq<Scalar>, radius: Scalar, top: string,
                          nodeFeature: Option<Feature>, vertexFeature: seq<Option<Feature>>,
                          edgeFeature: seq<Option<Feature>>, orientation: string, config: Config): (r: Option<Error>)
    ensures r.None? <==> Accepted(system, centre, radius, top, nodeFeature, vertexFeature, edgeFeature, orientation, config)
  {
    if system !in ["offset", "cube", "axial", "doubled"] then Some(AssertionError)
    else if system != "axial" then Some(NotImplementedError)
    else if |centre| != 2 then Some(AssertionError)
    else if !(centre[0].Int? && centre[1].Int?) then Some(AssertionError)
    else if top != "flat" && top != "pointy" then Some(AssertionError)
    else if top == "flat" then Some(NotImplementedError)
    else if nodeFeature.Some? && nodeFeature.value !in config.slots then Some(KeyError)
    else if radius.Other? then Some(AssertionError)
    else if orientation != "clockwise" && orientation != "counterclockwise" then Some(AssertionError)
    else if Broadcast(vertexFeature).Err? then Some(ValueError)
    else if orientation == "counterclockwise" then Some(NotImplementedError)
    else if Broadcast(edgeFeature).Err? then Some(ValueError)
    else if exists f :: f in edgeFeature && f.Some? && f.value !in config.habitat then Some(KeyError)
    else None
  }

  /** Coordinate systems other than axial and flat tops are recognised but
      not implemented. */
  lemma UnimplementedVariants(system: string, centre: seq<Scalar>, radius: Scalar, top: string,
                              nodeFeature: Option<Feature>, vertexFeature: seq<Option<Feature>>,
                              edgeFeature: seq<Option<Feature>>, orientation: string, config: Config)
    ensures system in {"offset", "cube", "doubled"} ==>
      CheckArguments(system, centre, radius, top, nodeFeature, vertexFeature, edgeFeature, orientation, config)
        == Some(NotImplementedError)
    ensures system == "axial" && |centre| == 2 && centre[0].Int? && centre[1].Int? && top == "flat" ==>
      CheckArguments(system, centre, radius, top, nodeFeature, vertexFeature, edgeFeature, orientation, config)
        == Some(NotImplementedError)
  {
  }

  /** The radius is only checked to be a number: its sign and size never
      decide whether construction succeeds. */
  lemma RadiusOnlyTypeChecked(system: string, centre: seq<Scalar>, x: real, y: real, top: string,
                              nodeFeature: Option<Feature>, vertexFeature: seq<Option<Feature>>,
                              edgeFeature: seq<Option<Feature>>, orientation: string, config: Config)
    ensures CheckArguments(system, centre, Float(x), top, nodeFeature, vertexFeature, edgeFeature, orientation, config)
         == CheckArguments(system, centre, Float(y), top, nodeFeature, vertexFeature, edgeFeature, orientation, config)
  {
  }

  /** Feature lists of a wrong length are a ValueError once the earlier
      checks pass. */
  lemma FeatureLengthChecked(centre: seq<Scalar>, radius: Scalar, nodeFeature: Option<Feature>,
                             vertexFeature: seq<Option<Feature>>, edgeFeature: seq<Option<Feature>>, config: Config)
    requires |centre| == 2 && centre[0].Int? && centre[1].Int? && !radius.Other?
    requires nodeFeature.Some? ==> nodeFeature.value in config.slots
    requires |vertexFeature| !in {1, 6} || |edgeFeature| !in {1, 6}
    ensures CheckArguments("axial", centre, radius, "pointy", nodeFeature, vertexFeature, edgeFeature, "clockwise", config)
         == Some(ValueError)
  {
  }

  /** The keys of the edges carrying feature f, in edge order. */
  function KeysWithFeature(es: seq<Edge>, f: Option<Feature>): (ks: seq<FeatureKey>)
    ensures forall k :: k in ks <==> exists i :: 0 <= i < |es| && es[i].feature == f && es[i].Key() == k
    ensures (forall i :: 0 <= i < |es| ==> es[i].feature != f) ==> ks == []
  {
    if es == [] then []
    else
      var last := es[|es| - 1];
      var init := es[..|es| - 1];
      var ks := KeysWithFeature(init, f) + (if last.feature == f then [last.Key()] else []);
      assert forall i :: 0 <= i < |init| ==> init[i] == es[i];
      ks
  }

  /** The encoding of an edge or centre feature: None for no feature. */
  function Code(table: map<Feature, seq<int>>, f: Option<Feature>): Option<seq<int>>
    requires f.Some? ==> f.value in table
  {
    if f.Some? then Some(table[f.value]) else None
  }

  /** The scaled display position: the display vector times the minimal
      dimensions (sqrt(3) r, r / 2) of a pointy-top hexagon. */
  function Scale(p: Point, radius: real): Scaled {
    Scaled(p.x as real * (Sqrt3 * radius), p.y as real * (radius / 2.0))
  }

  /** Vertex i of the cell at `coord` sits at the i-th vertex offset and
      carries no feature. */
  ghost predicate VerticesAt(coord: Coord, vs: seq<OldNode>) {
    |vs| == 6 &&
    forall i :: 0 <= i < 6 ==>
      vs[i].cartesianVector == Some(Vertex(coord, i)) && vs[i].feature.None? && vs[i].hexCoord.None?
  }

  /** The i-th edge the cell at `coord` builds from its vertices. */
  function EdgeAt(coord: Coord, vs: seq<OldNode>, i: nat, f: Option<Feature>, config: Config): Edge
    requires |vs| == 6 && i < 6
    requires f.Some? ==> f.value in config.habitat
  {
    Edge(vs[i], vs[(i + 1) % 6], i, f, Code(config.habitat, f), coord, Vertex(coord, i), Vertex(coord, (i + 1) % 6))
  }

  /** Edge i joins vertex i to vertex i + 1 mod 6 and carries feature i. */
  ghost predicate EdgesAt(coord: Coord, vs: seq<OldNode>, es: seq<Edge>, config: Config) {
    |vs| == 6 && |es| == 6 &&
    forall i :: 0 <= i < 6 ==>
      (es[i].feature.Some? ==> es[i].feature.value in config.habitat) &&
      es[i] == EdgeAt(coord, vs, i, es[i].feature, config)
  }

  /** `edges_to_feature` maps the key of each edge to its feature. */
  ghost predicate KeyMap(es: seq<Edge>, etf: map<FeatureKey, Option<Feature>>) {
    (forall k :: k in etf <==> exists i :: 0 <= i < |es| && es[i].Key() == k) &&
    (forall i :: 0 <= i < |es| ==> es[i].Key() in etf && etf[es[i].Key()] == es[i].feature)
  }

  /** `feature_to_edges` lists for each feature the keys of its edges. */
  ghost predicate FeatureIndex(es: seq<Edge>, fte: map<Option<Feature>, seq<FeatureKey>>) {
    (forall f :: f in fte <==> exists i :: 0 <= i < |es| && es[i].feature == f) &&
    (forall f :: f in fte ==> fte[f] == KeysWithFeature(es, f))
  }

  ghost predicate FeatureMaps(es: seq<Edge>, etf: map<FeatureKey, Option<Feature>>,
                              fte: map<Option<Feature>, seq<FeatureKey>>) {
    KeyMap(es, etf) && FeatureIndex(es, fte)
  }

  /** Creates the six vertex nodes of a cell. */
  method CreateVertices(coord: Coord, slots: map<Feature, seq<int>>) returns (vs: seq<OldNode>)
    ensures VerticesAt(coord, vs)
    ensures forall i :: 0 <= i < 6 ==> fresh(vs[i]) && vs[i].free && vs[i].token == NoToken
    ensures forall k, l :: 0 <= k < l < 6 ==> vs[k] != vs[l]
  {
    vs := [];
    for i := 0 to 6
      invariant |vs| == i
      invariant forall k :: 0 <= k < i ==>
        vs[k].cartesianVector == Some(Vertex(coord, k)) && vs[k].feature.None? && vs[k].hexCoord.None? &&
        fresh(vs[k]) && vs[k].free && vs[k].token == NoToken
      invariant forall k, l :: 0 <= k < l < i ==> vs[k] != vs[l]
    {
      var v := new OldNode(slots, None, None, None, Some(Vertex(coord, i)));
      vs := vs + [v];
    }
  }

  /** Creates the six edges and fills the two feature maps. */
  method CreateEdges(coord: Coord, vs: seq<OldNode>, edgeFeature: seq<Option<Feature>>, config: Config)
    returns (es: seq<Edge>, etf: map<FeatureKey, Option<Feature>>, fte: map<Option<Feature>, seq<FeatureKey>>)
    requires |vs| == 6 && |edgeFeature| == 6
    requires forall i :: 0 <= i < 6 && edgeFeature[i].Some? ==> edgeFeature[i].value in config.habitat
    ensures EdgesAt(coord, vs, es, config)
    ensures forall i :: 0 <= i < 6 ==> es[i].feature == edgeFeature[i]
    ensures FeatureMaps(es, etf, fte)
  {
    es, etf, fte := [], map[], map[];
    for i := 0 to 6
      invariant |es| == i
      invariant forall k :: 0 <= k < i ==> es[k] == EdgeAt(coord, vs, k, edgeFeature[k], config)
      invariant FeatureMaps(es, etf, fte)
    {
      var f := edgeFeature[i];
      var e := EdgeAt(coord, vs, i, f, config);
      forall j | 0 <= j < i ensures es[j].Key() != e.Key() {
        EdgeKeysDistinct(coord, j, i);
        KeyIdentifiesSegmentAndFeature(es[j].u, es[j].v, es[j].feature, e.u, e.v, e.feature);
      }
      FeatureMapsStep(es, etf, fte, e);
      es := es + [e];
      etf := etf[e.Key() := f];
      fte := fte[f := (if f in fte then fte[f] else []) + [e.Key()]];
    }
  }

  /** Registering one more edge, whose key is new, keeps the feature maps
      exact. */
  lemma FeatureMapsStep(es: seq<Edge>, etf: map<FeatureKey, Option<Feature>>,
                        fte: map<Option<Feature>, seq<FeatureKey>>, e: Edge)
    requires FeatureMaps(es, etf, fte)
    requires forall j :: 0 <= j < |es| ==> es[j].Key() != e.Key()
    ensures FeatureMaps(es + [e], etf[e.Key() := e.feature],
                        fte[e.feature := (if e.feature in fte then fte[e.feature] else []) + [e.Key()]])
  {
    KeyMapStep(es, etf, e);
    FeatureIndexStep(es, fte, e);
  }

  lemma KeyMapStep(es: seq<Edge>, etf: map<FeatureKey, Option<Feature>>, e: Edge)
    requires KeyMap(es, etf)
    requires forall j :: 0 <= j < |es| ==> es[j].Key() != e.Key()
    ensures KeyMap(es + [e], etf[e.Key() := e.feature])
  {
    var es' := es + [e];
    var etf' := etf[e.Key() := e.feature];
    forall k ensures k in etf' <==> exists i :: 0 <= i < |es'| && es'[i].Key() == k {
      if k in etf' && k != e.Key() {
        var i :| 0 <= i < |es| && es[i].Key() == k;
        assert es'[i] == es[i];
      }
      if k == e.Key() {
        assert es'[|es|] == e;
      }
      if exists i :: 0 <= i < |es'| && es'[i].Key() == k {
        var i :| 0 <= i < |es'| && es'[i].Key() == k;
        if i < |es| {
          assert es'[i] == es[i];
        }
      }
    }
    forall i | 0 <= i < |es'| ensures es'[i].Key() in etf' && etf'[es'[i].Key()] == es'[i].feature {
      if i < |es| {
        assert es'[i] == es[i];
      }
    }
  }

  lemma FeatureIndexStep(es: seq<Edge>, fte: map<Option<Feature>, seq<FeatureKey>>, e: Edge)
    requires FeatureIndex(es, fte)
    ensures FeatureIndex(es + [e], fte[e.feature := (if e.feature in fte then fte[e.feature] else []) + [e.Key()]])
  {
    var es' := es + [e];
    var f := e.feature;
    var fte' := fte[f := (if f in fte then fte[f] else []) + [e.Key()]];
    assert es'[..|es|] == es;
    assert es'[|es|] == e;
    forall g | g in fte' ensures fte'[g] == KeysWithFeature(es', g) {
      assert KeysWithFeature(es', g) == KeysWithFeature(es, g) + (if e.feature == g then [e.Key()] else []);
      if g == f && f !in fte {
        assert forall i :: 0 <= i < |es| ==> es[i].feature != f;
      }
    }
    forall g ensures g in fte' <==> exists i :: 0 <= i < |es'| && es'[i].feature == g {
      if g in fte' && g != f {
        var i :| 0 <= i < |es| && es[i].feature == g;
        assert es'[i] == es[i];
      }
      if exists i :: 0 <= i < |es'| && es'[i].feature == g {
        var i :| 0 <= i < |es'| && es'[i].feature == g;
        if i < |es| {
          assert es'[i] == es[i];
        }
      }
    }
  }

  /** Scales the display vector of the centre and of each vertex into its
      display position. */
  method ScaleNodes(c: OldNode, vs: seq<OldNode>, coord: Coord, radius: real)
    requires |vs| == 6
    requires forall k, l :: 0 <= k < l < 6 ==> vs[k] != vs[l]
    requires forall k :: 0 <= k < 6 ==> vs[k] != c
    modifies c, set i | 0 <= i < 6 :: vs[i]
    ensures c.cartesianCoord == Some(Scale(AxialToCartesian(coord), radius))
    ensures forall i :: 0 <= i < 6 ==> vs[i].cartesianCoord == Some(Scale(Vertex(coord, i), radius))
    ensures c.free == old(c.free) && c.token == old(c.token)
  {
    for i := 0 to 6
      invariant forall k :: 0 <= k < i ==> vs[k].cartesianCoord == Some(Scale(Vertex(coord, k), radius))
      invariant c.free == old(c.free) && c.token == old(c.token)
    {
      vs[i].SetCartesianCoord(Some(Scale(Vertex(coord, i), radius)));
    }
    c.SetCartesianCoord(Some(Scale(AxialToCartesian(coord), radius)));
  }

  class Hexagon {
    const coord: Coord
    const system: string
    const radius: real
    const top: string
    const orientation: string
    const config: Config
    const centre: OldNode
    const vertices: seq<OldNode>
    const edges: seq<Edge>
    const edgesToFeature: map<FeatureKey, Option<Feature>>
    const featureToEdges: map<Option<Feature>, seq<FeatureKey>>
    var free: bool
    var token: Option<string>

    /** The fixed structure of a built hexagon: vertex i sits at the i-th
        vertex offset, edge i joins vertex i to vertex i + 1 mod 6, and the
        two feature maps index exactly the six edges. */
    ghost predicate WellFormed() {
      system == "axial" && top == "pointy" && orientation == "clockwise" &&
      centre.hexCoord == Some(coord) && centre.cartesianVector == Some(AxialToCartesian(coord)) &&
      centre.system == Some("axial") &&
      (centre.feature.Some? ==> centre.feature.value in config.slots) &&
      centre.encoding == Code(config.slots, centre.feature) &&
      VerticesAt(coord, vertices) && EdgesAt(coord, vertices, edges, config) &&
      FeatureMaps(edges, edgesToFeature, featureToEdges)
    }

    /** The feature of edge i. */
    function EdgeFeature(i: nat): Option<Feature>
      requires WellFormed() && i < 6
    {
      edges[i].feature
    }

    /** The hexagon's feature is its centre node's feature. */
    function Feature(): Option<Feature> {
      centre.feature
    }

    /** Neighbour coordinates in clockwise order. */
    function Adjency(): (ns: seq<Coord>)
      ensures ns == Neighbours(coord)
    {
      Neighbours(coord)
    }

    /** Builds a hexagon from checked arguments: the centre node, the six
        vertex nodes and the six edges, then scales the display positions. */
    constructor (coord: Coord, radius: real, nodeFeature: Option<Feature>, edgeFeature: seq<Option<Feature>>, config: Config)
      requires |edgeFeature| == 6
      requires nodeFeature.Some? ==> nodeFeature.value in config.slots
      requires forall i :: 0 <= i < 6 && edgeFeature[i].Some? ==> edgeFeature[i].value in config.habitat
      ensures WellFormed()
      ensures this.coord == coord && this.radius == radius && this.config == config
      ensures centre.feature == nodeFeature
      ensures forall i :: 0 <= i < 6 ==> edges[i].feature == edgeFeature[i]
      ensures free && token.None?
      ensures centre.free && centre.token == NoToken
      ensures centre.cartesianCoord == Some(Scale(AxialToCartesian(coord), radius))
      ensures forall i :: 0 <= i < 6 ==> vertices[i].cartesianCoord == Some(Scale(Vertex(coord, i), radius))
      ensures fresh(centre) && forall i :: 0 <= i < 6 ==> fresh(vertices[i])
    {
      var c := new OldNode(config.slots, nodeFeature, Some("axial"), Some(coord), Some(AxialToCartesian(coord)));
      var vs := CreateVertices(coord, config.slots);
      var es, etf, fte := CreateEdges(coord, vs, edgeFeature, config);
      this.coord := coord;
      system := "axial";
      this.radius := radius;
      top := "pointy";
      orientation := "clockwise";
      this.config := config;
      centre := c;
      vertices := vs;
      edges := es;
      edgesToFeature := etf;
      featureToEdges := fte;
      free := true;
      token := None;
      new;
      ScaleNodes(c, vs, coord, radius);
    }

    /** Validates the arguments in the order construction does, then builds
        the hexagon with its edge features broadcast to six. */
    static method Create(system: string, centre: seq<Scalar>, radius: Scalar, top: string,
                         nodeFeature: Option<Feature>, vertexFeature: seq<Option<Feature>>,
                         edgeFeature: seq<Option<Feature>>, orientation: string, config: Config)
      returns (r: Result<Hexagon>)
      ensures r.Err? <==> CheckArguments(system, centre, radius, top, nodeFeature, vertexFeature,
                                         edgeFeature, orientation, config).Some?
      ensures r.Err? ==> r.error == CheckArguments(system, centre, radius, top, nodeFeature, vertexFeature,
                                                   edgeFeature, orientation, config).value
      ensures r.Ok? ==> fresh(r.value) && r.value.WellFormed() && r.value.free && r.value.token.None?
      ensures r.Ok? ==> r.value.coord == Coord(centre[0].i, centre[1].i) && r.value.radius == ScalarValue(radius)
      ensures r.Ok? ==> r.value.Feature() == nodeFeature && r.value.config == config
      ensures r.Ok? ==> forall i :: 0 <= i < 6 ==>
        r.value.edges[i].feature == edgeFeature[if |edgeFeature| == 1 then 0 else i]
    {
      var err := CheckArguments(system, centre, radius, top, nodeFeature, vertexFeature, edgeFeature, orientation, config);
      if err.Some? {
        return Err(err.value);
      }
      var features := Broadcast(edgeFeature).value;
      assert forall i :: 0 <= i < 6 ==> features[i] in edgeFeature;
      var h := new Hexagon(Coord(centre[0].i, centre[1].i), ScalarValue(radius), nodeFeature, features, config);
      r := Ok(h);
    }

    /** Places a token on a free hexagon whose feature the token's habitat
        list allows; the centre node records it too. */
    method AddToken(t: string) returns (o: Outcome)
      modifies this, centre
      ensures o.Pass? <==> old(free) && old(centre.free) && t in config.tokenToHabitat &&
                           Feature() in config.tokenToHabitat[t]
      ensures o.Fail? ==>
        o.error == (if old(free) && old(centre.free) && t !in config.tokenToHabitat then KeyError else AssertionError)
      ensures o.Fail? ==> free == old(free) && token == old(token) &&
                          centre.free == old(centre.free) && centre.token == old(centre.token)
      ensures o.Pass? ==> !free && token == Some(t) && !centre.free && centre.token == Token(t)
      ensures centre.cartesianCoord == old(centre.cartesianCoord)
    {
      if !free || !centre.free {
        return Fail(AssertionError);
      }
      if t !in config.tokenToHabitat {
        return Fail(KeyError);
      }
      if Feature() !in config.tokenToHabitat[t] {
        return Fail(AssertionError);
      }
      centre.token := Token(t);
      centre.free := false;
      token := Some(t);
      free := false;
      o := Pass;
    }

    /** Same coordinate system, radius, top and vertex orientation. */
    predicate IsCompatible(other: Hexagon) {
      system == other.system && radius == other.radius && top == other.top && orientation == other.orientation
    }

    /** Python `==`: compatible, and centres at the same hex coordinate. */
    predicate Eq(other: Hexagon)
      reads centre, other.centre
    {
      IsCompatible(other) && centre.Equal(other.centre, "hex_coord") == Ok(true)
    }

    /** What `__hash__` is computed from: the centre node's coordinate
        system, hex coordinate and display vector. */
    function HashInput(): (string, Option<string>, Option<Coord>, Option<Point>) {
      ("Hexagon", centre.system, centre.hexCoord, centre.cartesianVector)
    }

    /** Vertex by index; the index must be an int in 0..5. */
    function GetVertex(index: Scalar): (r: Result<OldNode>)
      requires WellFormed()
      ensures r.Ok? <==> index.Int? && 0 <= index.i < 6
      ensures r.Err? ==> r.error == AssertionError
      ensures r.Ok? ==> r.value == vertices[index.i] && r.value.cartesianVector == Some(Vertex(coord, index.i))
    {
      if !index.Int? then Err(AssertionError)
      else if !(0 <= index.i <= 5) then Err(AssertionError)
      else Ok(vertices[index.i])
    }

    /** Edge by index; the index must be an int in 0..5. */
    function GetEdge(index: Scalar): (r: Result<Edge>)
      requires WellFormed()
      ensures r.Ok? <==> index.Int? && 0 <= index.i < 6
      ensures r.Err? ==> r.error == AssertionError
      ensures r.Ok? ==> r.value == edges[index.i] && r.value.SpatialKey() == EdgeKey(coord, index.i)
    {
      if !index.Int? then Err(AssertionError)
      else if !(0 <= index.i <= 5) then Err(AssertionError)
      else Ok(edges[index.i])
    }

    /** 1 when edges i and j carry the same feature, else 0. */
    function SameFeature(i: nat, j: nat): nat
      requires i < |edges| && j < |edges|
    {
      if edges[i].feature == edges[j].feature then 1 else 0
    }

    /** starts/ends list the pairs ps, and attrs their feature agreement. */
    ghost predicate ListsPairs(ps: seq<(nat, nat)>, starts: seq<nat>, ends: seq<nat>, attrs: seq<nat>) {
      |starts| == |ps| && |ends| == |ps| && |attrs| == |ps| &&
      forall k :: 0 <= k < |ps| ==>
        (starts[k], ends[k]) == ps[k] && starts[k] < |edges| && ends[k] < |edges| &&
        attrs[k] == SameFeature(starts[k], ends[k])
    }

    /** The graph among the six edges: one entry per ordered pair of
        distinct edges, with attribute 1 exactly when their features agree. */
    method GetGraphEdges() returns (starts: seq<nat>, ends: seq<nat>, attrs: seq<nat>)
      requires WellFormed()
      ensures ListsPairs(OrderedPairs(6), starts, ends, attrs)
    {
      var n := |edges|;
      starts, ends, attrs := [], [], [];
      ghost var ps: seq<(nat, nat)> := [];
      for i := 0 to n
        invariant ps == Rows(i, n)
        invariant ListsPairs(ps, starts, ends, attrs)
      {
        ps, starts, ends, attrs := GraphEdgesRow(i, ps, starts, ends, attrs);
      }
    }

    /** The inner loop of GetGraphEdges: appends row i. */
    method GraphEdgesRow(i: nat, ghost ps0: seq<(nat, nat)>, starts0: seq<nat>, ends0: seq<nat>, attrs0: seq<nat>)
      returns (ghost ps: seq<(nat, nat)>, starts: seq<nat>, ends: seq<nat>, attrs: seq<nat>)
      requires i < |edges| && ListsPairs(ps0, starts0, ends0, attrs0)
      ensures ps == ps0 + Row(i, |edges|) && ListsPairs(ps, starts, ends, attrs)
    {
      ps, starts, ends, attrs := ps0, starts0, ends0, attrs0;
      for j := 0 to |edges|
        invariant ps == ps0 + Row(i, j)
        invariant ListsPairs(ps, starts, ends, attrs)
      {
        if i != j {
          ps := ps + [(i, j)];
          starts, ends, attrs := starts + [i], ends + [j], attrs + [SameFeature(i, j)];
        }
      }
    }
  }

  /** What a polyhex relies on of a hexagon placed at d: its six edges run
      from vertex j to vertex j + 1 of d and have a habitat code exactly
      when they carry a feature. */
  ghost predicate Located(h: Hexagon, d: Coord) {
    h.coord == d && |h.edges| == 6 &&
    forall j :: 0 <= j < 6 ==>
      h.edges[j].index == j && h.edges[j].u == Vertex(d, j) && h.edges[j].v == Vertex(d, (j + 1) % 6) &&
      (h.edges[j].encoding.Some? <==> h.edges[j].feature.Some?)
  }

  lemma WellFormedLocated(h: Hexagon)
    requires h.WellFormed()
    ensures Located(h, h.coord)
  {
    forall j | 0 <= j < 6
      ensures h.edges[j].index == j && h.edges[j].u == Vertex(h.coord, j) && h.edges[j].v == Vertex(h.coord, (j + 1) % 6)
      ensures h.edges[j].encoding.Some? <==> h.edges[j].feature.Some?
    {
      assert h.edges[j] == EdgeAt(h.coord, h.vertices, j, h.edges[j].feature, h.config);
    }
  }

  /** Hexagon equality ignores features and occupancy: two built hexagons
      are equal exactly when they share coordinate and radius. */
  lemma EqMeansSameCellAndRadius(h: Hexagon, g: Hexagon)
    requires h.WellFormed() && g.WellFormed()
    ensures h.Eq(g) <==> h.coord == g.coord && h.radius == g.radius
  {
  }

  /** Equal hexagons hash alike. */
  lemma EqualHexagonsHashAlike(h: Hexagon, g: Hexagon)
    requires h.WellFormed() && g.WellFormed() && h.Eq(g)
    ensures h.HashInput() == g.HashInput()
  {
  }

  /** Between built hexagons, equality is an equivalence relation. */
  lemma EqEquivalence(h: Hexagon, g: Hexagon, k: Hexagon)
    requires h.WellFormed() && g.WellFormed() && k.WellFormed()
    ensures h.Eq(h)
    ensures h.Eq(g) ==> g.Eq(h)
    ensures h.Eq(g) && g.Eq(k) ==> h.Eq(k)
  {
  }

  /** Edge i of a hexagon and edge i + 3 of the hexagon at its i-th
      neighbour lie on the same segment; with the same feature they have
      the same key. */
  lemma NeighbourEdgeShared(h: Hexagon, g: Hexagon, i: nat)
    requires h.WellFormed() && g.WellFormed() && i < 6
    requires g.coord == Neighbour(h.coord, i)
    ensures g.edges[Opposite(i)].SpatialKey() == h.edges[i].SpatialKey()
    ensures g.edges[Opposite(i)].feature == h.edges[i].feature ==> g.edges[Opposite(i)].Key() == h.edges[i].Key()
  {
    SharedEdge(h.coord, i);
    assert h.edges[i].SpatialKey() == EdgeKey(h.coord, i);
    assert g.edges[Opposite(i)].SpatialKey() == EdgeKey(g.coord, Opposite(i));
  }
}
