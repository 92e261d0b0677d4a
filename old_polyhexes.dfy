/** The polyhex of the older engine (polyhex/objects/old_polyhexes.py): hexagons
    placed one at a time; every edge registered under its feature key; one
    disjoint-set of cells per feature, merged across edges whose two sides
    carry the same feature; the border edges of the shape, each with a
    placeholder hexagon across it; and a dense table linking every border
    edge to every other. */
module OldPolyhexes {
  import opened Wrappers
  import opened Geometry
  import opened Frontier
  import opened OldNodes
  import opened OldEdges
  import opened Hexagons
  import opened Partition
  import opened Pairs

  /** The placeholder hexagon across a border edge, as far as the polyhex
      uses it: its coordinate and the feature broadcast to its edges. */
  datatype Placeholder = Placeholder(coord: Coord, feature: Option<Feature>)

  /** The habitat codes of a configuration, by feature. */
  type Habitats = map<Feature, seq<int>>

  /** `placeholder_hex`: a hexagon at c with the polyhex's coordinate
      system, radius, top and orientation, no centre or vertex feature,
      and f on all six edges. It is built with the default configuration,
      whose habitat table is D; a feature missing from D fails its edges'
      habitat lookup with a KeyError. */
  function MakePlaceholder(D: Habitats, c: Coord, f: Option<Feature>): (r: Result<Placeholder>)
    ensures r.Err? <==> f.Some? && f.value !in D
    ensures r.Err? ==> r.error == KeyError
    ensures r.Ok? ==> r.value.coord == c && r.value.feature == f
  {
    if f.Some? && f.value !in D then Err(KeyError) else Ok(Placeholder(c, f))
  }

  /** For a polyhex of the only supported kind (axial, pointy top,
      clockwise), the checks a hexagon's construction makes on the
      placeholder's arguments fail exactly as MakePlaceholder does. */
  lemma PlaceholderChecked(defaults: Config, c: Coord, radius: real, f: Option<Feature>)
    ensures CheckArguments("axial", [Int(c.q), Int(c.r)], Float(radius), "pointy", None, [None], [f], "clockwise", defaults)
         == if MakePlaceholder(defaults.habitat, c, f).Err? then Some(KeyError) else None
  {
    if f.Some? && f.value !in defaults.habitat {
      assert f in [f];
    }
  }

  /** What `encode_edge` returns: the coordinate step from the placed cell
      to the placeholder (the source halves it), then the habitat code of
      the edge. */
  datatype EdgeEncoding = EdgeEncoding(dq: int, dr: int, code: seq<int>)

  /** A `polyhex_border` value: the edge, its encoding, the placed cell the
      edge belongs to and the placeholder across it. */
  datatype BorderEntry = BorderEntry(edge: Edge, encoding: EdgeEncoding, inner: Coord, outer: Placeholder)

  /** A `border_edges_connectivity` value: the distance d between the two
      placeholders (the source stores 1 / (1 + d)), the feature flag and
      the area flag. */
  datatype Link = Link(distance: nat, feature: nat, area: nat)

  /** Edge j of the cell at a coordinate. */
  type Slot = (Coord, nat)

  type Areas = map<Option<Feature>, Partition<Coord>>

  /** `encode_edge`: the step from the inner cell to the placeholder and
      the edge's habitat code. An edge without a feature has no code, and
      adding `None` to the step list raises a TypeError. */
  function EncodeEdge(e: Edge, inner: Coord, outer: Placeholder): (r: Result<EdgeEncoding>)
    ensures r.Err? <==> e.encoding.None?
    ensures r.Err? ==> r.error == TypeError
    ensures r.Ok? ==> Coord(inner.q + r.value.dq, inner.r + r.value.dr) == outer.coord
    ensures r.Ok? ==> r.value.code == e.encoding.value
  {
    if e.encoding.None? then Err(TypeError)
    else Ok(EdgeEncoding(outer.coord.q - inner.q, outer.coord.r - inner.r, e.encoding.value))
  }

  /** The step stored in a border encoding tells which side of the inner
      cell the edge lies on. */
  lemma EncodingIdentifiesSide(e1: Edge, e2: Edge, inner: Coord, i: nat, j: nat, f1: Option<Feature>, f2: Option<Feature>)
    requires e1.encoding.Some? && e2.encoding.Some? && i < 6 && j < 6
    requires var a := EncodeEdge(e1, inner, Placeholder(Neighbour(inner, i), f1)).value;
             var b := EncodeEdge(e2, inner, Placeholder(Neighbour(inner, j), f2)).value;
             a.dq == b.dq && a.dr == b.dr
    ensures i == j
  {
    NeighboursDistinct(inner);
  }

  /** `encode_edge_connectivity` for two border edges, given their inner
      cells and placeholders. Looking up the feature's disjoint set, and
      the two cells in it, fails with KeyError when either is missing. */
  function EncodeEdgeConnectivity(inner1: Coord, inner2: Coord, outer1: Placeholder, outer2: Placeholder,
                                  areas: Areas): (r: Result<Link>)
    ensures r.Err? <==>
      outer1.feature == outer2.feature &&
      !(outer1.feature in areas && inner1 in areas[outer1.feature].tag && inner2 in areas[outer1.feature].tag)
    ensures r.Err? ==> r.error == KeyError
    ensures r.Ok? ==> r.value.distance == Distance(outer1.coord, outer2.coord)
    ensures r.Ok? ==> r.value.feature <= 1 && (r.value.feature == 1 <==> outer1.feature == outer2.feature)
    ensures r.Ok? ==> r.value.area <= r.value.feature
    ensures r.Ok? ==> (r.value.area == 1 <==>
      outer1.feature == outer2.feature && areas[outer1.feature].Connected(inner1, inner2))
  {
    var d := Distance(outer1.coord, outer2.coord);
    if outer1.feature != outer2.feature then Ok(Link(d, 0, 0))
    else if outer1.feature !in areas then Err(KeyError)
    else
      var p := areas[outer1.feature];
      if inner1 !in p.tag || inner2 !in p.tag then Err(KeyError)
      else Ok(Link(d, 1, if p.Connected(inner1, inner2) then 1 else 0))
  }

  /** The encoding does not depend on which border edge comes first. */
  lemma EncodeEdgeConnectivitySymmetric(inner1: Coord, inner2: Coord, outer1: Placeholder, outer2: Placeholder,
                                        areas: Areas)
    ensures EncodeEdgeConnectivity(inner1, inner2, outer1, outer2, areas)
         == EncodeEdgeConnectivity(inner2, inner1, outer2, outer1, areas)
  {
    DistanceSymmetric(outer1.coord, outer2.coord);
  }

  // ---------------------------------------------------------------------
  // The invariants of the polyhex, stated on the values of its fields.

  /** Placed hexagons are built and stored under their own coordinate. */
  ghost predicate Placed(hexes: map<Coord, Hexagon>) {
    forall d :: d in hexes ==> hexes[d].WellFormed() && hexes[d].coord == d
  }

  /** The geometry of every placed hexagon, as Located states it. */
  ghost predicate AllLocated(hexes: map<Coord, Hexagon>) {
    forall d :: d in hexes ==> Located(hexes[d], d)
  }

  lemma PlacedLocated(hexes: map<Coord, Hexagon>)
    requires Placed(hexes)
    ensures AllLocated(hexes)
  {
    forall d | d in hexes ensures Located(hexes[d], d) {
      WellFormedLocated(hexes[d]);
    }
  }

  function SlotEdge(hexes: map<Coord, Hexagon>, s: Slot): Edge
    requires s.0 in hexes && s.1 < |hexes[s.0].edges|
  {
    hexes[s.0].edges[s.1]
  }

  ghost predicate SlotsIn(hexes: map<Coord, Hexagon>, R: set<Slot>) {
    forall s :: s in R ==> s.0 in hexes && s.1 < 6 && s.1 < |hexes[s.0].edges|
  }

  /** The edges registered once cell c has registered its first k edges:
      every edge of the other cells of P, and edges 0 .. k-1 of c. */
  function Slots(P: set<Coord>, c: Coord, k: nat): set<Slot> {
    set d: Coord, j: nat | d in P && j < 6 && (d != c || j < k) :: (d, j)
  }

  function AllSlots(P: set<Coord>): set<Slot> {
    set d: Coord, j: nat | d in P && j < 6 :: (d, j)
  }

  /** `edges` holds one edge per feature key among the registered edges:
      the first one registered under that key. */
  ghost predicate EdgesOK(hexes: map<Coord, Hexagon>, R: set<Slot>, edges: map<FeatureKey, Edge>) {
    SlotsIn(hexes, R) &&
    (forall s :: s in R ==> SlotEdge(hexes, s).Key() in edges) &&
    (forall k :: k in edges ==> exists s :: s in R && SlotEdge(hexes, s) == edges[k] && edges[k].Key() == k)
  }

  /** `hexes_in_area`: one valid, nonempty partition of placed cells per
      feature; every registered edge puts its cell in its feature's
      partition; and the two cells on either side of one feature key are
      connected in it. */
  ghost predicate AreasOK(hexes: map<Coord, Hexagon>, R: set<Slot>, areas: Areas) {
    SlotsIn(hexes, R) && PartitionsOK(hexes.Keys, areas) && AreasCover(hexes, R, areas) && AreasLinked(hexes, R, areas)
  }

  ghost predicate PartitionsOK(P: set<Coord>, areas: Areas) {
    forall f :: f in areas ==> areas[f].Valid() && areas[f].tag != map[] && areas[f].Universe() <= P
  }

  ghost predicate AreasCover(hexes: map<Coord, Hexagon>, R: set<Slot>, areas: Areas)
    requires SlotsIn(hexes, R)
  {
    forall s :: s in R ==> SlotEdge(hexes, s).feature in areas && s.0 in areas[SlotEdge(hexes, s).feature].tag
  }

  ghost predicate AreasLinked(hexes: map<Coord, Hexagon>, R: set<Slot>, areas: Areas)
    requires SlotsIn(hexes, R) && AreasCover(hexes, R, areas)
  {
    forall s, t :: s in R && t in R && SlotEdge(hexes, s).Key() == SlotEdge(hexes, t).Key() ==>
      areas[SlotEdge(hexes, s).feature].Connected(s.0, t.0)
  }

  /** Each partition only gains elements and connections. */
  ghost predicate AreasCoarsen(areas: Areas, areas': Areas) {
    forall f :: f in areas ==> f in areas' && Coarsens(areas[f], areas'[f])
  }

  /** The border entry for key K: edge i of a placed cell, with K its end
      points, the placeholder at the i-th neighbour carrying the edge's
      feature, and the encoding of that step. */
  ghost predicate EntryAt(hexes: map<Coord, Hexagon>, K: SpatialKey, b: BorderEntry) {
    b.inner in hexes && b.edge.index < 6 && b.edge.index < |hexes[b.inner].edges| &&
    b.edge == hexes[b.inner].edges[b.edge.index] && K == EdgeKey(b.inner, b.edge.index) &&
    b.outer == Placeholder(Neighbour(b.inner, b.edge.index), b.edge.feature) &&
    EncodeEdge(b.edge, b.inner, b.outer) == Ok(b.encoding)
  }

  ghost predicate EntriesAt(hexes: map<Coord, Hexagon>, border: map<SpatialKey, BorderEntry>) {
    forall K :: K in border ==> EntryAt(hexes, K, border[K])
  }

  /** The feature of every border entry has a partition holding its cell. */
  ghost predicate EntriesInAreas(border: map<SpatialKey, BorderEntry>, areas: Areas) {
    forall K :: K in border ==>
      border[K].outer.feature in areas && border[K].inner in areas[border[K].outer.feature].tag
  }

  /** The connectivity table has a row per key and each row covers every
      other key. */
  ghost predicate ConnShape(conn: map<SpatialKey, map<SpatialKey, Link>>, keys: set<SpatialKey>) {
    conn.Keys == keys && forall a {:trigger conn[a]} :: a in conn ==> conn[a].Keys == keys - {a}
  }

  /** A stored link: the distance between the placeholders, the feature
      flag exactly when their features agree, and an area flag only for
      cells connected in that feature's partition. */
  ghost predicate LinkOK(x: BorderEntry, y: BorderEntry, l: Link, areas: Areas) {
    l.distance == Distance(x.outer.coord, y.outer.coord) &&
    l.feature <= 1 && (l.feature == 1 <==> x.outer.feature == y.outer.feature) &&
    l.area <= l.feature &&
    (l.area == 1 ==> x.outer.feature in areas && areas[x.outer.feature].Connected(x.inner, y.inner))
  }

  ghost predicate ConnLinks(border: map<SpatialKey, BorderEntry>, conn: map<SpatialKey, map<SpatialKey, Link>>,
                            areas: Areas) {
    forall a, b {:trigger conn[a][b]} :: a in conn && b in conn[a] ==>
      a in border && b in border && LinkOK(border[a], border[b], conn[a][b], areas)
  }

  // ---------------------------------------------------------------------
  // Lemmas about the invariants.

  /** Two edges of placed cells share a feature key only when they are the
      same edge or the two sides of one segment, with the same feature. */
  lemma SameKeySlot(hexes: map<Coord, Hexagon>, s: Slot, c: Coord, k: nat)
    requires AllLocated(hexes) && s.0 in hexes && s.1 < 6 && c in hexes && k < 6
    requires SlotEdge(hexes, s).Key() == SlotEdge(hexes, (c, k)).Key()
    ensures SlotEdge(hexes, s).feature == SlotEdge(hexes, (c, k)).feature
    ensures s == (c, k) || s == (Neighbour(c, k), Opposite(k))
  {
    var e, e' := SlotEdge(hexes, s), SlotEdge(hexes, (c, k));
    assert Located(hexes[s.0], s.0) && Located(hexes[c], c);
    KeyIdentifiesSegmentAndFeature(e.u, e.v, e.feature, e'.u, e'.v, e'.feature);
    SharedEdgeUnique(c, k, s.0, s.1);
  }

  lemma SlotsStep(P: set<Coord>, c: Coord, k: nat)
    requires c in P && k < 6
    ensures Slots(P, c, k + 1) == Slots(P, c, k) + {(c, k)}
    ensures (c, k) !in Slots(P, c, k)
  {
  }

  lemma SlotsEnds(P: set<Coord>, c: Coord)
    requires c in P
    ensures Slots(P, c, 0) == AllSlots(P - {c})
    ensures Slots(P, c, 6) == AllSlots(P)
  {
  }

  /** Adding a hexagon at a new coordinate leaves the registered edges of
      the others, and what is stated about them, as it was. */
  lemma ExtendHexes(hexes: map<Coord, Hexagon>, c: Coord, h: Hexagon, R: set<Slot>,
                    edges: map<FeatureKey, Edge>, areas: Areas)
    requires c !in hexes
    requires EdgesOK(hexes, R, edges) && AreasOK(hexes, R, areas)
    ensures EdgesOK(hexes[c := h], R, edges) && AreasOK(hexes[c := h], R, areas)
  {
    SameSlotEdges(hexes, c, h, R);
    ExtendEdges(hexes, c, h, R, edges);
    ExtendAreas(hexes, c, h, R, areas);
  }

  lemma SameSlotEdges(hexes: map<Coord, Hexagon>, c: Coord, h: Hexagon, R: set<Slot>)
    requires c !in hexes && SlotsIn(hexes, R)
    ensures SlotsIn(hexes[c := h], R)
    ensures forall s :: s in R ==> SlotEdge(hexes[c := h], s) == SlotEdge(hexes, s)
  {
  }

  lemma ExtendEdges(hexes: map<Coord, Hexagon>, c: Coord, h: Hexagon, R: set<Slot>, edges: map<FeatureKey, Edge>)
    requires c !in hexes && EdgesOK(hexes, R, edges)
    requires SlotsIn(hexes[c := h], R)
    requires forall s :: s in R ==> SlotEdge(hexes[c := h], s) == SlotEdge(hexes, s)
    ensures EdgesOK(hexes[c := h], R, edges)
  {
    var hexes' := hexes[c := h];
    forall k | k in edges ensures exists s :: s in R && SlotEdge(hexes', s) == edges[k] && edges[k].Key() == k {
      var s :| s in R && SlotEdge(hexes, s) == edges[k] && edges[k].Key() == k;
      assert SlotEdge(hexes', s) == edges[k];
    }
  }

  lemma ExtendAreas(hexes: map<Coord, Hexagon>, c: Coord, h: Hexagon, R: set<Slot>, areas: Areas)
    requires c !in hexes && AreasOK(hexes, R, areas)
    requires SlotsIn(hexes[c := h], R)
    requires forall s :: s in R ==> SlotEdge(hexes[c := h], s) == SlotEdge(hexes, s)
    ensures AreasOK(hexes[c := h], R, areas)
  {
    var hexes' := hexes[c := h];
    assert AreasCover(hexes', R, areas);
    forall s, t | s in R && t in R && SlotEdge(hexes', s).Key() == SlotEdge(hexes', t).Key()
      ensures areas[SlotEdge(hexes', s).feature].Connected(s.0, t.0)
    {
      assert SlotEdge(hexes', s) == SlotEdge(hexes, s) && SlotEdge(hexes', t) == SlotEdge(hexes, t);
    }
  }

  lemma EntriesExtend(hexes: map<Coord, Hexagon>, c: Coord, h: Hexagon, border: map<SpatialKey, BorderEntry>)
    requires c !in hexes && EntriesAt(hexes, border)
    ensures EntriesAt(hexes[c := h], border)
  {
    forall K | K in border ensures EntryAt(hexes[c := h], K, border[K]) {
      assert border[K].inner != c;
    }
  }

  /** Registering a new edge keeps the registry exact: an unseen feature
      key is stored with its edge, a seen one leaves `edges` as it is. */
  lemma EdgesStep(hexes: map<Coord, Hexagon>, R: set<Slot>, edges: map<FeatureKey, Edge>, c: Coord, k: nat)
    requires c in hexes && k < 6 && k < |hexes[c].edges| && EdgesOK(hexes, R, edges)
    ensures var e := hexes[c].edges[k];
      EdgesOK(hexes, R + {(c, k)}, if e.Key() in edges then edges else edges[e.Key() := e])
  {
    var e := hexes[c].edges[k];
    var edges' := if e.Key() in edges then edges else edges[e.Key() := e];
    var R' := R + {(c, k)};
    forall key | key in edges' ensures exists s :: s in R' && SlotEdge(hexes, s) == edges'[key] && edges'[key].Key() == key {
      if key in edges {
        var s :| s in R && SlotEdge(hexes, s) == edges[key] && edges[key].Key() == key;
        assert s in R';
      } else {
        assert SlotEdge(hexes, (c, k)) == edges'[key];
      }
    }
  }

  /** Registering edge k of cell c under a feature key already seen: the
      cell across that edge is in the feature's partition, and merging it
      with c keeps the partitions exact and coarsens them. */
  lemma AreasStepSeen(hexes: map<Coord, Hexagon>, R: set<Slot>, edges: map<FeatureKey, Edge>, areas: Areas,
                      c: Coord, k: nat, p: Partition<Coord>)
    requires AllLocated(hexes) && c in hexes && k < 6 && (c, k) !in R
    requires EdgesOK(hexes, R, edges) && AreasOK(hexes, R, areas)
    requires SlotEdge(hexes, (c, k)).Key() in edges
    requires var f := SlotEdge(hexes, (c, k)).feature;
      p == (if f in areas then areas[f] else Empty()).Add(c)
    ensures SlotEdge(hexes, (c, k)).feature in areas && Neighbour(c, k) in p.tag
    ensures var f := SlotEdge(hexes, (c, k)).feature;
      var areas' := areas[f := p.Merge(Neighbour(c, k), c)];
      AreasOK(hexes, R + {(c, k)}, areas') && AreasCoarsen(areas, areas')
  {
    var e := SlotEdge(hexes, (c, k));
    var f := e.feature;
    var s :| s in R && SlotEdge(hexes, s) == edges[e.Key()] && edges[e.Key()].Key() == e.Key();
    SameKeySlot(hexes, s, c, k);
    var n := Neighbour(c, k);
    assert f in areas && n in areas[f].tag;
    var q := areas[f];
    AddSpec(q, c);
    MergeSpec(p, n, c);
    var m := p.Merge(n, c);
    CoarsensTransitive(q, p, m);
    StepAreas(hexes, R, areas, areas[f := m], c, k, true);
  }

  /** Registering edge k of cell c under a new feature key: adding c alone
      keeps the partitions exact and coarsens them. */
  lemma AreasStepUnseen(hexes: map<Coord, Hexagon>, R: set<Slot>, edges: map<FeatureKey, Edge>, areas: Areas,
                        c: Coord, k: nat, p: Partition<Coord>)
    requires AllLocated(hexes) && c in hexes && k < 6 && (c, k) !in R
    requires EdgesOK(hexes, R, edges) && AreasOK(hexes, R, areas)
    requires SlotEdge(hexes, (c, k)).Key() !in edges
    requires var f := SlotEdge(hexes, (c, k)).feature;
      p == (if f in areas then areas[f] else Empty()).Add(c)
    ensures var areas' := areas[SlotEdge(hexes, (c, k)).feature := p];
      AreasOK(hexes, R + {(c, k)}, areas') && AreasCoarsen(areas, areas')
  {
    var f := SlotEdge(hexes, (c, k)).feature;
    var q := if f in areas then areas[f] else Empty();
    AddSpec(q, c);
    StepAreas(hexes, R, areas, areas[f := p], c, k, false);
  }

  /** The new partition of the registered edge's feature, `areas'[f]`,
      coarsens the old one and holds c (connected with the cell across
      when the key was seen): then the partitions stay exact. */
  lemma StepAreas(hexes: map<Coord, Hexagon>, R: set<Slot>, areas: Areas, areas': Areas,
                  c: Coord, k: nat, seen: bool)
    requires AllLocated(hexes) && c in hexes && k < 6 && (c, k) !in R
    requires AreasOK(hexes, R, areas)
    requires var f := SlotEdge(hexes, (c, k)).feature;
      f in areas' && areas' == areas[f := areas'[f]] && (f in areas ==> Coarsens(areas[f], areas'[f])) &&
      areas'[f].Valid() && c in areas'[f].tag && areas'[f].Universe() <= hexes.Keys
    requires var f := SlotEdge(hexes, (c, k)).feature;
      seen ==> areas'[f].Connected(Neighbour(c, k), c) && areas'[f].Connected(c, Neighbour(c, k))
    requires !seen ==> forall s :: s in R ==> SlotEdge(hexes, s).Key() != SlotEdge(hexes, (c, k)).Key()
    ensures AreasOK(hexes, R + {(c, k)}, areas') && AreasCoarsen(areas, areas')
  {
    StepCoarsen(hexes, areas, areas', c, k);
    StepCover(hexes, R, areas, areas', c, k);
    StepLinked(hexes, R, areas, areas', c, k, seen);
  }

  lemma StepCoarsen(hexes: map<Coord, Hexagon>, areas: Areas, areas': Areas, c: Coord, k: nat)
    requires c in hexes && k < 6 && k < |hexes[c].edges| && PartitionsOK(hexes.Keys, areas)
    requires var f := SlotEdge(hexes, (c, k)).feature;
      f in areas' && areas' == areas[f := areas'[f]] && (f in areas ==> Coarsens(areas[f], areas'[f])) &&
      areas'[f].Valid() && c in areas'[f].tag && areas'[f].Universe() <= hexes.Keys
    ensures PartitionsOK(hexes.Keys, areas') && AreasCoarsen(areas, areas')
  {
    forall g | g in areas ensures g in areas' && Coarsens(areas[g], areas'[g]) {
    }
  }

  lemma StepCover(hexes: map<Coord, Hexagon>, R: set<Slot>, areas: Areas, areas': Areas, c: Coord, k: nat)
    requires c in hexes && k < 6 && k < |hexes[c].edges| && SlotsIn(hexes, R) && AreasCover(hexes, R, areas)
    requires AreasCoarsen(areas, areas')
    requires SlotEdge(hexes, (c, k)).feature in areas' && c in areas'[SlotEdge(hexes, (c, k)).feature].tag
    ensures SlotsIn(hexes, R + {(c, k)}) && AreasCover(hexes, R + {(c, k)}, areas')
  {
    forall s | s in R + {(c, k)} ensures SlotEdge(hexes, s).feature in areas' && s.0 in areas'[SlotEdge(hexes, s).feature].tag {
      if s != (c, k) {
        var g := SlotEdge(hexes, s).feature;
        assert Coarsens(areas[g], areas'[g]);
      }
    }
  }

  lemma StepLinked(hexes: map<Coord, Hexagon>, R: set<Slot>, areas: Areas, areas': Areas, c: Coord, k: nat, seen: bool)
    requires AllLocated(hexes) && c in hexes && k < 6 && (c, k) !in R
    requires SlotsIn(hexes, R) && AreasCover(hexes, R, areas) && AreasLinked(hexes, R, areas)
    requires SlotsIn(hexes, R + {(c, k)}) && AreasCover(hexes, R + {(c, k)}, areas') && AreasCoarsen(areas, areas')
    requires var f := SlotEdge(hexes, (c, k)).feature;
      f in areas' && areas'[f].Valid() && c in areas'[f].tag
    requires var f := SlotEdge(hexes, (c, k)).feature;
      seen ==> areas'[f].Connected(Neighbour(c, k), c) && areas'[f].Connected(c, Neighbour(c, k))
    requires !seen ==> forall s :: s in R ==> SlotEdge(hexes, s).Key() != SlotEdge(hexes, (c, k)).Key()
    ensures AreasLinked(hexes, R + {(c, k)}, areas')
  {
    var R' := R + {(c, k)};
    forall s, t | s in R' && t in R' && SlotEdge(hexes, s).Key() == SlotEdge(hexes, t).Key()
      ensures areas'[SlotEdge(hexes, s).feature].Connected(s.0, t.0)
    {
      var g := SlotEdge(hexes, s).feature;
      if s in R && t in R {
        assert areas[g].Connected(s.0, t.0);
        assert Coarsens(areas[g], areas'[g]);
      } else if s == (c, k) {
        NewSlotLinked(hexes, R, areas', c, k, seen, t);
      } else {
        NewSlotLinked(hexes, R, areas', c, k, seen, s);
      }
    }
  }

  /** A slot with the same edge key as the new slot (c, k) is in the same
      feature, and its cell is connected to c both ways. */
  lemma NewSlotLinked(hexes: map<Coord, Hexagon>, R: set<Slot>, areas': Areas, c: Coord, k: nat, seen: bool, t: Slot)
    requires AllLocated(hexes) && c in hexes && k < 6 && SlotsIn(hexes, R + {(c, k)})
    requires t in R + {(c, k)} && SlotEdge(hexes, t).Key() == SlotEdge(hexes, (c, k)).Key()
    requires var f := SlotEdge(hexes, (c, k)).feature;
      f in areas' && areas'[f].Valid() && c in areas'[f].tag
    requires var f := SlotEdge(hexes, (c, k)).feature;
      seen ==> areas'[f].Connected(Neighbour(c, k), c) && areas'[f].Connected(c, Neighbour(c, k))
    requires !seen ==> forall s :: s in R ==> SlotEdge(hexes, s).Key() != SlotEdge(hexes, (c, k)).Key()
    ensures var f := SlotEdge(hexes, (c, k)).feature;
      SlotEdge(hexes, t).feature == f && areas'[f].Connected(c, t.0) && areas'[f].Connected(t.0, c)
  {
    SameKeySlot(hexes, t, c, k);
  }

  /** The border bookkeeping for the placed cells P: exactly the exposed
      edge keys, each with its entry, listed once in insertion order; each
      entry's cell in its feature's partition; a full connectivity table
      whose links are sound. */
  ghost predicate BorderOK(hexes: map<Coord, Hexagon>, P: set<Coord>, border: map<SpatialKey, BorderEntry>,
                           order: seq<SpatialKey>, conn: map<SpatialKey, map<SpatialKey, Link>>, areas: Areas) {
    border.Keys == Exposed(P) && BorderSound(hexes, border, order, conn, areas)
  }

  ghost predicate BorderSound(hexes: map<Coord, Hexagon>, border: map<SpatialKey, BorderEntry>,
                              order: seq<SpatialKey>, conn: map<SpatialKey, map<SpatialKey, Link>>, areas: Areas) {
    EntriesAt(hexes, border) && Distinct(order) && Elems(order) == border.Keys &&
    EntriesInAreas(border, areas) && ConnShape(conn, border.Keys) && ConnLinks(border, conn, areas)
  }

  /** s without x, the others in order: what popping a key does to the
      insertion order of a dict. */
  function Without<T(==)>(s: seq<T>, x: T): seq<T> {
    if s == [] then [] else (if s[0] == x then [] else [s[0]]) + Without(s[1..], x)
  }

  lemma {:induction false} WithoutSpec<T>(s: seq<T>, x: T)
    ensures Elems(Without(s, x)) == Elems(s) - {x}
    ensures Distinct(s) ==> Distinct(Without(s, x))
  {
    if s != [] {
      WithoutSpec(s[1..], x);
      var head: seq<T> := if s[0] == x then [] else [s[0]];
      var rest := Without(s[1..], x);
      assert Without(s, x) == head + rest;
      assert Elems(s) == {s[0]} + Elems(s[1..]) by {
        assert s == [s[0]] + s[1..];
      }
      assert Elems(head + rest) == Elems(head) + Elems(rest) by {
        forall y | y in head + rest ensures y in head || y in rest { }
      }
      if Distinct(s) {
        assert Distinct(s[1..]) by {
          forall i, j | 0 <= i < j < |s[1..]| ensures s[1..][i] != s[1..][j] {
            assert s[1..][i] == s[i + 1] && s[1..][j] == s[j + 1];
          }
        }
        assert s[0] !in Elems(s[1..]) by {
          forall j | 0 <= j < |s[1..]| ensures s[1..][j] != s[0] {
            assert s[1..][j] == s[j + 1];
          }
        }
        assert s[0] !in rest by {
          assert s[0] !in Elems(rest);
        }
        DistinctConcat(head, rest);
      }
    }
  }

  /** `encode_edge_connectivity` for the entries under two border keys. */
  function LinkOf(border: map<SpatialKey, BorderEntry>, areas: Areas, a: SpatialKey, b: SpatialKey): Result<Link>
    requires a in border && b in border
  {
    EncodeEdgeConnectivity(border[a].inner, border[b].inner, border[a].outer, border[b].outer, areas)
  }

  /** Between entries whose cells are in their features' partitions the
      link never fails, and it is sound. */
  lemma LinkOfOK(border: map<SpatialKey, BorderEntry>, areas: Areas, a: SpatialKey, b: SpatialKey)
    requires a in border && b in border && EntriesInAreas(border, areas)
    ensures LinkOf(border, areas, a, b).Ok?
    ensures LinkOK(border[a], border[b], LinkOf(border, areas, a, b).value, areas)
  {
  }

  /** `row` is `row0` with a link from a to each key of ks. */
  ghost predicate RowExtended(border: map<SpatialKey, BorderEntry>, areas: Areas, row: map<SpatialKey, Link>,
                              row0: map<SpatialKey, Link>, a: SpatialKey, ks: seq<SpatialKey>) {
    a in border && row.Keys == row0.Keys + Elems(ks) &&
    forall k :: k in row ==>
      if k in ks then k in border && Ok(row[k]) == LinkOf(border, areas, a, k) else row[k] == row0[k]
  }

  /** The table `_update_border_connectivity` assembles from `conn0`: the
      rows of `conn0` extended to the new keys ks (`mid`), and a full row
      for each new key. It keeps every link of `conn0` and computes every
      link to or from a new key. */
  lemma ConnAssembled(border: map<SpatialKey, BorderEntry>, areas: Areas, conn0: map<SpatialKey, map<SpatialKey, Link>>,
                      mid: map<SpatialKey, map<SpatialKey, Link>>, conn: map<SpatialKey, map<SpatialKey, Link>>,
                      ks: seq<SpatialKey>)
    requires Elems(ks) <= border.Keys && conn0.Keys == border.Keys - Elems(ks)
    requires forall a {:trigger conn0[a]} :: a in conn0 ==> conn0[a].Keys == conn0.Keys - {a}
    requires mid.Keys == conn0.Keys && forall a :: a in mid ==> RowExtended(border, areas, mid[a], conn0[a], a, ks)
    requires conn.Keys == border.Keys && forall a :: a in mid ==> conn[a] == mid[a]
    requires forall a {:trigger conn[a]} :: a in ks ==> conn[a].Keys == border.Keys - {a}
    requires forall a, b :: a in ks && b in conn[a] ==> b in border && Ok(conn[a][b]) == LinkOf(border, areas, a, b)
    ensures forall a, b :: a in conn0 && b in conn0[a] ==> a in conn && b in conn[a] && conn[a][b] == conn0[a][b]
    ensures forall a, b :: a in conn && b in conn[a] && (a in ks || b in ks) ==>
      a in border && b in border && Ok(conn[a][b]) == LinkOf(border, areas, a, b)
  {
  }

  /** The assembled table has a row for every border key, covering every
      other border key. */
  lemma ConnAssembledShape(border: map<SpatialKey, BorderEntry>, areas: Areas, conn0: map<SpatialKey, map<SpatialKey, Link>>,
                      mid: map<SpatialKey, map<SpatialKey, Link>>, conn: map<SpatialKey, map<SpatialKey, Link>>,
                      ks: seq<SpatialKey>)
    requires Elems(ks) <= border.Keys && conn0.Keys == border.Keys - Elems(ks)
    requires forall a {:trigger conn0[a]} :: a in conn0 ==> conn0[a].Keys == conn0.Keys - {a}
    requires mid.Keys == conn0.Keys && forall a :: a in mid ==> RowExtended(border, areas, mid[a], conn0[a], a, ks)
    requires conn.Keys == border.Keys && forall a :: a in mid ==> conn[a] == mid[a]
    requires forall a {:trigger conn[a]} :: a in ks ==> conn[a].Keys == border.Keys - {a}
    requires forall a, b :: a in ks && b in conn[a] ==> b in border && Ok(conn[a][b]) == LinkOf(border, areas, a, b)
    ensures ConnShape(conn, border.Keys)
  {
    forall a | a in conn ensures conn[a].Keys == border.Keys - {a} {
      if a in mid {
        assert a !in Elems(ks);
      }
    }
  }

  /** Every link of the assembled table is sound. */
  lemma ConnAssembledLinks(border: map<SpatialKey, BorderEntry>, areas: Areas, conn0: map<SpatialKey, map<SpatialKey, Link>>,
                      mid: map<SpatialKey, map<SpatialKey, Link>>, conn: map<SpatialKey, map<SpatialKey, Link>>,
                      ks: seq<SpatialKey>)
    requires Elems(ks) <= border.Keys && conn0.Keys == border.Keys - Elems(ks)
    requires forall a {:trigger conn0[a]} :: a in conn0 ==> conn0[a].Keys == conn0.Keys - {a}
    requires mid.Keys == conn0.Keys && forall a :: a in mid ==> RowExtended(border, areas, mid[a], conn0[a], a, ks)
    requires conn.Keys == border.Keys && forall a :: a in mid ==> conn[a] == mid[a]
    requires forall a {:trigger conn[a]} :: a in ks ==> conn[a].Keys == border.Keys - {a}
    requires forall a, b :: a in ks && b in conn[a] ==> b in border && Ok(conn[a][b]) == LinkOf(border, areas, a, b)
    requires ConnLinks(border, conn0, areas) && EntriesInAreas(border, areas)
    ensures ConnLinks(border, conn, areas)
  {
    forall a, b | a in conn && b in conn[a]
      ensures a in border && b in border && LinkOK(border[a], border[b], conn[a][b], areas)
    {
      if a in ks || b in ks {
        LinkOfOK(border, areas, a, b);
      } else {
        assert a in mid && b !in Elems(ks);
        assert b in conn0[a];
      }
    }
  }

  /** The border bookkeeping part way through `_update_border`, where X
      is the exposed frontier before the new cell and O the keys of the
      edges of the new cell handled so far: those keys are toggled, the
      ones that opened are the new keys, and only the rows and columns of
      keys that were there before are in the table. */
  ghost predicate Toggled(hexes: map<Coord, Hexagon>, X: set<SpatialKey>, O: set<SpatialKey>,
                          border: map<SpatialKey, BorderEntry>, order: seq<SpatialKey>,
                          conn: map<SpatialKey, map<SpatialKey, Link>>, areas: Areas, newKeys: seq<SpatialKey>) {
    ToggledBorder(hexes, X, O, border, order, areas, newKeys) && ToggledConn(border, conn, areas, newKeys)
  }

  ghost predicate ToggledBorder(hexes: map<Coord, Hexagon>, X: set<SpatialKey>, O: set<SpatialKey>,
                                border: map<SpatialKey, BorderEntry>, order: seq<SpatialKey>, areas: Areas,
                                newKeys: seq<SpatialKey>) {
    border.Keys == (X - O) + (O - X) &&
    EntriesAt(hexes, border) && EntriesInAreas(border, areas) &&
    Distinct(order) && Elems(order) == border.Keys &&
    Elems(newKeys) == O - X
  }

  ghost predicate ToggledConn(border: map<SpatialKey, BorderEntry>, conn: map<SpatialKey, map<SpatialKey, Link>>,
                              areas: Areas, newKeys: seq<SpatialKey>) {
    conn.Keys == border.Keys - Elems(newKeys) &&
    (forall a {:trigger conn[a]} :: a in conn ==> conn[a].Keys == conn.Keys - {a}) &&
    ConnLinks(border, conn, areas)
  }

  /** Toggling a key k not handled yet: it leaves the symmetric difference
      when it was exposed, and joins it (and the new keys) when it was not. */
  lemma ToggleOut<T>(X: set<T>, O: set<T>, B: set<T>, N: set<T>, k: T)
    requires B == (X - O) + (O - X) && N == O - X && k in B && k !in O
    ensures k in X && B - {k} == (X - (O + {k})) + ((O + {k}) - X) && N == (O + {k}) - X
  {
  }

  lemma ToggleIn<T>(X: set<T>, O: set<T>, B: set<T>, N: set<T>, k: T)
    requires B == (X - O) + (O - X) && N == O - X && k !in B && k !in O
    ensures k !in X && B + {k} == (X - (O + {k})) + ((O + {k}) - X) && N + {k} == (O + {k}) - X
  {
  }

  /** Edge key K closes an exposed segment: popping it from the border,
      the order and the table keeps the bookkeeping exact. */
  lemma ToggleClose(hexes: map<Coord, Hexagon>, X: set<SpatialKey>, O: set<SpatialKey>, K: SpatialKey,
                    border: map<SpatialKey, BorderEntry>, order: seq<SpatialKey>,
                    conn: map<SpatialKey, map<SpatialKey, Link>>, areas: Areas, newKeys: seq<SpatialKey>,
                    conn': map<SpatialKey, map<SpatialKey, Link>>)
    requires Toggled(hexes, X, O, border, order, conn, areas, newKeys)
    requires K in border && K !in O
    requires conn'.Keys == conn.Keys - {K}
    requires forall a {:trigger conn'[a]} :: a in conn' ==> conn'[a] == conn[a] - {K}
    ensures Toggled(hexes, X, O + {K}, border - {K}, Without(order, K), conn', areas, newKeys)
  {
    ToggleCloseBorder(hexes, X, O, K, border, order, areas, newKeys);
    DropKey(border, conn, areas, K, conn');
    MinusSwap(border.Keys, Elems(newKeys), conn.Keys, K);
    assert (border - {K}).Keys == border.Keys - {K};
  }

  lemma ToggleCloseBorder(hexes: map<Coord, Hexagon>, X: set<SpatialKey>, O: set<SpatialKey>, K: SpatialKey,
                          border: map<SpatialKey, BorderEntry>, order: seq<SpatialKey>, areas: Areas,
                          newKeys: seq<SpatialKey>)
    requires ToggledBorder(hexes, X, O, border, order, areas, newKeys)
    requires K in border && K !in O
    ensures ToggledBorder(hexes, X, O + {K}, border - {K}, Without(order, K), areas, newKeys)
  {
    WithoutSpec(order, K);
    ToggleOut(X, O, border.Keys, Elems(newKeys), K);
    assert (border - {K}).Keys == border.Keys - {K};
  }

  /** Set algebra kept generic, so that the solver does not look inside
      the elements. */
  lemma MinusSwap<T>(A: set<T>, B: set<T>, C: set<T>, k: T)
    requires C == A - B
    ensures C - {k} == (A - {k}) - B
  {
  }

  /** Dropping key K from the border, from the table and from every row
      keeps the rows full and the links sound. */
  lemma DropKey(border: map<SpatialKey, BorderEntry>, conn: map<SpatialKey, map<SpatialKey, Link>>, areas: Areas,
                K: SpatialKey, conn': map<SpatialKey, map<SpatialKey, Link>>)
    requires forall a {:trigger conn[a]} :: a in conn ==> conn[a].Keys == conn.Keys - {a}
    requires ConnLinks(border, conn, areas)
    requires conn'.Keys == conn.Keys - {K}
    requires forall a {:trigger conn'[a]} :: a in conn' ==> conn'[a] == conn[a] - {K}
    ensures forall a {:trigger conn'[a]} :: a in conn' ==> conn'[a].Keys == conn'.Keys - {a}
    ensures ConnLinks(border - {K}, conn', areas)
  {
    forall a | a in conn' ensures conn'[a].Keys == conn'.Keys - {a} {
      assert conn'[a].Keys == conn[a].Keys - {K};
    }
    var border' := border - {K};
    forall x, y | x in conn' && y in conn'[x]
      ensures x in border' && y in border' && LinkOK(border'[x], border'[y], conn'[x][y], areas)
    {
      assert y in conn[x] && conn'[x][y] == conn[x][y];
    }
  }

  /** Edge key K opens a segment: registering its entry at the end of the
      order, as a new key, keeps the bookkeeping exact. */
  lemma ToggleOpen(hexes: map<Coord, Hexagon>, X: set<SpatialKey>, O: set<SpatialKey>, K: SpatialKey,
                   border: map<SpatialKey, BorderEntry>, order: seq<SpatialKey>,
                   conn: map<SpatialKey, map<SpatialKey, Link>>, areas: Areas, newKeys: seq<SpatialKey>,
                   b: BorderEntry)
    requires Toggled(hexes, X, O, border, order, conn, areas, newKeys)
    requires K !in border && K !in O
    requires EntryAt(hexes, K, b)
    requires b.outer.feature in areas && b.inner in areas[b.outer.feature].tag
    ensures Toggled(hexes, X, O + {K}, border[K := b], order + [K], conn, areas, newKeys + [K])
  {
    ToggleOpenBorder(hexes, X, O, K, border, order, areas, newKeys, b);
    ElemsSnoc(newKeys, K);
    var border' := border[K := b];
    forall x, y | x in conn && y in conn[x]
      ensures x in border' && y in border' && LinkOK(border'[x], border'[y], conn[x][y], areas)
    {
      assert x in border && y in border;
    }
  }

  lemma ToggleOpenBorder(hexes: map<Coord, Hexagon>, X: set<SpatialKey>, O: set<SpatialKey>, K: SpatialKey,
                         border: map<SpatialKey, BorderEntry>, order: seq<SpatialKey>, areas: Areas,
                         newKeys: seq<SpatialKey>, b: BorderEntry)
    requires ToggledBorder(hexes, X, O, border, order, areas, newKeys)
    requires K !in border && K !in O
    requires EntryAt(hexes, K, b)
    requires b.outer.feature in areas && b.inner in areas[b.outer.feature].tag
    ensures ToggledBorder(hexes, X, O + {K}, border[K := b], order + [K], areas, newKeys + [K])
  {
    ToggleIn(X, O, border.Keys, Elems(newKeys), K);
    assert K !in order;
    DistinctConcat(order, [K]);
    ElemsSnoc(order, K);
    ElemsSnoc(newKeys, K);
    assert border[K := b].Keys == border.Keys + {K};
  }

  /** Pops key K from every row of the connectivity table; every row
      holds it. */
  method PopColumn(conn: map<SpatialKey, map<SpatialKey, Link>>, K: SpatialKey)
    returns (conn': map<SpatialKey, map<SpatialKey, Link>>)
    requires forall a {:trigger conn[a]} :: a in conn ==> K in conn[a]
    ensures conn'.Keys == conn.Keys
    ensures forall a {:trigger conn'[a]} :: a in conn' ==> conn'[a] == conn[a] - {K}
  {
    conn' := conn;
    var todo := conn.Keys;
    while todo != {}
      invariant todo <= conn'.Keys && conn'.Keys == conn.Keys
      invariant forall a {:trigger conn'[a]} :: a in conn' ==> conn'[a] == if a in todo then conn[a] else conn[a] - {K}
      decreases todo
    {
      var a :| a in todo;
      conn' := conn'[a := conn'[a] - {K}];
      todo := todo - {a};
    }
  }

  /** A closing key is in the table, and every other row holds it. */
  lemma CloseReady<T, L>(conn: map<T, map<T, L>>, B: set<T>, N: set<T>, K: T)
    requires conn.Keys == B - N && K in B && K !in N
    requires forall a {:trigger conn[a]} :: a in conn ==> conn[a].Keys == conn.Keys - {a}
    ensures K in conn
    ensures forall a {:trigger (conn - {K})[a]} :: a in conn - {K} ==> K in (conn - {K})[a]
  {
    forall a | a in conn - {K} ensures K in (conn - {K})[a] {
      assert a in conn && (conn - {K})[a] == conn[a];
    }
  }

  /** The closing branch of `_update_border`: the key K of an exposed
      segment is popped from the border (and its order), from the table,
      and from every remaining row. */
  method CloseKey(ghost hexes: map<Coord, Hexagon>, ghost X: set<SpatialKey>, ghost O: set<SpatialKey>,
                  K: SpatialKey, border: map<SpatialKey, BorderEntry>, order: seq<SpatialKey>,
                  conn: map<SpatialKey, map<SpatialKey, Link>>, ghost areas: Areas, ghost newKeys: seq<SpatialKey>)
    returns (border': map<SpatialKey, BorderEntry>, order': seq<SpatialKey>,
             conn': map<SpatialKey, map<SpatialKey, Link>>)
    requires Toggled(hexes, X, O, border, order, conn, areas, newKeys)
    requires K in border && K !in O
    ensures Toggled(hexes, X, O + {K}, border', order', conn', areas, newKeys)
    ensures order' == Without(order, K)
    ensures K !in border' && forall k :: k in border' ==> k in border && border'[k] == border[k]
    ensures forall a, b :: a in conn' && b in conn'[a] ==> a in conn && b in conn[a] && conn'[a][b] == conn[a][b]
  {
    ToggleOut(X, O, border.Keys, Elems(newKeys), K);
    CloseReady(conn, border.Keys, Elems(newKeys), K);
    border' := border - {K};
    order' := Without(order, K);
    conn' := PopColumn(conn - {K}, K);
    ToggleClose(hexes, X, O, K, border, order, conn, areas, newKeys, conn');
  }

  /** The exception opening edge e raises, None when it opens: its
      placeholder looks the feature up in the default habitat table D
      (KeyError), then `encode_edge` adds its habitat code to the step
      list, which fails for an edge without a feature (TypeError). */
  function OpenError(D: Habitats, e: Edge): Option<Error> {
    if e.feature.None? then Some(TypeError)
    else if e.feature.value !in D then Some(KeyError)
    else None
  }

  /** Edge i of h faces no cell of P and cannot be opened. */
  predicate BlockedEdge(D: Habitats, P: set<Coord>, h: Hexagon, i: nat) {
    i < 6 && i < |h.edges| && Neighbour(h.coord, i) !in P && OpenError(D, h.edges[i]).Some?
  }

  /** The first blocked edge of h from edge i on, 6 when there is none. */
  function FirstBlocked(D: Habitats, P: set<Coord>, h: Hexagon, i: nat): (n: nat)
    requires i <= 6
    ensures i <= n <= 6 && (n < 6 ==> BlockedEdge(D, P, h, n))
    decreases 6 - i
  {
    if i == 6 then 6 else if BlockedEdge(D, P, h, i) then i else FirstBlocked(D, P, h, i + 1)
  }

  /** How the border loop for h, placed next to the cells P, ends: with
      the exception of its first blocked edge, if it has one. */
  function OpenOutcome(D: Habitats, P: set<Coord>, h: Hexagon): Outcome {
    var n := FirstBlocked(D, P, h, 0);
    if n < 6 then Fail(OpenError(D, h.edges[n]).value) else Pass
  }

  /** The border loop fails exactly when h has a blocked edge, with the
      exception of the first one. */
  lemma OpenOutcomeFirst(D: Habitats, P: set<Coord>, h: Hexagon)
    ensures var n := FirstBlocked(D, P, h, 0);
      (OpenOutcome(D, P, h).Fail? <==> n < 6) &&
      (n < 6 ==> n < |h.edges| && OpenError(D, h.edges[n]).Some? && OpenOutcome(D, P, h).error == OpenError(D, h.edges[n]).value)
  {
  }

  /** Placing a hexagon in its own cell changes none of its open edges. */
  lemma FirstBlockedPlaced(D: Habitats, hexes: map<Coord, Hexagon>, h: Hexagon)
    ensures FirstBlocked(D, hexes[h.coord := h].Keys, h, 0) == FirstBlocked(D, hexes.Keys, h, 0)
  {
    assert hexes[h.coord := h].Keys == hexes.Keys + {h.coord};
    FirstBlockedOwn(D, hexes.Keys, h, 0);
  }

  /** No edge before the first blocked one is blocked. */
  lemma {:induction false} FirstBlockedFirst(D: Habitats, P: set<Coord>, h: Hexagon, i: nat, j: nat)
    requires i <= j < 6 && j < FirstBlocked(D, P, h, i)
    ensures !BlockedEdge(D, P, h, j)
    decreases 6 - i
  {
    if i < j {
      FirstBlockedFirst(D, P, h, i + 1, j);
    }
  }

  /** Scanning the edges in order: edge i, reached before any blocked
      one, is the first blocked edge or lets the scan go on. */
  lemma FirstBlockedStep(D: Habitats, P: set<Coord>, h: Hexagon, i: nat)
    requires i < 6 && i <= FirstBlocked(D, P, h, 0)
    ensures BlockedEdge(D, P, h, i) ==> FirstBlocked(D, P, h, 0) == i
    ensures !BlockedEdge(D, P, h, i) ==> i + 1 <= FirstBlocked(D, P, h, 0)
  {
    if BlockedEdge(D, P, h, i) && i < FirstBlocked(D, P, h, 0) {
      FirstBlockedFirst(D, P, h, 0, i);
    }
  }

  /** Whether the cell of h itself counts as placed does not matter: it
      is none of its own neighbours. */
  lemma {:induction false} FirstBlockedOwn(D: Habitats, P: set<Coord>, h: Hexagon, i: nat)
    requires i <= 6
    ensures FirstBlocked(D, P + {h.coord}, h, i) == FirstBlocked(D, P, h, i)
    decreases 6 - i
  {
    if i < 6 {
      NeighboursDistinct(h.coord);
      assert BlockedEdge(D, P + {h.coord}, h, i) == BlockedEdge(D, P, h, i);
      FirstBlockedOwn(D, P, h, i + 1);
    }
  }

  /** The border order once edges 0 .. n-1 of the cell at c have toggled,
      from the order before and the frontier X before: a key of X is
      popped, any other is appended. */
  function OrderAfter(order: seq<SpatialKey>, X: set<SpatialKey>, c: Coord, n: nat): seq<SpatialKey>
    requires n <= 6
  {
    if n == 0 then order
    else
      var o := OrderAfter(order, X, c, n - 1);
      var K := EdgeKey(c, n - 1);
      if K in X then Without(o, K) else o + [K]
  }

  /** The opening branch of `_update_border`: edge i of the new cell h,
      whose key K is not on the border, gets an entry with a placeholder
      across it carrying its feature, appended to the order. An edge whose
      feature the default habitat table D lacks fails in building the
      placeholder, and one without a feature in `encode_edge`, both before
      anything is stored. */
  method OpenKey(D: Habitats, ghost hexes: map<Coord, Hexagon>, h: Hexagon, i: nat, ghost X: set<SpatialKey>,
                 ghost O: set<SpatialKey>, K: SpatialKey, border: map<SpatialKey, BorderEntry>,
                 order: seq<SpatialKey>, ghost conn: map<SpatialKey, map<SpatialKey, Link>>, ghost areas: Areas,
                 ghost newKeys: seq<SpatialKey>)
    returns (border': map<SpatialKey, BorderEntry>, order': seq<SpatialKey>, o: Outcome)
    requires i < 6 && h.coord in hexes && hexes[h.coord] == h && Located(h, h.coord) && K == EdgeKey(h.coord, i)
    requires Toggled(hexes, X, O, border, order, conn, areas, newKeys)
    requires K !in border && K !in O
    requires K in X <==> Neighbour(h.coord, i) in hexes
    requires h.edges[i].feature in areas && h.coord in areas[h.edges[i].feature].tag
    ensures o.Fail? <==> OpenError(D, h.edges[i]).Some?
    ensures o.Fail? ==> o.error == OpenError(D, h.edges[i]).value && border' == border && order' == order
    ensures o.Pass? ==> Toggled(hexes, X, O + {K}, border', order', conn, areas, newKeys + [K])
    ensures o.Pass? ==> order' == order + [K] && K in border' && border'[K].inner == h.coord
    ensures K !in X && forall k :: k in border' && k != K ==> k in border && border'[k] == border[k]
  {
    ToggleIn(X, O, border.Keys, Elems(newKeys), K);
    NeighboursDistinct(h.coord);
    var e := h.edges[i];
    var outer := MakePlaceholder(D, Neighbour(h.coord, i), e.feature);
    if outer.Err? {
      return border, order, Fail(outer.error);
    }
    var enc := EncodeEdge(e, h.coord, outer.value);
    if enc.Err? {
      return border, order, Fail(enc.error);
    }
    var b := BorderEntry(e, enc.value, h.coord, outer.value);
    border' := border[K := b];
    order' := order + [K];
    o := Pass;
    ToggleOpen(hexes, X, O, K, border, order, conn, areas, newKeys, b);
  }

  /** The entries of the keys of the frontier X still on the border are
      unchanged, and every link of the later table was already stored in
      the earlier one. */
  ghost predicate Kept(X: set<SpatialKey>, border0: map<SpatialKey, BorderEntry>,
                       conn0: map<SpatialKey, map<SpatialKey, Link>>,
                       border: map<SpatialKey, BorderEntry>, conn: map<SpatialKey, map<SpatialKey, Link>>) {
    (forall K :: K in border && K in X ==> K in border0 && border[K] == border0[K]) &&
    (forall a, b {:trigger conn[a][b]} :: a in conn && b in conn[a] ==>
       a in conn0 && b in conn0[a] && conn[a][b] == conn0[a][b])
  }

  lemma KeptTrans(X: set<SpatialKey>,
                  border0: map<SpatialKey, BorderEntry>, conn0: map<SpatialKey, map<SpatialKey, Link>>,
                  border1: map<SpatialKey, BorderEntry>, conn1: map<SpatialKey, map<SpatialKey, Link>>,
                  border2: map<SpatialKey, BorderEntry>, conn2: map<SpatialKey, map<SpatialKey, Link>>)
    requires Kept(X, border0, conn0, border1, conn1) && Kept(X, border1, conn1, border2, conn2)
    ensures Kept(X, border0, conn0, border2, conn2)
  {
  }

  /** One pass of the loop of `_update_border`: edge i of the new cell h
      toggles its spatial key, given the frontier X before h and the keys
      O of the edges of h handled so far. A blocked edge fails with nothing
      changed. */
  method ToggleEdge(D: Habitats, ghost hexes: map<Coord, Hexagon>, h: Hexagon, i: nat, ghost X: set<SpatialKey>,
                    ghost O: set<SpatialKey>, border: map<SpatialKey, BorderEntry>, order: seq<SpatialKey>,
                    conn: map<SpatialKey, map<SpatialKey, Link>>, ghost areas: Areas, newKeys: seq<SpatialKey>)
    returns (border': map<SpatialKey, BorderEntry>, order': seq<SpatialKey>,
             conn': map<SpatialKey, map<SpatialKey, Link>>, newKeys': seq<SpatialKey>, o: Outcome)
    requires i < 6 && h.coord in hexes && hexes[h.coord] == h && Located(h, h.coord)
    requires Toggled(hexes, X, O, border, order, conn, areas, newKeys)
    requires EdgeKey(h.coord, i) !in O
    requires EdgeKey(h.coord, i) in X <==> Neighbour(h.coord, i) in hexes
    requires h.edges[i].feature in areas && h.coord in areas[h.edges[i].feature].tag
    ensures o.Fail? <==> BlockedEdge(D, hexes.Keys, h, i)
    ensures o.Fail? ==> o.error == OpenError(D, h.edges[i]).value
    ensures o.Fail? ==> border' == border && order' == order && conn' == conn && newKeys' == newKeys
    ensures o.Pass? ==> Toggled(hexes, X, O + {EdgeKey(h.coord, i)}, border', order', conn', areas, newKeys')
    ensures o.Pass? ==> var K := EdgeKey(h.coord, i);
      order' == if K in X then Without(order, K) else order + [K]
    ensures Kept(X, border, conn, border', conn')
  {
    var K := h.edges[i].SpatialKey();
    assert K == EdgeKey(h.coord, i);
    if K in border {
      border', order', conn' := CloseKey(hexes, X, O, K, border, order, conn, areas, newKeys);
      newKeys', o := newKeys, Pass;
    } else {
      border', order', o := OpenKey(D, hexes, h, i, X, O, K, border, order, conn, areas, newKeys);
      conn' := conn;
      newKeys' := if o.Pass? then newKeys + [K] else newKeys;
    }
  }

  /** The state of the loop of `_update_border` once edges 0 .. i-1 of
      h have toggled, from the border, order and table before it. */
  ghost predicate ToggledUpTo(hexes: map<Coord, Hexagon>, X: set<SpatialKey>, h: Hexagon, i: nat,
                              border0: map<SpatialKey, BorderEntry>, order0: seq<SpatialKey>,
                              conn0: map<SpatialKey, map<SpatialKey, Link>>, areas: Areas,
                              border: map<SpatialKey, BorderEntry>, order: seq<SpatialKey>,
                              conn: map<SpatialKey, map<SpatialKey, Link>>, newKeys: seq<SpatialKey>)
    requires i <= 6
  {
    Toggled(hexes, X, Own(h.coord, i), border, order, conn, areas, newKeys) &&
    Kept(X, border0, conn0, border, conn) && order == OrderAfter(order0, X, h.coord, i)
  }

  /** A pass of the loop of `_update_border` carries its state from edge
      i to edge i + 1, unless edge i is blocked. */
  method ToggleNext(D: Habitats, ghost hexes: map<Coord, Hexagon>, ghost X: set<SpatialKey>, h: Hexagon, i: nat,
                    ghost border0: map<SpatialKey, BorderEntry>, ghost order0: seq<SpatialKey>,
                    ghost conn0: map<SpatialKey, map<SpatialKey, Link>>, ghost areas: Areas,
                    border: map<SpatialKey, BorderEntry>, order: seq<SpatialKey>,
                    conn: map<SpatialKey, map<SpatialKey, Link>>, newKeys: seq<SpatialKey>)
    returns (border': map<SpatialKey, BorderEntry>, order': seq<SpatialKey>,
             conn': map<SpatialKey, map<SpatialKey, Link>>, newKeys': seq<SpatialKey>, o: Outcome)
    requires i < 6 && h.coord in hexes && hexes[h.coord] == h && Located(h, h.coord)
    requires EdgeKey(h.coord, i) in X <==> Neighbour(h.coord, i) in hexes
    requires h.edges[i].feature in areas && h.coord in areas[h.edges[i].feature].tag
    requires ToggledUpTo(hexes, X, h, i, border0, order0, conn0, areas, border, order, conn, newKeys)
    requires i <= FirstBlocked(D, hexes.Keys, h, 0)
    ensures o.Fail? <==> BlockedEdge(D, hexes.Keys, h, i)
    ensures o.Fail? ==> o.error == OpenError(D, h.edges[i]).value
    ensures o.Fail? ==> FirstBlocked(D, hexes.Keys, h, 0) == i
    ensures o.Fail? ==> ToggledUpTo(hexes, X, h, i, border0, order0, conn0, areas, border', order', conn', newKeys')
    ensures o.Pass? ==> i + 1 <= FirstBlocked(D, hexes.Keys, h, 0)
    ensures o.Pass? ==> ToggledUpTo(hexes, X, h, i + 1, border0, order0, conn0, areas, border', order', conn', newKeys')
  {
    FirstBlockedStep(D, hexes.Keys, h, i);
    OwnStep(h.coord, i);
    border', order', conn', newKeys', o := ToggleEdge(D, hexes, h, i, X, Own(h.coord, i), border, order, conn, areas, newKeys);
    KeptTrans(X, border0, conn0, border, conn, border', conn');
  }

  /** The loop of `_update_border` over the six edges of the new cell h,
      placed next to the cells P: afterwards the border is the frontier of
      P and h, and the new keys are the segments of h that opened. The
      first blocked edge stops the loop with its exception, its key and
      those after it untouched. */
  method ToggleEdges(D: Habitats, ghost hexes: map<Coord, Hexagon>, ghost X: set<SpatialKey>, h: Hexagon,
                     border: map<SpatialKey, BorderEntry>, order: seq<SpatialKey>,
                     conn: map<SpatialKey, map<SpatialKey, Link>>, ghost areas: Areas)
    returns (border': map<SpatialKey, BorderEntry>, order': seq<SpatialKey>,
             conn': map<SpatialKey, map<SpatialKey, Link>>, newKeys: seq<SpatialKey>, o: Outcome)
    requires h.coord in hexes && hexes[h.coord] == h && Located(h, h.coord)
    requires forall i :: 0 <= i < 6 ==> (EdgeKey(h.coord, i) in X <==> Neighbour(h.coord, i) in hexes)
    requires Toggled(hexes, X, {}, border, order, conn, areas, [])
    requires forall i :: 0 <= i < 6 ==> h.edges[i].feature in areas && h.coord in areas[h.edges[i].feature].tag
    ensures o == OpenOutcome(D, hexes.Keys, h)
    ensures ToggledUpTo(hexes, X, h, FirstBlocked(D, hexes.Keys, h, 0), border, order, conn, areas, border', order', conn', newKeys)
  {
    border', order', conn', newKeys, o := border, order, conn, [], Pass;
    ToggledStart(hexes, X, h, border, order, conn, areas);
    ghost var n := FirstBlocked(D, hexes.Keys, h, 0);
    var i := 0;
    while i < 6 && o.Pass?
      invariant i <= n && ToggledUpTo(hexes, X, h, i, border, order, conn, areas, border', order', conn', newKeys)
      invariant o.Fail? ==> i == n < 6 && o.error == OpenError(D, h.edges[i]).value
      decreases 6 - i + (if o.Pass? then 1 else 0)
    {
      border', order', conn', newKeys, o := ToggleNext(D, hexes, X, h, i, border, order, conn, areas, border', order', conn', newKeys);
      if o.Pass? {
        i := i + 1;
      }
    }
    OpenOutcomeFirst(D, hexes.Keys, h);
  }

  /** Before the loop of `_update_border`, no edge of h has toggled. */
  lemma ToggledStart(hexes: map<Coord, Hexagon>, X: set<SpatialKey>, h: Hexagon,
                     border: map<SpatialKey, BorderEntry>, order: seq<SpatialKey>,
                     conn: map<SpatialKey, map<SpatialKey, Link>>, areas: Areas)
    requires Toggled(hexes, X, {}, border, order, conn, areas, [])
    ensures ToggledUpTo(hexes, X, h, 0, border, order, conn, areas, border, order, conn, [])
  {
    OwnNone(h.coord);
  }

  /** The key of edge i of a cell c placed next to the cells P is on
      their frontier exactly when the cell it faces is placed. */
  lemma FrontierFacing(hexes: map<Coord, Hexagon>, P: set<Coord>, c: Coord)
    requires c in hexes && P == hexes.Keys - {c}
    ensures forall i :: 0 <= i < 6 ==> (EdgeKey(c, i) in Exposed(P) <==> Neighbour(c, i) in hexes)
  {
    NeighboursDistinct(c);
    forall i | 0 <= i < 6 ensures EdgeKey(c, i) in Exposed(P) <==> Neighbour(c, i) in hexes {
      ExposedOwnKey(P, c, i);
    }
  }

  /** Before the first edge of a new cell, the border bookkeeping of the
      cells P is the toggled state with nothing handled yet. */
  lemma BorderToggled(hexes: map<Coord, Hexagon>, X: set<SpatialKey>, border: map<SpatialKey, BorderEntry>,
                      order: seq<SpatialKey>, conn: map<SpatialKey, map<SpatialKey, Link>>, areas: Areas)
    requires border.Keys == X && BorderSound(hexes, border, order, conn, areas)
    ensures Toggled(hexes, X, {}, border, order, conn, areas, [])
  {
    NothingToggled(X);
    NothingNew<SpatialKey>(border.Keys, []);
  }

  lemma NothingNew<T>(A: set<T>, s: seq<T>)
    requires s == []
    ensures A - Elems(s) == A && Elems(s) == {}
  {
  }

  lemma NothingToggled<T>(X: set<T>)
    ensures (X - {}) + ({} - X) == X && {} - X == {}
  {
  }

  /** A key of the border after the toggles is either one that was there
      before or one of the new keys. */
  lemma OldOrNew<T>(X: set<T>, O: set<T>, B: set<T>, N: set<T>, k: T)
    requires B == (X - O) + (O - X) && N == O - X && k in B
    ensures k in X <==> k !in N
  {
  }

  /** What `_update_border` leaves in the table: pairs of keys that were
      on the border before keep their stored link, and every pair with a
      key that was not is linked afresh. */
  lemma BorderUpdated(hexes: map<Coord, Hexagon>, X: set<SpatialKey>, O: set<SpatialKey>,
                      border0: map<SpatialKey, BorderEntry>, conn0: map<SpatialKey, map<SpatialKey, Link>>,
                      border: map<SpatialKey, BorderEntry>, order: seq<SpatialKey>,
                      conn1: map<SpatialKey, map<SpatialKey, Link>>, conn: map<SpatialKey, map<SpatialKey, Link>>,
                      areas: Areas, newKeys: seq<SpatialKey>)
    requires border0.Keys == X
    requires Toggled(hexes, X, O, border, order, conn1, areas, newKeys)
    requires Kept(X, border0, conn0, border, conn1)
    requires forall a, b :: a in conn1 && b in conn1[a] ==> a in conn && b in conn[a] && conn[a][b] == conn1[a][b]
    requires ConnShape(conn, border.Keys) && ConnLinks(border, conn, areas)
    requires forall a, b :: a in conn && b in conn[a] && (a in newKeys || b in newKeys) ==>
      a in border && b in border && Ok(conn[a][b]) == LinkOf(border, areas, a, b)
    ensures BorderSound(hexes, border, order, conn, areas)
    ensures forall K :: K in border && K in border0 ==> border[K] == border0[K]
    ensures forall a, b :: a in conn && b in conn[a] && a in border0 && b in border0 ==>
      a in conn0 && b in conn0[a] && conn[a][b] == conn0[a][b]
    ensures forall a, b :: a in conn && b in conn[a] && (a !in border0 || b !in border0) ==>
      a in border && b in border && Ok(conn[a][b]) == LinkOf(border, areas, a, b)
  {
    forall a, b | a in conn && b in conn[a] && a in border0 && b in border0
      ensures a in conn0 && b in conn0[a] && conn[a][b] == conn0[a][b]
    {
      assert a in border && b in border;
      OldOrNew(X, O, border.Keys, Elems(newKeys), a);
      OldOrNew(X, O, border.Keys, Elems(newKeys), b);
      assert a in conn1 && b in conn1[a];
    }
    forall a, b | a in conn && b in conn[a] && (a !in border0 || b !in border0)
      ensures a in border && b in border && Ok(conn[a][b]) == LinkOf(border, areas, a, b)
    {
      assert a in border && b in border;
      OldOrNew(X, O, border.Keys, Elems(newKeys), a);
      OldOrNew(X, O, border.Keys, Elems(newKeys), b);
      assert a in newKeys || b in newKeys;
    }
  }

  /** What an append does to the border: entries that stay are kept,
      links between keys that stay are kept, and every other link is
      computed from the current partitions. */
  ghost predicate LinksUpdated(border0: map<SpatialKey, BorderEntry>, conn0: map<SpatialKey, map<SpatialKey, Link>>,
                               border: map<SpatialKey, BorderEntry>, conn: map<SpatialKey, map<SpatialKey, Link>>,
                               areas: Areas) {
    (forall K :: K in border && K in border0 ==> border[K] == border0[K]) &&
    (forall a, b {:trigger conn[a][b]} :: a in conn && b in conn[a] && a in border0 && b in border0 ==>
      a in conn0 && b in conn0[a] && conn[a][b] == conn0[a][b]) &&
    (forall a, b {:trigger conn[a][b]} :: a in conn && b in conn[a] && (a !in border0 || b !in border0) ==>
      a in border && b in border && Ok(conn[a][b]) == LinkOf(border, areas, a, b))
  }

  /** What `_update_border_connectivity` expects: the new keys are on the
      border, the table has the rows and columns of the other keys, and
      its links are sound. */
  ghost predicate ConnReady(border: map<SpatialKey, BorderEntry>, order: seq<SpatialKey>,
                            conn: map<SpatialKey, map<SpatialKey, Link>>, areas: Areas, newKeys: seq<SpatialKey>) {
    Elems(newKeys) <= border.Keys && Elems(order) == border.Keys &&
    conn.Keys == border.Keys - Elems(newKeys) &&
    (forall a {:trigger conn[a]} :: a in conn ==> conn[a].Keys == conn.Keys - {a}) &&
    ConnLinks(border, conn, areas) && EntriesInAreas(border, areas)
  }

  lemma ToggledReady(hexes: map<Coord, Hexagon>, X: set<SpatialKey>, O: set<SpatialKey>,
                     border: map<SpatialKey, BorderEntry>, order: seq<SpatialKey>,
                     conn: map<SpatialKey, map<SpatialKey, Link>>, areas: Areas, newKeys: seq<SpatialKey>)
    requires Toggled(hexes, X, O, border, order, conn, areas, newKeys)
    ensures ConnReady(border, order, conn, areas, newKeys)
  {
  }

  /** What a failed border loop leaves of the border, from the border and table
      before it and the keys O of the edges of the new cell that toggled:
      the border holds the keys of one side of O only, the table the rows
      of the keys that stayed, and what stayed is as it was. */
  ghost predicate HalfToggled(border0: map<SpatialKey, BorderEntry>, conn0: map<SpatialKey, map<SpatialKey, Link>>,
                              O: set<SpatialKey>, border: map<SpatialKey, BorderEntry>,
                              conn: map<SpatialKey, map<SpatialKey, Link>>) {
    var X := border0.Keys;
    border.Keys == (X - O) + (O - X) && conn.Keys == X - O && Kept(X, border0, conn0, border, conn)
  }

  lemma RowsLeft<T>(X: set<T>, O: set<T>, B: set<T>, N: set<T>, C: set<T>)
    requires B == (X - O) + (O - X) && N == O - X && C == B - N
    ensures C == X - O
  {
  }

  /** The table after the second loop of `_update_border_connectivity`
      has handled the new keys ks: the rows already there are unchanged,
      and each key of ks has a full row of fresh links. */
  ghost predicate RowsAdded(border: map<SpatialKey, BorderEntry>, areas: Areas,
                            conn: map<SpatialKey, map<SpatialKey, Link>>,
                            table: map<SpatialKey, map<SpatialKey, Link>>, ks: seq<SpatialKey>) {
    RowsKept(conn, table, ks) && RowsFresh(border, areas, table, ks)
  }

  ghost predicate RowsKept(conn: map<SpatialKey, map<SpatialKey, Link>>,
                           table: map<SpatialKey, map<SpatialKey, Link>>, ks: seq<SpatialKey>) {
    table.Keys == conn.Keys + Elems(ks) && forall a :: a in conn ==> table[a] == conn[a]
  }

  ghost predicate RowsFresh(border: map<SpatialKey, BorderEntry>, areas: Areas,
                            table: map<SpatialKey, map<SpatialKey, Link>>, ks: seq<SpatialKey>) {
    (forall a {:trigger table[a]} :: a in ks ==> a in table && table[a].Keys == border.Keys - {a}) &&
    (forall a, b :: a in ks && a in table && b in table[a] ==>
       a in border && b in border && Ok(table[a][b]) == LinkOf(border, areas, a, b))
  }

  lemma RowKept(conn: map<SpatialKey, map<SpatialKey, Link>>, table: map<SpatialKey, map<SpatialKey, Link>>,
                ks: seq<SpatialKey>, k: SpatialKey, row: map<SpatialKey, Link>)
    requires RowsKept(conn, table, ks) && k !in conn
    ensures RowsKept(conn, table[k := row], ks + [k])
  {
    ElemsSnoc(ks, k);
    UnionAddOne(conn.Keys, Elems(ks), k);
    MapUpdateKeys(table, k, row);
    forall a | a in conn ensures table[k := row][a] == conn[a] {
      assert a != k;
    }
  }

  lemma RowFresh(border: map<SpatialKey, BorderEntry>, areas: Areas,
                 table: map<SpatialKey, map<SpatialKey, Link>>, ks: seq<SpatialKey>, k: SpatialKey,
                 row: map<SpatialKey, Link>)
    requires RowsFresh(border, areas, table, ks) && k in border
    requires row.Keys == border.Keys - {k}
    requires forall b :: b in row ==> b in border && Ok(row[b]) == LinkOf(border, areas, k, b)
    ensures RowsFresh(border, areas, table[k := row], ks + [k])
  {
    var table' := table[k := row];
    forall a | a in ks + [k] ensures a in table' && table'[a].Keys == border.Keys - {a} {
      if a != k {
        assert a in ks;
      }
    }
    forall a, b | a in ks + [k] && a in table' && b in table'[a]
      ensures a in border && b in border && Ok(table'[a][b]) == LinkOf(border, areas, a, b)
    {
      if a != k {
        assert a in ks;
      }
    }
  }

  lemma MapUpdateKeys<K, V>(m: map<K, V>, k: K, v: V)
    ensures m[k := v].Keys == m.Keys + {k}
  {
  }

  // ---------------------------------------------------------------------
  // `append_edge` and the registering loop of `append_hex`.

  /** The registry part of the polyhex: `edges`, `hexes_in_area`, and the
      order in which features were first seen (the dict's key order). */
  datatype Registry = Registry(edges: map<FeatureKey, Edge>, areas: Areas, areaOrder: seq<Option<Feature>>)

  /** The partition of feature f once cell c has been added to it, a new
      empty one being created first when f is unseen. */
  function AreaWith(areas: Areas, f: Option<Feature>, c: Coord): (p: Partition<Coord>)
    ensures c in p.tag
    ensures f in areas ==> Coarsens(areas[f], p)
  {
    var q := if f in areas then areas[f] else Empty();
    AddCoarsens(q, c);
    q.Add(c)
  }

  /** `append_edge` for edge e of the cell at c, whose neighbour across e
      is adj. A seen feature key merges adj with c, which raises KeyError
      (after c was added) when adj is not in the feature's set; an unseen
      key registers e. */
  function RegisterEdge(g: Registry, c: Coord, adj: Coord, e: Edge): (r: (Outcome, Registry))
    ensures r.1.areas.Keys == g.areas.Keys + {e.feature}
    ensures r.1.areaOrder == g.areaOrder + (if e.feature in g.areas then [] else [e.feature])
    ensures e.Key() in r.1.edges && (forall k :: k in g.edges ==> k in r.1.edges && r.1.edges[k] == g.edges[k])
    ensures e.Key() !in g.edges ==> r.1.edges == g.edges[e.Key() := e]
    ensures e.Key() in g.edges ==> r.1.edges == g.edges
    ensures forall f :: f in g.areas && f != e.feature ==> r.1.areas[f] == g.areas[f]
    ensures AreasCoarsen(g.areas, r.1.areas) && c in r.1.areas[e.feature].tag
    ensures r.0.Fail? <==> e.Key() in g.edges && adj !in AreaWith(g.areas, e.feature, c).tag
    ensures r.0.Fail? ==> r.0.error == KeyError
    ensures r.0.Pass? && e.Key() in g.edges ==> r.1.areas[e.feature].Connected(adj, c)
    ensures r.0.Fail? || e.Key() !in g.edges ==> r.1.areas[e.feature] == AreaWith(g.areas, e.feature, c)
  {
    var f := e.feature;
    var order := if f in g.areas then g.areaOrder else g.areaOrder + [f];
    var p := AreaWith(g.areas, f, c);
    if e.Key() in g.edges then
      if adj in p.tag then
        MergeCoarsens(p, adj, c);
        if f in g.areas then CoarsensTransitive(g.areas[f], p, p.Merge(adj, c)); (Pass, Registry(g.edges, g.areas[f := p.Merge(adj, c)], order))
        else (Pass, Registry(g.edges, g.areas[f := p.Merge(adj, c)], order))
      else (Fail(KeyError), Registry(g.edges, g.areas[f := p], order))
    else (Pass, Registry(g.edges[e.Key() := e], g.areas[f := p], order))
  }

  /** The registry of a polyhex whose registered edges are R. */
  ghost predicate RegistryOK(hexes: map<Coord, Hexagon>, R: set<Slot>, g: Registry) {
    EdgesOK(hexes, R, g.edges) && AreasOK(hexes, R, g.areas) &&
    Distinct(g.areaOrder) && Elems(g.areaOrder) == g.areas.Keys
  }

  /** Registered edges stay as they are, partitions only coarsen and
      features keep their order. */
  ghost predicate RegistryGrown(g0: Registry, g: Registry) {
    (forall k :: k in g0.edges ==> k in g.edges && g.edges[k] == g0.edges[k]) &&
    AreasCoarsen(g0.areas, g.areas) && g0.areaOrder <= g.areaOrder
  }

  lemma AreasCoarsenTransitive(a: Areas, b: Areas, c: Areas)
    requires AreasCoarsen(a, b) && AreasCoarsen(b, c)
    ensures AreasCoarsen(a, c)
  {
    forall f | f in a ensures f in c && Coarsens(a[f], c[f]) {
      CoarsensTransitive(a[f], b[f], c[f]);
    }
  }

  /** Registering edge k of a placed cell c, whose edges 0 .. k-1 are
      registered, never fails: a seen key's other side is already in the
      feature's set. The registry stays exact and one more edge is in it. */
  lemma RegisterStep(hexes: map<Coord, Hexagon>, c: Coord, k: nat, g: Registry)
    requires AllLocated(hexes) && c in hexes && k < 6
    requires RegistryOK(hexes, Slots(hexes.Keys, c, k), g)
    ensures var r := RegisterEdge(g, c, Neighbour(c, k), hexes[c].edges[k]);
      r.0 == Pass && RegistryOK(hexes, Slots(hexes.Keys, c, k + 1), r.1)
  {
    var R := Slots(hexes.Keys, c, k);
    SlotsStep(hexes.Keys, c, k);
    var e := hexes[c].edges[k];
    var r := RegisterEdge(g, c, Neighbour(c, k), e);
    OrderStep(g.areaOrder, g.areas, r.1.areas, e.feature);
    if e.Key() in g.edges {
      RegisterSeen(hexes, R, g, c, k);
    } else {
      RegisterUnseen(hexes, R, g, c, k);
    }
  }

  lemma RegisterSeen(hexes: map<Coord, Hexagon>, R: set<Slot>, g: Registry, c: Coord, k: nat)
    requires AllLocated(hexes) && c in hexes && k < 6 && (c, k) !in R
    requires EdgesOK(hexes, R, g.edges) && AreasOK(hexes, R, g.areas)
    requires hexes[c].edges[k].Key() in g.edges
    ensures var r := RegisterEdge(g, c, Neighbour(c, k), hexes[c].edges[k]);
      r.0 == Pass && EdgesOK(hexes, R + {(c, k)}, r.1.edges) && AreasOK(hexes, R + {(c, k)}, r.1.areas)
  {
    var e := hexes[c].edges[k];
    var p := AreaWith(g.areas, e.feature, c);
    EdgesStep(hexes, R, g.edges, c, k);
    AreasStepSeen(hexes, R, g.edges, g.areas, c, k, p);
  }

  lemma RegisterUnseen(hexes: map<Coord, Hexagon>, R: set<Slot>, g: Registry, c: Coord, k: nat)
    requires AllLocated(hexes) && c in hexes && k < 6 && (c, k) !in R
    requires EdgesOK(hexes, R, g.edges) && AreasOK(hexes, R, g.areas)
    requires hexes[c].edges[k].Key() !in g.edges
    ensures var r := RegisterEdge(g, c, Neighbour(c, k), hexes[c].edges[k]);
      r.0 == Pass && EdgesOK(hexes, R + {(c, k)}, r.1.edges) && AreasOK(hexes, R + {(c, k)}, r.1.areas)
  {
    var e := hexes[c].edges[k];
    var p := AreaWith(g.areas, e.feature, c);
    EdgesStep(hexes, R, g.edges, c, k);
    AreasStepUnseen(hexes, R, g.edges, g.areas, c, k, p);
  }

  /** The feature order stays a duplicate-free listing of the features. */
  lemma OrderStep<K, V>(order: seq<K>, m: map<K, V>, m': map<K, V>, f: K)
    requires Distinct(order) && Elems(order) == m.Keys && m'.Keys == m.Keys + {f}
    ensures var o := order + (if f in m then [] else [f]);
      Distinct(o) && Elems(o) == m'.Keys
  {
    if f !in m {
      ElemsSnoc(order, f);
      DistinctConcat(order, [f]);
    } else {
      assert order + [] == order;
    }
  }

  /** `append_edge` for the edges es[0 .. n-1] of the cell at c in turn,
      adj[k] the neighbour across es[k], from registry g; the first
      failure ends the loop. */
  function RegisterAll(g: Registry, c: Coord, adj: seq<Coord>, es: seq<Edge>, n: nat): (r: (Outcome, Registry))
    requires n <= |adj| && n <= |es|
    ensures r.0.Fail? ==> r.0.error == KeyError
    ensures forall k :: k in g.edges ==> k in r.1.edges && r.1.edges[k] == g.edges[k]
  {
    if n == 0 then (Pass, g)
    else
      var r := RegisterAll(g, c, adj, es, n - 1);
      if r.0.Fail? then r else RegisterEdge(r.1, c, adj[n - 1], es[n - 1])
  }

  lemma RegisterAllStep(g0: Registry, c: Coord, adj: seq<Coord>, es: seq<Edge>, n: nat, g: Registry)
    requires n < |adj| && n < |es| && (Pass, g) == RegisterAll(g0, c, adj, es, n)
    ensures RegisterAll(g0, c, adj, es, n + 1) == RegisterEdge(g, c, adj[n], es[n])
  {
  }

  /** The loop of `append_hex` over the six edges of the hexagon h just
      placed, each registered as `append_edge` does; none fails. */
  method RegisterEdges(ghost hexes: map<Coord, Hexagon>, h: Hexagon, g0: Registry) returns (g: Registry)
    requires AllLocated(hexes) && h.coord in hexes && hexes[h.coord] == h
    requires RegistryOK(hexes, AllSlots(hexes.Keys - {h.coord}), g0)
    ensures |h.edges| == 6 && (Pass, g) == RegisterAll(g0, h.coord, h.Adjency(), h.edges, 6)
    ensures RegistryOK(hexes, AllSlots(hexes.Keys), g)
    ensures RegistryGrown(g0, g)
  {
    var c := h.coord;
    var adj := h.Adjency();
    assert Located(hexes[c], c);
    SlotsEnds(hexes.Keys, c);
    g := g0;
    for i := 0 to 6
      invariant RegistryOK(hexes, Slots(hexes.Keys, c, i), g)
      invariant (Pass, g) == RegisterAll(g0, c, adj, h.edges, i)
      invariant AreasCoarsen(g0.areas, g.areas) && g0.areaOrder <= g.areaOrder
    {
      RegisterStep(hexes, c, i, g);
      RegisterAllStep(g0, c, adj, h.edges, i, g);
      var r := RegisterEdge(g, c, adj[i], h.edges[i]);
      AreasCoarsenTransitive(g0.areas, g.areas, r.1.areas);
      g := r.1;
    }
  }

  /** Placing h at a free coordinate keeps everything stated about the
      cells placed before: their registry and their border. */
  lemma PlaceHex(hexes: map<Coord, Hexagon>, h: Hexagon, g: Registry, border: map<SpatialKey, BorderEntry>,
                 order: seq<SpatialKey>, conn: map<SpatialKey, map<SpatialKey, Link>>)
    requires h.coord !in hexes && Placed(hexes) && h.WellFormed()
    requires RegistryOK(hexes, AllSlots(hexes.Keys), g)
    requires BorderOK(hexes, hexes.Keys, border, order, conn, g.areas)
    ensures var hexes' := hexes[h.coord := h];
      Placed(hexes') && AllLocated(hexes') && hexes'.Keys - {h.coord} == hexes.Keys &&
      RegistryOK(hexes', AllSlots(hexes.Keys), g) &&
      BorderOK(hexes', hexes.Keys, border, order, conn, g.areas)
  {
    var hexes' := hexes[h.coord := h];
    PlacedLocated(hexes');
    assert hexes'.Keys - {h.coord} == hexes.Keys;
    ExtendHexes(hexes, h.coord, h, AllSlots(hexes.Keys), g.edges, g.areas);
    EntriesExtend(hexes, h.coord, h, border);
  }

  /** Entries and links stay sound when the partitions coarsen: cells
      only gain partners. */
  lemma BorderCoarsen(border: map<SpatialKey, BorderEntry>, conn: map<SpatialKey, map<SpatialKey, Link>>,
                      areas: Areas, areas': Areas)
    requires EntriesInAreas(border, areas) && ConnLinks(border, conn, areas) && AreasCoarsen(areas, areas')
    ensures EntriesInAreas(border, areas') && ConnLinks(border, conn, areas')
  {
    forall K | K in border ensures border[K].outer.feature in areas' && border[K].inner in areas'[border[K].outer.feature].tag {
      assert Coarsens(areas[border[K].outer.feature], areas'[border[K].outer.feature]);
    }
    forall a, b | a in conn && b in conn[a] ensures a in border && b in border && LinkOK(border[a], border[b], conn[a][b], areas') {
      var f := border[a].outer.feature;
      if conn[a][b].area == 1 {
        assert Coarsens(areas[f], areas'[f]);
      }
    }
  }

  /** Once its edges are registered, every edge of the cell at c has its
      feature's set, holding c. */
  lemma HexCovered(hexes: map<Coord, Hexagon>, c: Coord, areas: Areas)
    requires c in hexes && Located(hexes[c], c) && AreasOK(hexes, AllSlots(hexes.Keys), areas)
    ensures forall i :: 0 <= i < 6 ==> hexes[c].edges[i].feature in areas && c in areas[hexes[c].edges[i].feature].tag
  {
    forall i | 0 <= i < 6 ensures hexes[c].edges[i].feature in areas && c in areas[hexes[c].edges[i].feature].tag {
      assert (c, i) in AllSlots(hexes.Keys);
    }
  }

  /** The state of a polyhex whose hexagons are hexes. */
  ghost predicate Assembled(hexes: map<Coord, Hexagon>, g: Registry, border: map<SpatialKey, BorderEntry>,
                            order: seq<SpatialKey>, conn: map<SpatialKey, map<SpatialKey, Link>>) {
    Placed(hexes) && RegistryOK(hexes, AllSlots(hexes.Keys), g) &&
    BorderOK(hexes, hexes.Keys, border, order, conn, g.areas)
  }

  /** The state once h is placed at a free coordinate and its edges are
      registered, before the border is updated: all that UpdateBorder
      needs. */
  ghost predicate Registered(hexes: map<Coord, Hexagon>, h: Hexagon, g: Registry, border: map<SpatialKey, BorderEntry>,
                             order: seq<SpatialKey>, conn: map<SpatialKey, map<SpatialKey, Link>>) {
    h.coord in hexes && hexes[h.coord] == h &&
    Placed(hexes) && Located(h, h.coord) && RegistryOK(hexes, AllSlots(hexes.Keys), g) &&
    BorderOK(hexes, hexes.Keys - {h.coord}, border, order, conn, g.areas) &&
    forall i :: 0 <= i < 6 ==> h.edges[i].feature in g.areas && h.coord in g.areas[h.edges[i].feature].tag
  }

  /** The first two steps of `append_hex` for a free coordinate, on the
      values of the fields: h is stored and its six edges are registered.
      The border is left for UpdateBorder, with what it needs. */
  method PlaceHexValues(hexes0: map<Coord, Hexagon>, h: Hexagon, g0: Registry, border: map<SpatialKey, BorderEntry>,
                        order: seq<SpatialKey>, conn: map<SpatialKey, map<SpatialKey, Link>>)
    returns (hexes: map<Coord, Hexagon>, g: Registry)
    requires h.WellFormed() && h.coord !in hexes0 && Assembled(hexes0, g0, border, order, conn)
    ensures hexes == hexes0[h.coord := h] && RegistryGrown(g0, g)
    ensures |h.edges| == 6 && (Pass, g) == RegisterAll(g0, h.coord, h.Adjency(), h.edges, 6)
    ensures Registered(hexes, h, g, border, order, conn)
  {
    hexes := hexes0[h.coord := h];
    PlaceHex(hexes0, h, g0, border, order, conn);
    g := RegisterEdges(hexes, h, g0);
    BorderCoarsen(border, conn, g0.areas, g.areas);
    HexCovered(hexes, h.coord, g.areas);
  }

  // ---------------------------------------------------------------------
  // Reading the polyhex: habitat score, border indices, graph lists.

  /** The sum, over the features listed in s, of the size of the largest
      subset in each feature's partition. */
  ghost function HabitatTotal(areas: Areas, s: seq<Option<Feature>>): nat
    requires forall f :: f in s ==> f in areas && areas[f].tag != map[]
  {
    if s == [] then 0 else HabitatTotal(areas, s[..|s| - 1]) + Largest(areas[s[|s| - 1]])
  }

  /** The score of each listed feature never drops when the partitions
      coarsen. */
  lemma {:induction false} HabitatCoarsen(areas: Areas, areas': Areas, s: seq<Option<Feature>>)
    requires forall f :: f in s ==> f in areas && areas[f].tag != map[]
    requires AreasCoarsen(areas, areas')
    ensures forall f :: f in s ==> f in areas' && areas'[f].tag != map[]
    ensures HabitatTotal(areas, s) <= HabitatTotal(areas', s)
  {
    if s != [] {
      var f := s[|s| - 1];
      assert forall g :: g in s[..|s| - 1] ==> g in s;
      HabitatCoarsen(areas, areas', s[..|s| - 1]);
      CoarsensLargest(areas[f], areas'[f]);
    }
  }

  /** Listing more features never lowers the total. */
  lemma {:induction false} HabitatExtend(areas: Areas, s: seq<Option<Feature>>, t: seq<Option<Feature>>)
    requires forall f :: f in s + t ==> f in areas && areas[f].tag != map[]
    ensures forall f :: f in s ==> f in areas && areas[f].tag != map[]
    ensures HabitatTotal(areas, s) <= HabitatTotal(areas, s + t)
  {
    assert forall f :: f in s ==> f in s + t;
    if t == [] {
      assert s + t == s;
    } else {
      var t' := t[..|t| - 1];
      assert (s + t)[..|s + t| - 1] == s + t';
      assert forall f :: f in s + t' ==> f in s + t;
      HabitatExtend(areas, s, t');
    }
  }

  /** The habitat score never decreases as the registry grows. */
  lemma HabitatMonotone(g0: Registry, g: Registry)
    requires RegistryGrown(g0, g)
    requires forall f :: f in g0.areaOrder ==> f in g0.areas && g0.areas[f].tag != map[]
    requires forall f :: f in g.areaOrder ==> f in g.areas && g.areas[f].tag != map[]
    ensures HabitatTotal(g0.areas, g0.areaOrder) <= HabitatTotal(g.areas, g.areaOrder)
  {
    HabitatCoarsen(g0.areas, g.areas, g0.areaOrder);
    var t := g.areaOrder[|g0.areaOrder|..];
    assert g0.areaOrder + t == g.areaOrder;
    HabitatExtend(g.areas, g0.areaOrder, t);
  }

  /** n is the size of the largest subset exactly when no subset is larger
      and some subset has that size. */
  lemma LargestIs(p: Partition<Coord>, n: nat)
    requires p.tag != map[]
    requires forall z :: z in p.tag ==> |p.Block(z)| <= n
    requires exists z :: z in p.tag && |p.Block(z)| == n
    ensures n == Largest(p)
  {
    var z :| z in p.tag && |p.Block(z)| == n;
    var w :| w in p.tag.Keys && |p.Block(w)| == Largest(p);
  }

  /** `max(len(s) for s in dsu.subsets())`: the size of every element's
      subset, keeping the largest. */
  method LargestSubset(p: Partition<Coord>) returns (n: nat)
    requires p.tag != map[]
    ensures n == Largest(p)
  {
    var todo := p.tag.Keys;
    ghost var done: set<Coord> := {};
    ghost var best: Coord :| best in todo;
    n := 0;
    while todo != {}
      invariant todo + done == p.tag.Keys && best in p.tag
      invariant forall z :: z in done ==> |p.Block(z)| <= n
      invariant done != {} ==> best in done && |p.Block(best)| == n
      invariant done == {} ==> n == 0
      decreases |todo|
    {
      var z :| z in todo;
      var b := |p.Block(z)|;
      if b > n {
        n := b;
        best := z;
      }
      todo, done := todo - {z}, done + {z};
    }
    LargestIs(p, n);
  }

  /** The position of the first occurrence of x in s. */
  function IndexOf<T(==)>(s: seq<T>, x: T): Option<nat> {
    if s == [] then None
    else if s[0] == x then Some(0)
    else match IndexOf(s[1..], x)
      case None => None
      case Some(i) => Some(i + 1)
  }

  /** IndexOf finds x exactly when it occurs, and then at its first
      occurrence. */
  lemma {:induction false} IndexOfSpec<T>(s: seq<T>, x: T)
    ensures IndexOf(s, x).None? <==> x !in s
    ensures IndexOf(s, x).Some? ==>
      IndexOf(s, x).value < |s| && s[IndexOf(s, x).value] == x &&
      forall j :: 0 <= j < IndexOf(s, x).value ==> s[j] != x
  {
    if s != [] && s[0] != x {
      IndexOfSpec(s[1..], x);
      assert x in s ==> x in s[1..] by {
        if x in s {
          var j :| 0 <= j < |s| && s[j] == x;
          assert s[1..][j - 1] == x;
        }
      }
      if IndexOf(s[1..], x).Some? {
        var i := IndexOf(s[1..], x).value;
        forall j | 0 <= j < i + 1 ensures s[j] != x {
          if j > 0 {
            assert s[j] == s[1..][j - 1];
          }
        }
      }
    }
  }

  /** The first occurrence of x is at i when s[i] == x and no earlier
      element is x. */
  lemma IndexOfFirst<T>(s: seq<T>, x: T, i: nat)
    requires i < |s| && s[i] == x && forall j :: 0 <= j < i ==> s[j] != x
    ensures IndexOf(s, x) == Some(i)
  {
    IndexOfSpec(s, x);
    var k := IndexOf(s, x).value;
    assert !(k < i) && !(i < k);
  }

  /** Index to key and back: in a list without repeats, the key found at
      a position has that position. */
  lemma IndexRoundTrip<T>(s: seq<T>, i: nat)
    requires Distinct(s) && i < |s|
    ensures IndexOf(s, s[i]) == Some(i)
  {
    IndexOfFirst(s, s[i], i);
  }

  /** Key to index and back: a key found at a position is the key there. */
  lemma KeyRoundTrip<T>(s: seq<T>, x: T)
    requires x in s
    ensures IndexOf(s, x).Some? && IndexOf(s, x).value < |s| && s[IndexOf(s, x).value] == x
  {
    IndexOfSpec(s, x);
  }

  /** starts/ends list the pairs ps of border indices, and attrs the
      stored link between the two keys at those indices. */
  ghost predicate ListsLinks(order: seq<SpatialKey>, conn: map<SpatialKey, map<SpatialKey, Link>>,
                             ps: seq<(nat, nat)>, starts: seq<nat>, ends: seq<nat>, attrs: seq<Link>) {
    |starts| == |ps| && |ends| == |ps| && |attrs| == |ps| &&
    forall k :: 0 <= k < |ps| ==>
      (starts[k], ends[k]) == ps[k] && starts[k] < |order| && ends[k] < |order| &&
      order[starts[k]] in conn && order[ends[k]] in conn[order[starts[k]]] &&
      attrs[k] == conn[order[starts[k]]][order[ends[k]]]
  }

  /** The table has a link between the keys at any two positions. */
  ghost predicate FullTable(order: seq<SpatialKey>, conn: map<SpatialKey, map<SpatialKey, Link>>) {
    forall i, j {:trigger order[i], order[j]} :: 0 <= i < |order| && 0 <= j < |order| && i != j ==>
      order[i] in conn && order[j] in conn[order[i]]
  }

  lemma ShapeFullTable(order: seq<SpatialKey>, conn: map<SpatialKey, map<SpatialKey, Link>>)
    requires Distinct(order) && ConnShape(conn, Elems(order))
    ensures FullTable(order, conn)
  {
    forall i, j | 0 <= i < |order| && 0 <= j < |order| && i != j ensures order[i] in conn && order[j] in conn[order[i]] {
      assert order[i] in Elems(order) && order[j] in Elems(order);
    }
  }

  lemma ListsLinksSnoc(order: seq<SpatialKey>, conn: map<SpatialKey, map<SpatialKey, Link>>,
                       ps: seq<(nat, nat)>, starts: seq<nat>, ends: seq<nat>, attrs: seq<Link>, i: nat, j: nat)
    requires ListsLinks(order, conn, ps, starts, ends, attrs)
    requires i < |order| && j < |order| && order[i] in conn && order[j] in conn[order[i]]
    ensures ListsLinks(order, conn, ps + [(i, j)], starts + [i], ends + [j], attrs + [conn[order[i]][order[j]]])
  {
  }

  /** The inner loop of `get_graph_edges`: appends row i. */
  method LinksRow(order: seq<SpatialKey>, conn: map<SpatialKey, map<SpatialKey, Link>>, i: nat,
                  ghost ps0: seq<(nat, nat)>, starts0: seq<nat>, ends0: seq<nat>, attrs0: seq<Link>)
    returns (ghost ps: seq<(nat, nat)>, starts: seq<nat>, ends: seq<nat>, attrs: seq<Link>)
    requires i < |order| && FullTable(order, conn)
    requires ListsLinks(order, conn, ps0, starts0, ends0, attrs0)
    ensures ps == ps0 + Row(i, |order|) && ListsLinks(order, conn, ps, starts, ends, attrs)
  {
    ps, starts, ends, attrs := ps0, starts0, ends0, attrs0;
    for j := 0 to |order|
      invariant ps == ps0 + Row(i, j)
      invariant ListsLinks(order, conn, ps, starts, ends, attrs)
    {
      if i != j {
        var a, b := order[i], order[j];
        assert a in conn && b in conn[a];
        ListsLinksSnoc(order, conn, ps, starts, ends, attrs, i, j);
        ps := ps + [(i, j)];
        starts, ends, attrs := starts + [i], ends + [j], attrs + [conn[order[i]][order[j]]];
      }
    }
  }

  /** `compute_habitat_result` on the values of the fields: for each
      feature, in the order the features were first seen, the size of the
      largest subset of its partition, summed. */
  method HabitatOf(areas: Areas, order: seq<Option<Feature>>) returns (total: nat)
    requires forall f :: f in order ==> f in areas && areas[f].tag != map[]
    ensures total == HabitatTotal(areas, order)
  {
    total := 0;
    for j := 0 to |order|
      invariant total == HabitatTotal(areas, order[..j])
    {
      var result := LargestSubset(areas[order[j]]);
      assert order[..j + 1][..j] == order[..j];
      total := total + result;
    }
    assert order[..|order|] == order;
  }

  /** Every border entry lies on a placed cell and faces the empty
      neighbour across its edge. */
  lemma BorderFacesEmpty(hexes: map<Coord, Hexagon>, border: map<SpatialKey, BorderEntry>, K: SpatialKey)
    requires border.Keys == Exposed(hexes.Keys) && EntriesAt(hexes, border) && K in border
    ensures border[K].inner in hexes && border[K].edge.index < 6
    ensures border[K].outer.coord == Neighbour(border[K].inner, border[K].edge.index)
    ensures border[K].outer.coord !in hexes
    ensures NodeFacesEmpty(hexes, border[K], border[K].encoding)
  {
    var b := border[K];
    assert EntryAt(hexes, K, b);
    var enc := EncodeEdge(b.edge, b.inner, b.outer);
    assert enc.Ok? && enc.value == b.encoding;
    assert Coord(b.inner.q + b.encoding.dq, b.inner.r + b.encoding.dr) == b.outer.coord;
    var c, i :| c in hexes && 0 <= i < 6 && Neighbour(c, i) !in hexes && K == EdgeKey(c, i);
    SharedEdgeUnique(c, i, b.inner, b.edge.index);
    assert Neighbours(b.inner)[b.edge.index] == b.outer.coord;
  }

  /** A border node steps from a placed cell to the empty neighbour
      across its edge. */
  ghost predicate NodeFacesEmpty(hexes: map<Coord, Hexagon>, e: BorderEntry, node: EdgeEncoding) {
    var outer := Coord(e.inner.q + node.dq, e.inner.r + node.dr);
    e.inner in hexes && Adjacent(e.inner, outer) && outer !in hexes
  }

  /** Every border node of a polyhex faces an empty cell. */
  lemma BorderNodesFaceEmpty(hexes: map<Coord, Hexagon>, border: map<SpatialKey, BorderEntry>)
    requires border.Keys == Exposed(hexes.Keys) && EntriesAt(hexes, border)
    ensures forall K :: K in border ==> NodeFacesEmpty(hexes, border[K], border[K].encoding)
  {
    forall K | K in border ensures NodeFacesEmpty(hexes, border[K], border[K].encoding) {
      BorderFacesEmpty(hexes, border, K);
    }
  }

  /** `get_graph_nodes` on the values of the fields: the encodings of the
      border entries in insertion order. */
  method BorderNodes(hexes: map<Coord, Hexagon>, border: map<SpatialKey, BorderEntry>, order: seq<SpatialKey>)
    returns (nodes: seq<EdgeEncoding>)
    requires Elems(order) == border.Keys
    requires forall K :: K in border ==> NodeFacesEmpty(hexes, border[K], border[K].encoding)
    ensures |nodes| == |order|
    ensures forall i :: 0 <= i < |nodes| ==> order[i] in border && nodes[i] == border[order[i]].encoding
    ensures forall i :: 0 <= i < |nodes| ==> NodeFacesEmpty(hexes, border[order[i]], nodes[i])
  {
    nodes := [];
    for i := 0 to |order|
      invariant |nodes| == i
      invariant forall j :: 0 <= j < i ==> order[j] in border && nodes[j] == border[order[j]].encoding
    {
      assert order[i] in Elems(order);
      nodes := nodes + [border[order[i]].encoding];
    }
  }

  /** Before the k-th hexagon of a list with distinct coordinates is
      appended, its cell is free. */
  lemma AppendReady(items: seq<Hexagon>, k: nat)
    requires k < |items| && Buildable(items)
    ensures items[k].WellFormed()
    ensures forall j :: 0 <= j < |items| && j != k ==> items[j].coord != items[k].coord
    ensures items[k].coord !in Coords(items[..k])
  {
  }

  /** The polyhex with no hexagon satisfies the invariant. */
  lemma EmptyAssembled()
    ensures Assembled(map[], Registry(map[], map[], []), map[], [], map[])
  {
    assert AllSlots({}) == {};
    assert Exposed({}) == {};
  }

  // ---------------------------------------------------------------------
  // Building a polyhex from a collection of hexagons.

  /** What the constructor is given: a list, a dict, anything else, or
      nothing. */
  datatype Collection = AsList(items: seq<Hexagon>) | AsDict | AsOther | Missing

  function Coords(items: seq<Hexagon>): set<Coord> {
    set k | 0 <= k < |items| :: items[k].coord
  }

  /** A list that `append_hex` never refuses: built hexagons on pairwise
      distinct cells. */
  ghost predicate Buildable(items: seq<Hexagon>) {
    (forall k :: 0 <= k < |items| ==> items[k].WellFormed()) &&
    (forall j, k :: 0 <= j < k < |items| ==> items[j].coord != items[k].coord)
  }

  /** Placing the k-th hexagon of a list with distinct coordinates keeps
      the hexagons placed before it where they are. */
  lemma LookupStep(items: seq<Hexagon>, k: nat, hexes: map<Coord, Hexagon>, hexes': map<Coord, Hexagon>)
    requires k < |items| && hexes' == hexes[items[k].coord := items[k]]
    requires forall j :: 0 <= j < |items| && j != k ==> items[j].coord != items[k].coord
    requires HoldsFirst(hexes, items, k)
    ensures HoldsFirst(hexes', items, k + 1)
  {
    CoordsSnoc(items, k);
  }

  /** hexes holds exactly the first k hexagons of items, each on its own
      cell. */
  ghost predicate HoldsFirst(hexes: map<Coord, Hexagon>, items: seq<Hexagon>, k: nat)
    requires k <= |items|
  {
    hexes.Keys == Coords(items[..k]) &&
    forall j {:trigger hexes[items[j].coord]} :: 0 <= j < k ==> hexes[items[j].coord] == items[j]
  }

  lemma CoordsSnoc(items: seq<Hexagon>, k: nat)
    requires k < |items|
    ensures Coords(items[..k + 1]) == Coords(items[..k]) + {items[k].coord}
  {
    var a, b := items[..k + 1], items[..k];
    assert a[k] == items[k];
    forall c | c in Coords(a) ensures c in Coords(b) + {items[k].coord} {
      var j :| 0 <= j < |a| && a[j].coord == c;
      if j < k {
        assert b[j] == a[j];
      }
    }
    forall c | c in Coords(b) ensures c in Coords(a) {
      var j :| 0 <= j < |b| && b[j].coord == c;
      assert a[j] == b[j];
    }
  }

  /** `_check_iterable_consistency` for a list: one hexagon passes;
      otherwise indexing the first fails on an empty list, and the list
      passes when every hexagon is compatible with the first and no two
      are equal (the length of its set is its length). */
  function ConsistentList(items: seq<Hexagon>): (r: Result<bool>)
    reads set k | 0 <= k < |items| :: items[k].centre
    ensures r.Err? <==> items == []
    ensures r.Err? ==> r.error == IndexError
  {
    if |items| == 1 then Ok(true)
    else if items == [] then Err(IndexError)
    else Ok((forall k :: 1 <= k < |items| ==> items[0].IsCompatible(items[k])) &&
            forall j, k :: 0 <= j < k < |items| ==> !items[j].Eq(items[k]))
  }

  /** For built hexagons, a list passes the check exactly when it is not
      empty, all its hexagons are compatible with the first, and their
      coordinates are pairwise distinct. */
  lemma ConsistentMeansDistinctCells(items: seq<Hexagon>)
    requires forall k :: 0 <= k < |items| ==> items[k].WellFormed()
    ensures ConsistentList(items) == Ok(true) <==>
      items != [] && (forall k :: 1 <= k < |items| ==> items[0].IsCompatible(items[k])) &&
      forall j, k :: 0 <= j < k < |items| ==> items[j].coord != items[k].coord
  {
    if |items| > 1 && (forall k :: 1 <= k < |items| ==> items[0].IsCompatible(items[k])) {
      forall j, k | 0 <= j < k < |items| ensures items[j].Eq(items[k]) <==> items[j].coord == items[k].coord {
        EqMeansSameCellAndRadius(items[j], items[k]);
      }
    }
  }

  /** Every edge that faces no placed cell when its hexagon is appended
      can be opened: it carries a feature of the default habitat table D
      (a placeholder needs its habitat code, and so does the border
      encoding). */
  ghost predicate FeaturesOnOpenEdges(D: Habitats, items: seq<Hexagon>) {
    forall k, i :: 0 <= k < |items| && 0 <= i < 6 && i < |items[k].edges| && Neighbour(items[k].coord, i) !in Coords(items[..k]) ==>
      items[k].edges[i].feature.Some? && items[k].edges[i].feature.value in D
  }

  /** How appending the first k hexagons of items, each after those
      before it, ends: with the exception of the first hexagon whose
      border loop fails, else Pass. */
  function ListOutcome(D: Habitats, items: seq<Hexagon>, k: nat): Outcome
    requires k <= |items|
  {
    if k == 0 then Pass
    else
      var before := ListOutcome(D, items, k - 1);
      if before.Fail? then before else OpenOutcome(D, Coords(items[..k - 1]), items[k - 1])
  }

  /** Once a hexagon has failed, the outcome of the list is its failure. */
  lemma {:induction false} ListOutcomeKept(D: Habitats, items: seq<Hexagon>, k: nat, n: nat)
    requires k <= n <= |items| && ListOutcome(D, items, k).Fail?
    ensures ListOutcome(D, items, n) == ListOutcome(D, items, k)
    decreases n
  {
    if k < n {
      ListOutcomeKept(D, items, k, n - 1);
    }
  }

  /** A list of n hexagons that passes passed at every one of them. */
  lemma {:induction false} ListOutcomeAt(D: Habitats, items: seq<Hexagon>, n: nat, k: nat)
    requires k < n <= |items|
    ensures ListOutcome(D, items, n).Pass? ==> FirstBlocked(D, Coords(items[..k]), items[k], 0) == 6
    decreases n
  {
    if k < n - 1 {
      ListOutcomeAt(D, items, n - 1, k);
    }
  }

  /** A list of n hexagons, none of which has a blocked edge when it is
      appended, passes. */
  lemma {:induction false} ListOutcomeAll(D: Habitats, items: seq<Hexagon>, n: nat)
    requires n <= |items|
    requires forall k :: 0 <= k < n ==> FirstBlocked(D, Coords(items[..k]), items[k], 0) == 6
    ensures ListOutcome(D, items, n) == Pass
  {
    if n > 0 {
      ListOutcomeAll(D, items, n - 1);
    }
  }

  /** A list passes exactly when every open edge of every hexagon of it
      can be opened. */
  lemma OpenEdgesListOutcome(D: Habitats, items: seq<Hexagon>)
    ensures FeaturesOnOpenEdges(D, items) <==> ListOutcome(D, items, |items|).Pass?
  {
    if !FeaturesOnOpenEdges(D, items) {
      var k, i :| 0 <= k < |items| && 0 <= i < 6 && i < |items[k].edges| &&
        Neighbour(items[k].coord, i) !in Coords(items[..k]) &&
        !(items[k].edges[i].feature.Some? && items[k].edges[i].feature.value in D);
      assert BlockedEdge(D, Coords(items[..k]), items[k], i);
      if i < FirstBlocked(D, Coords(items[..k]), items[k], 0) {
        FirstBlockedFirst(D, Coords(items[..k]), items[k], 0, i);
      }
      ListOutcomeAt(D, items, |items|, k);
    } else {
      ListOutcomeAll(D, items, |items|);
    }
  }

  /** The polyhex: the placed hexagons by coordinate, the edge registry,
      the per-feature partitions (with the order their features were first
      seen), the border entries (with their insertion order) and the
      connectivity table between border edges. */
  class OldPolyhex {
    const system: string
    const radius: real
    const top: string
    const orientation: string
    /** The default configuration, which `placeholder_hex` builds with. */
    const defaults: Config
    var hexagons: map<Coord, Hexagon>
    var edges: map<FeatureKey, Edge>
    var areas: Areas
    var areaOrder: seq<Option<Feature>>
    var border: map<SpatialKey, BorderEntry>
    var borderOrder: seq<SpatialKey>
    var conn: map<SpatialKey, map<SpatialKey, Link>>

    ghost predicate Valid()
      reads this
    {
      system == "axial" && Assembled(hexagons, Registry(edges, areas, areaOrder), border, borderOrder, conn)
    }

    /** `__init__` up to `_create_from_list`: every table empty, the
        coordinate system, radius, top and orientation read off the first
        hexagon. */
    constructor (first: Hexagon, defaults: Config)
      requires first.WellFormed()
      ensures Valid()
      ensures system == first.system && radius == first.radius && top == first.top && orientation == first.orientation
      ensures this.defaults == defaults
      ensures hexagons == map[] && areaOrder == [] && borderOrder == []
    {
      system, radius, top, orientation := first.system, first.radius, first.top, first.orientation;
      this.defaults := defaults;
      hexagons, edges, areas, areaOrder := map[], map[], map[], [];
      border, borderOrder, conn := map[], [], map[];
      new;
      EmptyAssembled();
    }

    /** `Polyhex(hexagons)`: a missing collection fails the first assertion,
        a dict is not implemented and anything but a list is refused; an
        empty list fails on indexing its first element, and a list that is
        not consistent fails the assertion. Otherwise the hexagons are
        appended in order, none of them twice, and the first one with an
        edge that cannot be opened ends construction with its exception.
        The default configuration is a parameter. */
    static method Create(hs: Collection, defaults: Config) returns (r: Result<OldPolyhex>)
      requires hs.AsList? ==> forall k :: 0 <= k < |hs.items| ==> hs.items[k].WellFormed()
      ensures hs.Missing? ==> r == Err(AssertionError)
      ensures hs.AsDict? ==> r == Err(NotImplementedError)
      ensures hs.AsOther? ==> r == Err(ValueError)
      ensures hs.AsList? ==>
        (r.Ok? <==> ConsistentList(hs.items) == Ok(true) && FeaturesOnOpenEdges(defaults.habitat, hs.items))
      ensures hs.AsList? && r.Err? ==>
        if hs.items == [] then r.error == IndexError
        else if ConsistentList(hs.items) == Ok(true) then ListOutcome(defaults.habitat, hs.items, |hs.items|) == Fail(r.error)
        else r.error == AssertionError
      ensures r.Ok? ==> fresh(r.value) && r.value.Valid() && r.value.hexagons.Keys == Coords(hs.items)
      ensures r.Ok? ==> forall k :: 0 <= k < |hs.items| ==> r.value.hexagons[hs.items[k].coord] == hs.items[k]
      ensures r.Ok? ==> r.value.system == hs.items[0].system && r.value.radius == hs.items[0].radius
    {
      if hs.Missing? {
        return Err(AssertionError);
      }
      if hs.AsDict? {
        return Err(NotImplementedError);
      }
      if hs.AsOther? {
        return Err(ValueError);
      }
      var items := hs.items;
      var consistent := ConsistentList(items);
      if consistent.Err? {
        return Err(consistent.error);
      }
      if !consistent.value {
        return Err(AssertionError);
      }
      ConsistentMeansDistinctCells(items);
      var p := new OldPolyhex(items[0], defaults);
      var o := p.CreateFromList(items);
      if o.Fail? {
        return Err(o.error);
      }
      assert items[..|items|] == items;
      r := Ok(p);
    }

    /** `_create_from_list` after the properties are read: the hexagons
        are appended in order; with pairwise distinct coordinates none is
        refused, and the first one with a blocked edge ends the loop with
        its exception. */
    method CreateFromList(items: seq<Hexagon>) returns (o: Outcome)
      requires Valid() && hexagons == map[] && Buildable(items)
      modifies this
      ensures o == ListOutcome(defaults.habitat, items, |items|)
      ensures o.Pass? <==> FeaturesOnOpenEdges(defaults.habitat, items)
      ensures o.Pass? ==> Valid() && HoldsFirst(hexagons, items, |items|)
    {
      OpenEdgesListOutcome(defaults.habitat, items);
      for k := 0 to |items|
        invariant Valid() && HoldsFirst(hexagons, items, k)
        invariant ListOutcome(defaults.habitat, items, k) == Pass
      {
        o := AppendItem(items, k);
        if o.Fail? {
          assert items[..k + 1][..k] == items[..k];
          ListOutcomeKept(defaults.habitat, items, k + 1, |items|);
          return;
        }
      }
      o := Pass;
    }

    /** The inner part of the first loop of `_update_border_connectivity`:
        row `row0` of key a gains the link from a to each new key. */
    method ExtendRow(row0: map<SpatialKey, Link>, a: SpatialKey, newKeys: seq<SpatialKey>)
      returns (row: map<SpatialKey, Link>)
      requires a in border && forall k :: k in newKeys ==> k in border
      requires EntriesInAreas(border, areas)
      ensures RowExtended(border, areas, row, row0, a, newKeys)
    {
      row := row0;
      for j := 0 to |newKeys|
        invariant RowExtended(border, areas, row, row0, a, newKeys[..j])
      {
        var k := newKeys[j];
        LinkOfOK(border, areas, a, k);
        row := row[k := LinkOf(border, areas, a, k).value];
        assert newKeys[..j + 1] == newKeys[..j] + [k];
      }
      assert newKeys[..|newKeys|] == newKeys;
    }

    /** The row the second loop of `_update_border_connectivity` builds
        for a new key a: a link to every other border key, in border
        order. */
    method RowFor(a: SpatialKey) returns (row: map<SpatialKey, Link>)
      requires a in border && Elems(borderOrder) == border.Keys && EntriesInAreas(border, areas)
      ensures row.Keys == border.Keys - {a}
      ensures forall b :: b in row ==> b in border && Ok(row[b]) == LinkOf(border, areas, a, b)
    {
      row := map[];
      for j := 0 to |borderOrder|
        invariant row.Keys == Elems(borderOrder[..j]) - {a}
        invariant forall b :: b in row ==> b in border && Ok(row[b]) == LinkOf(border, areas, a, b)
      {
        var b := borderOrder[j];
        if a != b {
          LinkOfOK(border, areas, a, b);
          row := row[b := LinkOf(border, areas, a, b).value];
        }
        assert borderOrder[..j + 1] == borderOrder[..j] + [b];
      }
      assert borderOrder[..|borderOrder|] == borderOrder;
    }

    /** The first loop of `_update_border_connectivity`: every existing
        row gains a link to each new key. */
    method LinkRowsToNew(newKeys: seq<SpatialKey>)
      requires Elems(newKeys) <= border.Keys && conn.Keys <= border.Keys
      requires EntriesInAreas(border, areas)
      modifies this
      ensures hexagons == old(hexagons) && edges == old(edges) && areas == old(areas) && areaOrder == old(areaOrder)
      ensures border == old(border) && borderOrder == old(borderOrder)
      ensures conn.Keys == old(conn).Keys
      ensures forall a :: a in conn ==> RowExtended(border, areas, conn[a], old(conn)[a], a, newKeys)
    {
      var table := conn;
      var todo := table.Keys;
      while todo != {}
        invariant todo <= table.Keys && table.Keys == conn.Keys
        modifies {}
        invariant forall a :: a in table ==>
          if a in todo then table[a] == conn[a] else RowExtended(border, areas, table[a], conn[a], a, newKeys)
        decreases todo
      {
        var a :| a in todo;
        var row := ExtendRow(table[a], a, newKeys);
        table := table[a := row];
        todo := todo - {a};
      }
      conn := table;
    }

    /** The second loop of `_update_border_connectivity`: a full row for
        each new key. */
    method AddRows(newKeys: seq<SpatialKey>)
      requires Elems(newKeys) <= border.Keys && Elems(borderOrder) == border.Keys
      requires conn.Keys == border.Keys - Elems(newKeys)
      requires EntriesInAreas(border, areas)
      modifies this
      ensures hexagons == old(hexagons) && edges == old(edges) && areas == old(areas) && areaOrder == old(areaOrder)
      ensures border == old(border) && borderOrder == old(borderOrder)
      ensures conn.Keys == border.Keys
      ensures forall a :: a in old(conn) ==> conn[a] == old(conn)[a]
      ensures forall a {:trigger conn[a]} :: a in newKeys ==> conn[a].Keys == border.Keys - {a}
      ensures forall a, b :: a in newKeys && b in conn[a] ==> Ok(conn[a][b]) == LinkOf(border, areas, a, b)
    {
      var table := conn;
      for j := 0 to |newKeys|
        invariant RowsAdded(border, areas, conn, table, newKeys[..j])
        modifies {}
      {
        var row := RowFor(newKeys[j]);
        assert newKeys[..j + 1] == newKeys[..j] + [newKeys[j]];
        RowKept(conn, table, newKeys[..j], newKeys[j], row);
        RowFresh(border, areas, table, newKeys[..j], newKeys[j], row);
        table := table[newKeys[j] := row];
      }
      assert newKeys[..|newKeys|] == newKeys;
      conn := table;
    }

    /** `_update_border_connectivity`: links from the existing rows to the
        new keys, then a full row for each new key. Existing links are kept
        as they are; every link that involves a new key is computed from
        the current partitions. */
    method UpdateBorderConnectivity(newKeys: seq<SpatialKey>)
      requires ConnReady(border, borderOrder, conn, areas, newKeys)
      modifies this
      ensures hexagons == old(hexagons) && edges == old(edges) && areas == old(areas) && areaOrder == old(areaOrder)
      ensures border == old(border) && borderOrder == old(borderOrder)
      ensures ConnShape(conn, border.Keys) && ConnLinks(border, conn, areas)
      ensures forall a, b :: a in old(conn) && b in old(conn)[a] ==> a in conn && b in conn[a] && conn[a][b] == old(conn)[a][b]
      ensures forall a, b :: a in conn && b in conn[a] && (a in newKeys || b in newKeys) ==>
        a in border && b in border && Ok(conn[a][b]) == LinkOf(border, areas, a, b)
    {
      LinkRowsToNew(newKeys);
      ghost var mid := conn;
      AddRows(newKeys);
      ConnAssembled(border, areas, old(conn), mid, conn, newKeys);
      ConnAssembledShape(border, areas, old(conn), mid, conn, newKeys);
      ConnAssembledLinks(border, areas, old(conn), mid, conn, newKeys);
    }

    /** The loop of `_update_border`: the six edges of the hexagon h just
        placed toggle their spatial keys. A segment that was exposed closes
        (its entry, its row and its column are popped); one that was not
        opens, with a placeholder across it carrying the edge's feature. */
    method ToggleBorder(h: Hexagon, ghost X: set<SpatialKey>) returns (newKeys: seq<SpatialKey>, o: Outcome)
      requires h.coord in hexagons && hexagons[h.coord] == h && Located(h, h.coord)
      requires forall i :: 0 <= i < 6 ==> (EdgeKey(h.coord, i) in X <==> Neighbour(h.coord, i) in hexagons)
      requires border.Keys == X && BorderSound(hexagons, border, borderOrder, conn, areas)
      requires forall i :: 0 <= i < 6 ==> h.edges[i].feature in areas && h.coord in areas[h.edges[i].feature].tag
      modifies this
      ensures hexagons == old(hexagons) && edges == old(edges) && areas == old(areas) && areaOrder == old(areaOrder)
      ensures o == OpenOutcome(defaults.habitat, hexagons.Keys, h)
      ensures var n := FirstBlocked(defaults.habitat, hexagons.Keys, h, 0);
        Toggled(hexagons, X, Own(h.coord, n), border, borderOrder, conn, areas, newKeys) &&
        borderOrder == OrderAfter(old(borderOrder), X, h.coord, n)
      ensures ConnReady(border, borderOrder, conn, areas, newKeys)
      ensures Kept(X, old(border), old(conn), border, conn)
    {
      BorderToggled(hexagons, X, border, borderOrder, conn, areas);
      ghost var n := FirstBlocked(defaults.habitat, hexagons.Keys, h, 0);
      var border', order', conn', keys, step := ToggleEdges(defaults.habitat, hexagons, X, h, border, borderOrder, conn, areas);
      ToggledReady(hexagons, X, Own(h.coord, n), border', order', conn', areas, keys);
      SetBorder(border', order', conn');
      newKeys, o := keys, step;
    }

    /** `_update_border` for the hexagon h just placed: the toggling loop,
        then the table is completed for the keys that opened. A blocked
        edge raises its exception out of the loop, leaving the border part way
        toggled and the table without the rows of the keys that opened. */
    method UpdateBorder(h: Hexagon) returns (o: Outcome)
      requires h.coord in hexagons && hexagons[h.coord] == h && Located(h, h.coord)
      requires BorderOK(hexagons, hexagons.Keys - {h.coord}, border, borderOrder, conn, areas)
      requires forall i :: 0 <= i < 6 ==> h.edges[i].feature in areas && h.coord in areas[h.edges[i].feature].tag
      modifies this
      ensures hexagons == old(hexagons) && edges == old(edges) && areas == old(areas) && areaOrder == old(areaOrder)
      ensures o == OpenOutcome(defaults.habitat, hexagons.Keys, h)
      ensures var n := FirstBlocked(defaults.habitat, hexagons.Keys, h, 0);
        borderOrder == OrderAfter(old(borderOrder), old(border).Keys, h.coord, n)
      ensures o.Pass? ==> BorderOK(hexagons, hexagons.Keys, border, borderOrder, conn, areas)
      ensures o.Pass? ==> LinksUpdated(old(border), old(conn), border, conn, areas)
      ensures o.Fail? ==> HalfToggled(old(border), old(conn), Own(h.coord, FirstBlocked(defaults.habitat, hexagons.Keys, h, 0)), border, conn)
    {
      var c := h.coord;
      ghost var P := hexagons.Keys - {c};
      ghost var X := Exposed(P);
      assert P + {c} == hexagons.Keys;
      FrontierFacing(hexagons, P, c);
      var newKeys;
      newKeys, o := ToggleBorder(h, X);
      if o.Fail? {
        RowsLeft(X, Own(c, FirstBlocked(defaults.habitat, hexagons.Keys, h, 0)), border.Keys, Elems(newKeys), conn.Keys);
        return;
      }
      OpenOutcomeFirst(defaults.habitat, hexagons.Keys, h);
      ghost var conn1 := conn;
      UpdateBorderConnectivity(newKeys);
      ExposedAdd(P, c);
      BorderUpdated(hexagons, X, Own(c, 6), old(border), old(conn), border, borderOrder, conn1, conn,
                    areas, newKeys);
    }

    /** `append_edge`: the registry of the polyhex becomes what
        RegisterEdge makes of it; nothing else changes. */
    method AppendEdge(c: Coord, adj: Coord, e: Edge) returns (o: Outcome)
      modifies this
      ensures (o, Registry(edges, areas, areaOrder)) == RegisterEdge(Registry(old(edges), old(areas), old(areaOrder)), c, adj, e)
      ensures hexagons == old(hexagons) && border == old(border) && borderOrder == old(borderOrder) && conn == old(conn)
    {
      var r := RegisterEdge(Registry(edges, areas, areaOrder), c, adj, e);
      o := r.0;
      edges, areas, areaOrder := r.1.edges, r.1.areas, r.1.areaOrder;
    }

    /** `append_hex`: a second hexagon at a coordinate is refused before
        anything changes. Otherwise h is placed, its six edges registered
        (each as AppendEdge does) and the border updated. Registered edges
        and border entries that stay are kept, partitions only coarsen,
        links between keys that stay are kept and every other link is
        computed from the new partitions. A blocked edge of h raises its
        exception from the border update, after h is placed and its edges
        registered. */
    method AppendHex(h: Hexagon) returns (o: Outcome)
      requires Valid() && h.WellFormed()
      modifies this
      ensures h.coord in old(hexagons) ==> o == Fail(AssertionError) && unchanged(this)
      ensures h.coord !in old(hexagons) ==> o == OpenOutcome(defaults.habitat, old(hexagons).Keys, h)
      ensures h.coord in old(hexagons) || o.Pass? ==> Valid()
      ensures h.coord !in old(hexagons) ==> hexagons == old(hexagons)[h.coord := h]
      ensures h.coord !in old(hexagons) ==>
        |h.edges| == 6 &&
        (Pass, Registry(edges, areas, areaOrder)) ==
        RegisterAll(Registry(old(edges), old(areas), old(areaOrder)), h.coord, h.Adjency(), h.edges, 6)
      ensures h.coord !in old(hexagons) ==>
        borderOrder == OrderAfter(old(borderOrder), old(border).Keys, h.coord, FirstBlocked(defaults.habitat, old(hexagons).Keys, h, 0))
      ensures RegistryGrown(Registry(old(edges), old(areas), old(areaOrder)), Registry(edges, areas, areaOrder))
      ensures o.Pass? ==> LinksUpdated(old(border), old(conn), border, conn, areas)
      ensures h.coord !in old(hexagons) && o.Fail? ==>
        HalfToggled(old(border), old(conn), Own(h.coord, FirstBlocked(defaults.habitat, old(hexagons).Keys, h, 0)), border, conn)
    {
      if h.coord in hexagons {
        return Fail(AssertionError);
      }
      o := AppendFresh(h);
    }

    /** One step of `_create_from_list`: the k-th hexagon is appended; a
        blocked edge next to the hexagons before it raises its exception. */
    method AppendItem(items: seq<Hexagon>, k: nat) returns (o: Outcome)
      requires Valid() && k < |items| && Buildable(items) && HoldsFirst(hexagons, items, k)
      modifies this
      ensures HoldsFirst(hexagons, items, k + 1)
      ensures o == OpenOutcome(defaults.habitat, Coords(items[..k]), items[k])
      ensures o.Pass? ==> Valid()
    {
      var h := items[k];
      AppendReady(items, k);
      ghost var before := hexagons;
      o := AppendFresh(h);
      LookupStep(items, k, before, hexagons);
    }

    /** `append_hex` for a hexagon whose cell is free: h is placed, its
        edges registered and the border updated; a blocked edge of h fails
        the border update with its exception. */
    method AppendFresh(h: Hexagon) returns (o: Outcome)
      requires Valid() && h.WellFormed() && h.coord !in hexagons
      modifies this
      ensures hexagons == old(hexagons)[h.coord := h]
      ensures o == OpenOutcome(defaults.habitat, old(hexagons).Keys, h)
      ensures o.Pass? ==> Valid()
      ensures |h.edges| == 6 &&
        (Pass, Registry(edges, areas, areaOrder)) ==
        RegisterAll(Registry(old(edges), old(areas), old(areaOrder)), h.coord, h.Adjency(), h.edges, 6)
      ensures borderOrder == OrderAfter(old(borderOrder), old(border).Keys, h.coord, FirstBlocked(defaults.habitat, old(hexagons).Keys, h, 0))
      ensures RegistryGrown(Registry(old(edges), old(areas), old(areaOrder)), Registry(edges, areas, areaOrder))
      ensures o.Pass? ==> LinksUpdated(old(border), old(conn), border, conn, areas)
      ensures o.Fail? ==>
        HalfToggled(old(border), old(conn), Own(h.coord, FirstBlocked(defaults.habitat, old(hexagons).Keys, h, 0)), border, conn)
    {
      FirstBlockedPlaced(defaults.habitat, hexagons, h);
      PlaceFresh(h);
      o := UpdateBorder(h);
    }

    /** The first two steps of `append_hex` for a free cell: h is stored
        and its six edges registered; the border is left as it was. */
    method PlaceFresh(h: Hexagon)
      requires Valid() && h.WellFormed() && h.coord !in hexagons
      modifies this
      ensures hexagons == old(hexagons)[h.coord := h]
      ensures |h.edges| == 6 &&
        (Pass, Registry(edges, areas, areaOrder)) ==
        RegisterAll(Registry(old(edges), old(areas), old(areaOrder)), h.coord, h.Adjency(), h.edges, 6)
      ensures RegistryGrown(Registry(old(edges), old(areas), old(areaOrder)), Registry(edges, areas, areaOrder))
      ensures border == old(border) && borderOrder == old(borderOrder) && conn == old(conn) && system == "axial"
      ensures Registered(hexagons, h, Registry(edges, areas, areaOrder), border, borderOrder, conn)
    {
      var hexes, g := PlaceHexValues(hexagons, h, Registry(edges, areas, areaOrder), border, borderOrder, conn);
      SetRegistry(hexes, g);
    }

    /** Sets the border, its order and the table. */
    method SetBorder(b: map<SpatialKey, BorderEntry>, order: seq<SpatialKey>, table: map<SpatialKey, map<SpatialKey, Link>>)
      modifies this
      ensures border == b && borderOrder == order && conn == table
      ensures hexagons == old(hexagons) && edges == old(edges) && areas == old(areas) && areaOrder == old(areaOrder)
    {
      border, borderOrder, conn := b, order, table;
    }

    /** Sets the placed hexagons and the registry. */
    method SetRegistry(hexes: map<Coord, Hexagon>, g: Registry)
      modifies this
      ensures hexagons == hexes && edges == g.edges && areas == g.areas && areaOrder == g.areaOrder
      ensures border == old(border) && borderOrder == old(borderOrder) && conn == old(conn)
    {
      hexagons, edges, areas, areaOrder := hexes, g.edges, g.areas, g.areaOrder;
    }

    /** `add_token`: the hexagon at coord takes the token as
        Hexagon.AddToken does; a coordinate with no hexagon raises
        KeyError. The polyhex's own fields do not change. */
    method AddToken(coord: Coord, t: string) returns (o: Outcome)
      modifies if coord in hexagons then {hexagons[coord], hexagons[coord].centre} else {}
      ensures coord !in hexagons ==> o == Fail(KeyError)
      ensures coord in hexagons ==> var h := hexagons[coord];
        (o.Pass? <==> old(h.free) && old(h.centre.free) && t in h.config.tokenToHabitat &&
                      h.Feature() in h.config.tokenToHabitat[t]) &&
        (o.Pass? ==> !h.free && h.token == Some(t)) &&
        (o.Fail? ==> h.free == old(h.free) && h.token == old(h.token))
    {
      if coord !in hexagons {
        return Fail(KeyError);
      }
      o := hexagons[coord].AddToken(t);
    }

    /** `compute_habitat_result`: the sum over the features, in the order
        they were first seen, of the size of each feature's largest
        connected area. By HabitatMonotone it never drops across
        AppendHex. */
    method HabitatResult() returns (total: nat)
      requires Valid()
      ensures total == HabitatTotal(areas, areaOrder)
    {
      total := HabitatOf(areas, areaOrder);
    }

    /** `edge_key_to_index`: the position of key in the border's insertion
        order, None when key is not a border key. */
    method EdgeKeyToIndex(key: SpatialKey) returns (r: Option<nat>)
      ensures r == IndexOf(borderOrder, key)
      ensures r.None? <==> key !in borderOrder
      ensures r.Some? ==> r.value < |borderOrder| && borderOrder[r.value] == key
    {
      for index := 0 to |borderOrder|
        invariant forall j :: 0 <= j < index ==> borderOrder[j] != key
      {
        if borderOrder[index] == key {
          IndexOfFirst(borderOrder, key, index);
          return Some(index);
        }
      }
      IndexOfSpec(borderOrder, key);
      r := None;
    }

    /** `index_to_edge_key`: the border key at a position, None when the
        position is out of range. In a valid polyhex the key found maps
        back to the same position. */
    method IndexToEdgeKey(index: int) returns (r: Option<SpatialKey>)
      ensures r.Some? <==> 0 <= index < |borderOrder|
      ensures r.Some? ==> r.value == borderOrder[index]
      ensures r.Some? && Valid() ==> r.value in border && IndexOf(borderOrder, r.value) == Some(index)
    {
      for start := 0 to |borderOrder|
        invariant !(0 <= index < start)
      {
        if start == index {
          if Valid() {
            IndexRoundTrip(borderOrder, start);
          }
          return Some(borderOrder[start]);
        }
      }
      r := None;
    }

    /** `get_graph_edges`: every ordered pair of distinct border positions,
        row by row, with the stored link between their keys; each link is
        sound for its two entries. */
    method GetGraphEdges() returns (starts: seq<nat>, ends: seq<nat>, attrs: seq<Link>)
      requires Valid()
      ensures ListsLinks(borderOrder, conn, OrderedPairs(|borderOrder|), starts, ends, attrs)
      ensures |attrs| == |borderOrder| * (|borderOrder| - 1)
      ensures forall k :: 0 <= k < |attrs| ==>
        borderOrder[starts[k]] in border && borderOrder[ends[k]] in border &&
        LinkOK(border[borderOrder[starts[k]]], border[borderOrder[ends[k]]], attrs[k], areas)
    {
      var order := borderOrder;
      ShapeFullTable(order, conn);
      ghost var ps: seq<(nat, nat)> := [];
      starts, ends, attrs := [], [], [];
      for i := 0 to |order|
        invariant ps == Rows(i, |order|)
        invariant ListsLinks(order, conn, ps, starts, ends, attrs)
      {
        ps, starts, ends, attrs := LinksRow(order, conn, i, ps, starts, ends, attrs);
      }
      OrderedPairsSpec(|order|);
    }

    /** `get_graph_nodes`: the encodings of the border entries in insertion
        order. Each steps from a placed cell to the empty neighbour across
        its edge. */
    method GetGraphNodes() returns (nodes: seq<EdgeEncoding>)
      requires Valid()
      ensures |nodes| == |borderOrder|
      ensures forall i :: 0 <= i < |nodes| ==> borderOrder[i] in border && nodes[i] == border[borderOrder[i]].encoding
      ensures forall i :: 0 <= i < |nodes| ==> NodeFacesEmpty(hexagons, border[borderOrder[i]], nodes[i])
    {
      BorderNodesFaceEmpty(hexagons, border);
      nodes := BorderNodes(hexagons, border, borderOrder);
    }
  }
}
