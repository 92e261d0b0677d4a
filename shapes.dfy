/** The objects of the newer engine (polyhex/objects/polyhexes.py): the
    hypergraph, a dictionary of named graphs, and `Polyhex`, whose methods
    append hexagons to it one by one to build a shape. */
module Shapes {
  import opened Wrappers
  import opened Geometry
  import opened Frontier
  import opened Graphs
  import opened EdgeBorders
  import opened Polyhexes
  import opened Tilings

  /** The grid properties a polyhex takes from its first hexagon. */
  datatype Style = Style(system: string, radius: int, top: string, orientation: string)

  function StyleOf(c: Cell): Style {
    Style(c.system, c.radius, c.top, c.orientation)
  }

  /** The properties of a new `Polyhex`. */
  const DefaultStyle := Style("axial", 1, "pointy", "clockwise")

  /** How cells are made: `Hexagon(hex_coord=c)` (with `Hexagon()` at the
      origin), and `placeholder_hex` of a polyhex with the given style. */
  datatype Makers = Makers(hexagon: Coord -> Cell, placeholder: (Style, Coord) -> Cell)

  /** The cells the makers build sit at the coordinate they are given, with
      their six edges in place. */
  ghost predicate MakersOK(mk: Makers) {
    (forall c :: mk.hexagon(c).coord == c && mk.hexagon(c).EdgesInPlace()) &&
    (forall st, c :: mk.placeholder(st, c).coord == c && mk.placeholder(st, c).EdgesInPlace())
  }

  /** The hexagons at the coordinates cs. */
  function HexagonsAt(mk: Makers, cs: seq<Coord>): (r: seq<Cell>)
    ensures |r| == |cs|
  {
    seq(|cs|, k requires 0 <= k < |cs| => mk.hexagon(cs[k]))
  }

  /** The placeholders at the coordinates cs. */
  function PlaceholdersAt(mk: Makers, st: Style, cs: seq<Coord>): (r: seq<Cell>)
    ensures |r| == |cs|
  {
    seq(|cs|, k requires 0 <= k < |cs| => mk.placeholder(st, cs[k]))
  }

  /** With well-behaved makers, the cells sit at the coordinates they were
      made for and have their edges in place. */
  lemma MadeAt(mk: Makers, st: Style, cs: seq<Coord>)
    requires MakersOK(mk)
    ensures Coords(HexagonsAt(mk, cs)) == cs && AllInPlace(HexagonsAt(mk, cs))
    ensures Coords(PlaceholdersAt(mk, st, cs)) == cs && AllInPlace(PlaceholdersAt(mk, st, cs))
  {
  }

  // ---------------------------------------------------------------------
  // Where the constructions lead.

  /** The cells of a tiling, appended to an empty hypergraph that holds some
      graph (and the hexagon graph whenever it holds the border graph), all
      pass, and every graph then describes exactly the tiling's cells. */
  lemma TilingGrows(s: HyperState, order: seq<GraphName>, n: int, m: int, name: string, offset: string, mk: Makers)
    requires HyperOK(s, Elems(order), {}) && Distinct(order) && MakersOK(mk)
    requires order != [] && (HexagonBorderGraphName in order ==> HexagonGraphName in order)
    requires TilingCoords(n, m, name, offset).Ok?
    ensures var cs := TilingCoords(n, m, name, offset).value;
            var a := AppendCells(s, order, HexagonsAt(mk, cs));
            a.outcome == Pass && HyperOK(a.state, Elems(order), Elems(cs))
  {
    var cs := TilingCoords(n, m, name, offset).value;
    TilingShape(n, m, name, offset);
    MadeAt(mk, DefaultStyle, cs);
    FreshDistinct({}, cs);
    AppendCellsSpec(s, order, {}, HexagonsAt(mk, cs));
    assert {} + Elems(cs) == Elems(cs);
  }

  /** One round of the spiral: the placeholders of the ring around the ball
      of radius k, in any order, all pass, and the graphs then describe the
      ball of radius k + 1. */
  lemma SpiralRound(s: HyperState, order: seq<GraphName>, k: nat, ring: seq<Coord>, st: Style, mk: Makers,
                    t: HyperState, o: Outcome)
    requires HyperOK(s, Elems(order), Ball(k)) && Distinct(order) && MakersOK(mk)
    requires HexagonGraphName in order
    requires Distinct(ring) && Elems(ring) == Border(Ball(k))
    requires Appended(t, o) == AppendCells(s, order, PlaceholdersAt(mk, st, ring))
    ensures o == Pass && HyperOK(t, Elems(order), Ball(k + 1))
  {
    assert Coord(0, 0) in Ball(k);
    BorderChain(Ball(k), ring);
    FreshDistinct(Ball(k), ring);
    MadeAt(mk, st, ring);
    AppendCellsSpec(s, order, Ball(k), PlaceholdersAt(mk, st, ring));
    BallGrowth(k);
  }

  /** A round of the spiral as `GrowRound` performs it: its snapshot of the
      border graph lists the ring around the ball. */
  lemma SpiralStep(s: HyperState, order: seq<GraphName>, k: nat, ring: seq<Coord>, st: Style, mk: Makers,
                   t: HyperState, o: Outcome)
    requires HyperOK(s, Elems(order), Ball(k)) && Distinct(order) && MakersOK(mk)
    requires HexagonGraphName in order && HexagonBorderGraphName in order
    requires AtOwnKey(s.border.nodes) ==> Distinct(ring) && Elems(ring) == s.border.nodes.Keys
    requires Appended(t, o) == AppendCells(s, order, PlaceholdersAt(mk, st, ring))
    ensures o == Pass && HyperOK(t, Elems(order), Ball(k + 1))
  {
    BorderPick(s, order, Ball(k));
    SpiralRound(s, order, k, ring, st, mk, t, o);
  }

  /** The first hexagon of a construction, at the origin, on an empty
      hypergraph that holds the hexagon graph. */
  lemma FirstCell(s: HyperState, order: seq<GraphName>, c: Cell, t: HyperState, o: Outcome)
    requires HyperOK(s, Elems(order), {}) && Distinct(order) && HexagonGraphName in order
    requires c.coord == Coord(0, 0) && c.EdgesInPlace()
    requires Appended(t, o) == AppendCells(s, order, [c])
    ensures o == Pass && HyperOK(t, Elems(order), Ball(0))
  {
    assert Coords([c]) == [c.coord];
    assert Chain({}, [c.coord]) by {
      assert JoinsAt({}, [c.coord], 0);
    }
    FreshDistinct({}, [c.coord]);
    AppendCellsSpec(s, order, {}, [c]);
    assert {} + Elems([c.coord]) == Ball(0);
  }

  /** A border cell chosen at random: appending it passes and the shape
      grows by one cell. */
  lemma NumberStep(s: HyperState, order: seq<GraphName>, P: set<Coord>, c: Cell, t: HyperState, o: Outcome)
    requires HyperOK(s, Elems(order), P) && Distinct(order) && HexagonGraphName in order
    requires P != {} && c.coord in Border(P) && c.EdgesInPlace()
    requires Appended(t, o) == HyperAppend(s, order, c)
    ensures o == Pass && HyperOK(t, Elems(order), P + {c.coord}) && |P + {c.coord}| == |P| + 1
  {
    HyperAppendSpec(s, order, P, c);
  }

  /** The border graph of a non-empty shape is not empty, and each of its
      nodes is the cell at its own key. */
  lemma BorderPick(s: HyperState, order: seq<GraphName>, P: set<Coord>)
    requires HyperOK(s, Elems(order), P) && HexagonBorderGraphName in order
    ensures s.border.nodes.Keys == Border(P) && AtOwnKey(s.border.nodes)
    ensures P != {} ==> s.border.nodes != map[]
  {
    assert GraphAt(s, HexagonBorderGraphName, P);
    BorderNonEmpty(P);
  }

  /** The hexagon graph holds exactly the placed cells. */
  lemma HexKeys(s: HyperState, order: seq<GraphName>, P: set<Coord>)
    requires HyperOK(s, Elems(order), P) && HexagonGraphName in order
    ensures s.hex.nodes.Keys == P
  {
    assert GraphAt(s, HexagonGraphName, P);
  }

  // ---------------------------------------------------------------------
  // Failures stop the loops.

  /** Once a graph has failed, the later ones are not called. */
  lemma {:induction false} ThroughStops(s: HyperState, names: seq<GraphName>, present: set<GraphName>, c: Cell, i: nat)
    requires Agrees(s) && i <= |names| && AppendThrough(s, names[..i], present, c).outcome.Fail?
    ensures AppendThrough(s, names, present, c) == AppendThrough(s, names[..i], present, c)
    decreases |names|
  {
    if i < |names| {
      var init := names[..|names| - 1];
      assert init[..i] == names[..i];
      ThroughStops(s, init, present, c, i);
    } else {
      assert names[..i] == names;
    }
  }

  /** Once a cell has failed, the later ones are not appended. */
  lemma {:induction false} CellsStop(s: HyperState, order: seq<GraphName>, cs: seq<Cell>, i: nat)
    requires Agrees(s) && i <= |cs| && AppendCells(s, order, cs[..i]).outcome.Fail?
    ensures AppendCells(s, order, cs) == AppendCells(s, order, cs[..i])
    decreases |cs|
  {
    if i < |cs| {
      var init := cs[..|cs| - 1];
      assert init[..i] == cs[..i];
      CellsStop(s, order, init, i);
    } else {
      assert cs[..i] == cs;
    }
  }

  // ---------------------------------------------------------------------
  // The objects.

  /** The hypergraph: the graphs under the names `order` lists, in the
      dictionary's order. A graph whose name is not listed is not part of
      the dictionary and is never touched. */
  class Hypergraph {
    const order: seq<GraphName>
    const hexagons: HexagonGraph
    const vertices: KeyGraph<Point, VertexNode>
    const edges: KeyGraph<SpatialKey, EdgeNode>
    const edgeBorder: EdgeBorderGraph
    const border: HexagonBorderGraph

    function State(): HyperState
      reads hexagons, vertices, edges, edgeBorder, border
    {
      HyperState(hexagons.State(), vertices.State(), edges.State(), edgeBorder.State(), border.State())
    }

    /** Dictionary keys do not repeat, and each graph's lists cover its nodes. */
    ghost predicate Valid()
      reads hexagons, vertices, edges, edgeBorder, border
    {
      Distinct(order) && Agrees(State())
    }

    /** A hypergraph of new, empty graphs: every graph describes the empty
        shape. */
    constructor (order: seq<GraphName>)
      requires Distinct(order)
      ensures this.order == order && Valid() && HyperOK(State(), Elems(order), {})
      ensures fresh(hexagons) && fresh(vertices) && fresh(edges) && fresh(edgeBorder) && fresh(border)
    {
      this.order := order;
      hexagons := new HexagonGraph("HexagonGraph");
      vertices := new KeyGraph("VertexGraph");
      edges := new KeyGraph("EdgeGraph");
      edgeBorder := new EdgeBorderGraph("EdgeBorderGraph");
      border := new HexagonBorderGraph("HexagonBorderGraph");
      new;
      forall n | n in order ensures GraphAt(State(), n, {}) {
        match n
        case HexagonGraphName =>
        case VertexGraphName =>
        case EdgeGraphName =>
        case EdgeBorderGraphName =>
        case HexagonBorderGraphName =>
      }
    }

    /** The call `append_hex` makes on the graph named `name`: the border
        graph asserts that the hexagon graph is in the dictionary and is
        given it. */
    method AppendTo(name: GraphName, c: Cell) returns (o: Outcome)
      requires Agrees(State())
      modifies hexagons, vertices, edges, edgeBorder, border
      ensures Appended(State(), o) == AppendOne(old(State()), name, Elems(order), c)
    {
      o := Pass;
      match name {
        case HexagonGraphName => hexagons.Append(c);
        case VertexGraphName => vertices.Append(c.vertices);
        case EdgeGraphName => edges.Append(c.edges);
        case EdgeBorderGraphName => edgeBorder.Append(c);
        case HexagonBorderGraphName =>
          if HexagonGraphName !in order {
            return Fail(AssertionError);
          }
          o := border.Append(c, hexagons);
      }
    }
  }

  class Polyhex {
    var style: Style
    const makers: Makers

    /** A new polyhex with the default properties. */
    constructor (makers: Makers)
      ensures style == DefaultStyle && this.makers == makers
    {
      style := DefaultStyle;
      this.makers := makers;
    }

    /** `append_hex`: every graph of the hypergraph, in order, takes the
        cell; the border graph asserts that the hexagon graph is present.
        The first failure stops the loop; with no graph at all the final
        `return graph` fails. */
    method AppendHex(c: Cell, h: Hypergraph) returns (o: Outcome)
      requires h.Valid()
      modifies h.hexagons, h.vertices, h.edges, h.edgeBorder, h.border
      ensures h.Valid() && Appended(h.State(), o) == HyperAppend(old(h.State()), h.order, c)
    {
      ghost var s := h.State();
      ghost var present := Elems(h.order);
      for i := 0 to |h.order|
        invariant Agrees(h.State())
        invariant AppendThrough(s, h.order[..i], present, c) == Appended(h.State(), Pass)
      {
        assert h.order[..i + 1][..i] == h.order[..i];
        o := h.AppendTo(h.order[i], c);
        if o.Fail? {
          ThroughStops(s, h.order, present, c, i + 1);
          return;
        }
      }
      assert h.order[..|h.order|] == h.order;
      o := if h.order == [] then Fail(UnboundLocalError) else Pass;
    }

    /** The loop of `_create_from_list`: each cell in turn, until one fails. */
    method AppendAll(cs: seq<Cell>, h: Hypergraph) returns (o: Outcome)
      requires h.Valid()
      modifies h.hexagons, h.vertices, h.edges, h.edgeBorder, h.border
      ensures h.Valid() && Appended(h.State(), o) == AppendCells(old(h.State()), h.order, cs)
    {
      ghost var s := h.State();
      for i := 0 to |cs|
        invariant h.Valid()
        invariant AppendCells(s, h.order, cs[..i]) == Appended(h.State(), Pass)
      {
        assert cs[..i + 1][..i] == cs[..i];
        o := AppendHex(cs[i], h);
        if o.Fail? {
          CellsStop(s, h.order, cs, i + 1);
          return;
        }
      }
      assert cs[..|cs|] == cs;
      o := Pass;
    }

    /** `_create_from_list`: the polyhex takes the properties of the first
        cell (an empty list has none), then appends the cells. */
    method CreateFromList(cs: seq<Cell>, h: Hypergraph) returns (o: Outcome)
      requires h.Valid()
      modifies this, h.hexagons, h.vertices, h.edges, h.edgeBorder, h.border
      ensures h.Valid()
      ensures cs == [] ==> o == Fail(IndexError) && h.State() == old(h.State()) && style == old(style)
      ensures cs != [] ==> style == StyleOf(cs[0]) && Appended(h.State(), o) == AppendCells(old(h.State()), h.order, cs)
    {
      if cs == [] {
        return Fail(IndexError);
      }
      style := StyleOf(cs[0]);
      o := AppendAll(cs, h);
    }

    /** `create_from_iterable`: a new polyhex, built from the cells when
        the argument is a consistent list; the check's error (a dictionary,
        anything but a list, an empty list) passes through, and an
        inconsistent list fails by assertion. */
    static method CreateFromIterable(it: Iterable, h: Hypergraph, makers: Makers) returns (p: Polyhex?, o: Outcome)
      requires h.Valid()
      modifies h.hexagons, h.vertices, h.edges, h.edgeBorder, h.border
      ensures h.Valid() && (o == Pass <==> p != null)
      ensures CheckIterable(it).Err? ==> o == Fail(CheckIterable(it).error) && h.State() == old(h.State())
      ensures CheckIterable(it) == Ok(false) ==> o == Fail(AssertionError) && h.State() == old(h.State())
      ensures CheckIterable(it) == Ok(true) ==>
                it.CellList? && Appended(h.State(), o) == AppendCells(old(h.State()), h.order, it.cells) &&
                (p != null ==> p.style == StyleOf(it.cells[0]))
    {
      var q := new Polyhex(makers);
      var consistent := CheckIterable(it);
      if consistent.Err? {
        return null, Fail(consistent.error);
      }
      if !consistent.value {
        return null, Fail(AssertionError);
      }
      // only a list passes the check, so the source's second `isinstance`
      // test, whose other branch raises NotImplementedError, always holds
      var cs := it.cells;
      o := q.CreateFromList(cs, h);
      p := if o == Pass then q else null;
    }

    /** `create_tiling`: the coordinates of the tiling, then a new polyhex
        built from the hexagons at them. */
    static method CreateTiling(n: int, m: int, name: string, h: Hypergraph, makers: Makers, offset: string := "odd-r")
      returns (p: Polyhex?, o: Outcome)
      requires h.Valid()
      modifies h.hexagons, h.vertices, h.edges, h.edgeBorder, h.border
      ensures h.Valid() && (o == Pass <==> p != null)
      ensures TilingCoords(n, m, name, offset).Err? ==>
                o == Fail(TilingCoords(n, m, name, offset).error) && h.State() == old(h.State())
      ensures TilingCoords(n, m, name, offset) == Ok([]) ==> o == Fail(IndexError) && h.State() == old(h.State())
      ensures TilingCoords(n, m, name, offset).Ok? && TilingCoords(n, m, name, offset).value != [] ==>
                Appended(h.State(), o) ==
                AppendCells(old(h.State()), h.order, HexagonsAt(makers, TilingCoords(n, m, name, offset).value))
    {
      var coords := BuildTiling(n, m, name, offset);
      if coords.Err? {
        return null, Fail(coords.error);
      }
      var q := new Polyhex(makers);
      o := q.CreateFromList(HexagonsAt(makers, coords.value), h);
      p := if o == Pass then q else null;
    }

    /** The start of `create_from_number` and `create_spiral`: the
        hypergraph must hold the border graph; a new polyhex takes the
        hexagon at the origin. */
    static method Seed(h: Hypergraph, makers: Makers) returns (p: Polyhex?, o: Outcome)
      requires h.Valid()
      modifies h.hexagons, h.vertices, h.edges, h.edgeBorder, h.border
      ensures h.Valid() && (o == Pass <==> p != null)
      ensures p != null ==> fresh(p) && p.makers == makers && p.style == StyleOf(makers.hexagon(Coord(0, 0)))
      ensures HexagonBorderGraphName !in h.order ==> o == Fail(AssertionError) && h.State() == old(h.State())
      ensures HexagonBorderGraphName in h.order ==>
                Appended(h.State(), o) == AppendCells(old(h.State()), h.order, [makers.hexagon(Coord(0, 0))])
    {
      if HexagonBorderGraphName !in h.order {
        return null, Fail(AssertionError);
      }
      var q := new Polyhex(makers);
      o := q.CreateFromList([makers.hexagon(Coord(0, 0))], h);
      p := if o == Pass then q else null;
    }

    /** `create_from_number`: the hexagon at the origin, then n - 1 cells
        each drawn from the border of the moment (the random draw is a free
        choice here). On an empty hypergraph that holds the hexagon and
        border graphs, it passes with n cells (one at least) placed, and
        every graph describes them. */
    static method CreateFromNumber(n: int, h: Hypergraph, makers: Makers) returns (p: Polyhex?, o: Outcome)
      requires h.Valid()
      modifies h.hexagons, h.vertices, h.edges, h.edgeBorder, h.border
      ensures h.Valid() && (o == Pass <==> p != null)
      ensures HexagonBorderGraphName !in h.order ==> o == Fail(AssertionError) && h.State() == old(h.State())
      ensures HyperOK(old(h.State()), Elems(h.order), {}) && MakersOK(makers) &&
              HexagonGraphName in h.order && HexagonBorderGraphName in h.order ==>
                o == Pass && HyperOK(h.State(), Elems(h.order), h.hexagons.nodes.Keys) &&
                |h.hexagons.nodes.Keys| == if n < 1 then 1 else n
    {
      ghost var s := h.State();
      ghost var good := HyperOK(s, Elems(h.order), {}) && MakersOK(makers) &&
                        HexagonGraphName in h.order && HexagonBorderGraphName in h.order;
      var q;
      q, o := Seed(h, makers);
      if good {
        FirstCell(s, h.order, makers.hexagon(Coord(0, 0)), h.State(), o);
      }
      if q == null {
        return null, o;
      }
      ghost var P := Ball(0);
      BallCard(0);
      assert |P| == 1;
      var i := 0;
      while i < n - 1
        invariant h.Valid() && o == Pass && 0 <= i <= Nat(n - 1)
        invariant good ==> HyperOK(h.State(), Elems(h.order), P) && |P| == i + 1
      {
        if good {
          BorderPick(h.State(), h.order, P);
        }
        if h.border.nodes == map[] {
          return null, Fail(ValueError);
        }
        var k :| k in h.border.nodes;
        var cell := makers.placeholder(q.style, h.border.nodes[k]);
        ghost var before := h.State();
        o := q.AppendHex(cell, h);
        if good {
          NumberStep(before, h.order, P, cell, h.State(), o);
        }
        if o.Fail? {
          return null, o;
        }
        P := P + {cell.coord};
        i := i + 1;
      }
      if good {
        HexKeys(h.State(), h.order, P);
      }
      p := q;
    }

    /** One round of `create_spiral`: the placeholders of a snapshot of
        the border graph's nodes, taken before any of them is appended.
        When every node sits at its own key, the snapshot lists the keys;
        when the graphs describe the ball of radius k, the round passes
        and they describe the ball of radius k + 1. */
    method GrowRound(h: Hypergraph, ghost k: nat) returns (ring: seq<Coord>, o: Outcome)
      requires h.Valid()
      modifies h.hexagons, h.vertices, h.edges, h.edgeBorder, h.border
      ensures h.Valid()
      ensures AtOwnKey(old(h.State()).border.nodes) ==>
                Distinct(ring) && Elems(ring) == old(h.State()).border.nodes.Keys
      ensures Appended(h.State(), o) == AppendCells(old(h.State()), h.order, PlaceholdersAt(makers, style, ring))
      ensures HyperOK(old(h.State()), Elems(h.order), Ball(k)) && MakersOK(makers) &&
              HexagonGraphName in h.order && HexagonBorderGraphName in h.order ==>
                o == Pass && HyperOK(h.State(), Elems(h.order), Ball(k + 1))
    {
      ghost var before := h.State();
      ghost var ks;
      ring, ks := Snapshot(h.border.nodes);
      assert AtOwnKey(h.border.nodes) ==> ring == ks;
      o := AppendAll(PlaceholdersAt(makers, style, ring), h);
      if HyperOK(before, Elems(h.order), Ball(k)) && MakersOK(makers) &&
         HexagonGraphName in h.order && HexagonBorderGraphName in h.order {
        SpiralStep(before, h.order, k, ring, style, makers, h.State(), o);
      }
    }

    /** The rounds 1 .. radius of `create_spiral`, the first failure
        stopping them. Started from the ball of radius 0 on a hypergraph
        that holds the hexagon and border graphs, every round passes and the
        graphs end up describing the ball of the radius. */
    method GrowRounds(radius: int, h: Hypergraph) returns (o: Outcome)
      requires h.Valid()
      modifies h.hexagons, h.vertices, h.edges, h.edgeBorder, h.border
      ensures h.Valid()
      ensures HyperOK(old(h.State()), Elems(h.order), Ball(0)) && MakersOK(makers) &&
              HexagonGraphName in h.order && HexagonBorderGraphName in h.order ==>
                o == Pass && HyperOK(h.State(), Elems(h.order), Ball(Nat(radius)))
    {
      ghost var good := HyperOK(h.State(), Elems(h.order), Ball(0)) && MakersOK(makers) &&
                        HexagonGraphName in h.order && HexagonBorderGraphName in h.order;
      o := Pass;
      var i := 1;
      while i <= radius
        invariant h.Valid() && 1 <= i <= Nat(radius) + 1
        invariant good ==> o == Pass && HyperOK(h.State(), Elems(h.order), Ball(i - 1))
      {
        ghost var k: nat := i - 1;
        var ring;
        ring, o := GrowRound(h, k);
        assert good ==> o == Pass && HyperOK(h.State(), Elems(h.order), Ball(k + 1));
        if o.Fail? {
          return;
        }
        i := i + 1;
        assert Ball(k + 1) == Ball(i - 1);
      }
      assert i - 1 == Nat(radius);
    }

    /** `create_spiral`: the hexagon at the origin, then for each round
        1 .. radius the placeholders of a snapshot of the border taken at
        the start of the round. On an empty hypergraph that holds the
        hexagon and border graphs, it passes with exactly the ball of the
        radius placed (1 + 3r(r + 1) cells, by BallCard), and every graph
        describes it. */
    static method CreateSpiral(radius: int, h: Hypergraph, makers: Makers) returns (p: Polyhex?, o: Outcome)
      requires h.Valid()
      modifies h.hexagons, h.vertices, h.edges, h.edgeBorder, h.border
      ensures h.Valid() && (o == Pass <==> p != null)
      ensures HexagonBorderGraphName !in h.order ==> o == Fail(AssertionError) && h.State() == old(h.State())
      ensures HyperOK(old(h.State()), Elems(h.order), {}) && MakersOK(makers) &&
              HexagonGraphName in h.order && HexagonBorderGraphName in h.order ==>
                o == Pass && HyperOK(h.State(), Elems(h.order), Ball(Nat(radius))) &&
                h.hexagons.nodes.Keys == Ball(Nat(radius))
    {
      ghost var s := h.State();
      ghost var good := HyperOK(s, Elems(h.order), {}) && MakersOK(makers) &&
                        HexagonGraphName in h.order && HexagonBorderGraphName in h.order;
      var q;
      q, o := Seed(h, makers);
      if good {
        FirstCell(s, h.order, makers.hexagon(Coord(0, 0)), h.State(), o);
      }
      if q == null {
        return null, o;
      }
      o := q.GrowRounds(radius, h);
      if o.Fail? {
        return null, o;
      }
      if good {
        HexKeys(h.State(), h.order, Ball(Nat(radius)));
      }
      p := q;
    }
  }

  /** vs lists the values of nodes at the keys ks. */
  ghost predicate ValuesAt(nodes: map<Coord, Coord>, ks: seq<Coord>, vs: seq<Coord>) {
    |vs| == |ks| && forall j :: 0 <= j < |ks| ==> ks[j] in nodes && vs[j] == nodes[ks[j]]
  }

  lemma ValuesAtSnoc(nodes: map<Coord, Coord>, ks: seq<Coord>, vs: seq<Coord>, k: Coord)
    requires ValuesAt(nodes, ks, vs) && k in nodes
    ensures ValuesAt(nodes, ks + [k], vs + [nodes[k]])
  {
    forall j | 0 <= j < |ks| + 1 ensures (ks + [k])[j] in nodes && (vs + [nodes[k]])[j] == nodes[(ks + [k])[j]] {
      if j < |ks| {
        assert (ks + [k])[j] == ks[j] && (vs + [nodes[k]])[j] == vs[j];
      }
    }
  }

  /** `list(nodes.values())`: the values of a dictionary, in some order of
      its keys. */
  method Snapshot(nodes: map<Coord, Coord>) returns (vs: seq<Coord>, ghost ks: seq<Coord>)
    ensures Distinct(ks) && Elems(ks) == nodes.Keys && ValuesAt(nodes, ks, vs)
  {
    vs, ks := [], [];
    var rest := nodes.Keys;
    while rest != {}
      invariant rest !! Elems(ks) && rest + Elems(ks) == nodes.Keys && Distinct(ks)
      invariant ValuesAt(nodes, ks, vs)
      decreases |rest|
    {
      var k :| k in rest;
      ElemsSnoc(ks, k);
      ValuesAtSnoc(nodes, ks, vs, k);
      vs, ks := vs + [nodes[k]], ks + [k];
      rest := rest - {k};
    }
  }
}
