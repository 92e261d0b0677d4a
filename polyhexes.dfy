/** `Polyhex` of the newer engine: shapes are built as ordered sequences of
    appends of hexagons to a hypergraph, a dictionary of named graphs that
    each append updates in dictionary order. */
module Polyhexes {
  import opened Wrappers
  import opened Geometry
  import opened Frontier
  import opened Graphs
  import opened EdgeBorders

  /** The names under which the graphs are kept in the hypergraph. */
  datatype GraphName =
    | HexagonGraphName
    | VertexGraphName
    | EdgeGraphName
    | EdgeBorderGraphName
    | HexagonBorderGraphName

  /** The states of the five graphs. */
  datatype HyperState = HyperState(hex: GraphState<Coord, Cell>, vert: GraphState<Point, VertexNode>,
                                   edge: GraphState<SpatialKey, EdgeNode>, edgeBorder: EdgeBorderState,
                                   border: BorderState)

  /** The graphs after an append, and whether it passed. */
  datatype Appended = Appended(state: HyperState, outcome: Outcome)

  /** The lists (and, for the edge border, the index) of every graph cover
      its nodes. */
  predicate Agrees(s: HyperState) {
    s.hex.weights.Keys == s.hex.nodes.Keys && s.vert.weights.Keys == s.vert.nodes.Keys &&
    s.edge.weights.Keys == s.edge.nodes.Keys && KeysAgree(s.edgeBorder) &&
    s.border.weights.Keys == s.border.nodes.Keys
  }

  /** The call `append_hex` makes on the graph named `name`, `present` being
      the names the hypergraph holds: the border graph asserts that the
      hexagon graph is there and is given it. */
  function AppendOne(s: HyperState, name: GraphName, present: set<GraphName>, c: Cell): (a: Appended)
    requires Agrees(s)
    ensures Agrees(a.state)
    ensures a.outcome.Fail? ==> a.state == s
  {
    match name
    case HexagonGraphName => Appended(s.(hex := HexInsert(s.hex, c)), Pass)
    case VertexGraphName => Appended(s.(vert := AppendMembers(s.vert, c.vertices)), Pass)
    case EdgeGraphName => Appended(s.(edge := AppendMembers(s.edge, c.edges)), Pass)
    case EdgeBorderGraphName => Appended(s.(edgeBorder := EdgeBorderAppend(s.edgeBorder, c)), Pass)
    case HexagonBorderGraphName =>
      if HexagonGraphName !in present then Appended(s, Fail(AssertionError))
      else
        var r := BorderAppend(s.border, c.coord, s.hex.nodes.Keys);
        if r.Err? then Appended(s, Fail(r.error)) else Appended(s.(border := r.value), Pass)
  }

  /** The graphs named in `names` take the cell in turn; the first failure
      stops the rest, the graphs before it keeping the cell. */
  function AppendThrough(s: HyperState, names: seq<GraphName>, present: set<GraphName>, c: Cell): (a: Appended)
    requires Agrees(s)
    ensures Agrees(a.state)
  {
    if names == [] then Appended(s, Pass)
    else
      var a1 := AppendThrough(s, names[..|names| - 1], present, c);
      if a1.outcome.Fail? then a1 else AppendOne(a1.state, names[|names| - 1], present, c)
  }

  /** `Polyhex.append_hex` on a hypergraph whose names, in dictionary order,
      are `order`: with no graph at all, its final `return graph` names a
      variable the loop never bound. */
  function HyperAppend(s: HyperState, order: seq<GraphName>, c: Cell): (a: Appended)
    requires Agrees(s)
    ensures Agrees(a.state)
  {
    if order == [] then Appended(s, Fail(UnboundLocalError)) else AppendThrough(s, order, Elems(order), c)
  }

  /** The loop of `_create_from_list`: the cells are appended in order and
      the first failure stops it. */
  function AppendCells(s: HyperState, order: seq<GraphName>, cs: seq<Cell>): (a: Appended)
    requires Agrees(s)
    ensures Agrees(a.state)
  {
    if cs == [] then Appended(s, Pass)
    else
      var a1 := AppendCells(s, order, cs[..|cs| - 1]);
      if a1.outcome.Fail? then a1 else HyperAppend(a1.state, order, cs[|cs| - 1])
  }

  // ---------------------------------------------------------------------
  // The invariant of the hypergraph.

  /** The graph named `name` describes the placed cells P: the hexagon graph
      holds them with exact lists, the vertex and edge graphs are consistent,
      the edge border holds their exposed segments and the border graph their
      border. */
  ghost predicate GraphAt(s: HyperState, name: GraphName, P: set<Coord>) {
    match name
    case HexagonGraphName => HexGraphOK(s.hex) && s.hex.nodes.Keys == P
    case VertexGraphName => GraphOK(s.vert)
    case EdgeGraphName => GraphOK(s.edge)
    case EdgeBorderGraphName => EdgeBorderOK(s.edgeBorder) && s.edgeBorder.nodes.Keys == Exposed(P)
    case HexagonBorderGraphName => BorderOK(s.border, P)
  }

  /** Every graph present describes the placed cells P. */
  ghost predicate HyperOK(s: HyperState, present: set<GraphName>, P: set<Coord>) {
    Agrees(s) && forall n :: n in present ==> GraphAt(s, n, P)
  }

  /** The placed cells as the graph `name` sees them in the middle of the
      append of c: those named in `done` have it already. */
  function PlacedFor(name: GraphName, done: set<GraphName>, P: set<Coord>, c: Coord): set<Coord> {
    if name in done then P + {c} else P
  }

  ghost predicate Midway(s: HyperState, present: set<GraphName>, done: set<GraphName>, P: set<Coord>, c: Coord) {
    Agrees(s) && forall n :: n in present ==> GraphAt(s, n, PlacedFor(n, done, P, c))
  }

  /** What the append of a new cell at c needs to pass: when the border
      graph is present, the hexagon graph is present too and c is on the
      border (or nothing is placed yet). */
  ghost predicate Attachable(present: set<GraphName>, P: set<Coord>, c: Coord) {
    HexagonBorderGraphName in present ==> HexagonGraphName in present && (P == {} || c in Border(P))
  }

  /** Two states that agree on every graph but the one named. */
  predicate SameExcept(s: HyperState, t: HyperState, name: GraphName) {
    (name != HexagonGraphName ==> t.hex == s.hex) &&
    (name != VertexGraphName ==> t.vert == s.vert) &&
    (name != EdgeGraphName ==> t.edge == s.edge) &&
    (name != EdgeBorderGraphName ==> t.edgeBorder == s.edgeBorder) &&
    (name != HexagonBorderGraphName ==> t.border == s.border)
  }

  lemma OthersKept(s: HyperState, t: HyperState, name: GraphName, present: set<GraphName>,
                   done: set<GraphName>, P: set<Coord>, c: Coord)
    requires Midway(s, present, done, P, c) && SameExcept(s, t, name) && Agrees(t)
    requires name in present && GraphAt(t, name, P + {c})
    ensures Midway(t, present, done + {name}, P, c)
  {
    forall n | n in present ensures GraphAt(t, n, PlacedFor(n, done + {name}, P, c)) {
      if n != name {
        KeptAt(s, t, name, n, done, P, c);
      } else {
        assert PlacedFor(n, done + {name}, P, c) == P + {c};
      }
    }
  }

  lemma KeptAt(s: HyperState, t: HyperState, name: GraphName, n: GraphName, done: set<GraphName>,
               P: set<Coord>, c: Coord)
    requires SameExcept(s, t, name) && n != name && GraphAt(s, n, PlacedFor(n, done, P, c))
    ensures GraphAt(t, n, PlacedFor(n, done + {name}, P, c))
  {
    assert PlacedFor(n, done + {name}, P, c) == PlacedFor(n, done, P, c);
    GraphKept(s, t, name, n, PlacedFor(n, done, P, c));
  }

  lemma GraphKept(s: HyperState, t: HyperState, name: GraphName, n: GraphName, Q: set<Coord>)
    requires SameExcept(s, t, name) && n != name && GraphAt(s, n, Q)
    ensures GraphAt(t, n, Q)
  {
    match n
    case HexagonGraphName => assert t.hex == s.hex;
    case VertexGraphName => assert t.vert == s.vert;
    case EdgeGraphName => assert t.edge == s.edge;
    case EdgeBorderGraphName => assert t.edgeBorder == s.edgeBorder;
    case HexagonBorderGraphName => assert t.border == s.border;
  }

  /** The hexagon graph's view of the placed cells in the middle of an
      append: c is there or not yet. */
  lemma HexPlaced(s: HyperState, present: set<GraphName>, done: set<GraphName>, P: set<Coord>, c: Coord)
    requires Midway(s, present, done, P, c) && HexagonGraphName in present
    ensures s.hex.nodes.Keys == P || s.hex.nodes.Keys == P + {c}
  {
    assert GraphAt(s, HexagonGraphName, PlacedFor(HexagonGraphName, done, P, c));
  }

  /** One graph takes a new cell: it passes unless it is the border graph
      and the cell cannot be attached, a failure being an assertion that
      changes nothing; on success that graph describes the grown shape. */
  lemma AppendOneSpec(s: HyperState, name: GraphName, present: set<GraphName>, done: set<GraphName>,
                      P: set<Coord>, c: Cell)
    requires Midway(s, present, done, P, c.coord) && name in present && name !in done && c.coord !in P
    requires EdgeBorderGraphName in present ==> c.EdgesInPlace()
    ensures AppendOne(s, name, present, c).outcome == Pass <==>
            (name == HexagonBorderGraphName ==> Attachable(present, P, c.coord))
    ensures AppendOne(s, name, present, c).outcome.Fail? ==> AppendOne(s, name, present, c).outcome.error == AssertionError
    ensures AppendOne(s, name, present, c).outcome == Pass ==> Midway(AppendOne(s, name, present, c).state, present, done + {name}, P, c.coord)
  {
    var a := AppendOne(s, name, present, c);
    assert GraphAt(s, name, P);
    match name
    case HexagonGraphName =>
      HexInsertOK(s.hex, c);
      OthersKept(s, a.state, name, present, done, P, c.coord);
    case VertexGraphName =>
      AppendMembersOK(s.vert, c.vertices);
      OthersKept(s, a.state, name, present, done, P, c.coord);
    case EdgeGraphName =>
      AppendMembersOK(s.edge, c.edges);
      OthersKept(s, a.state, name, present, done, P, c.coord);
    case EdgeBorderGraphName =>
      EdgeBorderAppendExposed(s.edgeBorder, P, c);
      OthersKept(s, a.state, name, present, done, P, c.coord);
    case HexagonBorderGraphName =>
      if HexagonGraphName in present {
        HexPlaced(s, present, done, P, c.coord);
        BorderAppendSpec(s.border, P, c.coord, s.hex.nodes.Keys);
        if a.outcome == Pass {
          OthersKept(s, a.state, name, present, done, P, c.coord);
        }
      }
  }

  /** The graphs named in `names` take a new cell in turn: the run passes
      exactly when the border graph is not among them or the cell can be
      attached, fails only by assertion, and on success those graphs
      describe the grown shape. */
  lemma {:induction false} AppendThroughSpec(s: HyperState, names: seq<GraphName>, present: set<GraphName>,
                                             P: set<Coord>, c: Cell)
    requires HyperOK(s, present, P) && Distinct(names) && Elems(names) <= present && c.coord !in P
    requires EdgeBorderGraphName in present ==> c.EdgesInPlace()
    ensures AppendThrough(s, names, present, c).outcome == Pass <==>
            (HexagonBorderGraphName in names ==> Attachable(present, P, c.coord))
    ensures AppendThrough(s, names, present, c).outcome.Fail? ==> AppendThrough(s, names, present, c).outcome.error == AssertionError
    ensures AppendThrough(s, names, present, c).outcome == Pass ==>
              Midway(AppendThrough(s, names, present, c).state, present, Elems(names), P, c.coord)
  {
    if names == [] {
      StartMidway(s, present, P, c.coord);
      assert Elems(names) == {};
    } else {
      var init, x := names[..|names| - 1], names[|names| - 1];
      assert names == init + [x];
      assert Distinct(init) && x !in init;
      assert Elems(init) <= present by {
        forall y | y in Elems(init) ensures y in present {
          assert y in names;
        }
      }
      AppendThroughSpec(s, init, present, P, c);
      assert Elems(names) == Elems(init) + {x};
      var a1 := AppendThrough(s, init, present, c);
      if a1.outcome == Pass {
        assert x in present;
        AppendOneSpec(a1.state, x, present, Elems(init), P, c);
      }
    }
  }

  lemma StartMidway(s: HyperState, present: set<GraphName>, P: set<Coord>, c: Coord)
    requires HyperOK(s, present, P)
    ensures Midway(s, present, {}, P, c)
  {
    forall n | n in present ensures GraphAt(s, n, PlacedFor(n, {}, P, c)) {
      assert GraphAt(s, n, P);
    }
  }

  lemma EndMidway(s: HyperState, present: set<GraphName>, P: set<Coord>, c: Coord)
    requires Midway(s, present, present, P, c)
    ensures HyperOK(s, present, P + {c})
  {
    forall n | n in present ensures GraphAt(s, n, P + {c}) {
      assert GraphAt(s, n, PlacedFor(n, present, P, c));
    }
  }

  /** `append_hex` of a new cell on a hypergraph that describes the placed
      cells P: it passes exactly when the hypergraph holds some graph and the
      cell can be attached; it fails by assertion otherwise (or, with no
      graph at all, by the unbound variable), and on success every graph
      describes P with the cell added. */
  lemma HyperAppendSpec(s: HyperState, order: seq<GraphName>, P: set<Coord>, c: Cell)
    requires HyperOK(s, Elems(order), P) && Distinct(order) && c.coord !in P
    requires EdgeBorderGraphName in order ==> c.EdgesInPlace()
    ensures HyperAppend(s, order, c).outcome == Pass <==> order != [] && Attachable(Elems(order), P, c.coord)
    ensures HyperAppend(s, order, c).outcome.Fail? ==>
              HyperAppend(s, order, c).outcome.error == if order == [] then UnboundLocalError else AssertionError
    ensures HyperAppend(s, order, c).outcome == Pass ==> HyperOK(HyperAppend(s, order, c).state, Elems(order), P + {c.coord})
  {
    if order != [] {
      AppendThroughSpec(s, order, Elems(order), P, c);
      if HyperAppend(s, order, c).outcome == Pass {
        EndMidway(HyperAppend(s, order, c).state, Elems(order), P, c.coord);
      }
    }
  }

  /** The coordinates of a list of cells. */
  function Coords(cs: seq<Cell>): (r: seq<Coord>)
    ensures |r| == |cs| && forall k :: 0 <= k < |cs| ==> r[k] == cs[k].coord
  {
    seq(|cs|, k requires 0 <= k < |cs| => cs[k].coord)
  }

  /** Every cell of cs has its edges in place. */
  ghost predicate AllInPlace(cs: seq<Cell>) {
    forall k :: 0 <= k < |cs| ==> cs[k].EdgesInPlace()
  }

  /** What appending cells at the coordinates cs to the shape P comes to:
      it passes exactly when there is no cell, or when the hypergraph holds
      some graph and, if it holds the border graph, the hexagon graph too
      and the cells form a chain on P; a failure is an assertion (or the
      unbound variable of an empty hypergraph); on success every graph
      describes P with the cells added. */
  ghost predicate CellsOutcome(a: Appended, order: seq<GraphName>, P: set<Coord>, cs: seq<Coord>) {
    (a.outcome == Pass <==>
       cs == [] || (order != [] && (HexagonBorderGraphName in order ==>
                                     HexagonGraphName in order && Chain(P, cs)))) &&
    (a.outcome.Fail? ==> a.outcome.error == if order == [] then UnboundLocalError else AssertionError) &&
    (a.outcome == Pass ==> HyperOK(a.state, Elems(order), P + Elems(cs)))
  }

  /** The loop of `_create_from_list` on cells new to the shape P. */
  lemma {:induction false} AppendCellsSpec(s: HyperState, order: seq<GraphName>, P: set<Coord>, cs: seq<Cell>)
    requires HyperOK(s, Elems(order), P) && Distinct(order) && Fresh(P, Coords(cs))
    requires EdgeBorderGraphName in order ==> AllInPlace(cs)
    ensures CellsOutcome(AppendCells(s, order, cs), order, P, Coords(cs))
  {
    if cs == [] {
      assert P + Elems(Coords(cs)) == P;
    } else {
      var init, x := cs[..|cs| - 1], cs[|cs| - 1];
      assert cs == init + [x];
      assert Coords(cs) == Coords(init) + [x.coord];
      ChainSnoc(P, Coords(init), x.coord);
      AppendCellsSpec(s, order, P, init);
      AppendCellsLast(AppendCells(s, order, init), order, P, Coords(init), x);
    }
  }

  /** The last step of AppendCellsSpec. */
  lemma AppendCellsLast(a1: Appended, order: seq<GraphName>, P: set<Coord>, init: seq<Coord>, x: Cell)
    requires Agrees(a1.state) && Distinct(order) && Fresh(P, init + [x.coord])
    requires EdgeBorderGraphName in order ==> x.EdgesInPlace()
    requires CellsOutcome(a1, order, P, init)
    ensures CellsOutcome(if a1.outcome.Fail? then a1 else HyperAppend(a1.state, order, x), order, P, init + [x.coord])
  {
    ChainSnoc(P, init, x.coord);
    if a1.outcome == Pass {
      AppendCellOn(a1.state, order, P, init, x);
    }
  }

  /** The last cell, appended after all the others passed. */
  lemma AppendCellOn(s: HyperState, order: seq<GraphName>, P: set<Coord>, init: seq<Coord>, x: Cell)
    requires HyperOK(s, Elems(order), P + Elems(init)) && Distinct(order)
    requires x.coord !in P + Elems(init)
    requires EdgeBorderGraphName in order ==> x.EdgesInPlace()
    requires init == [] || (order != [] && (HexagonBorderGraphName in order ==>
                                            HexagonGraphName in order && Chain(P, init)))
    requires Chain(P, init + [x.coord]) <==> Chain(P, init) && Joins(P + Elems(init), x.coord)
    ensures CellsOutcome(HyperAppend(s, order, x), order, P, init + [x.coord])
  {
    var Q := P + Elems(init);
    HyperAppendSpec(s, order, Q, x);
    ElemsSnoc(init, x.coord);
    UnionAddOne(P, Elems(init), x.coord);
    if init == [] {
      assert Chain(P, init);
    }
  }

  // ---------------------------------------------------------------------
  // `_check_iterable_consistency`.

  /** `Hexagon.is_compatible`: same coordinate system, radius, top and
      vertex orientation. */
  predicate Compatible(a: Cell, b: Cell) {
    a.system == b.system && a.radius == b.radius && a.top == b.top && a.orientation == b.orientation
  }

  /** Hexagon equality: compatible and at the same coordinate. */
  predicate SameHexagon(a: Cell, b: Cell) {
    Compatible(a, b) && a.coord == b.coord
  }

  /** d holds a hexagon equal to x. */
  predicate Represented(d: seq<Cell>, x: Cell) {
    exists y :: y in d && SameHexagon(y, x)
  }

  /** The hexagons `set(...)` keeps from cs: one per class of equal ones. */
  function Dedup(cs: seq<Cell>): seq<Cell> {
    if cs == [] then []
    else
      var d := Dedup(cs[..|cs| - 1]);
      var x := cs[|cs| - 1];
      if Represented(d, x) then d else d + [x]
  }

  /** No two hexagons of cs are equal. */
  ghost predicate NoRepeats(cs: seq<Cell>) {
    forall i, j :: 0 <= i < j < |cs| ==> !SameHexagon(cs[i], cs[j])
  }

  /** `_check_iterable_consistency` on a list: a single hexagon is
      consistent; otherwise the first one is read (an empty list has none)
      and the list is consistent when every later hexagon is compatible with
      it and the set of the hexagons is as long as the list. */
  function ConsistentCells(cs: seq<Cell>): Result<bool> {
    if |cs| == 1 then Ok(true)
    else if cs == [] then Err(IndexError)
    else Ok((forall k :: 1 <= k < |cs| ==> Compatible(cs[0], cs[k])) && |Dedup(cs)| == |cs|)
  }

  /** Dedup keeps hexagons of cs, one equal to each hexagon of cs, and no
      more than cs has. */
  lemma {:induction false} DedupFacts(cs: seq<Cell>)
    ensures |Dedup(cs)| <= |cs|
    ensures forall y :: y in Dedup(cs) ==> y in cs
    ensures forall x :: x in cs ==> Represented(Dedup(cs), x)
  {
    if cs != [] {
      var init, x := cs[..|cs| - 1], cs[|cs| - 1];
      assert cs == init + [x];
      DedupFacts(init);
      var d := Dedup(init);
      forall z | z in cs ensures Represented(Dedup(cs), z) {
        if z in init {
          var y :| y in d && SameHexagon(y, z);
          assert y in Dedup(cs);
        } else if !Represented(d, x) {
          assert x in Dedup(cs) && SameHexagon(x, z);
        }
      }
    }
  }

  /** A list without repeats, grown by one hexagon. */
  lemma NoRepeatsSnoc(init: seq<Cell>, x: Cell)
    ensures NoRepeats(init + [x]) <==> NoRepeats(init) && forall y :: y in init ==> !SameHexagon(y, x)
  {
    var cs := init + [x];
    if NoRepeats(cs) {
      forall i, j | 0 <= i < j < |init| ensures !SameHexagon(init[i], init[j]) {
        assert init[i] == cs[i] && init[j] == cs[j];
      }
      forall y | y in init ensures !SameHexagon(y, x) {
        var i :| 0 <= i < |init| && init[i] == y;
        assert cs[i] == y && cs[|init|] == x;
      }
    }
  }

  /** The set is as long as the list exactly when no two hexagons are equal. */
  lemma {:induction false} DedupLength(cs: seq<Cell>)
    ensures |Dedup(cs)| == |cs| <==> NoRepeats(cs)
  {
    if cs != [] {
      var init, x := cs[..|cs| - 1], cs[|cs| - 1];
      assert cs == init + [x];
      DedupLength(init);
      DedupFacts(init);
      NoRepeatsSnoc(init, x);
      DedupLast(init, x);
    }
  }

  /** The last hexagon is kept exactly when no earlier one equals it. */
  lemma DedupLast(init: seq<Cell>, x: Cell)
    requires forall y :: y in Dedup(init) ==> y in init
    requires forall z :: z in init ==> Represented(Dedup(init), z)
    ensures Represented(Dedup(init), x) <==> exists y :: y in init && SameHexagon(y, x)
  {
    if y :| y in init && SameHexagon(y, x) {
      var z :| z in Dedup(init) && SameHexagon(z, y);
      assert SameHexagon(z, x);
    }
  }

  /** The argument of `_check_iterable_consistency` and
      `create_from_iterable`, by what `isinstance` finds in it: a list of
      hexagons, a dictionary, or anything else. */
  datatype Iterable = CellList(cells: seq<Cell>) | CellDict | CellOther

  /** `_check_iterable_consistency`: a list is checked by ConsistentCells;
      a dictionary is not implemented, and anything else is a ValueError. */
  function CheckIterable(it: Iterable): Result<bool> {
    match it
    case CellList(cs) => ConsistentCells(cs)
    case CellDict => Err(NotImplementedError)
    case CellOther => Err(ValueError)
  }

  /** The check fails on a dictionary with NotImplementedError, on anything
      but a list with ValueError and on an empty list with IndexError; a
      list is consistent exactly when it is nonempty, every hexagon is
      compatible with the first and no two share a coordinate. */
  lemma ConsistentSpec(it: Iterable)
    ensures it.CellDict? <==> CheckIterable(it) == Err(NotImplementedError)
    ensures it.CellOther? <==> CheckIterable(it) == Err(ValueError)
    ensures it == CellList([]) <==> CheckIterable(it) == Err(IndexError)
    ensures CheckIterable(it) == Ok(true) <==>
            it.CellList? && it.cells != [] &&
            (forall k :: 0 <= k < |it.cells| ==> Compatible(it.cells[0], it.cells[k])) && Distinct(Coords(it.cells))
  {
    var cs := if it.CellList? then it.cells else [];
    if it.CellList? && |cs| > 1 {
      DedupLength(cs);
      if forall k :: 1 <= k < |cs| ==> Compatible(cs[0], cs[k]) {
        var cds := Coords(cs);
        if NoRepeats(cs) {
          forall i, j | 0 <= i < j < |cs| ensures cds[i] != cds[j] {
            assert Compatible(cs[0], cs[i]) && Compatible(cs[0], cs[j]);
          }
        }
        if Distinct(cds) {
          forall i, j | 0 <= i < j < |cs| ensures !SameHexagon(cs[i], cs[j]) {
            assert cds[i] != cds[j];
          }
        }
      }
    }
  }
}
