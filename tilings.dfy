/** The coordinates of the tilings of `Polyhex.create_tiling`
    (polyhex/objects/polyhexes.py): a rectangle of offset rows and a tilted
    parallelogram, with the facts that make them valid shapes: how many
    cells they have, that none repeats, and that in their order each cell
    after the first touches one placed before it. */
module Tilings {
  import opened Wrappers
  import opened Geometry
  import opened Frontier

  /** The column shift of row r of a rectangle: `even-r` shifts by
      -(r // 2 + r % 2), `odd-r` by -(r // 2) (floor division and remainder
      of Python, which agree with Dafny's on r >= 0). */
  function RowShift(even: bool, r: int): int {
    if even then -(r / 2 + r % 2) else -(r / 2)
  }

  /** Row r of a rectangle: n cells from its shifted start, west to east. */
  function Row(n: nat, even: bool, r: int): seq<Coord> {
    seq(n, q => Coord(q + RowShift(even, r), r))
  }

  /** The first m rows of a rectangle n wide, in order. */
  function Rectangle(n: nat, m: nat, even: bool): (cs: seq<Coord>)
  {
    if m == 0 then [] else Rectangle(n, m - 1, even) + Row(n, even, m - 1)
  }

  /** Column i of a tilted tiling: the cells (i, 1) .. (i, len). */
  function Column(i: int, len: nat): (col: seq<Coord>)
    ensures |col| == len && forall j :: 0 <= j < len ==> col[j] == Coord(i, j + 1)
  {
    seq(len, j => Coord(i, j + 1))
  }

  /** The columns 1 .. n - 1 of a tilted tiling of m - 1 rows, in order. */
  function Tilted(n: int, m: int): (cs: seq<Coord>)
    decreases n
  {
    if n <= 1 then [] else Tilted(n - 1, m) + Column(n - 1, if m <= 1 then 0 else m - 1)
  }

  function Nat(x: int): nat {
    if x < 0 then 0 else x
  }

  /** The coordinates `create_tiling` builds, or the error it raises: a bad
      rectangular offset is reported inside the row loop, so only when there
      is a row. An offset not given is "odd-r". */
  function TilingCoords(n: int, m: int, name: string, offset: string := "odd-r"): Result<seq<Coord>> {
    if name == "rectangular" then
      if m > 0 && offset != "even-r" && offset != "odd-r" then Err(ValueError)
      else Ok(Rectangle(Nat(n), Nat(m), offset == "even-r"))
    else if name == "tilted" then Ok(Tilted(n, m))
    else Err(NotImplementedError)
  }

  /** The loops of `create_tiling` that list the coordinates. */
  method BuildTiling(n: int, m: int, name: string, offset: string := "odd-r") returns (res: Result<seq<Coord>>)
    ensures res == TilingCoords(n, m, name, offset)
  {
    var coords: seq<Coord> := [];
    if name == "rectangular" {
      var r := 0;
      while r < m
        invariant 0 <= r <= Nat(m)
        invariant r > 0 ==> offset == "even-r" || offset == "odd-r"
        invariant coords == Rectangle(Nat(n), r, offset == "even-r")
      {
        var shift: int;
        if offset == "even-r" {
          shift := -(r / 2 + r % 2);
        } else if offset == "odd-r" {
          shift := -(r / 2);
        } else {
          return Err(ValueError);
        }
        assert shift == RowShift(offset == "even-r", r);
        var q := 0;
        while q < n
          invariant 0 <= q <= Nat(n)
          invariant coords == Rectangle(Nat(n), r, offset == "even-r") + Row(q, offset == "even-r", r)
        {
          assert Row(q + 1, offset == "even-r", r) == Row(q, offset == "even-r", r) + [Coord(q + shift, r)];
          coords := coords + [Coord(q + shift, r)];
          q := q + 1;
        }
        assert q == Nat(n);
        r := r + 1;
      }
      assert r == Nat(m);
      return Ok(coords);
    } else if name == "tilted" {
      var i := 1;
      while i < n
        invariant 1 <= i <= (if n <= 1 then 1 else n)
        invariant coords == Tilted(i, m)
      {
        var j := 1;
        while j < m
          invariant 1 <= j <= (if m <= 1 then 1 else m)
          invariant coords == Tilted(i, m) + Column(i, j - 1)
        {
          assert Column(i, j) == Column(i, j - 1) + [Coord(i, j)];
          coords := coords + [Coord(i, j)];
          j := j + 1;
        }
        assert j - 1 == if m <= 1 then 0 else m - 1;
        i := i + 1;
      }
      assert coords == Tilted(n, m);
      return Ok(coords);
    } else {
      return Err(NotImplementedError);
    }
  }

  // ---------------------------------------------------------------------
  // The rectangle.

  /** A cell is in the rectangle exactly when its row is one of the first
      m and it lies among the n cells of that row. */
  lemma {:induction false} RectangleMembers(n: nat, m: nat, even: bool, c: Coord)
    ensures c in Rectangle(n, m, even) <==>
            0 <= c.r < m && RowShift(even, c.r) <= c.q < RowShift(even, c.r) + n
  {
    if m > 0 {
      RectangleMembers(n, m - 1, even, c);
      var row := Row(n, even, m - 1);
      if c.r == m - 1 && RowShift(even, c.r) <= c.q < RowShift(even, c.r) + n {
        assert c == row[c.q - RowShift(even, c.r)];
      }
    }
  }

  /** The rectangle lists n * m cells. */
  lemma {:induction false} RectangleSize(n: nat, m: nat, even: bool)
    ensures |Rectangle(n, m, even)| == n * m
  {
    if m > 0 {
      RectangleSize(n, m - 1, even);
      assert n * m == n * (m - 1) + n;
    }
  }

  /** No cell of the rectangle repeats. */
  lemma {:induction false} RectangleDistinct(n: nat, m: nat, even: bool)
    ensures Distinct(Rectangle(n, m, even))
  {
    if m > 0 {
      var a: seq<Coord>, b: seq<Coord> := Rectangle(n, m - 1, even), Row(n, even, m - 1);
      RectangleDistinct(n, m - 1, even);
      forall i, j | 0 <= i < j < |a + b| ensures (a + b)[i] != (a + b)[j] {
        if i < |a| && j >= |a| {
          RectangleMembers(n, m - 1, even, (a + b)[i]);
          assert (a + b)[j].r == m - 1;
        }
      }
    }
  }

  /** A row after the rows before it: each cell new, the first touching the
      first cell of the row before. */
  lemma RowJoins(n: nat, m: nat, even: bool)
    requires m >= 1
    ensures Chain(Elems(Rectangle(n, m - 1, even)), Row(n, even, m - 1))
  {
    RowFresh(n, m, even);
    if n > 0 {
      RowStartJoins(n, m, even);
    }
    LineChain(Elems(Rectangle(n, m - 1, even)), Row(n, even, m - 1), 1);
  }

  /** The cells of a row are new to the rows before it and to each other. */
  lemma RowFresh(n: nat, m: nat, even: bool)
    requires m >= 1
    ensures Fresh(Elems(Rectangle(n, m - 1, even)), Row(n, even, m - 1))
  {
    var Q, row := Elems(Rectangle(n, m - 1, even)), Row(n, even, m - 1);
    forall k | 0 <= k < |row| ensures FreshAt(Q, row, k) {
      RectangleMembers(n, m - 1, even, row[k]);
    }
  }

  /** The first cell of a row touches the first cell of the row before
      (the first row touches nothing, there being nothing before it). */
  lemma RowStartJoins(n: nat, m: nat, even: bool)
    requires m >= 1 && n > 0
    ensures Joins(Elems(Rectangle(n, m - 1, even)), Row(n, even, m - 1)[0])
  {
    var Q, row, r := Elems(Rectangle(n, m - 1, even)), Row(n, even, m - 1), m - 1;
    RectangleMembers(n, m - 1, even, row[0]);
    if r > 0 {
      var p := Coord(RowShift(even, r - 1), r - 1);
      RectangleMembers(n, m - 1, even, p);
      var d := if RowShift(even, r) == RowShift(even, r - 1) then 2 else 3;
      assert row[0] == Neighbour(p, d);
      InNeighbourSet(Q, p, d);
    }
  }

  /** In its order, every cell of a rectangle joins the cells listed before
      it. */
  lemma {:induction false} RectangleChain(n: nat, m: nat, even: bool)
    ensures Chain({}, Rectangle(n, m, even))
  {
    if m > 0 {
      RectangleChain(n, m - 1, even);
      RowJoins(n, m, even);
      var a, b := Rectangle(n, m - 1, even), Row(n, even, m - 1);
      assert Rectangle(n, m, even) == a + b;
      ChainAppendEmpty(a, b);
    } else {
      assert Rectangle(n, m, even) == [];
    }
  }

  // ---------------------------------------------------------------------
  // The tilted tiling.

  /** A cell is in the tilted tiling exactly when 1 <= q < n and 1 <= r < m. */
  lemma {:induction false} TiltedMembers(n: int, m: int, c: Coord)
    ensures c in Tilted(n, m) <==> 1 <= c.q < n && 1 <= c.r < m
    decreases n
  {
    if n > 1 {
      TiltedMembers(n - 1, m, c);
      var col := Column(n - 1, if m <= 1 then 0 else m - 1);
      if c.q == n - 1 && 1 <= c.r < m {
        assert c == col[c.r - 1];
      }
    }
  }

  /** The tilted tiling lists (n - 1) * (m - 1) cells when n, m >= 1. */
  lemma {:induction false} TiltedSize(n: int, m: int)
    requires n >= 1 && m >= 1
    ensures |Tilted(n, m)| == (n - 1) * (m - 1)
    decreases n
  {
    if n > 1 {
      TiltedSize(n - 1, m);
      assert (n - 1) * (m - 1) == (n - 2) * (m - 1) + (m - 1);
    }
  }

  /** No cell of the tilted tiling repeats. */
  lemma {:induction false} TiltedDistinct(n: int, m: int)
    ensures Distinct(Tilted(n, m))
    decreases n
  {
    if n > 1 {
      var a: seq<Coord>, b: seq<Coord> := Tilted(n - 1, m), Column(n - 1, if m <= 1 then 0 else m - 1);
      TiltedDistinct(n - 1, m);
      forall i, j | 0 <= i < j < |a + b| ensures (a + b)[i] != (a + b)[j] {
        if i < |a| && j >= |a| {
          TiltedMembers(n - 1, m, (a + b)[i]);
        }
      }
    }
  }

  /** A column after the ones before it: each cell new, the first touching
      the first cell of the column before. */
  lemma ColumnJoins(n: int, m: int)
    requires n > 1 && m > 1
    ensures Chain(Elems(Tilted(n - 1, m)), Column(n - 1, m - 1))
  {
    var Q, col := Elems(Tilted(n - 1, m)), Column(n - 1, m - 1);
    forall k | 0 <= k < |col| ensures FreshAt(Q, col, k) {
      TiltedMembers(n - 1, m, col[k]);
    }
    TiltedMembers(n - 1, m, col[0]);
    if n > 2 {
      var p := Coord(n - 2, 1);
      TiltedMembers(n - 1, m, p);
      assert col[0] == Neighbour(p, 1);
      InNeighbourSet(Q, p, 1);
    }
    LineChain(Q, col, 2);
  }

  /** In its order, every cell of a tilted tiling joins the cells listed
      before it. */
  lemma {:induction false} TiltedChain(n: int, m: int)
    ensures Chain({}, Tilted(n, m))
    decreases n
  {
    if n > 1 {
      TiltedChain(n - 1, m);
      if m > 1 {
        ColumnJoins(n, m);
      } else {
        assert Tilted(n, m) == Tilted(n - 1, m);
      }
      var len := if m <= 1 then 0 else m - 1;
      ChainAppendEmpty(Tilted(n - 1, m), Column(n - 1, len));
    }
  }

  /** Whatever `create_tiling` lists is a chain without repeats; the
      rectangle has n * m cells and the tilted tiling (n - 1) * (m - 1). */
  lemma TilingShape(n: int, m: int, name: string, offset: string)
    requires TilingCoords(n, m, name, offset).Ok?
    ensures var cs := TilingCoords(n, m, name, offset).value;
            Distinct(cs) && Chain({}, cs) &&
            (name == "rectangular" ==> |cs| == Nat(n) * Nat(m)) &&
            (name == "tilted" && n >= 1 && m >= 1 ==> |cs| == (n - 1) * (m - 1))
  {
    if name == "rectangular" {
      RectangleSize(Nat(n), Nat(m), offset == "even-r");
      RectangleDistinct(Nat(n), Nat(m), offset == "even-r");
      RectangleChain(Nat(n), Nat(m), offset == "even-r");
    } else {
      TiltedDistinct(n, m);
      TiltedChain(n, m);
      if n >= 1 && m >= 1 {
        TiltedSize(n, m);
      }
    }
  }
}
