/** The training environment's tile handling
    (polyhex/environment/training.py): parsing a row of the tile table into
    a node feature and six edge features, and drawing a tile from the pool. */
module Training {
  import opened Wrappers
  import opened Geometry
  import Hexagons

  // ---------------------------------------------------------------------
  // Python's `str.strip()`.

  /** The ASCII whitespace `str.strip()` removes. */
  predicate IsSpace(ch: char) {
    ch == ' ' || ch == '\t' || ch == '\n' || ch == '\r' || ch == '\U{0B}' || ch == '\U{0C}'
  }

  /** The first index from i on that holds no whitespace, or |s|. */
  function Lead(s: string, i: nat): (n: nat)
    requires i <= |s|
    ensures i <= n <= |s| && (n < |s| ==> !IsSpace(s[n]))
    ensures forall k :: i <= k < n ==> IsSpace(s[k])
    decreases |s| - i
  {
    if i < |s| && IsSpace(s[i]) then Lead(s, i + 1) else i
  }

  /** The end of s[lo..j] once its trailing whitespace is cut off. */
  function Trail(s: string, lo: nat, j: nat): (e: nat)
    requires lo <= j <= |s|
    ensures lo <= e <= j && (e > lo ==> !IsSpace(s[e - 1]))
    ensures forall k :: e <= k < j ==> IsSpace(s[k])
  {
    if j > lo && IsSpace(s[j - 1]) then Trail(s, lo, j - 1) else j
  }

  /** `str.strip()`: s without its leading and trailing whitespace. */
  function Strip(s: string): string {
    var i := Lead(s, 0);
    s[i..Trail(s, i, |s|)]
  }

  /** `strip` returns the slice of s after its i leading whitespace
      characters; the slice neither starts nor ends with whitespace, and
      everything cut off on either side is whitespace. */
  lemma StripSpec(s: string)
    ensures var r, i := Strip(s), Lead(s, 0);
            i + |r| <= |s| && r == s[i..i + |r|] &&
            (forall k :: 0 <= k < i || i + |r| <= k < |s| ==> IsSpace(s[k])) &&
            (r != [] ==> !IsSpace(r[0]) && !IsSpace(r[|r| - 1]))
  {
    var i := Lead(s, 0);
    var e := Trail(s, i, |s|);
    assert Strip(s) == s[i..e];
    assert e > i ==> s[i..e][0] == s[i] && s[i..e][e - i - 1] == s[e - 1];
  }

  /** Stripping twice strips nothing more. */
  lemma StripIdempotent(s: string)
    ensures Strip(Strip(s)) == Strip(s)
  {
    var r := Strip(s);
    StripSpec(s);
    if r != [] {
      assert Lead(r, 0) == 0;
      assert Trail(r, 0, |r|) == |r|;
      assert r[0..|r|] == r;
    }
  }

  // ---------------------------------------------------------------------
  // Parsing a row.

  /** `parse_node_feature`: columns 6, 7 and 8 stripped and joined by
      underscores, stopping before the first of columns 7 and 8 that reads
      `False`. A row without those columns has no such index. */
  function ParseNodeFeature(row: seq<string>): (r: Result<string>)
    ensures r.Ok? <==> |row| >= 9
    ensures r.Err? ==> r.error == IndexError
  {
    if |row| < 9 then Err(IndexError)
    else
      var s0, s1, s2 := Strip(row[6]), Strip(row[7]), Strip(row[8]);
      if s1 == "False" then Ok(s0)
      else if s2 == "False" then Ok(s0 + "_" + s1)
      else Ok(s0 + "_" + s1 + "_" + s2)
  }

  /** The node feature starts with column 6; it is column 6 alone exactly
      when column 7 reads `False`, and columns 6 and 7 exactly when column 8
      is the first to read `False`; otherwise it joins all three. */
  lemma NodeFeatureSpec(row: seq<string>)
    requires |row| >= 9
    ensures var r, s0, s1, s2 := ParseNodeFeature(row).value, Strip(row[6]), Strip(row[7]), Strip(row[8]);
            s0 <= r &&
            (r == s0 <==> s1 == "False") &&
            (s1 != "False" ==> s0 + "_" + s1 <= r) &&
            (r == s0 + "_" + s1 <==> s1 != "False" && s2 == "False") &&
            (s1 != "False" && s2 != "False" ==> |r| == |s0| + |s1| + |s2| + 2)
  {
    var r, s0, s1, s2 := ParseNodeFeature(row).value, Strip(row[6]), Strip(row[7]), Strip(row[8]);
    if s1 == "False" {
      assert r == s0;
    } else if s2 == "False" {
      assert r == s0 + "_" + s1;
      assert |r| > |s0|;
    } else {
      assert r == (s0 + "_" + s1) + "_" + s2;
      assert |r| > |s0 + "_" + s1|;
    }
  }

  /** `parse_edge_feature`: the first six columns, stripped, in order. */
  function ParseEdgeFeature(row: seq<string>): (r: Result<seq<string>>)
    ensures r.Ok? <==> |row| >= 6
    ensures r.Err? ==> r.error == IndexError
    ensures r.Ok? ==> |r.value| == 6 && forall i :: 0 <= i < 6 ==> r.value[i] == Strip(row[i])
  {
    if |row| < 6 then Err(IndexError) else Ok(seq(6, i requires 0 <= i < 6 => Strip(row[i])))
  }

  /** `parse_row`: the node feature, then the edge features of one row; the
      node feature is parsed first, so its error is the one reported. */
  function ParseRow(row: seq<string>): (r: Result<(string, seq<string>)>)
    ensures r.Ok? <==> |row| >= 9
    ensures r.Err? ==> r.error == IndexError
    ensures r.Ok? ==> r.value.0 == ParseNodeFeature(row).value && r.value.1 == ParseEdgeFeature(row).value
  {
    match ParseNodeFeature(row)
    case Err(e) => Err(e)
    case Ok(node) => Ok((node, ParseEdgeFeature(row).value))
  }

  /** The features of a parsed row carry no surrounding whitespace. */
  lemma ParsedStripped(row: seq<string>)
    requires ParseRow(row).Ok?
    ensures forall i :: 0 <= i < 6 ==> Strip(ParseRow(row).value.1[i]) == ParseRow(row).value.1[i]
  {
    forall i | 0 <= i < 6 ensures Strip(ParseRow(row).value.1[i]) == ParseRow(row).value.1[i] {
      StripIdempotent(row[i]);
    }
  }

  // ---------------------------------------------------------------------
  // Drawing from the pool.

  /** A tile of the pool: a hexagon with its grid properties and features. */
  datatype Tile = Tile(coord: Coord, system: string, radius: int, top: string, orientation: string,
                       nodeFeature: string, edgeFeature: seq<string>)

  /** Hexagon equality: compatible properties and the same coordinate;
      the features play no part. */
  predicate SameTile(a: Tile, b: Tile) {
    a.system == b.system && a.radius == b.radius && a.top == b.top &&
    a.orientation == b.orientation && a.coord == b.coord
  }

  /** The features of a row as the hexagon's constructor receives them. */
  function Given(fs: seq<string>): (r: seq<Option<string>>)
    ensures |r| == |fs| && forall i :: 0 <= i < |fs| ==> r[i] == Some(fs[i])
  {
    seq(|fs|, i requires 0 <= i < |fs| => Some(fs[i]))
  }

  /** A hexagon built from features alone: every other property keeps its
      default, the centre (0, 0) among them. */
  function DefaultTile(node: string, edges: seq<string>): Tile {
    Tile(Coord(0, 0), "axial", 1, "pointy", "clockwise", node, edges)
  }

  /** `Hexagon(node_feature=node, edge_feature=edges)` under the default
      configuration `config`: the arguments left out keep their defaults
      (a one-element vertex list among them, whose value is never looked
      up), and construction looks the node feature up in the slot table
      and every edge feature in the habitat table. */
  function PoolTile(config: Hexagons.Config, node: string, edges: seq<string>): (r: Result<Tile>)
    ensures r.Ok? <==> node in config.slots && |edges| in {1, 6} &&
                       forall i :: 0 <= i < |edges| ==> edges[i] in config.habitat
    ensures r.Err? ==> r.error == if node in config.slots && |edges| !in {1, 6} then ValueError else KeyError
    ensures r.Ok? ==> r.value == DefaultTile(node, edges)
  {
    var check := Hexagons.CheckArguments("axial", [Hexagons.Int(0), Hexagons.Int(0)], Hexagons.Int(1), "pointy",
                                         Some(node), [None], Given(edges), "clockwise", config);
    if check.Some? then Err(check.value) else Ok(DefaultTile(node, edges))
  }

  /** A row the pool takes: it has the nine columns parsing reads, the
      slot table knows its node feature and the habitat table each of its
      six edge features. */
  predicate RowAccepted(config: Hexagons.Config, row: seq<string>) {
    |row| >= 9 && ParseNodeFeature(row).value in config.slots &&
    forall i :: 0 <= i < 6 ==> Strip(row[i]) in config.habitat
  }

  /** The loop building `HEXAGON_POOL`: one default hexagon per row of the
      table, carrying the row's parsed features; the first row that cannot
      be parsed, or whose hexagon cannot be constructed, stops the loop
      with its error. */
  method BuildPool(config: Hexagons.Config, rows: seq<seq<string>>) returns (r: Result<seq<Tile>>)
    ensures r.Ok? <==> forall k :: 0 <= k < |rows| ==> RowAccepted(config, rows[k])
    ensures r.Err? ==> exists k :: 0 <= k < |rows| && !RowAccepted(config, rows[k]) &&
                                   (forall j :: 0 <= j < k ==> RowAccepted(config, rows[j])) &&
                                   r.error == if |rows[k]| < 9 then IndexError else KeyError
    ensures r.Ok? ==> |r.value| == |rows| &&
                      forall k :: 0 <= k < |rows| ==>
                        r.value[k] == DefaultTile(ParseRow(rows[k]).value.0, ParseRow(rows[k]).value.1)
  {
    var pool: seq<Tile> := [];
    for k := 0 to |rows|
      invariant |pool| == k
      invariant forall j :: 0 <= j < k ==>
                  RowAccepted(config, rows[j]) &&
                  pool[j] == DefaultTile(ParseRow(rows[j]).value.0, ParseRow(rows[j]).value.1)
    {
      var parsed := ParseRow(rows[k]);
      if parsed.Err? {
        return Err(parsed.error);
      }
      var tile := PoolTile(config, parsed.value.0, parsed.value.1);
      if tile.Err? {
        return Err(tile.error);
      }
      pool := pool + [tile.value];
    }
    r := Ok(pool);
  }

  /** The first tile of s equal to x, if any. */
  function FirstSame(s: seq<Tile>, x: Tile): (k: nat)
    ensures k <= |s| && forall j :: 0 <= j < k ==> !SameTile(s[j], x)
    ensures k < |s| ==> SameTile(s[k], x)
  {
    if s == [] then 0
    else if SameTile(s[0], x) then 0
    else 1 + FirstSame(s[1..], x)
  }

  /** `list.remove`: deletes the first tile equal to x; there is none to
      delete when no tile is equal. */
  function Remove(s: seq<Tile>, x: Tile): (r: Result<seq<Tile>>)
    ensures r.Err? <==> forall j :: 0 <= j < |s| ==> !SameTile(s[j], x)
    ensures r.Err? ==> r.error == ValueError
    ensures r.Ok? ==> |r.value| == |s| - 1 &&
                      multiset(r.value) + multiset{s[FirstSame(s, x)]} == multiset(s)
  {
    var k := FirstSame(s, x);
    if k == |s| then Err(ValueError)
    else
      assert s == s[..k] + [s[k]] + s[k + 1..];
      Ok(s[..k] + s[k + 1..])
  }

  /** In a pool of default hexagons every tile equals every other, so
      `remove` always deletes the first, whichever tile was drawn. */
  lemma PoolRemovesFirst(pool: seq<Tile>, pick: nat)
    requires pick < |pool|
    requires forall j :: 0 <= j < |pool| ==> pool[j] == DefaultTile(pool[j].nodeFeature, pool[j].edgeFeature)
    ensures Remove(pool, pool[pick]) == Ok(pool[1..])
  {
    assert SameTile(pool[0], pool[pick]);
    assert pool[..0] + pool[1..] == pool[1..];
  }

  /** Two tiles with different features: drawing the second returns it but
      removes the first, so the drawn tile stays in the pool and the other
      one is lost. */
  lemma DrawFinding()
    ensures var a, b := DefaultTile("a", []), DefaultTile("b", []);
            Remove([a, b], b) == Ok([b]) && a != b
  {
    var a, b := DefaultTile("a", []), DefaultTile("b", []);
    assert SameTile(a, b);
    assert [a, b][..0] + [a, b][1..] == [b];
  }

  /** The pool without the tile at `pick`. */
  function WithoutAt(s: seq<Tile>, pick: nat): (r: seq<Tile>)
    requires pick < |s|
    ensures |r| == |s| - 1 && multiset(r) + multiset{s[pick]} == multiset(s)
    ensures forall j :: 0 <= j < |r| ==> r[j] == if j < pick then s[j] else s[j + 1]
  {
    assert s == s[..pick] + [s[pick]] + s[pick + 1..];
    s[..pick] + s[pick + 1..]
  }

  /** `CascadiaEnv`, reduced to its pool of tiles. The random generator is
      replaced by the index it would produce. */
  class Env {
    var pool: seq<Tile>

    constructor (pool: seq<Tile>)
      ensures this.pool == pool
    {
      this.pool := pool;
    }

    /** `draw` as written: the tile at the drawn index is returned, and
        `remove` deletes the first tile equal to it. An empty pool has no
        index to draw. */
    method Draw(pick: int) returns (r: Result<Tile>)
      requires pool != [] ==> 0 <= pick < |pool|
      modifies this
      ensures old(pool) == [] ==> r == Err(ValueError) && pool == old(pool)
      ensures old(pool) != [] ==> r == Ok(old(pool)[pick]) && Remove(old(pool), old(pool)[pick]) == Ok(pool)
    {
      if pool == [] {
        return Err(ValueError);
      }
      var hexagon := pool[pick];
      var removed := Remove(pool, hexagon);
      pool := removed.value;
      r := Ok(hexagon);
    }

    /** `draw` as intended: the drawn tile, and only it, leaves the pool. */
    method DrawAt(pick: int) returns (r: Result<Tile>)
      requires pool != [] ==> 0 <= pick < |pool|
      modifies this
      ensures old(pool) == [] ==> r == Err(ValueError) && pool == old(pool)
      ensures old(pool) != [] ==> r.Ok? && multiset(pool) + multiset{r.value} == multiset(old(pool)) &&
                                  r.value == old(pool)[pick] && pool == WithoutAt(old(pool), pick)
    {
      if pool == [] {
        return Err(ValueError);
      }
      r := Ok(pool[pick]);
      pool := WithoutAt(pool, pick);
    }
  }
}
