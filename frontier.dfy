/** The border of a set of placed cells (neighbours of placed cells that are
    not themselves placed), and the hexagonal balls and rings that the
    spiral construction of polyhex/objects/polyhexes.py grows through. */
module Frontier {
  import opened Wrappers
  import opened Geometry

  /** Every cell adjacent to some cell of P. */
  function NeighbourSet(P: set<Coord>): set<Coord> {
    set c, n | c in P && n in Neighbours(c) :: n
  }

  lemma InNeighbourSet(P: set<Coord>, c: Coord, i: nat)
    requires c in P && i < 6
    ensures Neighbour(c, i) in NeighbourSet(P)
  {
    var n := Neighbour(c, i);
    assert n in Neighbours(c);
  }

  /** The border of P: neighbours of placed cells that are not placed. */
  function Border(P: set<Coord>): (B: set<Coord>)
    ensures B !! P
  {
    NeighbourSet(P) - P
  }

  /** A cell with the largest q among a nonempty set. */
  ghost function EastMost(P: set<Coord>): (m: Coord)
    requires P != {}
    ensures m in P
    ensures forall c :: c in P ==> c.q <= m.q
    decreases |P|
  {
    var x :| x in P;
    if P == {x} then x
    else
      var y := EastMost(P - {x});
      if x.q >= y.q then x else y
  }

  /** A nonempty set of cells always has a nonempty border: the eastern
      neighbour of its east-most cell is outside it. */
  lemma BorderNonEmpty(P: set<Coord>)
    ensures P != {} <==> Border(P) != {}
  {
    if P != {} {
      var m := EastMost(P);
      var e := Neighbour(m, 1);
      InNeighbourSet(P, m, 1);
      assert e !in P;
      assert e in Border(P);
    }
  }

  /** Placing h moves it out of the border and brings in its unplaced
      neighbours; nothing else changes. */
  lemma BorderStep(P: set<Coord>, h: Coord)
    ensures Border(P + {h}) == (Border(P) - {h}) + (Elems(Neighbours(h)) - (P + {h}))
  {
    var L := Border(P + {h});
    var R := (Border(P) - {h}) + (Elems(Neighbours(h)) - (P + {h}));
    forall x | x in L ensures x in R {
      var c :| c in P + {h} && x in Neighbours(c);
      if c == h {
        assert x in Elems(Neighbours(h));
      } else {
        assert x in NeighbourSet(P);
      }
    }
    forall x | x in R ensures x in L {
      if x in Border(P) - {h} {
        var c :| c in P && x in Neighbours(c);
        assert x in NeighbourSet(P + {h});
      } else {
        assert x in NeighbourSet(P + {h});
      }
    }
  }

  function Abs(x: int): nat {
    if x < 0 then -x else x
  }

  /** Hex distance of a cell from the origin. */
  function Norm(c: Coord): nat {
    var a, b, s := Abs(c.q), Abs(c.r), Abs(c.q + c.r);
    if a >= b && a >= s then a else if b >= s then b else s
  }

  /** The hexagonal ball of radius k around the origin. */
  function Ball(k: nat): (B: set<Coord>)
    ensures forall c :: c in B <==> Norm(c) <= k
  {
    var K: int := k;
    var B := set q, r | -K <= q <= K && -K <= r <= K :: Coord(q, r);
    assert forall c :: Norm(c) <= k ==> c in B by {
      forall c | Norm(c) <= k ensures c in B {
        assert -K <= c.q <= K && -K <= c.r <= K;
      }
    }
    set c | c in B && Norm(c) <= k
  }

  /** The ring of cells at hex distance exactly n from the origin. */
  function Ring(n: nat): (R: set<Coord>)
    ensures forall c :: c in R <==> Norm(c) == n
  {
    set c | c in Ball(n) && Norm(c) == n
  }

  /** The k-th cell of ring n (n >= 1), walking its six sides of n cells. */
  function RingCell(n: int, k: int): (c: Coord)
    requires 1 <= n && 0 <= k < 6 * n
    ensures Norm(c) == n
  {
    if k < n then Coord(n, -n + k)
    else if k < 2 * n then Coord(n - (k - n), k - n)
    else if k < 3 * n then Coord(-(k - 2 * n), n)
    else if k < 4 * n then Coord(-n, n - (k - 3 * n))
    else if k < 5 * n then Coord(-n + (k - 4 * n), -(k - 4 * n))
    else Coord(k - 5 * n, -n)
  }

  /** The position of a ring cell along the walk. */
  function RingIndex(n: int, c: Coord): (k: int)
    requires 1 <= n && Norm(c) == n
    ensures 0 <= k < 6 * n && RingCell(n, k) == c
  {
    if c.q == n && c.r < 0 then c.r + n
    else if c.q + c.r == n && 0 <= c.r < n then n + c.r
    else if c.r == n && c.q <= 0 then 2 * n - c.q
    else if c.q == -n && c.r > 0 then 3 * n + (n - c.r)
    else if c.q + c.r == -n && c.r <= 0 then 4 * n - c.r
    else 5 * n + c.q
  }

  function RingSeq(n: nat): (s: seq<Coord>)
    requires 1 <= n
    ensures |s| == 6 * n
    ensures forall k :: 0 <= k < 6 * n ==> s[k] == RingCell(n, k)
  {
    seq(6 * n, k requires 0 <= k < 6 * n => RingCell(n, k))
  }

  /** Walking the ring never visits a cell twice. */
  lemma RingIndexOfCell(n: int, k: int)
    requires 1 <= n && 0 <= k < 6 * n
    ensures RingIndex(n, RingCell(n, k)) == k
  {
    if k < n {
    } else if k < 2 * n {
    } else if k < 3 * n {
    } else if k < 4 * n {
    } else if k < 5 * n {
    } else {
    }
  }

  lemma RingSeqDistinct(n: nat)
    requires 1 <= n
    ensures Distinct(RingSeq(n))
  {
    var s := RingSeq(n);
    forall i, j | 0 <= i < j < |s| ensures s[i] != s[j] {
      RingIndexOfCell(n, i);
      RingIndexOfCell(n, j);
    }
  }

  lemma DistinctCard<T>(s: seq<T>)
    requires Distinct(s)
    ensures |Elems(s)| == |s|
  {
    if s != [] {
      var t := s[..|s| - 1];
      assert Distinct(t);
      DistinctCard(t);
      assert Elems(s) == Elems(t) + {s[|s| - 1]};
      assert s[|s| - 1] !in Elems(t);
    }
  }

  /** Ring n holds 6n cells. */
  lemma RingCard(n: nat)
    requires 1 <= n
    ensures |Ring(n)| == 6 * n
  {
    var s := RingSeq(n);
    RingSeqDistinct(n);
    DistinctCard(s);
    assert Elems(s) == Ring(n) by {
      forall c | c in Ring(n) ensures c in Elems(s) {
        assert s[RingIndex(n, c)] == c;
      }
    }
  }

  lemma BallSplit(k: nat)
    requires 1 <= k
    ensures Ball(k) == Ball(k - 1) + Ring(k)
    ensures Ball(k - 1) !! Ring(k)
  {
  }

  /** The ball of radius k holds 1 + 3k(k + 1) cells. */
  lemma {:induction false} BallCard(k: nat)
    ensures |Ball(k)| == 1 + 3 * k * (k + 1)
  {
    if k == 0 {
      assert Ball(0) == {Coord(0, 0)};
    } else {
      BallCard(k - 1);
      RingCard(k);
      BallSplit(k);
      var b, r := |Ball(k - 1)|, |Ring(k)|;
      assert |Ball(k)| == b + r;
      CountStep(k);
    }
  }

  lemma CountStep(k: nat)
    requires 1 <= k
    ensures 1 + 3 * (k - 1) * k + 6 * k == 1 + 3 * k * (k + 1)
  {
  }

  /** Every cell of ring n >= 1 has a neighbour in ring n - 1. */
  lemma InwardNeighbour(c: Coord) returns (i: nat)
    requires 1 <= Norm(c)
    ensures i < 6 && Norm(Neighbour(c, i)) == Norm(c) - 1
  {
    var n := Norm(c);
    var k := RingIndex(n, c);
    i := if k < n then 3 else if k < 2 * n then 4 else if k < 3 * n then 5
         else if k < 4 * n then 0 else if k < 5 * n then 1 else 2;
  }

  /** A neighbour is at most one ring further out. */
  lemma NeighbourNorm(c: Coord, i: nat)
    requires i < 6
    ensures Norm(Neighbour(c, i)) <= Norm(c) + 1
  {
  }

  /** The border of the ball of radius k is the ring of radius k + 1. */
  lemma BorderOfBall(k: nat)
    ensures Border(Ball(k)) == Ring(k + 1)
  {
    forall c | c in Border(Ball(k)) ensures c in Ring(k + 1) {
      var d, i :| d in Ball(k) && 0 <= i < 6 && c == Neighbours(d)[i];
      NeighbourNorm(d, i);
    }
    forall c | c in Ring(k + 1) ensures c in Border(Ball(k)) {
      var i := InwardNeighbour(c);
      var d := Neighbour(c, i);
      NeighbourOfNeighbour(c, i);
      assert d in Ball(k);
      assert c == Neighbours(d)[Opposite(i)];
      assert c in Neighbours(d);
      assert c in NeighbourSet(Ball(k));
    }
  }

  /** Placing a whole ring (the border of a ball) yields the next ball. */
  lemma BallGrowth(k: nat)
    ensures Ball(k) + Border(Ball(k)) == Ball(k + 1)
  {
    BorderOfBall(k);
  }

  /** The segments with exactly one placed side: edge i of a placed cell
      whose i-th neighbour is not placed. */
  function Exposed(P: set<Coord>): set<SpatialKey> {
    set c, i | c in P && 0 <= i < 6 && Neighbour(c, i) !in P :: EdgeKey(c, i)
  }

  /** The keys of the first k edges of the cell c. */
  function Own(c: Coord, k: nat): set<SpatialKey> {
    set i | 0 <= i < k && i < 6 :: EdgeKey(c, i)
  }

  lemma OwnNone(c: Coord)
    ensures Own(c, 0) == {}
  {
  }

  /** Own grows by one new key per edge. */
  lemma OwnStep(c: Coord, i: nat)
    requires i < 6
    ensures Own(c, i + 1) == Own(c, i) + {EdgeKey(c, i)}
    ensures EdgeKey(c, i) !in Own(c, i)
  {
    forall j | 0 <= j < i ensures EdgeKey(c, j) != EdgeKey(c, i) {
      EdgeKeysDistinct(c, j, i);
    }
  }

  /** For a cell not yet placed, its edge i is exposed exactly when the
      cell across that edge is placed. */
  lemma ExposedOwnKey(P: set<Coord>, c: Coord, i: nat)
    requires c !in P && i < 6
    ensures EdgeKey(c, i) in Exposed(P) <==> Neighbour(c, i) in P
  {
    var n := Neighbour(c, i);
    if n in P {
      NeighbourOfNeighbour(c, i);
      SharedEdge(c, i);
      assert EdgeKey(n, Opposite(i)) in Exposed(P);
    }
    if EdgeKey(c, i) in Exposed(P) {
      var d, j :| d in P && 0 <= j < 6 && Neighbour(d, j) !in P && EdgeKey(d, j) == EdgeKey(c, i);
      SharedEdgeUnique(c, i, d, j);
    }
  }

  /** Placing a new cell toggles exactly its six edge keys in the exposed
      set: those already exposed close, the others open. */
  lemma ExposedAdd(P: set<Coord>, c: Coord)
    requires c !in P
    ensures Exposed(P + {c}) == (Exposed(P) - Own(c, 6)) + (Own(c, 6) - Exposed(P))
  {
    var L := Exposed(P + {c});
    var R := (Exposed(P) - Own(c, 6)) + (Own(c, 6) - Exposed(P));
    NeighboursDistinct(c);
    forall K | K in L ensures K in R {
      var d, j :| d in P + {c} && 0 <= j < 6 && Neighbour(d, j) !in P + {c} && EdgeKey(d, j) == K;
      if d == c {
        ExposedOwnKey(P, c, j);
        assert K in Own(c, 6);
      } else {
        assert K in Exposed(P);
        if K in Own(c, 6) {
          var i :| 0 <= i < 6 && EdgeKey(c, i) == K;
          SharedEdgeUnique(c, i, d, j);
          NeighbourOfNeighbour(c, i);
        }
      }
    }
    forall K | K in R ensures K in L {
      if K in Own(c, 6) {
        var i :| 0 <= i < 6 && EdgeKey(c, i) == K;
        ExposedOwnKey(P, c, i);
      } else {
        var d, j :| d in P && 0 <= j < 6 && Neighbour(d, j) !in P && EdgeKey(d, j) == K;
        SharedEdge(d, j);
        assert EdgeKey(c, Opposite(j)) in Own(c, 6);
      }
    }
  }

  // ---------------------------------------------------------------------
  // Growth chains: sequences of cells each of which can be attached to the
  // shape built so far.

  /** c is new to Q and, unless Q is empty, on its border. */
  ghost predicate Joins(Q: set<Coord>, c: Coord) {
    c !in Q && (Q == {} || c in Border(Q))
  }

  /** Placing the cells of cs in order on top of P, each one joins the
      shape placed before it. */
  ghost predicate Chain(P: set<Coord>, cs: seq<Coord>) {
    forall k :: 0 <= k < |cs| ==> JoinsAt(P, cs, k)
  }

  /** The k-th cell of cs joins P and the cells before it. */
  ghost predicate JoinsAt(P: set<Coord>, cs: seq<Coord>, k: nat)
    requires k < |cs|
  {
    Joins(P + Elems(cs[..k]), cs[k])
  }

  /** The cells of cs are new to P and to each other. */
  ghost predicate Fresh(P: set<Coord>, cs: seq<Coord>) {
    forall k :: 0 <= k < |cs| ==> FreshAt(P, cs, k)
  }

  /** The k-th cell of cs is new to P and to the cells before it. */
  ghost predicate FreshAt(P: set<Coord>, cs: seq<Coord>, k: nat)
    requires k < |cs|
  {
    cs[k] !in P + Elems(cs[..k])
  }

  lemma FreshDistinct(P: set<Coord>, cs: seq<Coord>)
    ensures Fresh(P, cs) <==> Distinct(cs) && Elems(cs) !! P
  {
    if Fresh(P, cs) {
      forall i, j | 0 <= i < j < |cs| ensures cs[i] != cs[j] {
        assert FreshAt(P, cs, j);
        assert cs[i] in Elems(cs[..j]);
      }
      forall x | x in Elems(cs) ensures x !in P {
        var k :| 0 <= k < |cs| && cs[k] == x;
        assert FreshAt(P, cs, k);
      }
    }
    if Distinct(cs) && Elems(cs) !! P {
      forall k | 0 <= k < |cs| ensures FreshAt(P, cs, k) {
        assert cs[k] in Elems(cs);
        assert forall i :: 0 <= i < k ==> cs[..k][i] != cs[k];
      }
    }
  }

  /** A chain grown by one cell. */
  lemma ChainSnoc(P: set<Coord>, cs: seq<Coord>, c: Coord)
    ensures Chain(P, cs + [c]) <==> Chain(P, cs) && Joins(P + Elems(cs), c)
    ensures Fresh(P, cs + [c]) <==> Fresh(P, cs) && c !in P + Elems(cs)
  {
    var t := cs + [c];
    assert t[..|cs|] == cs;
    assert JoinsAt(P, t, |cs|) == Joins(P + Elems(cs), c);
    assert FreshAt(P, t, |cs|) == (c !in P + Elems(cs));
    forall k | 0 <= k < |cs| ensures JoinsAt(P, t, k) == JoinsAt(P, cs, k) && FreshAt(P, t, k) == FreshAt(P, cs, k) {
      assert t[..k] == cs[..k];
    }
  }

  /** Two chains, the second grown on the end of the first. */
  lemma {:induction false} ChainAppend(P: set<Coord>, a: seq<Coord>, b: seq<Coord>)
    ensures Chain(P, a + b) <==> Chain(P, a) && Chain(P + Elems(a), b)
    decreases |b|
  {
    if b == [] {
      assert a + b == a;
    } else {
      var init, x := b[..|b| - 1], b[|b| - 1];
      assert b == init + [x];
      assert a + b == (a + init) + [x];
      ChainAppend(P, a, init);
      ChainSnoc(P, a + init, x);
      ChainSnoc(P + Elems(a), init, x);
      assert Elems(a + init) == Elems(a) + Elems(init);
      assert P + Elems(a + init) == (P + Elems(a)) + Elems(init);
    }
  }

  /** A chain on nothing, grown by a second chain on the first one's cells. */
  lemma ChainAppendEmpty(a: seq<Coord>, b: seq<Coord>)
    ensures Chain({}, a + b) <==> Chain({}, a) && Chain(Elems(a), b)
  {
    ChainAppend({}, a, b);
    assert {} + Elems(a) == Elems(a);
  }

  /** Cells placed along a line (each the d-th neighbour of the one before),
      starting with one that joins Q and all new to Q and to each other,
      form a chain. */
  lemma LineChain(Q: set<Coord>, line: seq<Coord>, d: nat)
    requires d < 6 && Fresh(Q, line)
    requires forall j :: 0 < j < |line| ==> line[j] == Neighbour(line[j - 1], d)
    requires line != [] ==> Joins(Q, line[0])
    ensures Chain(Q, line)
  {
    forall k | 0 <= k < |line| ensures JoinsAt(Q, line, k) {
      assert FreshAt(Q, line, k);
      if k == 0 {
        assert Q + Elems(line[..k]) == Q;
      } else {
        var R := Q + Elems(line[..k]);
        assert line[k - 1] in R;
        InNeighbourSet(R, line[k - 1], d);
      }
    }
  }

  /** The cells of the border of a nonempty Q, in any order without
      repeats, form a chain on Q. */
  lemma BorderChain(Q: set<Coord>, cs: seq<Coord>)
    requires Q != {} && Distinct(cs) && Elems(cs) == Border(Q)
    ensures Chain(Q, cs)
  {
    forall k | 0 <= k < |cs| ensures JoinsAt(Q, cs, k) {
      var c := cs[k];
      assert c in Border(Q);
      var d, i :| d in Q && 0 <= i < 6 && c == Neighbours(d)[i];
      InNeighbourSet(Q + Elems(cs[..k]), d, i);
      assert c !in Elems(cs[..k]);
    }
  }
}
