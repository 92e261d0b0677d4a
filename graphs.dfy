/** The graphs of the newer engine (polyhex/objects/graphs/graphs_module.py).
    Each graph has a node counter and three dicts keyed by node key: the
    nodes, their adjacency lists ("weights") and their indices. The
    adjacency lists hold keys here: the source stores node objects, and
    in the edge border graph `HexagonEdge` objects, which compare equal
    exactly when their feature keys do; each list holds the keys its
    members compare by. */
module Graphs {
  import opened Wrappers
  import opened Geometry
  import opened Frontier

  /** A node offered to a graph: its key, its value and the keys of the
      nodes adjacent to it (what the hexagon's `get_vertex_adjency` or
      `get_edge_adjency` reports). */
  datatype Member<K, V> = Member(key: K, node: V, adjacent: seq<K>)

  /** The fields every graph has. */
  datatype GraphState<K, V> = GraphState(nNodes: int, nodes: map<K, V>, weights: map<K, seq<K>>, nodeToIndex: map<K, int>)

  // ---------------------------------------------------------------------
  // Adjacency lists.

  /** One step of the linking loops: when a is a node, a joins the list of
      k and k joins the list of a. */
  function LinkOne<K>(w: map<K, seq<K>>, present: set<K>, k: K, a: K): (r: map<K, seq<K>>)
    requires k in w && present <= w.Keys
    ensures r.Keys == w.Keys
  {
    if a in present then
      var w1 := w[k := w[k] + [a]];
      w1[a := w1[a] + [k]]
    else w
  }

  /** The linking loop over the keys adj, in order. */
  function LinkAll<K>(w: map<K, seq<K>>, present: set<K>, k: K, adj: seq<K>): (r: map<K, seq<K>>)
    requires k in w && present <= w.Keys
    ensures r.Keys == w.Keys
  {
    if adj == [] then w
    else LinkOne(LinkAll(w, present, k, adj[..|adj| - 1]), present, k, adj[|adj| - 1])
  }

  lemma LinkAllSnoc<K>(w: map<K, seq<K>>, present: set<K>, k: K, adj: seq<K>, i: nat)
    requires k in w && present <= w.Keys && i < |adj|
    ensures LinkAll(w, present, k, adj[..i + 1]) == LinkOne(LinkAll(w, present, k, adj[..i]), present, k, adj[i])
  {
    assert adj[..i + 1][..i] == adj[..i];
  }

  /** Every list holds keys of the graph only, and a lists b exactly when
      b lists a. */
  ghost predicate Symmetric<K>(w: map<K, seq<K>>) {
    forall a, b :: a in w && b in w[a] ==> b in w && a in w[b]
  }

  lemma LinkOneSymmetric<K>(w: map<K, seq<K>>, present: set<K>, k: K, a: K)
    requires k in w && present <= w.Keys && Symmetric(w)
    ensures Symmetric(LinkOne(w, present, k, a))
  {
    var r := LinkOne(w, present, k, a);
    if a in present {
      assert forall x :: x in r[k] <==> x in w[k] || x == a;
      assert forall x :: x in r[a] <==> x in w[a] || x == k;
      assert forall b :: b in r && b != k && b != a ==> r[b] == w[b];
    }
  }

  /** Linking keeps the lists symmetric. */
  lemma {:induction false} LinkAllSymmetric<K>(w: map<K, seq<K>>, present: set<K>, k: K, adj: seq<K>)
    requires k in w && present <= w.Keys && Symmetric(w)
    ensures Symmetric(LinkAll(w, present, k, adj))
  {
    if adj != [] {
      LinkAllSymmetric(w, present, k, adj[..|adj| - 1]);
      LinkOneSymmetric(LinkAll(w, present, k, adj[..|adj| - 1]), present, k, adj[|adj| - 1]);
    }
  }

  /** The lists of the cells of P are exactly their neighbours in P, each
      listed once: what the hexagon and hexagon-border graphs keep. */
  ghost predicate Exact(P: set<Coord>, w: map<Coord, seq<Coord>>) {
    w.Keys == P &&
    forall a {:trigger w[a]} :: a in w ==> Distinct(w[a]) && Elems(w[a]) == Elems(Neighbours(a)) * P
  }

  /** Exact, except that the cells of pending still list the cell c, which
      is not in P: the border graph in the middle of an append. */
  ghost predicate ExactBut(P: set<Coord>, w: map<Coord, seq<Coord>>, c: Coord, pending: set<Coord>) {
    w.Keys == P &&
    forall a {:trigger w[a]} :: a in w ==>
      (Distinct(w[a]) && Elems(w[a]) == (Elems(Neighbours(a)) * P) + (if a in pending then {c} else {}))
  }

  lemma ExactNothingPending(P: set<Coord>, w: map<Coord, seq<Coord>>, c: Coord)
    ensures Exact(P, w) <==> ExactBut(P, w, c, {})
  {
  }

  /** Linking the fresh cell k to its first j neighbours. */
  ghost predicate LinkedUpTo(P: set<Coord>, k: Coord, j: nat, w: map<Coord, seq<Coord>>, c: Coord, pending: set<Coord>)
    requires j <= 6
  {
    w.Keys == P + {k} &&
    Distinct(w[k]) && Elems(w[k]) == Elems(Neighbours(k)[..j]) * P &&
    forall a {:trigger w[a]} :: a in P ==>
      (Distinct(w[a]) &&
       Elems(w[a]) == (Elems(Neighbours(a)) * P) + (if a in Neighbours(k)[..j] then {k} else {}) + (if a in pending then {c} else {}))
  }

  /** A list without repeats grown by a new element. */
  lemma DistinctSnoc<T>(s: seq<T>, x: T)
    requires Distinct(s) && x !in s
    ensures Distinct(s + [x]) && Elems(s + [x]) == Elems(s) + {x}
  {
  }

  lemma LinkedStep(P: set<Coord>, k: Coord, j: nat, w: map<Coord, seq<Coord>>, c: Coord, pending: set<Coord>)
    requires j < 6 && k !in P && c != k && LinkedUpTo(P, k, j, w, c, pending)
    ensures LinkedUpTo(P, k, j + 1, LinkOne(w, P + {k}, k, Neighbours(k)[j]), c, pending)
  {
    PrefixGrow(k, j);
    if Neighbours(k)[j] in P {
      LinkedStepIn(P, k, j, w, c, pending);
    }
  }

  /** The (j+1)-th neighbour of k is new to the first j ones. */
  lemma PrefixGrow(k: Coord, j: nat)
    requires j < 6
    ensures Neighbours(k)[j] != k && Neighbours(k)[j] !in Neighbours(k)[..j]
    ensures forall b :: b in Neighbours(k)[..j + 1] <==> b in Neighbours(k)[..j] || b == Neighbours(k)[j]
    ensures Elems(Neighbours(k)[..j + 1]) == Elems(Neighbours(k)[..j]) + {Neighbours(k)[j]}
  {
    NeighboursDistinct(k);
    assert Neighbours(k)[..j + 1] == Neighbours(k)[..j] + [Neighbours(k)[j]];
  }

  lemma LinkedStepIn(P: set<Coord>, k: Coord, j: nat, w: map<Coord, seq<Coord>>, c: Coord, pending: set<Coord>)
    requires j < 6 && k !in P && c != k && LinkedUpTo(P, k, j, w, c, pending)
    requires Neighbours(k)[j] in P && Neighbours(k)[j] != k && Neighbours(k)[j] !in Neighbours(k)[..j]
    requires forall b :: b in Neighbours(k)[..j + 1] <==> b in Neighbours(k)[..j] || b == Neighbours(k)[j]
    requires Elems(Neighbours(k)[..j + 1]) == Elems(Neighbours(k)[..j]) + {Neighbours(k)[j]}
    ensures LinkedUpTo(P, k, j + 1, LinkOne(w, P + {k}, k, Neighbours(k)[j]), c, pending)
  {
    var a := Neighbours(k)[j];
    assert k !in Elems(w[a]);
    assert a !in Elems(w[k]);
    DistinctSnoc(w[a], k);
    DistinctSnoc(w[k], a);
    var r := LinkOne(w, P + {k}, k, a);
    assert r == w[k := w[k] + [a]][a := w[a] + [k]];
  }

  lemma {:induction false} LinkedPrefix(P: set<Coord>, w: map<Coord, seq<Coord>>, k: Coord, j: nat, c: Coord, pending: set<Coord>)
    requires j <= 6 && k !in P && c != k && ExactBut(P, w, c, pending)
    ensures LinkedUpTo(P, k, j, LinkAll(w[k := []], P + {k}, k, Neighbours(k)[..j]), c, pending)
  {
    var w0 := w[k := []];
    if j == 0 {
      assert LinkAll(w0, P + {k}, k, Neighbours(k)[..0]) == w0;
    } else {
      LinkedPrefix(P, w, k, j - 1, c, pending);
      assert Neighbours(k)[..j][..j - 1] == Neighbours(k)[..j - 1];
      LinkedStep(P, k, j - 1, LinkAll(w0, P + {k}, k, Neighbours(k)[..j - 1]), c, pending);
    }
  }

  /** Inserting a fresh cell and linking it to its six neighbours keeps the
      lists exact (up to the same pending entries). */
  lemma LinkNew(P: set<Coord>, w: map<Coord, seq<Coord>>, k: Coord, c: Coord, pending: set<Coord>)
    requires k !in P && c != k && k !in pending && ExactBut(P, w, c, pending)
    ensures ExactBut(P + {k}, LinkAll(w[k := []], P + {k}, k, Neighbours(k)), c, pending)
  {
    LinkedPrefix(P, w, k, 6, c, pending);
    assert Neighbours(k)[..6] == Neighbours(k);
    LinkedAll(P, k, LinkAll(w[k := []], P + {k}, k, Neighbours(k)), c, pending);
  }

  /** Lists linked to all six neighbours of k are exact once k is placed. */
  lemma LinkedAll(P: set<Coord>, k: Coord, r: map<Coord, seq<Coord>>, c: Coord, pending: set<Coord>)
    requires k !in P && k !in pending && LinkedUpTo(P, k, 6, r, c, pending)
    ensures ExactBut(P + {k}, r, c, pending)
  {
    assert Neighbours(k)[..6] == Neighbours(k);
    forall a | a in r
      ensures Distinct(r[a]) && Elems(r[a]) == (Elems(Neighbours(a)) * (P + {k})) + (if a in pending then {c} else {})
    {
      if a in P {
        AdjacentSymmetric(a, k);
      }
    }
  }

  /** The exact lists are symmetric. */
  lemma ExactSymmetric(P: set<Coord>, w: map<Coord, seq<Coord>>)
    requires Exact(P, w)
    ensures Symmetric(w)
  {
    forall a, b | a in w && b in w[a] ensures b in w && a in w[b] {
      assert b in Elems(w[a]);
      AdjacentSymmetric(a, b);
      assert a in Elems(w[b]);
    }
  }

  /** The first occurrence of x removed, as `list.remove` does. */
  function RemoveFirst<T(==)>(s: seq<T>, x: T): (r: seq<T>)
    requires x in s
    ensures |r| == |s| - 1
    ensures multiset(r) == multiset(s) - multiset{x}
  {
    assert s == [s[0]] + s[1..];
    if s[0] == x then s[1..] else [s[0]] + RemoveFirst(s[1..], x)
  }

  /** In a list without repeats, removing x removes it altogether. */
  lemma {:induction false} RemoveFirstDistinct<T>(s: seq<T>, x: T)
    requires x in s && Distinct(s)
    ensures Distinct(RemoveFirst(s, x)) && Elems(RemoveFirst(s, x)) == Elems(s) - {x}
  {
    assert s == [s[0]] + s[1..];
    var t := s[1..];
    assert Distinct(t);
    assert s[0] !in t;
    if s[0] != x {
      RemoveFirstDistinct(t, x);
      var u := RemoveFirst(t, x);
      assert s[0] !in Elems(u);
      var r := [s[0]] + u;
      assert Elems(r) == {s[0]} + Elems(u);
      assert Elems(s) == {s[0]} + Elems(t);
      forall i, j | 0 <= i < j < |r| ensures r[i] != r[j] {
        if i > 0 {
          assert r[i] == u[i - 1] && r[j] == u[j - 1];
        } else {
          assert r[j] in u;
        }
      }
    }
  }

  // ---------------------------------------------------------------------
  // VertexGraph and EdgeGraph.

  /** A node inserted under a fresh key: stored, given an empty list and the
      next index, counted, then linked to the adjacent keys present. */
  function Insert<K, V>(s: GraphState<K, V>, m: Member<K, V>): (r: GraphState<K, V>)
    requires s.weights.Keys == s.nodes.Keys
    ensures r.weights.Keys == r.nodes.Keys
  {
    var nodes := s.nodes[m.key := m.node];
    GraphState(s.nNodes + 1, nodes, LinkAll(s.weights[m.key := []], nodes.Keys, m.key, m.adjacent),
               s.nodeToIndex[m.key := s.nNodes])
  }

  /** One node of `VertexGraph.append`/`EdgeGraph.append`: a key already
      present is skipped. */
  function AppendMember<K, V>(s: GraphState<K, V>, m: Member<K, V>): (r: GraphState<K, V>)
    requires s.weights.Keys == s.nodes.Keys
    ensures r.weights.Keys == r.nodes.Keys
  {
    if m.key in s.nodes then s else Insert(s, m)
  }

  function AppendMembers<K, V>(s: GraphState<K, V>, ms: seq<Member<K, V>>): (r: GraphState<K, V>)
    requires s.weights.Keys == s.nodes.Keys
    ensures r.weights.Keys == r.nodes.Keys
  {
    if ms == [] then s else AppendMember(AppendMembers(s, ms[..|ms| - 1]), ms[|ms| - 1])
  }

  lemma AppendMembersSnoc<K, V>(s: GraphState<K, V>, ms: seq<Member<K, V>>, j: nat)
    requires s.weights.Keys == s.nodes.Keys && j < |ms|
    ensures AppendMembers(s, ms[..j + 1]) == AppendMember(AppendMembers(s, ms[..j]), ms[j])
  {
    assert ms[..j + 1][..j] == ms[..j];
  }

  function MemberKeys<K, V>(ms: seq<Member<K, V>>): set<K> {
    set i | 0 <= i < |ms| :: ms[i].key
  }

  /** The invariant of a graph without removals: one index per node, the
      indices exactly 0 .. n-1, and symmetric, closed lists. */
  ghost predicate GraphOK<K, V>(s: GraphState<K, V>) {
    s.weights.Keys == s.nodes.Keys && IndexOK(s.nodes.Keys, s.nNodes, s.nodeToIndex) &&
    Symmetric(s.weights)
  }

  /** One index per node, and the indices are exactly 0 .. n-1. */
  ghost predicate IndexOK<K>(keys: set<K>, n: int, index: map<K, int>) {
    index.Keys == keys && n == |keys| &&
    (forall k :: k in index ==> 0 <= index[k] < n) &&
    (forall a, b :: a in index && b in index && a != b ==> index[a] != index[b])
  }

  lemma IndexAdd<K>(keys: set<K>, n: int, index: map<K, int>, k: K)
    requires IndexOK(keys, n, index) && k !in keys
    ensures IndexOK(keys + {k}, n + 1, index[k := n])
  {
  }

  lemma InsertOK<K, V>(s: GraphState<K, V>, m: Member<K, V>)
    requires GraphOK(s) && m.key !in s.nodes
    ensures GraphOK(Insert(s, m))
  {
    var w0 := s.weights[m.key := []];
    assert Symmetric(w0) by {
      forall a, b | a in w0 && b in w0[a] ensures b in w0 && a in w0[b] {
        assert a != m.key && b in s.weights[a];
      }
    }
    LinkAllSymmetric(w0, s.nodes.Keys + {m.key}, m.key, m.adjacent);
    IndexAdd(s.nodes.Keys, s.nNodes, s.nodeToIndex, m.key);
  }

  lemma MemberKeysSnoc<K, V>(ms: seq<Member<K, V>>)
    requires ms != []
    ensures MemberKeys(ms) == MemberKeys(ms[..|ms| - 1]) + {ms[|ms| - 1].key}
  {
    var init := ms[..|ms| - 1];
    forall k | k in MemberKeys(ms) ensures k in MemberKeys(init) + {ms[|ms| - 1].key} {
      var i :| 0 <= i < |ms| && ms[i].key == k;
      if i < |ms| - 1 {
        assert init[i] == ms[i];
      }
    }
    forall k | k in MemberKeys(init) ensures k in MemberKeys(ms) {
      var i :| 0 <= i < |init| && init[i].key == k;
      assert ms[i] == init[i];
    }
  }

  /** Appending keeps the invariant. */
  lemma {:induction false} AppendMembersOK<K, V>(s: GraphState<K, V>, ms: seq<Member<K, V>>)
    requires GraphOK(s)
    ensures GraphOK(AppendMembers(s, ms))
  {
    if ms != [] {
      var init := ms[..|ms| - 1];
      AppendMembersOK(s, init);
      var t := AppendMembers(s, init);
      var m := ms[|ms| - 1];
      assert AppendMembers(s, ms) == AppendMember(t, m);
      if m.key !in t.nodes {
        InsertOK(t, m);
      }
    }
  }

  /** The nodes gained are exactly the new keys. */
  lemma {:induction false} AppendMembersKeys<K, V>(s: GraphState<K, V>, ms: seq<Member<K, V>>)
    requires s.weights.Keys == s.nodes.Keys
    ensures AppendMembers(s, ms).nodes.Keys == s.nodes.Keys + MemberKeys(ms)
  {
    if ms != [] {
      AppendMembersKeys(s, ms[..|ms| - 1]);
      MemberKeysSnoc(ms);
    }
  }

  /** A node already present keeps its value and its index: the first node
      offered under a key is the one kept. */
  lemma {:induction false} AppendMembersKeep<K, V>(s: GraphState<K, V>, ms: seq<Member<K, V>>, k: K)
    requires s.weights.Keys == s.nodes.Keys && k in s.nodes && k in s.nodeToIndex
    ensures k in AppendMembers(s, ms).nodes && AppendMembers(s, ms).nodes[k] == s.nodes[k]
    ensures k in AppendMembers(s, ms).nodeToIndex && AppendMembers(s, ms).nodeToIndex[k] == s.nodeToIndex[k]
  {
    if ms != [] {
      AppendMembersKeep(s, ms[..|ms| - 1], k);
    }
  }

  /** `VertexGraph` and `EdgeGraph`: shared segments or corners are stored
      once, under their spatial key. */
  class KeyGraph<K(==), V> {
    const name: string
    var nNodes: int
    var nodes: map<K, V>
    var weights: map<K, seq<K>>
    var nodeToIndex: map<K, int>

    function State(): GraphState<K, V>
      reads this
    {
      GraphState(nNodes, nodes, weights, nodeToIndex)
    }

    constructor (name: string)
      ensures this.name == name && State() == GraphState(0, map[], map[], map[]) && GraphOK(State())
    {
      this.name := name;
      nNodes, nodes, weights, nodeToIndex := 0, map[], map[], map[];
    }

    /** `append`: each node of the hexagon whose key is not yet present is
        inserted and linked to the adjacent keys already present. */
    method Append(members: seq<Member<K, V>>)
      requires weights.Keys == nodes.Keys
      modifies this
      ensures State() == AppendMembers(old(State()), members)
    {
      var n, ns, w, index := nNodes, nodes, weights, nodeToIndex;
      for j := 0 to |members|
        invariant w.Keys == ns.Keys
        invariant GraphState(n, ns, w, index) == AppendMembers(old(State()), members[..j])
        modifies {}
      {
        var m := members[j];
        AppendMembersSnoc(old(State()), members, j);
        if m.key !in ns {
          ns := ns[m.key := m.node];
          w := w[m.key := []];
          index := index[m.key := n];
          n := n + 1;
          ghost var w0 := w;
          for i := 0 to |m.adjacent|
            invariant w == LinkAll(w0, ns.Keys, m.key, m.adjacent[..i])
            modifies {}
          {
            var coord := m.adjacent[i];
            LinkAllSnoc(w0, ns.Keys, m.key, m.adjacent, i);
            if coord in ns {
              w := w[m.key := w[m.key] + [coord]];
              w := w[coord := w[coord] + [m.key]];
            }
          }
          assert m.adjacent[..|m.adjacent|] == m.adjacent;
        }
      }
      assert members[..|members|] == members;
      nNodes, nodes, weights, nodeToIndex := n, ns, w, index;
    }

    /** `remove` is not implemented. */
    method Remove() returns (o: Outcome)
      ensures o == Fail(NotImplementedError)
    {
      o := Fail(NotImplementedError);
    }
  }

  // ---------------------------------------------------------------------
  // Cells.

  /** A corner of a hexagon as the graphs store it: its spatial key and its
      feature (the two parts of its feature key, which its equality compares). */
  datatype VertexNode = VertexNode(key: Point, feature: string)

  /** An edge of a hexagon as the graphs store it, by its feature key. */
  datatype EdgeNode = EdgeNode(key: SpatialKey, feature: string)

  /** A hexagon of the newer engine as the graphs see it: its coordinate
      (its spatial key), its grid properties, and its corners and edges, each
      with the keys its hexagon reports as adjacent to it. */
  datatype Cell = Cell(coord: Coord, system: string, radius: int, top: string, orientation: string,
                       vertices: seq<Member<Point, VertexNode>>, edges: seq<Member<SpatialKey, EdgeNode>>)
  {
    /** The edges of the cell are its six segments, in order. */
    ghost predicate EdgesInPlace() {
      |edges| == 6 && forall i :: 0 <= i < 6 ==> edges[i].key == EdgeKey(coord, i)
    }
  }

  // ---------------------------------------------------------------------
  // HexagonGraph.

  /** `HexagonGraph.append`: the cell is stored under its coordinate, given
      the next index and linked to its placed neighbours. */
  function HexInsert(s: GraphState<Coord, Cell>, c: Cell): (r: GraphState<Coord, Cell>)
    requires s.weights.Keys == s.nodes.Keys
    ensures r.weights.Keys == r.nodes.Keys
  {
    Insert(s, Member(c.coord, c, Neighbours(c.coord)))
  }

  /** The invariant of the hexagon graph: one index per placed cell, each
      cell stored under its own coordinate, and each list holding exactly the
      placed neighbours. */
  ghost predicate HexGraphOK(s: GraphState<Coord, Cell>) {
    IndexOK(s.nodes.Keys, s.nNodes, s.nodeToIndex) && Exact(s.nodes.Keys, s.weights) &&
    AtOwnCoord(s.nodes)
  }

  /** Inserting a fresh cell keeps the lists exact. */
  lemma LinkNewExact(P: set<Coord>, w: map<Coord, seq<Coord>>, k: Coord)
    requires k !in P && Exact(P, w)
    ensures Exact(P + {k}, LinkAll(w[k := []], P + {k}, k, Neighbours(k)))
  {
    var other := Coord(k.q + 1, k.r);
    ExactNothingPending(P, w, other);
    LinkNew(P, w, k, other, {});
    ExactNothingPending(P + {k}, LinkAll(w[k := []], P + {k}, k, Neighbours(k)), other);
  }

  ghost predicate AtOwnCoord(nodes: map<Coord, Cell>) {
    forall c :: c in nodes ==> nodes[c].coord == c
  }

  /** Appending a cell at a fresh coordinate keeps the invariant and places
      exactly that cell. */
  lemma HexInsertOK(s: GraphState<Coord, Cell>, c: Cell)
    requires HexGraphOK(s) && c.coord !in s.nodes
    ensures HexGraphOK(HexInsert(s, c))
    ensures HexInsert(s, c).nodes.Keys == s.nodes.Keys + {c.coord}
    ensures HexInsert(s, c).nNodes == s.nNodes + 1
  {
    HexInsertParts(s.nNodes, s.nodes, s.weights, s.nodeToIndex, c);
  }

  lemma HexInsertParts(n: int, nodes: map<Coord, Cell>, w: map<Coord, seq<Coord>>, index: map<Coord, int>, c: Cell)
    requires IndexOK(nodes.Keys, n, index) && Exact(nodes.Keys, w) && AtOwnCoord(nodes) && c.coord !in nodes
    ensures IndexOK(nodes.Keys + {c.coord}, n + 1, index[c.coord := n])
    ensures Exact(nodes.Keys + {c.coord}, LinkAll(w[c.coord := []], nodes.Keys + {c.coord}, c.coord, Neighbours(c.coord)))
    ensures AtOwnCoord(nodes[c.coord := c])
    ensures nodes[c.coord := c].Keys == nodes.Keys + {c.coord}
  {
    IndexAdd(nodes.Keys, n, index, c.coord);
    LinkNewExact(nodes.Keys, w, c.coord);
    AtOwnCoordAdd(nodes, c);
  }

  lemma AtOwnCoordAdd(nodes: map<Coord, Cell>, c: Cell)
    requires AtOwnCoord(nodes)
    ensures AtOwnCoord(nodes[c.coord := c])
  {
  }

  /** The placed cells, each in its own node. */
  class HexagonGraph {
    const name: string
    var nNodes: int
    var nodes: map<Coord, Cell>
    var weights: map<Coord, seq<Coord>>
    var nodeToIndex: map<Coord, int>

    function State(): GraphState<Coord, Cell>
      reads this
    {
      GraphState(nNodes, nodes, weights, nodeToIndex)
    }

    constructor (name: string)
      ensures this.name == name && State() == GraphState(0, map[], map[], map[]) && HexGraphOK(State())
    {
      this.name := name;
      nNodes, nodes, weights, nodeToIndex := 0, map[], map[], map[];
    }

    /** `append`; a coordinate already placed is overwritten, as in the
        source, which does not check for it. */
    method Append(c: Cell)
      requires weights.Keys == nodes.Keys
      modifies this
      ensures State() == HexInsert(old(State()), c)
    {
      var k := c.coord;
      var ns := nodes[k := c];
      var w := weights[k := []];
      ghost var w0 := w;
      var adj := Neighbours(k);
      for i := 0 to 6
        invariant w == LinkAll(w0, ns.Keys, k, adj[..i])
      {
        assert adj[..i + 1][..i] == adj[..i];
        if adj[i] in ns {
          w := w[k := w[k] + [adj[i]]];
          w := w[adj[i] := w[adj[i]] + [k]];
        }
      }
      assert adj[..6] == adj;
      nodes, nodeToIndex, weights, nNodes := ns, nodeToIndex[k := nNodes], w, nNodes + 1;
    }

    /** `remove` is not implemented. */
    method Remove() returns (o: Outcome)
      ensures o == Fail(NotImplementedError)
    {
      o := Fail(NotImplementedError);
    }
  }

  // ---------------------------------------------------------------------
  // HexagonBorderGraph.

  /** The border graph stores a placeholder hexagon per border cell; the
      placeholders are compared by coordinate, so the model stores each as
      its coordinate. */
  type BorderState = GraphState<Coord, Coord>

  /** `HexagonBorderGraph.add`: a cell that is not placed joins the border,
      linked to its border neighbours. */
  function BorderAdd(s: BorderState, adj: Coord, placed: set<Coord>): (r: BorderState)
    requires s.weights.Keys == s.nodes.Keys
    ensures r.weights.Keys == r.nodes.Keys
  {
    if adj in placed then s else Insert(s, Member(adj, adj, Neighbours(adj)))
  }

  /** The first append: every neighbour is offered to the border. */
  function BorderAddAll(s: BorderState, adjs: seq<Coord>, placed: set<Coord>): (r: BorderState)
    requires s.weights.Keys == s.nodes.Keys
    ensures r.weights.Keys == r.nodes.Keys
  {
    if adjs == [] then s else BorderAdd(BorderAddAll(s, adjs[..|adjs| - 1], placed), adjs[|adjs| - 1], placed)
  }

  /** A later append, at the neighbour adj of the placed cell c: a border
      neighbour forgets c, any other neighbour is offered to the border. */
  function BorderVisit(s: BorderState, c: Coord, adj: Coord, placed: set<Coord>): (r: BorderState)
    requires s.weights.Keys == s.nodes.Keys
    ensures r.weights.Keys == r.nodes.Keys
  {
    if adj in s.nodes then
      if c in s.weights[adj] then s.(weights := s.weights[adj := RemoveFirst(s.weights[adj], c)]) else s
    else BorderAdd(s, adj, placed)
  }

  function BorderVisitAll(s: BorderState, c: Coord, adjs: seq<Coord>, placed: set<Coord>): (r: BorderState)
    requires s.weights.Keys == s.nodes.Keys
    ensures r.weights.Keys == r.nodes.Keys
  {
    if adjs == [] then s else BorderVisit(BorderVisitAll(s, c, adjs[..|adjs| - 1], placed), c, adjs[|adjs| - 1], placed)
  }

  /** `HexagonBorderGraph.append` of the cell at c, given the coordinates the
      hexagon graph holds: an empty border takes every neighbour; otherwise c
      must be on the border, leaves it, and its neighbours are visited. */
  function BorderAppend(s: BorderState, c: Coord, placed: set<Coord>): (r: Result<BorderState>)
    requires s.weights.Keys == s.nodes.Keys
    ensures r.Ok? ==> r.value.weights.Keys == r.value.nodes.Keys
  {
    if s.nodes == map[] then Ok(BorderAddAll(s, Neighbours(c), placed))
    else if c !in s.nodes then Err(AssertionError)
    else Ok(BorderVisitAll(GraphState(s.nNodes - 1, s.nodes - {c}, s.weights - {c}, s.nodeToIndex), c, Neighbours(c), placed))
  }

  /** Each placeholder is stored under its own coordinate. */
  ghost predicate AtOwnKey(nodes: map<Coord, Coord>) {
    forall a :: a in nodes ==> nodes[a] == a
  }

  /** The border graph holding the cells R, whose lists are exact except
      that the cells of pending still list c. */
  ghost predicate BorderMid(s: BorderState, R: set<Coord>, c: Coord, pending: set<Coord>) {
    s.nodes.Keys == R && ExactBut(R, s.weights, c, pending) && s.nNodes == |R| &&
    R <= s.nodeToIndex.Keys && AtOwnKey(s.nodes)
  }

  /** The invariant of the border graph when it holds the cells B: each
      list holds exactly the neighbours in B, the counter is the number of
      cells, and every cell has an index. */
  ghost predicate BorderHolds(s: BorderState, B: set<Coord>) {
    s.nodes.Keys == B && Exact(B, s.weights) && s.nNodes == |s.nodes| &&
    s.nodes.Keys <= s.nodeToIndex.Keys && AtOwnKey(s.nodes)
  }

  /** The invariant of the border graph once P is placed: it holds exactly
      the border of P. */
  ghost predicate BorderOK(s: BorderState, P: set<Coord>) {
    BorderHolds(s, Border(P))
  }

  lemma BorderHoldsMid(s: BorderState, B: set<Coord>, c: Coord)
    ensures BorderHolds(s, B) <==> BorderMid(s, B, c, {})
  {
    ExactNothingPending(B, s.weights, c);
  }

  lemma BorderInsertMid(s: BorderState, R: set<Coord>, c: Coord, pending: set<Coord>, adj: Coord)
    requires BorderMid(s, R, c, pending) && adj !in R && adj != c && adj !in pending
    ensures BorderMid(Insert(s, Member(adj, adj, Neighbours(adj))), R + {adj}, c, pending)
  {
    assert s.nodes[adj := adj].Keys == R + {adj};
    LinkNew(R, s.weights, adj, c, pending);
    CountAdd(R, adj, s.nNodes, s.nodeToIndex);
    AtOwnKeyAdd(s.nodes, adj);
  }

  lemma CountAdd(R: set<Coord>, adj: Coord, n: int, index: map<Coord, int>)
    requires n == |R| && R <= index.Keys && adj !in R
    ensures n + 1 == |R + {adj}| && R + {adj} <= index[adj := n].Keys
  {
  }

  lemma AtOwnKeyAdd(nodes: map<Coord, Coord>, adj: Coord)
    requires AtOwnKey(nodes)
    ensures AtOwnKey(nodes[adj := adj])
  {
  }

  lemma AddSets(c: Coord, placed: set<Coord>, j: nat)
    requires j < 6 && placed * Elems(Neighbours(c)) == {}
    ensures Neighbours(c)[j] !in Elems(Neighbours(c)[..j]) && Neighbours(c)[j] != c
    ensures Neighbours(c)[j] !in placed
    ensures Elems(Neighbours(c)[..j + 1]) == Elems(Neighbours(c)[..j]) + {Neighbours(c)[j]}
  {
    var adj := Neighbours(c)[j];
    ElemsPrefixStep(Neighbours(c), j);
    NeighboursDistinct(c);
    assert adj !in Neighbours(c)[..j];
    assert adj in Elems(Neighbours(c));
    assert adj !in placed * Elems(Neighbours(c));
  }

  /** The first append, after its first j neighbours. */
  lemma {:induction false} AddAllPrefix(s: BorderState, c: Coord, placed: set<Coord>, j: nat)
    requires j <= 6 && BorderMid(s, {}, c, {}) && placed * Elems(Neighbours(c)) == {}
    ensures BorderMid(BorderAddAll(s, Neighbours(c)[..j], placed), Elems(Neighbours(c)[..j]), c, {})
  {
    if j == 0 {
      assert Neighbours(c)[..0] == [];
    } else {
      AddAllPrefix(s, c, placed, j - 1);
      assert Neighbours(c)[..j][..j - 1] == Neighbours(c)[..j - 1];
      AddSets(c, placed, j - 1);
      BorderInsertMid(BorderAddAll(s, Neighbours(c)[..j - 1], placed), Elems(Neighbours(c)[..j - 1]), c, {}, Neighbours(c)[j - 1]);
    }
  }

  /** The cells on the border after a later append has visited the first j
      neighbours of c, B being the border before the append. */
  function VisitR(B: set<Coord>, P: set<Coord>, c: Coord, j: nat): set<Coord>
    requires j <= 6
  {
    (B - {c}) + (Elems(Neighbours(c)[..j]) - P)
  }

  /** The border neighbours of c that still list it. */
  function VisitPending(B: set<Coord>, c: Coord, j: nat): set<Coord>
    requires j <= 6
  {
    B * Elems(Neighbours(c)[j..])
  }

  /** How the border and the pending cells change at the j-th neighbour
      of c. */
  lemma VisitSets(B: set<Coord>, P: set<Coord>, c: Coord, placed: set<Coord>, j: nat)
    requires j < 6 && c !in P && B !! P
    requires placed * Elems(Neighbours(c)) == P * Elems(Neighbours(c))
    ensures c !in VisitR(B, P, c, j) && Neighbours(c)[j] != c
    ensures Neighbours(c)[j] in VisitR(B, P, c, j) ==>
              Neighbours(c)[j] in VisitPending(B, c, j) && VisitR(B, P, c, j + 1) == VisitR(B, P, c, j) &&
              VisitPending(B, c, j + 1) == VisitPending(B, c, j) - {Neighbours(c)[j]}
    ensures Neighbours(c)[j] !in VisitR(B, P, c, j) && Neighbours(c)[j] in placed ==>
              VisitR(B, P, c, j + 1) == VisitR(B, P, c, j) && VisitPending(B, c, j + 1) == VisitPending(B, c, j)
    ensures Neighbours(c)[j] !in VisitR(B, P, c, j) && Neighbours(c)[j] !in placed ==>
              Neighbours(c)[j] !in VisitPending(B, c, j) &&
              VisitR(B, P, c, j + 1) == VisitR(B, P, c, j) + {Neighbours(c)[j]} &&
              VisitPending(B, c, j + 1) == VisitPending(B, c, j)
  {
    var ns := Neighbours(c);
    var adj := ns[j];
    NeighboursDistinct(c);
    assert c !in ns[..j] by {
      assert forall x :: x in ns[..j] ==> x in ns;
    }
    assert adj !in ns[..j];
    assert adj in Elems(ns);
    ElemsPrefixStep(ns, j);
    assert ns[j..] == [adj] + ns[j + 1..];
    assert adj !in ns[j + 1..];
    assert Elems(ns[j..]) == {adj} + Elems(ns[j + 1..]);
    if adj in placed {
      assert adj in placed * Elems(ns);
    } else {
      assert adj !in placed * Elems(ns);
    }
  }

  lemma VisitStep(t: BorderState, B: set<Coord>, P: set<Coord>, c: Coord, placed: set<Coord>, j: nat)
    requires j < 6 && c !in P && B !! P
    requires placed * Elems(Neighbours(c)) == P * Elems(Neighbours(c))
    requires BorderMid(t, VisitR(B, P, c, j), c, VisitPending(B, c, j))
    ensures BorderMid(BorderVisit(t, c, Neighbours(c)[j], placed), VisitR(B, P, c, j + 1), c, VisitPending(B, c, j + 1))
  {
    var adj := Neighbours(c)[j];
    var R, pending := VisitR(B, P, c, j), VisitPending(B, c, j);
    VisitSets(B, P, c, placed, j);
    if adj in t.nodes {
      VisitForget(t, R, c, pending, adj);
    } else if adj !in placed {
      BorderInsertMid(t, R, c, pending, adj);
    }
  }

  /** A border neighbour of c forgets it. */
  lemma VisitForget(t: BorderState, R: set<Coord>, c: Coord, pending: set<Coord>, adj: Coord)
    requires BorderMid(t, R, c, pending) && adj in R && adj in pending && c !in R
    ensures c in t.weights[adj]
    ensures BorderMid(t.(weights := t.weights[adj := RemoveFirst(t.weights[adj], c)]), R, c, pending - {adj})
  {
    assert c in Elems(t.weights[adj]);
    RemoveFirstDistinct(t.weights[adj], c);
  }

  lemma {:induction false} VisitPrefix(t: BorderState, B: set<Coord>, P: set<Coord>, c: Coord, placed: set<Coord>, j: nat)
    requires j <= 6 && c !in P && B !! P
    requires placed * Elems(Neighbours(c)) == P * Elems(Neighbours(c))
    requires BorderMid(t, VisitR(B, P, c, 0), c, VisitPending(B, c, 0))
    ensures BorderMid(BorderVisitAll(t, c, Neighbours(c)[..j], placed), VisitR(B, P, c, j), c, VisitPending(B, c, j))
  {
    if j == 0 {
      assert Neighbours(c)[..0] == [];
    } else {
      VisitPrefix(t, B, P, c, placed, j - 1);
      VisitAllSnoc(t, c, Neighbours(c), placed, j);
      VisitStep(BorderVisitAll(t, c, Neighbours(c)[..j - 1], placed), B, P, c, placed, j - 1);
    }
  }

  /** Visiting the first j neighbours is visiting the first j - 1, then
      the j-th. */
  lemma VisitAllSnoc(t: BorderState, c: Coord, ns: seq<Coord>, placed: set<Coord>, j: nat)
    requires t.weights.Keys == t.nodes.Keys && 0 < j <= |ns|
    ensures BorderVisitAll(t, c, ns[..j], placed) == BorderVisit(BorderVisitAll(t, c, ns[..j - 1], placed), c, ns[j - 1], placed)
  {
    assert ns[..j][..j - 1] == ns[..j - 1];
  }

  /** Taking c off the border leaves its border neighbours listing it. */
  lemma PopBorder(s: BorderState, B: set<Coord>, c: Coord)
    requires BorderHolds(s, B) && c in B
    ensures BorderMid(GraphState(s.nNodes - 1, s.nodes - {c}, s.weights - {c}, s.nodeToIndex),
                      B - {c}, c, B * Elems(Neighbours(c)))
  {
    var R := B - {c};
    var w := s.weights - {c};
    forall a | a in w
      ensures Distinct(w[a]) && Elems(w[a]) == (Elems(Neighbours(a)) * R) + (if a in B * Elems(Neighbours(c)) then {c} else {})
    {
      AdjacentSymmetric(a, c);
    }
  }

  lemma VisitStart(B: set<Coord>, P: set<Coord>, c: Coord)
    ensures VisitR(B, P, c, 0) == B - {c} && VisitPending(B, c, 0) == B * Elems(Neighbours(c))
  {
    assert Neighbours(c)[..0] == [] && Neighbours(c)[0..] == Neighbours(c);
  }

  lemma FirstBorder(c: Coord)
    ensures Border({}) == {} && Border({c}) == Elems(Neighbours(c))
  {
    BorderStep({}, c);
    NeighboursDistinct(c);
    assert c !in Elems(Neighbours(c));
  }

  lemma GrownBorder(P: set<Coord>, c: Coord)
    requires c !in P
    ensures VisitR(Border(P), P, c, 6) == Border(P + {c}) && VisitPending(Border(P), c, 6) == {}
  {
    assert Neighbours(c)[..6] == Neighbours(c) && Neighbours(c)[6..] == [];
    BorderStep(P, c);
    NeighboursDistinct(c);
    assert c !in Elems(Neighbours(c));
  }

  /** The first append to an empty border: the border becomes the six
      neighbours of the first cell. */
  lemma BorderFirstAppend(s: BorderState, c: Coord, placed: set<Coord>)
    requires BorderHolds(s, {}) && placed * Elems(Neighbours(c)) == {}
    ensures s.nodes == map[]
    ensures BorderHolds(BorderAddAll(s, Neighbours(c), placed), Elems(Neighbours(c)))
  {
    BorderHoldsMid(s, {}, c);
    AddAllPrefix(s, c, placed, 6);
    assert Neighbours(c)[..6] == Neighbours(c);
    BorderHoldsMid(BorderAddAll(s, Neighbours(c), placed), Elems(Neighbours(c)), c);
  }

  /** A later append of a border cell c, B being the border of P: the
      border becomes the border of the grown set. */
  lemma BorderLaterAppend(s: BorderState, B: set<Coord>, P: set<Coord>, c: Coord, placed: set<Coord>)
    requires BorderHolds(s, B) && c in B && c !in P && B !! P
    requires placed * Elems(Neighbours(c)) == P * Elems(Neighbours(c))
    ensures BorderHolds(BorderVisitAll(GraphState(s.nNodes - 1, s.nodes - {c}, s.weights - {c}, s.nodeToIndex), c, Neighbours(c), placed),
                        VisitR(B, P, c, 6))
  {
    var t := GraphState(s.nNodes - 1, s.nodes - {c}, s.weights - {c}, s.nodeToIndex);
    PopBorder(s, B, c);
    VisitStart(B, P, c);
    VisitPrefix(t, B, P, c, placed, 6);
    assert Neighbours(c)[..6] == Neighbours(c);
    assert VisitPending(B, c, 6) == {} by {
      assert Neighbours(c)[6..] == [];
    }
    BorderHoldsMid(BorderVisitAll(t, c, Neighbours(c), placed), VisitR(B, P, c, 6), c);
  }

  /** `HexagonBorderGraph.append` keeps the border graph equal to the border
      of the placed cells, with exact adjacency lists: it succeeds exactly
      when the border is empty (nothing placed yet) or holds the new cell.
      The hexagon graph may hold the new cell already or not yet. */
  lemma BorderAppendSpec(s: BorderState, P: set<Coord>, c: Coord, placed: set<Coord>)
    requires BorderOK(s, P) && c !in P
    requires placed == P || placed == P + {c}
    ensures BorderAppend(s, c, placed).Ok? <==> P == {} || c in Border(P)
    ensures BorderAppend(s, c, placed).Ok? ==> BorderOK(BorderAppend(s, c, placed).value, P + {c})
    ensures BorderAppend(s, c, placed).Err? ==> BorderAppend(s, c, placed).error == AssertionError
  {
    if P == {} {
      AppendToEmpty(s, c, placed);
    } else if c in Border(P) {
      AppendOnBorder(s, P, c, placed);
    } else {
      AppendOffBorder(s, P, c, placed);
    }
  }

  lemma AppendToEmpty(s: BorderState, c: Coord, placed: set<Coord>)
    requires BorderOK(s, {}) && (placed == {} || placed == {c})
    ensures BorderAppend(s, c, placed).Ok? && BorderOK(BorderAppend(s, c, placed).value, {c})
  {
    PlacedNear({}, c, placed);
    FirstBorder(c);
    BorderFirstAppend(s, c, placed);
  }

  lemma AppendOnBorder(s: BorderState, P: set<Coord>, c: Coord, placed: set<Coord>)
    requires BorderOK(s, P) && c !in P && P != {} && c in Border(P)
    requires placed == P || placed == P + {c}
    ensures BorderAppend(s, c, placed).Ok? && BorderOK(BorderAppend(s, c, placed).value, P + {c})
  {
    PlacedNear(P, c, placed);
    var B := Border(P);
    assert c in s.nodes;
    BorderLaterAppend(s, B, P, c, placed);
    GrownBorder(P, c);
  }

  lemma AppendOffBorder(s: BorderState, P: set<Coord>, c: Coord, placed: set<Coord>)
    requires BorderOK(s, P) && P != {} && c !in Border(P)
    ensures BorderAppend(s, c, placed) == Err(AssertionError)
  {
    BorderNonEmpty(P);
    assert s.nodes.Keys != {};
  }

  lemma PlacedNear(P: set<Coord>, c: Coord, placed: set<Coord>)
    requires c !in P && (placed == P || placed == P + {c})
    ensures placed * Elems(Neighbours(c)) == P * Elems(Neighbours(c))
  {
    NeighboursDistinct(c);
    assert c !in Elems(Neighbours(c));
  }

  /** The outcome of an append does not depend on whether the hexagon
      graph holds the new cell yet: only its neighbours are looked up. */
  lemma {:induction false} BorderAddAllPlaced(s: BorderState, adjs: seq<Coord>, p1: set<Coord>, p2: set<Coord>)
    requires s.weights.Keys == s.nodes.Keys
    requires forall a :: a in adjs ==> (a in p1 <==> a in p2)
    ensures BorderAddAll(s, adjs, p1) == BorderAddAll(s, adjs, p2)
  {
    if adjs != [] {
      BorderAddAllPlaced(s, adjs[..|adjs| - 1], p1, p2);
      assert adjs[|adjs| - 1] in adjs;
    }
  }

  lemma {:induction false} BorderVisitAllPlaced(s: BorderState, c: Coord, adjs: seq<Coord>, p1: set<Coord>, p2: set<Coord>)
    requires s.weights.Keys == s.nodes.Keys
    requires forall a :: a in adjs ==> (a in p1 <==> a in p2)
    ensures BorderVisitAll(s, c, adjs, p1) == BorderVisitAll(s, c, adjs, p2)
  {
    if adjs != [] {
      BorderVisitAllPlaced(s, c, adjs[..|adjs| - 1], p1, p2);
      assert adjs[|adjs| - 1] in adjs;
    }
  }

  lemma BorderAppendPlaced(s: BorderState, c: Coord, placed: set<Coord>)
    requires s.weights.Keys == s.nodes.Keys
    ensures BorderAppend(s, c, placed) == BorderAppend(s, c, placed + {c})
  {
    NeighboursDistinct(c);
    BorderAddAllPlaced(s, Neighbours(c), placed, placed + {c});
    if s.nodes != map[] && c in s.nodes {
      BorderVisitAllPlaced(GraphState(s.nNodes - 1, s.nodes - {c}, s.weights - {c}, s.nodeToIndex),
                           c, Neighbours(c), placed, placed + {c});
    }
  }

  /** The cells adjacent to the placed ones, each as a placeholder. */
  class HexagonBorderGraph {
    const name: string
    var nNodes: int
    var nodes: map<Coord, Coord>
    var weights: map<Coord, seq<Coord>>
    var nodeToIndex: map<Coord, int>

    function State(): BorderState
      reads this
    {
      GraphState(nNodes, nodes, weights, nodeToIndex)
    }

    constructor (name: string)
      ensures this.name == name && State() == GraphState(0, map[], map[], map[]) && BorderOK(State(), {})
    {
      this.name := name;
      nNodes, nodes, weights, nodeToIndex := 0, map[], map[], map[];
    }

    /** `append` of the cell c, with the hexagon graph's cells. */
    method Append(c: Cell, hexagons: HexagonGraph) returns (o: Outcome)
      requires weights.Keys == nodes.Keys
      modifies this
      ensures var r := BorderAppend(old(State()), c.coord, hexagons.nodes.Keys);
              (r.Ok? ==> o == Pass && State() == r.value) &&
              (r.Err? ==> o == Fail(r.error) && State() == old(State()))
    {
      var k := c.coord;
      if nodes == map[] {
        AddAll(Neighbours(k), hexagons);
        o := Pass;
      } else {
        if k !in nodes {
          return Fail(AssertionError);
        }
        nodes := nodes - {k};
        weights := weights - {k};
        nNodes := nNodes - 1;
        VisitAll(k, Neighbours(k), hexagons);
        o := Pass;
      }
    }

    /** The loop of the first append: every neighbour is added. */
    method AddAll(adj: seq<Coord>, hexagons: HexagonGraph)
      requires weights.Keys == nodes.Keys
      modifies this
      ensures State() == BorderAddAll(old(State()), adj, hexagons.nodes.Keys)
    {
      for i := 0 to |adj|
        invariant weights.Keys == nodes.Keys
        invariant State() == BorderAddAll(old(State()), adj[..i], hexagons.nodes.Keys)
      {
        assert adj[..i + 1][..i] == adj[..i];
        Add(adj[i], hexagons);
      }
      assert adj[..|adj|] == adj;
    }

    /** The loop of a later append: a neighbour on the border forgets k,
        any other one is added. */
    method VisitAll(k: Coord, adj: seq<Coord>, hexagons: HexagonGraph)
      requires weights.Keys == nodes.Keys
      modifies this
      ensures State() == BorderVisitAll(old(State()), k, adj, hexagons.nodes.Keys)
    {
      for i := 0 to |adj|
        invariant weights.Keys == nodes.Keys
        invariant State() == BorderVisitAll(old(State()), k, adj[..i], hexagons.nodes.Keys)
      {
        assert adj[..i + 1][..i] == adj[..i];
        if adj[i] in nodes {
          if k in weights[adj[i]] {
            weights := weights[adj[i] := RemoveFirst(weights[adj[i]], k)];
          }
        } else {
          Add(adj[i], hexagons);
        }
      }
      assert adj[..|adj|] == adj;
    }

    /** `add`: the cell a joins the border unless the hexagon graph holds it. */
    method Add(a: Coord, hexagons: HexagonGraph)
      requires weights.Keys == nodes.Keys
      modifies this
      ensures State() == BorderAdd(old(State()), a, hexagons.nodes.Keys)
    {
      if a !in hexagons.nodes {
        var ns := nodes[a := a];
        var w := weights[a := []];
        ghost var w0 := w;
        var adj := Neighbours(a);
        for i := 0 to 6
          invariant w == LinkAll(w0, ns.Keys, a, adj[..i])
        {
          assert adj[..i + 1][..i] == adj[..i];
          if adj[i] in ns {
            w := w[a := w[a] + [adj[i]]];
            w := w[adj[i] := w[adj[i]] + [a]];
          }
        }
        assert adj[..6] == adj;
        nodes, weights, nodeToIndex, nNodes := ns, w, nodeToIndex[a := nNodes], nNodes + 1;
      }
    }

    /** `remove` is not implemented. */
    method Remove() returns (o: Outcome)
      ensures o == Fail(NotImplementedError)
    {
      o := Fail(NotImplementedError);
    }
  }
}
