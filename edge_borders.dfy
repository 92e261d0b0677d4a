/** `EdgeBorderGraph` of the newer engine: the graph of the exposed edge
    segments. Appending a hexagon toggles each of its six segments: a segment
    already held is removed (the two cells now share it), any other one is
    added and linked to the held segments its hexagon reports as adjacent. */
module EdgeBorders {
  import opened Wrappers
  import opened Geometry
  import opened Frontier
  import opened Graphs

  /** The four fields of the graph; the lists hold the stored edges
      themselves, compared by segment and feature. */
  datatype EdgeBorderState = EdgeBorderState(nNodes: int, nodes: map<SpatialKey, EdgeNode>,
                                             weights: map<SpatialKey, seq<EdgeNode>>,
                                             nodeToIndex: map<SpatialKey, int>)

  /** The lists and the index cover exactly the stored edges. */
  predicate KeysAgree(s: EdgeBorderState) {
    s.weights.Keys == s.nodes.Keys && s.nodeToIndex.Keys == s.nodes.Keys
  }

  /** The invariant of the graph: the lists and the index cover the stored
      edges and the counter is their number. */
  predicate EdgeBorderOK(s: EdgeBorderState) {
    KeysAgree(s) && s.nNodes == |s.nodes|
  }

  /** One step of the linking loop of `add`: a held segment a and the new
      segment k list each other. */
  function LinkEdge(w: map<SpatialKey, seq<EdgeNode>>, nodes: map<SpatialKey, EdgeNode>, k: SpatialKey, a: SpatialKey)
    : (r: map<SpatialKey, seq<EdgeNode>>)
    requires k in nodes && nodes.Keys <= w.Keys
    ensures r.Keys == w.Keys
  {
    if a in nodes then
      var w1 := w[k := w[k] + [nodes[a]]];
      w1[a := w1[a] + [nodes[k]]]
    else w
  }

  function LinkEdges(w: map<SpatialKey, seq<EdgeNode>>, nodes: map<SpatialKey, EdgeNode>, k: SpatialKey, adj: seq<SpatialKey>)
    : (r: map<SpatialKey, seq<EdgeNode>>)
    requires k in nodes && nodes.Keys <= w.Keys
    ensures r.Keys == w.Keys
  {
    if adj == [] then w else LinkEdge(LinkEdges(w, nodes, k, adj[..|adj| - 1]), nodes, k, adj[|adj| - 1])
  }

  lemma LinkEdgesSnoc(w: map<SpatialKey, seq<EdgeNode>>, nodes: map<SpatialKey, EdgeNode>, k: SpatialKey,
                      adj: seq<SpatialKey>, i: nat)
    requires k in nodes && nodes.Keys <= w.Keys && i < |adj|
    ensures LinkEdges(w, nodes, k, adj[..i + 1]) == LinkEdge(LinkEdges(w, nodes, k, adj[..i]), nodes, k, adj[i])
  {
    assert adj[..i + 1][..i] == adj[..i];
  }

  /** `EdgeBorderGraph.add`: the edge is stored under its segment with the
      next index, then linked to the held segments adjacent to it. */
  function EdgeAdd(s: EdgeBorderState, e: Member<SpatialKey, EdgeNode>): (r: EdgeBorderState)
    requires KeysAgree(s)
    ensures KeysAgree(r) && r.nodes.Keys == s.nodes.Keys + {e.key}
  {
    var ns := s.nodes[e.key := e.node];
    EdgeBorderState(s.nNodes + 1, ns, LinkEdges(s.weights[e.key := []], ns, e.key, e.adjacent),
                    s.nodeToIndex[e.key := s.nNodes])
  }

  /** The unlinking loop of `remove`: each held adjacent segment whose list
      holds an edge equal to the removed one loses one copy of it. */
  function Forget(w: map<SpatialKey, seq<EdgeNode>>, nodes: map<SpatialKey, EdgeNode>, edge: EdgeNode, adj: seq<SpatialKey>)
    : (r: map<SpatialKey, seq<EdgeNode>>)
    requires nodes.Keys <= w.Keys
    ensures r.Keys == w.Keys
  {
    if adj == [] then w
    else
      var w1 := Forget(w, nodes, edge, adj[..|adj| - 1]);
      var a := adj[|adj| - 1];
      if a in nodes && edge in w1[a] then w1[a := RemoveFirst(w1[a], edge)] else w1
  }

  /** One more step of the unlinking loop: the first i+1 adjacent
      segments forget as the first i do, then segment i. */
  lemma ForgetSnoc(w: map<SpatialKey, seq<EdgeNode>>, nodes: map<SpatialKey, EdgeNode>, edge: EdgeNode,
                   adj: seq<SpatialKey>, i: nat)
    requires nodes.Keys <= w.Keys && i < |adj|
    ensures var w1 := Forget(w, nodes, edge, adj[..i]);
            Forget(w, nodes, edge, adj[..i + 1]) ==
            if adj[i] in nodes && edge in w1[adj[i]] then w1[adj[i] := RemoveFirst(w1[adj[i]], edge)] else w1
  {
    assert adj[..i + 1][..i] == adj[..i];
  }

  /** `EdgeBorderGraph.remove` of a held segment. */
  function EdgeRemove(s: EdgeBorderState, e: Member<SpatialKey, EdgeNode>): (r: EdgeBorderState)
    requires KeysAgree(s) && e.key in s.nodes
    ensures KeysAgree(r) && r.nodes.Keys == s.nodes.Keys - {e.key}
  {
    var ns := s.nodes - {e.key};
    EdgeBorderState(s.nNodes - 1, ns, Forget(s.weights - {e.key}, ns, e.node, e.adjacent), s.nodeToIndex - {e.key})
  }

  /** One step of `append`: a held segment is removed, any other added. */
  function EdgeToggle(s: EdgeBorderState, e: Member<SpatialKey, EdgeNode>): (r: EdgeBorderState)
    requires KeysAgree(s)
    ensures KeysAgree(r)
  {
    if e.key in s.nodes then EdgeRemove(s, e) else EdgeAdd(s, e)
  }

  function EdgeToggleAll(s: EdgeBorderState, es: seq<Member<SpatialKey, EdgeNode>>): (r: EdgeBorderState)
    requires KeysAgree(s)
    ensures KeysAgree(r)
  {
    if es == [] then s else EdgeToggle(EdgeToggleAll(s, es[..|es| - 1]), es[|es| - 1])
  }

  /** `EdgeBorderGraph.append` of a hexagon. */
  function EdgeBorderAppend(s: EdgeBorderState, c: Cell): (r: EdgeBorderState)
    requires KeysAgree(s)
    ensures KeysAgree(r)
  {
    EdgeToggleAll(s, c.edges)
  }

  /** No two members share a segment. */
  predicate DistinctKeys(es: seq<Member<SpatialKey, EdgeNode>>) {
    forall i, j :: 0 <= i < j < |es| ==> es[i].key != es[j].key
  }

  /** A toggle keeps the counter equal to the number of held segments, and
      flips the membership of the toggled segment. */
  lemma ToggleOK(s: EdgeBorderState, e: Member<SpatialKey, EdgeNode>)
    requires EdgeBorderOK(s)
    ensures EdgeBorderOK(EdgeToggle(s, e))
    ensures e.key in EdgeToggle(s, e).nodes <==> e.key !in s.nodes
    ensures EdgeToggle(s, e).nodes.Keys - {e.key} == s.nodes.Keys - {e.key}
  {
    if e.key in s.nodes {
      assert |s.nodes.Keys - {e.key}| == |s.nodes.Keys| - 1;
    } else {
      assert |s.nodes.Keys + {e.key}| == |s.nodes.Keys| + 1;
    }
  }

  /** Toggling segments that are pairwise distinct leaves held exactly the
      segments held before or toggled, but not both; the counter stays the
      number of held segments. */
  lemma {:induction false} ToggleAllKeys(s: EdgeBorderState, es: seq<Member<SpatialKey, EdgeNode>>)
    requires EdgeBorderOK(s) && DistinctKeys(es)
    ensures EdgeBorderOK(EdgeToggleAll(s, es))
    ensures EdgeToggleAll(s, es).nodes.Keys == (s.nodes.Keys - MemberKeys(es)) + (MemberKeys(es) - s.nodes.Keys)
  {
    if es != [] {
      var init := es[..|es| - 1];
      var e := es[|es| - 1];
      ToggleAllKeys(s, init);
      MemberKeysSnoc(es);
      var t := EdgeToggleAll(s, init);
      ToggleOK(t, e);
      LastKeyNew(es);
      ToggleKeysStep(s.nodes.Keys, MemberKeys(init), t.nodes.Keys, EdgeToggle(t, e).nodes.Keys, e.key);
    }
  }

  lemma LastKeyNew(es: seq<Member<SpatialKey, EdgeNode>>)
    requires es != [] && DistinctKeys(es)
    ensures DistinctKeys(es[..|es| - 1]) && es[|es| - 1].key !in MemberKeys(es[..|es| - 1])
  {
    var init := es[..|es| - 1];
    forall i | 0 <= i < |init| ensures init[i].key != es[|es| - 1].key {
      assert init[i] == es[i];
    }
  }

  lemma ToggleKeysStep<T>(S: set<T>, K: set<T>, T1: set<T>, T2: set<T>, x: T)
    requires x !in K && T1 == (S - K) + (K - S)
    requires (x in T2 <==> x !in T1) && T2 - {x} == T1 - {x}
    ensures T2 == (S - (K + {x})) + ((K + {x}) - S)
  {
    forall y ensures y in T2 <==> y in (S - (K + {x})) + ((K + {x}) - S) {
      if y != x {
        assert y in T2 <==> y in T2 - {x};
        assert y in T1 <==> y in T1 - {x};
      }
    }
  }

  lemma CellKeys(c: Cell)
    requires c.EdgesInPlace()
    ensures MemberKeys(c.edges) == Own(c.coord, 6)
    ensures DistinctKeys(c.edges)
  {
    forall i, j | 0 <= i < j < |c.edges| ensures c.edges[i].key != c.edges[j].key {
      EdgeKeysDistinct(c.coord, i, j);
    }
  }

  /** Appending a new hexagon keeps the graph holding exactly the exposed
      segments of the placed cells: the segments shared with a placed
      neighbour go, the others come. */
  lemma EdgeBorderAppendExposed(s: EdgeBorderState, P: set<Coord>, c: Cell)
    requires EdgeBorderOK(s) && s.nodes.Keys == Exposed(P)
    requires c.EdgesInPlace() && c.coord !in P
    ensures EdgeBorderOK(EdgeBorderAppend(s, c))
    ensures EdgeBorderAppend(s, c).nodes.Keys == Exposed(P + {c.coord})
  {
    CellKeys(c);
    ToggleAllKeys(s, c.edges);
    ExposedAdd(P, c.coord);
  }

  /** The edges held at the given segments. */
  function HeldAt(adj: seq<SpatialKey>, nodes: map<SpatialKey, EdgeNode>): set<EdgeNode> {
    set a | a in adj && a in nodes :: nodes[a]
  }

  lemma HeldAtSnoc(adj: seq<SpatialKey>, nodes: map<SpatialKey, EdgeNode>)
    requires adj != []
    ensures HeldAt(adj, nodes) ==
            HeldAt(adj[..|adj| - 1], nodes) + (if adj[|adj| - 1] in nodes then {nodes[adj[|adj| - 1]]} else {})
  {
    var init, x := adj[..|adj| - 1], adj[|adj| - 1];
    assert adj == init + [x];
    assert forall a :: a in adj <==> a in init || a == x;
  }

  /** The linking loop lists at k every edge held at an adjacent segment,
      and adds one copy of k's edge to each adjacent held list. */
  lemma {:induction false} LinkEdgesLists(w: map<SpatialKey, seq<EdgeNode>>, nodes: map<SpatialKey, EdgeNode>, k: SpatialKey, adj: seq<SpatialKey>)
    requires k in nodes && nodes.Keys <= w.Keys && k !in adj && Distinct(adj)
    ensures Elems(LinkEdges(w, nodes, k, adj)[k]) == Elems(w[k]) + HeldAt(adj, nodes)
    ensures forall a :: a in w && a != k ==>
              multiset(LinkEdges(w, nodes, k, adj)[a]) ==
              multiset(w[a]) + (if a in adj && a in nodes then multiset{nodes[k]} else multiset{})
  {
    LinkEdgesOwn(w, nodes, k, adj);
    forall a | a in w && a != k
      ensures multiset(LinkEdges(w, nodes, k, adj)[a]) ==
              multiset(w[a]) + (if a in adj && a in nodes then multiset{nodes[k]} else multiset{})
    {
      LinkEdgesAt(w, nodes, k, adj, a);
    }
  }

  lemma {:induction false} LinkEdgesOwn(w: map<SpatialKey, seq<EdgeNode>>, nodes: map<SpatialKey, EdgeNode>, k: SpatialKey, adj: seq<SpatialKey>)
    requires k in nodes && nodes.Keys <= w.Keys && k !in adj
    ensures Elems(LinkEdges(w, nodes, k, adj)[k]) == Elems(w[k]) + HeldAt(adj, nodes)
  {
    if adj != [] {
      var init, x := adj[..|adj| - 1], adj[|adj| - 1];
      assert adj == init + [x];
      LinkEdgesOwn(w, nodes, k, init);
      HeldAtSnoc(adj, nodes);
      LinkOwn(LinkEdges(w, nodes, k, init), nodes, k, x);
    }
  }

  lemma {:induction false} LinkEdgesAt(w: map<SpatialKey, seq<EdgeNode>>, nodes: map<SpatialKey, EdgeNode>, k: SpatialKey, adj: seq<SpatialKey>, a: SpatialKey)
    requires k in nodes && nodes.Keys <= w.Keys && Distinct(adj) && a in w && a != k
    ensures multiset(LinkEdges(w, nodes, k, adj)[a]) ==
            multiset(w[a]) + (if a in adj && a in nodes then multiset{nodes[k]} else multiset{})
  {
    if adj != [] {
      var init, x := adj[..|adj| - 1], adj[|adj| - 1];
      assert adj == init + [x];
      assert Distinct(init) && x !in init;
      assert a in adj <==> a in init || a == x;
      LinkEdgesAt(w, nodes, k, init, a);
      LinkAt(LinkEdges(w, nodes, k, init), nodes, k, x, a);
    }
  }

  lemma LinkOwn(r1: map<SpatialKey, seq<EdgeNode>>, nodes: map<SpatialKey, EdgeNode>, k: SpatialKey, x: SpatialKey)
    requires k in nodes && nodes.Keys <= r1.Keys && x != k
    ensures Elems(LinkEdge(r1, nodes, k, x)[k]) == Elems(r1[k]) + (if x in nodes then {nodes[x]} else {})
  {
    if x in nodes {
      assert Elems(r1[k] + [nodes[x]]) == Elems(r1[k]) + {nodes[x]};
    }
  }

  lemma LinkAt(r1: map<SpatialKey, seq<EdgeNode>>, nodes: map<SpatialKey, EdgeNode>, k: SpatialKey, x: SpatialKey, a: SpatialKey)
    requires k in nodes && nodes.Keys <= r1.Keys && a in r1 && a != k
    ensures multiset(LinkEdge(r1, nodes, k, x)[a]) ==
            multiset(r1[a]) + (if a == x && x in nodes then multiset{nodes[k]} else multiset{})
  {
  }

  /** The unlinking loop removes one copy of the edge from each adjacent
      held list that holds it, and changes no other list. */
  lemma ForgetLists(w: map<SpatialKey, seq<EdgeNode>>, nodes: map<SpatialKey, EdgeNode>, edge: EdgeNode, adj: seq<SpatialKey>)
    requires nodes.Keys <= w.Keys && Distinct(adj)
    ensures forall a :: a in w ==>
              multiset(Forget(w, nodes, edge, adj)[a]) ==
              multiset(w[a]) - (if a in adj && a in nodes then multiset{edge} else multiset{})
  {
    forall a | a in w
      ensures multiset(Forget(w, nodes, edge, adj)[a]) ==
              multiset(w[a]) - (if a in adj && a in nodes then multiset{edge} else multiset{})
    {
      ForgetAt(w, nodes, edge, adj, a);
    }
  }

  lemma {:induction false} ForgetAt(w: map<SpatialKey, seq<EdgeNode>>, nodes: map<SpatialKey, EdgeNode>, edge: EdgeNode, adj: seq<SpatialKey>, a: SpatialKey)
    requires nodes.Keys <= w.Keys && Distinct(adj) && a in w
    ensures multiset(Forget(w, nodes, edge, adj)[a]) ==
            multiset(w[a]) - (if a in adj && a in nodes then multiset{edge} else multiset{})
  {
    if adj != [] {
      ForgetAt(w, nodes, edge, adj[..|adj| - 1], a);
      ForgetLast(w, nodes, edge, adj, a);
    }
  }

  /** The last step of the unlinking loop, for the list of a. */
  lemma ForgetLast(w: map<SpatialKey, seq<EdgeNode>>, nodes: map<SpatialKey, EdgeNode>, edge: EdgeNode, adj: seq<SpatialKey>, a: SpatialKey)
    requires nodes.Keys <= w.Keys && Distinct(adj) && a in w && adj != []
    requires var init := adj[..|adj| - 1];
             multiset(Forget(w, nodes, edge, init)[a]) ==
             multiset(w[a]) - (if a in init && a in nodes then multiset{edge} else multiset{})
    ensures multiset(Forget(w, nodes, edge, adj)[a]) ==
            multiset(w[a]) - (if a in adj && a in nodes then multiset{edge} else multiset{})
  {
    var init, x := adj[..|adj| - 1], adj[|adj| - 1];
    assert adj == init + [x];
    assert Distinct(init) && x !in init;
    assert a in adj <==> a in init || a == x;
    var w1 := Forget(w, nodes, edge, init);
    if a == x && x in nodes {
      assert multiset(w1[x]) == multiset(w[x]);
      if edge !in w1[x] {
        assert multiset(w1[x])[edge] == 0;
        assert multiset(w1[x]) - multiset{edge} == multiset(w1[x]);
      }
    }
  }

  /** `add` of a fresh segment whose adjacency lists it once each and not
      itself: its list holds the adjacent held edges, and each of their lists
      gains one copy of the new edge. */
  lemma EdgeAddLists(s: EdgeBorderState, e: Member<SpatialKey, EdgeNode>)
    requires KeysAgree(s) && e.key !in s.nodes && e.key !in e.adjacent && Distinct(e.adjacent)
    ensures Elems(EdgeAdd(s, e).weights[e.key]) == HeldAt(e.adjacent, s.nodes)
    ensures forall a :: a in s.nodes ==>
              multiset(EdgeAdd(s, e).weights[a]) ==
              multiset(s.weights[a]) + (if a in e.adjacent then multiset{e.node} else multiset{})
  {
    var ns := s.nodes[e.key := e.node];
    LinkEdgesLists(s.weights[e.key := []], ns, e.key, e.adjacent);
    assert HeldAt(e.adjacent, ns) == HeldAt(e.adjacent, s.nodes);
    assert Elems<EdgeNode>([]) == {};
  }

  /** `remove` of a held segment whose adjacency lists each segment once:
      each adjacent held list loses one copy of the removed edge, if it has
      one, and no other list changes. */
  lemma EdgeRemoveLists(s: EdgeBorderState, e: Member<SpatialKey, EdgeNode>)
    requires KeysAgree(s) && e.key in s.nodes && Distinct(e.adjacent)
    ensures forall a :: a in EdgeRemove(s, e).nodes ==>
              multiset(EdgeRemove(s, e).weights[a]) ==
              multiset(s.weights[a]) - (if a in e.adjacent then multiset{e.node} else multiset{})
  {
    ForgetLists(s.weights - {e.key}, s.nodes - {e.key}, e.node, e.adjacent);
  }

  /** `remove` unlinks the edge it is given, not the edge stored under its
      segment: when the two differ (same segment, another feature), every
      copy of the stored edge stays in the lists of the held segments, which
      then name an edge the graph no longer holds. */
  lemma RemoveKeepsStoredEdge(s: EdgeBorderState, e: Member<SpatialKey, EdgeNode>, a: SpatialKey)
    requires KeysAgree(s) && e.key in s.nodes && Distinct(e.adjacent)
    requires a in s.nodes && a != e.key && s.nodes[e.key] != e.node
    ensures e.key !in EdgeRemove(s, e).nodes && a in EdgeRemove(s, e).nodes
    ensures multiset(EdgeRemove(s, e).weights[a])[s.nodes[e.key]] == multiset(s.weights[a])[s.nodes[e.key]]
  {
    EdgeRemoveLists(s, e);
  }

  /** `remove` lowers the counter without renumbering the segments still
      held: when the segment numbered last is one of them, the next `add`
      gives its index to the new segment too. */
  lemma RemoveThenAddSharesIndex(s: EdgeBorderState, e: Member<SpatialKey, EdgeNode>,
                                 e2: Member<SpatialKey, EdgeNode>, k: SpatialKey)
    requires KeysAgree(s) && e.key in s.nodes && e2.key !in s.nodes
    requires k in s.nodes && k != e.key && s.nodeToIndex[k] == s.nNodes - 1
    ensures var r := EdgeAdd(EdgeRemove(s, e), e2);
            k in r.nodes && e2.key in r.nodes && k != e2.key && r.nodeToIndex[k] == r.nodeToIndex[e2.key]
  {
  }

  /** A run that reaches the shared index from an empty graph: add two
      segments, remove the first, add a third; the second and the third are
      both numbered 1. */
  lemma SharedIndexExample()
    ensures var m1 := Member({Point(0, 0)}, EdgeNode({Point(0, 0)}, "f"), []);
            var m2 := Member({Point(1, 0)}, EdgeNode({Point(1, 0)}, "f"), []);
            var m3 := Member({Point(2, 0)}, EdgeNode({Point(2, 0)}, "f"), []);
            var s := EdgeAdd(EdgeAdd(EdgeBorderState(0, map[], map[], map[]), m1), m2);
            var r := EdgeAdd(EdgeRemove(s, m1), m3);
            m2.key != m3.key && m2.key in r.nodes && m3.key in r.nodes &&
            r.nodeToIndex[m2.key] == 1 && r.nodeToIndex[m3.key] == 1
  {
    assert Point(1, 0) in {Point(1, 0)};
  }

  /** The exposed edge segments. */
  class EdgeBorderGraph {
    const name: string
    var nNodes: int
    var nodes: map<SpatialKey, EdgeNode>
    var weights: map<SpatialKey, seq<EdgeNode>>
    var nodeToIndex: map<SpatialKey, int>

    function State(): EdgeBorderState
      reads this
    {
      EdgeBorderState(nNodes, nodes, weights, nodeToIndex)
    }

    constructor (name: string)
      ensures this.name == name && State() == EdgeBorderState(0, map[], map[], map[])
      ensures EdgeBorderOK(State()) && State().nodes.Keys == Exposed({})
    {
      this.name := name;
      nNodes, nodes, weights, nodeToIndex := 0, map[], map[], map[];
    }

    /** `append`: each edge of the hexagon is removed if held, added if not. */
    method Append(c: Cell)
      requires KeysAgree(State())
      modifies this
      ensures State() == EdgeBorderAppend(old(State()), c)
    {
      for i := 0 to |c.edges|
        invariant KeysAgree(State())
        invariant State() == EdgeToggleAll(old(State()), c.edges[..i])
      {
        assert c.edges[..i + 1][..i] == c.edges[..i];
        var e := c.edges[i];
        if e.key in nodes {
          var o := Remove(e);
        } else {
          Add(e);
        }
      }
      assert c.edges[..|c.edges|] == c.edges;
    }

    /** `add`: store the edge, then link it to each adjacent held segment. */
    method Add(e: Member<SpatialKey, EdgeNode>)
      requires KeysAgree(State())
      modifies this
      ensures State() == EdgeAdd(old(State()), e)
    {
      var k := e.key;
      var ns := nodes[k := e.node];
      var w := weights[k := []];
      ghost var w0 := w;
      for i := 0 to |e.adjacent|
        invariant w == LinkEdges(w0, ns, k, e.adjacent[..i])
        modifies {}
      {
        LinkEdgesSnoc(w0, ns, k, e.adjacent, i);
        ghost var before := w;
        var a := e.adjacent[i];
        if a in ns {
          w := w[k := w[k] + [ns[a]]];
          w := w[a := w[a] + [ns[k]]];
        }
        assert w == LinkEdge(before, ns, k, a);
      }
      assert e.adjacent[..|e.adjacent|] == e.adjacent;
      assert w == LinkEdges(w0, ns, k, e.adjacent);
      nodes, nodeToIndex, weights, nNodes := ns, nodeToIndex[k := nNodes], w, nNodes + 1;
    }

    /** `remove`: a segment that is not held is a key error; otherwise it is
        dropped and each adjacent held list forgets one copy of it. */
    method Remove(e: Member<SpatialKey, EdgeNode>) returns (o: Outcome)
      requires KeysAgree(State())
      modifies this
      ensures e.key in old(nodes) ==> o == Pass && State() == EdgeRemove(old(State()), e)
      ensures e.key !in old(nodes) ==> o == Fail(KeyError) && State() == old(State())
    {
      var k := e.key;
      if k !in nodes {
        return Fail(KeyError);
      }
      var ns, index, n := nodes - {k}, nodeToIndex - {k}, nNodes - 1;
      var w := weights - {k};
      ghost var w0 := w;
      for i := 0 to |e.adjacent|
        invariant w.Keys == w0.Keys
        invariant w == Forget(w0, ns, e.node, e.adjacent[..i])
      {
        ForgetSnoc(w0, ns, e.node, e.adjacent, i);
        var a := e.adjacent[i];
        if a in ns && e.node in w[a] {
          w := w[a := RemoveFirst(w[a], e.node)];
        }
      }
      assert e.adjacent[..|e.adjacent|] == e.adjacent;
      nodes, nodeToIndex, weights, nNodes := ns, index, w, n;
      o := Pass;
    }
  }
}
