# polyhex in Dafny

A model of polyhex, a library for building shapes out of hexagonal tiles
(polyhexes) on an axial hex grid, as used by a Cascadia game environment.
The model covers both engines of the library and the rules built on them.

- **Grid geometry** (`Geometry`, `Frontier`, `Pairs`): the six neighbours
  of a cell, the display transform, the vertices and edge keys of a cell,
  the border of a set of placed cells, and the balls and rings a spiral
  grows through. `Pairs` lists the ordered index pairs that the
  `get_graph_edges` methods enumerate.
- **Configuration guards** (`Decorators`): the decorators that accept only
  the axial system, pointy tops and clockwise vertex order.
- **The older engine** (`OldNodes`, `OldEdges`, `Hexagons`, `Partition`,
  `OldPolyhexes`):
  - a `Hexagon` with a centre node, six vertex nodes and six edges;
  - a `Polyhex` class that places hexagons one at a time;
  - the polyhex keeps one disjoint set of cells per habitat feature. Each set
    is merged across edges whose two sides carry the same feature;
  - the polyhex keeps the exposed edges of the shape, each with a
    placeholder hexagon across it;
  - the polyhex keeps a dense table linking every exposed edge to every
    other. Each link records the distance between the two placeholders,
    whether their features agree, and whether the inner cells share an area.
- **The newer engine** (`Nodes`, `Edges`, `Graphs`, `EdgeBorders`,
  `Polyhexes`, `Tilings`, `Shapes`):
  - node and edge values with their spatial and feature keys;
  - the graph classes of a hypergraph: hexagons, vertices, edges, exposed
    edges and border cells;
  - the `Polyhex` class that builds shapes by appending hexagons to every
    graph. It builds shapes from a list, from a number of cells, as a spiral
    or as a tiling.
- **Rules** (`Scoring`): the points table of the solitary-hawk card and the
  habitat total.
- **Training** (`Training`): parsing a row of the tile table and drawing a
  tile from the pool.

Python exceptions are returned as values:
- `Result` is an `Ok` value or an `Err`;
- `Outcome` is `Pass` or `Fail`, for operations that return nothing on
  success;
- the error carries the exception class (`AssertionError`, `ValueError`,
  `NotImplementedError`, `KeyError`, `IndexError`, ...).

Objects whose fields the source updates in place are classes with
`modifies` clauses. Keys and encodings are values.

## Model

| member | source | states |
|---|---|---|
| Decorators.OrientationGuard | polyhex/objects/decorators.py:5-16 | the method runs exactly for `clockwise`; `counterclockwise` raises NotImplementedError and every other value ValueError |
| Decorators.SystemGuard | polyhex/objects/decorators.py:18-29 | the method runs exactly for `axial`; NotImplementedError exactly for `offset`, `cube` and `doubled`; ValueError otherwise |
| Decorators.TopGuard | polyhex/objects/decorators.py:31-42 | the method runs exactly for `pointy`; `flat` raises NotImplementedError and every other value ValueError |
| Decorators.Guarded | polyhex/objects/decorators.py:8-15 | the call succeeds exactly when the guard lets it run, and then returns the wrapped method's result; otherwise it fails with the guard's error |
| Decorators.ErrorIgnoresMethod | polyhex/objects/decorators.py:12-15 | on an error path the outcome is the same whatever the wrapped method is: it is never invoked |
| Decorators.GuardsAcceptOneVariant | polyhex/objects/decorators.py:9-10 | each guard lets exactly one value through |
| Geometry.Neighbours | polyhex/objects/hexagons.py:222-230 | a cell has six neighbours, listed clockwise from the upper right |
| Geometry.Opposite | polyhex/objects/hexagons.py:222-230 | the opposite edge index (i + 3) mod 6 is a different index below 6 |
| Geometry.Distance | polyhex/objects/old_polyhexes.py:242-244 | the distance \|dq\| + \|dr\| is zero exactly for the same cell |
| Geometry.Vertices | polyhex/objects/hexagons.py:133-151 | six vertices; vertex i is the centre's display position plus the i-th clockwise offset |
| Geometry.EdgeKey | polyhex/objects/hexagons.py:180-189 | edge i joins vertex i and vertex (i + 1) mod 6, two different points |
| Geometry.NeighbourOfNeighbour | polyhex/objects/hexagons.py:222-230 | a cell is the opposite neighbour of each of its neighbours |
| Geometry.DistanceSymmetric | polyhex/objects/old_polyhexes.py:242-244 | the distance is symmetric |
| Geometry.AdjacentSymmetric | polyhex/objects/hexagons.py:222-230 | adjacency is symmetric |
| Geometry.NeighboursDistinct | polyhex/objects/hexagons.py:222-230 | the six neighbours differ from each other and from the cell |
| Geometry.AxialToCartesianInjective | polyhex/objects/hexagons.py:207-219 | the display transform x = 2q + r, y = -3r sends different cells to different points |
| Geometry.SharedEdge | polyhex/objects/hexagons.py:133-151 | edge i of a cell and edge (i + 3) mod 6 of its i-th neighbour have the same end points |
| Geometry.SharedEdgeUnique | polyhex/objects/hexagons.py:180-189 | two cells' edges share their end points only as the same edge of the same cell or across the edge that faces the other cell |
| Geometry.EdgeKeysDistinct | polyhex/objects/hexagons.py:180-189 | the six edges of one cell have six different keys |
| Edges.HexagonEdge.Distance | polyhex/objects/edges.py:101-109 | the `path` distance is 1 exactly when the edges share an end vertex and 0 otherwise; any other keyword raises NotImplementedError |
| Edges.HexagonEdge.Encoding | polyhex/objects/edges.py:43-48 | the feature code then the token code, both looked up in the tables; a missing entry is a KeyError |
| Edges.NewEdge | polyhex/objects/edges.py:33-41 | a new edge keeps its end vertices and feature and carries the `placeholder` token |
| Edges.KeysIgnoreDirection | polyhex/objects/edges.py:34-35 | swapping start and end changes neither the spatial key nor the feature key |
| Edges.EqualMeansSameSegmentAndFeature | polyhex/objects/edges.py:112-113 | two edges are equal exactly when they join the same end points and carry the same feature |
| Edges.PathDistanceSymmetric | polyhex/objects/edges.py:101-107 | the path distance is symmetric, and an edge is at distance 1 from itself |
| Nodes.Node.New | polyhex/objects/nodes.py:33-49 | a node starts with the `placeholder` token and keeps its kind and feature; only pointy-top hexagons are implemented, any other top raises NotImplementedError |
| Nodes.Node.constructor | polyhex/objects/nodes.py:118-126 | the node's identity (centre coordinate or vertex point and index) and feature are fixed, the token is `placeholder` |
| Nodes.Node.Encoding | polyhex/objects/nodes.py:51-56 | the feature code and token code from the tables; a missing entry is a KeyError |
| Nodes.Node.AddToken | polyhex/objects/nodes.py:112-116 | the token is replaced exactly when the compatibility table lists it for the node's feature; otherwise an AssertionError (or KeyError for an unknown feature) and the token is unchanged |
| Nodes.Node.HashInput | polyhex/objects/nodes.py:149-150 | a centre hashes on its hex coordinate, a vertex on its point and feature |
| Nodes.EqualIffSameHash | polyhex/objects/nodes.py:140-150 | two nodes are equal exactly when their hash inputs coincide, so equal nodes share a dictionary slot |
| Nodes.EqualEquivalence | polyhex/objects/nodes.py:191-197 | node equality is reflexive, symmetric and transitive |
| OldNodes.OldNode.New | polyhex/objects/old_nodes.py:11-35 | a node needs hex or cartesian coordinates (AssertionError otherwise) and a feature with a slot encoding (KeyError otherwise); a new node is free, has no token and no scaled position |
| OldNodes.OldNode.constructor | polyhex/objects/old_nodes.py:17-35 | the fields of a node just built: coordinates as given, the slot encoding of its feature, free and without a token |
| OldNodes.OldNode.EqualsOperator | polyhex/objects/old_nodes.py:46-47 | `==` on nodes always raises NotImplementedError |
| OldNodes.OldNode.Equal | polyhex/objects/old_nodes.py:49-57 | an unknown coordinate kind is an AssertionError; hex coordinates compare directly; scaled positions compare when both exist, are unequal when only one exists, and fail with AttributeError when neither does |
| OldNodes.OldNode.SetCartesianCoord | polyhex/objects/old_nodes.py:71-77 | the setter changes the scaled position only, leaving occupation and token alone |
| OldNodes.EqualSymmetric | polyhex/objects/old_nodes.py:49-57 | `equal` is symmetric, and reflexive wherever it succeeds |
| OldEdges.NewEdge | polyhex/objects/old_edges.py:87-109 | the edge joins the two vertices with their cartesian vectors as spatial key; a feature without a habitat code is a KeyError; no feature means no encoding |
| OldEdges.KeyIdentifiesSegmentAndFeature | polyhex/objects/old_edges.py:105-108 | two edge keys are equal exactly when they have the same end-point set and the same feature |
| OldEdges.KeysIgnoreDirection | polyhex/objects/old_edges.py:105-108 | swapping the two vertices changes neither the key nor the spatial key |
| OldEdges.EqualsWhenLocated | polyhex/objects/old_edges.py:150-155 | once all end vertices have scaled positions, edge equality is the match of end points in either order, and it is symmetric |
| Hexagons.Broadcast | polyhex/objects/hexagons.py:153-159 | a feature list of length 1 is repeated to six entries, one of length 6 is kept, any other length is a ValueError |
| Hexagons.CheckArguments | polyhex/objects/hexagons.py:33-64 | construction fails exactly when an argument is outside what is accepted, with the error of the first failing check in the order the constructor runs them |
| Hexagons.UnimplementedVariants | polyhex/objects/hexagons.py:98-106 | the offset, cube and doubled systems and flat tops are accepted by the assertions and then raise NotImplementedError |
| Hexagons.RadiusOnlyTypeChecked | polyhex/objects/hexagons.py:108-109 | the radius is only checked to be a number: a float radius of any value, even negative, passes |
| Hexagons.FeatureLengthChecked | polyhex/objects/hexagons.py:153-176 | with valid earlier arguments, vertex and edge feature lists of a length other than 1 or 6 are a ValueError |
| Hexagons.KeysWithFeature | polyhex/objects/hexagons.py:179-194 | the keys of exactly the edges that carry the feature, none when no edge does |
| Hexagons.CreateVertices | polyhex/objects/hexagons.py:133-168 | six distinct new free vertex nodes, vertex i at the i-th clockwise offset from the centre |
| Hexagons.CreateEdges | polyhex/objects/hexagons.py:170-194 | edge i joins vertex i to vertex i+1 mod 6 with feature i, `edges_to_feature` maps each edge key to its feature and `feature_to_edges` lists each feature's keys in edge order |
| Hexagons.FeatureMapsStep | polyhex/objects/hexagons.py:190-194 | registering one more edge with a new key keeps both feature maps exact |
| Hexagons.ScaleNodes | polyhex/objects/hexagons.py:125-131 | the centre and each vertex get their display vector scaled by the minimal dimensions, occupation untouched |
| Hexagons.Hexagon.Adjency | polyhex/objects/hexagons.py:222-230 | the six neighbour coordinates, in the clockwise order of the geometry |
| Hexagons.Hexagon.constructor | polyhex/objects/hexagons.py:21-71 | a built hexagon is well formed (vertices, edges and feature maps as above), free, with a free centre carrying the node feature and scaled positions |
| Hexagons.Hexagon.Create | polyhex/objects/hexagons.py:21-71 | construction fails exactly when the argument checks do, with their error; otherwise the hexagon sits at the given axial coordinate with the given radius and features |
| Hexagons.Hexagon.AddToken | polyhex/objects/hexagons.py:311-318 | a token is placed exactly when the hexagon and its centre are free and the token's habitats include the hexagon's feature; then both become occupied by it, otherwise nothing changes |
| Hexagons.Hexagon.GetVertex | polyhex/objects/hexagons.py:328-331 | an int index in 0..5 gives that vertex, at its clockwise offset; anything else is an AssertionError |
| Hexagons.Hexagon.GetEdge | polyhex/objects/hexagons.py:333-336 | an int index in 0..5 gives that edge, whose spatial key is the geometric edge key; anything else is an AssertionError |
| Hexagons.Hexagon.GetGraphEdges | polyhex/objects/hexagons.py:344-354 | one entry for every ordered pair of distinct edge indices, in row order, with attribute 1 exactly when the two edges share a feature |
| Hexagons.Hexagon.GraphEdgesRow | polyhex/objects/hexagons.py:349-353 | the inner loop appends row i of the ordered pairs with their attributes |
| Hexagons.WellFormedLocated | polyhex/objects/hexagons.py:170-194 | edge j of a built hexagon has index j, runs from vertex j to vertex j+1 mod 6 and has an encoding exactly when it has a feature |
| Hexagons.EqMeansSameCellAndRadius | polyhex/objects/hexagons.py:320-326 | two built hexagons are equal exactly when they share the centre coordinate and the radius |
| Hexagons.EqualHexagonsHashAlike | polyhex/objects/hexagons.py:378-386 | equal hexagons hash alike |
| Hexagons.EqEquivalence | polyhex/objects/hexagons.py:378-379 | hexagon equality is reflexive, symmetric and transitive |
| Hexagons.NeighbourEdgeShared | polyhex/objects/hexagons.py:222-230 | edge i of a hexagon and the opposite edge of its i-th neighbour have the same spatial key, and the same key when their features agree |
| Pairs.Row | polyhex/objects/hexagons.py:349-353 | row i of the pairs below j holds j-1 pairs when i < j and j otherwise |
| Pairs.RowMembers | polyhex/objects/hexagons.py:349-353 | row i holds exactly the pairs (i, k) with k below the bound and k != i |
| Pairs.RowsMembers | polyhex/objects/old_polyhexes.py:282-287 | the first m rows hold exactly the pairs (i, j) with i < m, j < n and i != j |
| Pairs.RowDistinct | polyhex/objects/hexagons.py:348-353 | no pair appears twice in a row |
| Pairs.RowsLength | polyhex/objects/old_polyhexes.py:282-287 | m rows of an n-element enumeration hold m(n-1) pairs |
| Pairs.RowsDistinct | polyhex/objects/old_polyhexes.py:282-287 | no pair appears twice in the rows |
| Pairs.OrderedPairsSpec | polyhex/objects/old_polyhexes.py:277-288 | the double loop over n indices lists n(n-1) pairs, each once, and exactly those of distinct indices |
| Partition.Partition.Block | polyhex/objects/old_polyhexes.py:204-207 | the subset holding z contains z and exactly the elements connected to it |
| Partition.Partition.Add | polyhex/objects/old_polyhexes.py:181-186 | `DisjointSet.add` makes x an element |
| Partition.Partition.Merge | polyhex/objects/old_polyhexes.py:182 | `DisjointSet.merge` keeps the element set |
| Partition.Empty | polyhex/objects/old_polyhexes.py:177-178 | a fresh `DisjointSet` is valid and empty |
| Partition.LargestOver | polyhex/objects/old_polyhexes.py:207 | the largest size among the subsets of some elements: no subset is larger and one reaches it |
| Partition.CoarsensTransitive | polyhex/objects/old_polyhexes.py:174-186 | keeping every element and every connection is transitive over successive updates |
| Partition.CoarsensLargest | polyhex/objects/old_polyhexes.py:204-213 | the largest subset never shrinks when elements are added or merged |
| Partition.AddSpec | polyhex/objects/old_polyhexes.py:181-186 | adding keeps the structure valid and connects nothing new except the added element to itself |
| Partition.MergeSpec | polyhex/objects/old_polyhexes.py:182 | merging keeps the structure valid, connects x and y, and connects exactly the pairs that were connected or reach x and y |
| Partition.AddCoarsens | polyhex/objects/old_polyhexes.py:181-186 | adding never drops an element or separates two connected ones |
| Partition.MergeCoarsens | polyhex/objects/old_polyhexes.py:182 | merging never drops an element or separates two connected ones, and joins x and y |
| Partition.MergeConnectedIsIdentity | polyhex/objects/old_polyhexes.py:182 | merging two elements already connected changes nothing |
| Frontier.InNeighbourSet | polyhex/objects/graphs/graphs_module.py:142-158 | each neighbour of a placed cell is among the neighbours of the placed set |
| Frontier.Border | polyhex/objects/graphs/graphs_module.py:136-171 | the border (placeholder cells) never overlaps the placed cells |
| Frontier.EastMost | polyhex/objects/graphs/graphs_module.py:142-158 | a cell of a nonempty set with the largest q |
| Frontier.BorderNonEmpty | polyhex/objects/graphs/graphs_module.py:142-158 | the border is nonempty exactly when some cell is placed |
| Frontier.BorderStep | polyhex/objects/graphs/graphs_module.py:146-158 | placing a border cell removes it from the border and adds its neighbours that are neither placed nor on the border |
| Frontier.Ball | polyhex/objects/polyhexes.py:78-94 | the cells within hex distance k of the origin |
| Frontier.Ring | polyhex/objects/polyhexes.py:84-93 | the cells at hex distance exactly n from the origin |
| Frontier.RingCell | polyhex/objects/polyhexes.py:84-93 | the k-th step of the walk around ring n is on ring n |
| Frontier.RingIndex | polyhex/objects/polyhexes.py:84-93 | every ring cell is reached by the walk at a position below 6n |
| Frontier.RingSeq | polyhex/objects/polyhexes.py:84-93 | the walk around ring n visits 6n positions in order |
| Frontier.RingIndexOfCell | polyhex/objects/polyhexes.py:84-93 | the walk never returns to a cell |
| Frontier.RingSeqDistinct | polyhex/objects/polyhexes.py:84-93 | the cells of the ring walk are pairwise distinct |
| Frontier.RingCard | polyhex/objects/polyhexes.py:84-93 | ring n holds 6n cells |
| Frontier.BallSplit | polyhex/objects/polyhexes.py:84-93 | the ball of radius k is the ball of radius k-1 plus the disjoint ring k |
| Frontier.BallCard | polyhex/objects/polyhexes.py:78-94 | a spiral of radius k holds 1 + 3k(k+1) cells |
| Frontier.InwardNeighbour | polyhex/objects/polyhexes.py:84-93 | every cell of ring n >= 1 has a neighbour on ring n-1 |
| Frontier.NeighbourNorm | polyhex/objects/polyhexes.py:84-93 | a neighbour lies at most one ring further out |
| Frontier.BorderOfBall | polyhex/objects/polyhexes.py:84-93 | the border of the ball of radius k is ring k+1 |
| Frontier.BallGrowth | polyhex/objects/polyhexes.py:84-93 | placing the whole border of a ball yields the next ball |
| Frontier.OwnStep | polyhex/objects/old_polyhexes.py:146-169 | a cell's edges have pairwise distinct spatial keys |
| Frontier.ExposedOwnKey | polyhex/objects/old_polyhexes.py:150-169 | for an unplaced cell, edge i is already on the border exactly when its i-th neighbour is placed |
| Frontier.ExposedAdd | polyhex/objects/old_polyhexes.py:143-171 | placing a cell toggles exactly its six edge keys in the set of border edges |
| Frontier.FreshDistinct | polyhex/objects/polyhexes.py:32 | the cells of a growth sequence are new to the shape and pairwise distinct, and conversely |
| Frontier.ChainSnoc | polyhex/objects/polyhexes.py:45-47 | a sequence of cells is attachable one by one exactly when its prefix is and the last cell joins what the prefix built |
| Frontier.ChainAppend | polyhex/objects/polyhexes.py:45-47 | appending two sequences is attachable exactly when the first is and the second is on top of it |
| Frontier.ChainAppendEmpty | polyhex/objects/polyhexes.py:45-47 | the same split starting from the empty shape |
| Frontier.LineChain | polyhex/objects/polyhexes.py:97-122 | cells placed along a line, each next to the previous one, can be attached one by one |
| Frontier.BorderChain | polyhex/objects/polyhexes.py:84-93 | the border cells of a nonempty shape, in any order without repeats, can be attached one by one |
| Graphs.LinkOne | polyhex/objects/graphs/graphs_module.py:86-89 | one linking step touches only existing lists |
| Graphs.LinkAll | polyhex/objects/graphs/graphs_module.py:86-89 | the linking loop keeps the set of listed keys |
| Graphs.LinkOneSymmetric | polyhex/objects/graphs/graphs_module.py:87-89 | one linking step appends to both lists, so adjacency stays symmetric |
| Graphs.LinkAllSymmetric | polyhex/objects/graphs/graphs_module.py:43-46 | the whole linking loop keeps adjacency symmetric |
| Graphs.LinkNew | polyhex/objects/graphs/graphs_module.py:79-89 | inserting a fresh cell and linking it to its six neighbours leaves every placed cell listing exactly its placed neighbours, once each |
| Graphs.LinkedAll | polyhex/objects/graphs/graphs_module.py:86-89 | lists linked to all six neighbours of the new cell are exact once it is placed |
| Graphs.ExactSymmetric | polyhex/objects/graphs/graphs_module.py:79-89 | exact neighbour lists are symmetric |
| Graphs.RemoveFirst | polyhex/objects/graphs/graphs_module.py:155 | `list.remove` drops one occurrence: one element shorter, the same multiset less that element |
| Graphs.RemoveFirstDistinct | polyhex/objects/graphs/graphs_module.py:154-155 | in a list without repeats, removing an element removes it altogether |
| Graphs.Insert | polyhex/objects/graphs/graphs_module.py:36-40 | a node inserted under a fresh key gets a list, so lists and nodes share keys |
| Graphs.AppendMember | polyhex/objects/graphs/graphs_module.py:34-46 | one node of `append` keeps lists and nodes on the same keys |
| Graphs.AppendMembers | polyhex/objects/graphs/graphs_module.py:32-46 | the whole `append` keeps lists and nodes on the same keys |
| Graphs.InsertOK | polyhex/objects/graphs/graphs_module.py:36-46 | inserting a node under a fresh key keeps one index per node, indices 0..n-1 and symmetric lists |
| Graphs.AppendMembersOK | polyhex/objects/graphs/graphs_module.py:32-46 | `VertexGraph.append` and `EdgeGraph.append` keep that invariant |
| Graphs.AppendMembersKeys | polyhex/objects/graphs/graphs_module.py:32-46 | the nodes gained are exactly the keys offered that were not yet present |
| Graphs.AppendMembersKeep | polyhex/objects/graphs/graphs_module.py:36 | a segment or corner already present keeps its stored node and its index: the first hexagon to bring it wins |
| Graphs.KeyGraph.constructor | polyhex/objects/graphs/graphs_module.py:12-18 | a new graph is named, empty and satisfies the invariant |
| Graphs.KeyGraph.Append | polyhex/objects/graphs/graphs_module.py:32-46 | the graph's state after the loops is the specification `AppendMembers` of the old state |
| Graphs.KeyGraph.Remove | polyhex/objects/graphs/graphs_module.py:48-49 | `remove` raises NotImplementedError |
| Graphs.HexInsert | polyhex/objects/graphs/graphs_module.py:79-89 | the placed cell gets a list, so lists and nodes share keys |
| Graphs.LinkNewExact | polyhex/objects/graphs/graphs_module.py:79-89 | placing a fresh cell keeps every list exactly the placed neighbours |
| Graphs.HexInsertOK | polyhex/objects/graphs/graphs_module.py:79-89 | appending a cell at a fresh coordinate keeps the invariant, adds exactly that coordinate and counts one more node |
| Graphs.HexagonGraph.constructor | polyhex/objects/graphs/graphs_module.py:75-77 | a new hexagon graph is empty and satisfies the invariant |
| Graphs.HexagonGraph.Append | polyhex/objects/graphs/graphs_module.py:79-89 | the new state is `HexInsert` of the old one, also when the coordinate is already placed |
| Graphs.HexagonGraph.Remove | polyhex/objects/graphs/graphs_module.py:91-92 | `remove` raises NotImplementedError |
| Graphs.BorderAdd | polyhex/objects/graphs/graphs_module.py:160-171 | a cell offered to the border keeps lists and nodes on the same keys |
| Graphs.BorderAddAll | polyhex/objects/graphs/graphs_module.py:142-144 | the first append keeps lists and nodes on the same keys |
| Graphs.BorderVisit | polyhex/objects/graphs/graphs_module.py:151-158 | one neighbour visited by a later append keeps lists and nodes on the same keys |
| Graphs.BorderVisitAll | polyhex/objects/graphs/graphs_module.py:151-158 | the loop of a later append keeps lists and nodes on the same keys |
| Graphs.BorderAppend | polyhex/objects/graphs/graphs_module.py:136-158 | a successful append keeps lists and nodes on the same keys |
| Graphs.VisitForget | polyhex/objects/graphs/graphs_module.py:153-155 | a border neighbour of the placed cell still lists its placeholder, and forgetting it keeps the other lists exact |
| Graphs.VisitPrefix | polyhex/objects/graphs/graphs_module.py:151-158 | after the first j neighbours the border holds the expected cells with exact lists |
| Graphs.BorderFirstAppend | polyhex/objects/graphs/graphs_module.py:142-144 | the first append turns the empty border into the six neighbours, with exact lists |
| Graphs.BorderLaterAppend | polyhex/objects/graphs/graphs_module.py:146-158 | a later append of a border cell leaves the border of the grown shape with exact lists |
| Graphs.BorderAppendSpec | polyhex/objects/graphs/graphs_module.py:136-171 | an append succeeds exactly when the border is empty or holds the cell, and then the border graph is exactly the border of the grown shape; otherwise an AssertionError |
| Graphs.AppendToEmpty | polyhex/objects/graphs/graphs_module.py:142-144 | the first append succeeds and leaves the border of a single cell |
| Graphs.AppendOnBorder | polyhex/objects/graphs/graphs_module.py:146-158 | appending a border cell succeeds and leaves the border of the grown shape |
| Graphs.AppendOffBorder | polyhex/objects/graphs/graphs_module.py:147 | appending a cell off a nonempty border fails its assertion |
| Graphs.BorderAppendPlaced | polyhex/objects/graphs/graphs_module.py:160-162 | the outcome does not depend on whether the hexagon graph already holds the appended cell |
| Graphs.HexagonBorderGraph.constructor | polyhex/objects/graphs/graphs_module.py:132-134 | a new border graph is empty and is the border of nothing |
| Graphs.HexagonBorderGraph.Append | polyhex/objects/graphs/graphs_module.py:136-158 | the outcome and new state are those of `BorderAppend` given the hexagon graph's cells |
| Graphs.HexagonBorderGraph.AddAll | polyhex/objects/graphs/graphs_module.py:142-144 | the first-append loop computes `BorderAddAll` |
| Graphs.HexagonBorderGraph.VisitAll | polyhex/objects/graphs/graphs_module.py:151-158 | the later-append loop computes `BorderVisitAll` |
| Graphs.HexagonBorderGraph.Add | polyhex/objects/graphs/graphs_module.py:160-171 | `add` computes `BorderAdd` |
| Graphs.HexagonBorderGraph.Remove | polyhex/objects/graphs/graphs_module.py:173-174 | `remove` raises NotImplementedError |
| EdgeBorders.LinkEdge | polyhex/objects/graphs/graphs_module.py:113-116 | one linking step of `add` touches only existing lists |
| EdgeBorders.LinkEdges | polyhex/objects/graphs/graphs_module.py:112-116 | the linking loop keeps the set of listed segments |
| EdgeBorders.EdgeAdd | polyhex/objects/graphs/graphs_module.py:107-118 | `add` stores the edge under its segment, keeping lists, index and nodes on the same keys |
| EdgeBorders.Forget | polyhex/objects/graphs/graphs_module.py:125-128 | the unlinking loop of `remove` touches only existing lists |
| EdgeBorders.EdgeRemove | polyhex/objects/graphs/graphs_module.py:120-130 | `remove` drops exactly the edge's segment, keeping lists, index and nodes on the same keys |
| EdgeBorders.EdgeToggle | polyhex/objects/graphs/graphs_module.py:101-105 | one step of `append` keeps lists, index and nodes on the same keys |
| EdgeBorders.EdgeToggleAll | polyhex/objects/graphs/graphs_module.py:98-105 | the loop of `append` keeps lists, index and nodes on the same keys |
| EdgeBorders.EdgeBorderAppend | polyhex/objects/graphs/graphs_module.py:98-105 | `append` of a hexagon keeps lists, index and nodes on the same keys |
| EdgeBorders.ToggleOK | polyhex/objects/graphs/graphs_module.py:101-130 | a toggle keeps the counter equal to the number of held segments, holds the segment exactly when it was not held, and leaves the other segments alone |
| EdgeBorders.ToggleAllKeys | polyhex/objects/graphs/graphs_module.py:98-105 | toggling pairwise distinct segments holds exactly the symmetric difference of the old segments and the new ones |
| EdgeBorders.CellKeys | polyhex/objects/graphs/graphs_module.py:99 | a hexagon offers its six distinct edge segments |
| EdgeBorders.EdgeBorderAppendExposed | polyhex/objects/graphs/graphs_module.py:98-130 | appending a new hexagon to a shape keeps the graph holding exactly the segments with one placed side |
| EdgeBorders.LinkEdgesLists | polyhex/objects/graphs/graphs_module.py:112-116 | the linking loop lists at the new segment every edge held at an adjacent segment, and adds the new edge once to each such list |
| EdgeBorders.ForgetLists | polyhex/objects/graphs/graphs_module.py:125-128 | the unlinking loop removes one copy of the edge from each adjacent list holding it |
| EdgeBorders.EdgeAddLists | polyhex/objects/graphs/graphs_module.py:107-118 | after `add`, the new segment lists exactly the held adjacent edges, and each of them lists the new edge once more |
| EdgeBorders.EdgeRemoveLists | polyhex/objects/graphs/graphs_module.py:120-130 | after `remove`, each adjacent list that held the edge holds one copy fewer and the others are unchanged |
| EdgeBorders.RemoveKeepsStoredEdge | polyhex/objects/graphs/graphs_module.py:120-130 | `remove` unlinks the edge it is given, not the one stored under its segment: when they differ, every copy of the stored edge stays in the other segments' lists after its segment is gone |
| EdgeBorders.RemoveThenAddSharesIndex | polyhex/objects/graphs/graphs_module.py:107-130 | `remove` lowers the counter without renumbering, so when the segment numbered last is still held, the next `add` gives the new segment that same index |
| EdgeBorders.SharedIndexExample | polyhex/objects/graphs/graphs_module.py:107-130 | from an empty graph, adding two segments, removing the first and adding a third leaves two distinct held segments, the second and the third, both at index 1 |
| EdgeBorders.EdgeBorderGraph.constructor | polyhex/objects/graphs/graphs_module.py:94-96 | a new graph is empty, satisfies the invariant and holds the exposed segments of no cells |
| EdgeBorders.EdgeBorderGraph.Append | polyhex/objects/graphs/graphs_module.py:98-105 | the new state is `EdgeBorderAppend` of the old one |
| EdgeBorders.EdgeBorderGraph.Add | polyhex/objects/graphs/graphs_module.py:107-118 | the new state is `EdgeAdd` of the old one |
| EdgeBorders.EdgeBorderGraph.Remove | polyhex/objects/graphs/graphs_module.py:120-130 | a held segment is removed as in `EdgeRemove`; a segment not held is a KeyError and nothing changes |
| Polyhexes.AppendOne | polyhex/objects/polyhexes.py:153-158 | one graph takes the hexagon; a failing call leaves the graphs as they were |
| Polyhexes.AppendThrough | polyhex/objects/polyhexes.py:153-158 | the loop over the graphs keeps every graph's lists on its nodes |
| Polyhexes.HyperAppend | polyhex/objects/polyhexes.py:152-159 | `append_hex` keeps every graph's lists on its nodes |
| Polyhexes.AppendCells | polyhex/objects/polyhexes.py:45-47 | the loop of `_create_from_list` keeps every graph's lists on its nodes |
| Polyhexes.HexPlaced | polyhex/objects/polyhexes.py:153-158 | in the middle of an append the hexagon graph holds the placed cells, with or without the new one |
| Polyhexes.AppendOneSpec | polyhex/objects/polyhexes.py:153-158 | one graph takes a new cell: it passes unless it is the border graph and the cell cannot attach (an AssertionError), and passing it moves that graph to the grown shape |
| Polyhexes.AppendThroughSpec | polyhex/objects/polyhexes.py:153-158 | the graphs take a new cell in turn: the run passes exactly when the border graph, if it comes, can attach the cell, and then every graph named has moved to the grown shape |
| Polyhexes.StartMidway | polyhex/objects/polyhexes.py:152-153 | before the loop no graph has the new cell |
| Polyhexes.EndMidway | polyhex/objects/polyhexes.py:153-159 | after the loop every graph has it |
| Polyhexes.HyperAppendSpec | polyhex/objects/polyhexes.py:152-159 | `append_hex` of a new cell passes exactly when some graph exists and the cell can be attached; then every graph describes the grown shape, otherwise the error is UnboundLocalError or AssertionError |
| Polyhexes.Coords | polyhex/objects/polyhexes.py:45-47 | the coordinates of the cells, in order |
| Polyhexes.AppendCellsSpec | polyhex/objects/polyhexes.py:38-47 | appending new cells one after the other passes exactly when they form a growth chain, and then every graph describes the whole shape |
| Polyhexes.AppendCellsLast | polyhex/objects/polyhexes.py:45-47 | the last step of that loop keeps the outcome described |
| Polyhexes.AppendCellOn | polyhex/objects/polyhexes.py:45-47 | the last cell, appended after the others passed, keeps the outcome described |
| Polyhexes.DedupFacts | polyhex/objects/polyhexes.py:32 | `set(hexagons)` keeps hexagons of the list, at most as many, one equal to each |
| Polyhexes.NoRepeatsSnoc | polyhex/objects/polyhexes.py:32 | a list grown by a hexagon has no equal pair exactly when the list has none and the hexagon equals none of it |
| Polyhexes.DedupLength | polyhex/objects/polyhexes.py:32 | the set is as long as the list exactly when no two hexagons are equal |
| Polyhexes.DedupLast | polyhex/objects/polyhexes.py:32 | the last hexagon is represented exactly when an earlier one equals it |
| Polyhexes.ConsistentSpec | polyhex/objects/polyhexes.py:25-36 | a dictionary is a NotImplementedError, anything but a list or a dictionary a ValueError, and an empty list an IndexError, each exactly in that case; the check passes exactly for a nonempty list whose hexagons are all compatible with the first and at pairwise different coordinates |
| Tilings.Column | polyhex/objects/polyhexes.py:113-114 | column i of the tilted tiling is (i, 1) .. (i, len) in order |
| Tilings.BuildTiling | polyhex/objects/polyhexes.py:97-116 | the loops list exactly the coordinates of `TilingCoords`: a bad rectangular offset is a ValueError once there is a row, an unknown name a NotImplementedError; an offset not given is "odd-r" |
| Tilings.RectangleMembers | polyhex/objects/polyhexes.py:99-109 | a cell is in the rectangle exactly when its row is among the first m and its column among the n of that row's shifted range |
| Tilings.RectangleSize | polyhex/objects/polyhexes.py:101-109 | the rectangle lists n * m cells |
| Tilings.RectangleDistinct | polyhex/objects/polyhexes.py:101-109 | no cell of the rectangle repeats |
| Tilings.RowJoins | polyhex/objects/polyhexes.py:108-109 | each row can be attached, cell by cell, to the rows before it |
| Tilings.RowFresh | polyhex/objects/polyhexes.py:108-109 | the cells of a row are new to the rows before it and to each other |
| Tilings.RowStartJoins | polyhex/objects/polyhexes.py:101-109 | the first cell of a row touches the rows before it |
| Tilings.RectangleChain | polyhex/objects/polyhexes.py:99-109 | in its order, every cell of a rectangle can be attached to the cells listed before it |
| Tilings.TiltedMembers | polyhex/objects/polyhexes.py:111-114 | a cell is in the tilted tiling exactly when 1 <= q < n and 1 <= r < m |
| Tilings.TiltedSize | polyhex/objects/polyhexes.py:111-114 | the tilted tiling lists (n-1)(m-1) cells |
| Tilings.TiltedDistinct | polyhex/objects/polyhexes.py:111-114 | no cell of the tilted tiling repeats |
| Tilings.ColumnJoins | polyhex/objects/polyhexes.py:112-114 | each column can be attached, cell by cell, to the columns before it |
| Tilings.TiltedChain | polyhex/objects/polyhexes.py:111-114 | in its order, every cell of a tilted tiling can be attached to the cells listed before it |
| Tilings.TilingShape | polyhex/objects/polyhexes.py:97-122 | whatever `create_tiling` lists is a growth chain without repeats, of n * m cells for a rectangle and (n-1)(m-1) for a tilted tiling |
| Shapes.HexagonsAt | polyhex/objects/polyhexes.py:120 | one hexagon per coordinate, in order |
| Shapes.PlaceholdersAt | polyhex/objects/polyhexes.py:138-150 | one placeholder per coordinate, in order |
| Shapes.MadeAt | polyhex/objects/polyhexes.py:138-150 | the hexagons and placeholders built sit at the coordinates they were given, with their edges in place |
| Shapes.TilingGrows | polyhex/objects/polyhexes.py:97-122 | every cell of a tiling appended to an empty hypergraph passes, and every graph then describes exactly the tiling's cells |
| Shapes.SpiralRound | polyhex/objects/polyhexes.py:84-93 | appending the placeholders of the ring around the ball of radius k passes and leaves the ball of radius k+1 |
| Shapes.SpiralStep | polyhex/objects/polyhexes.py:84-93 | the same for the ring read from the border graph's snapshot |
| Shapes.FirstCell | polyhex/objects/polyhexes.py:67 | the first hexagon, at the origin, on an empty hypergraph passes and leaves the ball of radius 0 |
| Shapes.NumberStep | polyhex/objects/polyhexes.py:68-75 | appending a border cell passes and grows the shape by exactly one cell |
| Shapes.BorderPick | polyhex/objects/polyhexes.py:69-71 | the border graph holds exactly the border, each placeholder at its own key, and is nonempty once something is placed |
| Shapes.HexKeys | polyhex/objects/polyhexes.py:45-47 | the hexagon graph holds exactly the placed cells |
| Shapes.ThroughStops | polyhex/objects/polyhexes.py:153-158 | once a graph has failed, the later graphs are not called |
| Shapes.CellsStop | polyhex/objects/polyhexes.py:45-47 | once a cell has failed, the later cells are not appended |
| Shapes.Hypergraph.constructor | polyhex/objects/polyhexes.py:63-64 | a hypergraph of new empty graphs under distinct names describes the empty shape |
| Shapes.Hypergraph.AppendTo | polyhex/objects/polyhexes.py:153-158 | the call on one graph computes `AppendOne` |
| Shapes.Polyhex.constructor | polyhex/objects/polyhexes.py:12-23 | a new polyhex has the default axial, pointy-top, radius 1, clockwise properties |
| Shapes.Polyhex.AppendHex | polyhex/objects/polyhexes.py:152-159 | `append_hex` computes `HyperAppend` on the hypergraph |
| Shapes.Polyhex.AppendAll | polyhex/objects/polyhexes.py:45-47 | the loop of `_create_from_list` computes `AppendCells` |
| Shapes.Polyhex.CreateFromList | polyhex/objects/polyhexes.py:38-47 | an empty list is an IndexError with nothing changed; otherwise the polyhex takes the first hexagon's properties and appends the cells in order |
| Shapes.Polyhex.CreateFromIterable | polyhex/objects/polyhexes.py:49-60 | the consistency check's error passes through with nothing changed (NotImplementedError for a dictionary, ValueError for anything but a list, IndexError for an empty list), and an inconsistent list is an AssertionError; a consistent list is appended and yields a polyhex exactly when every append passes |
| Shapes.Polyhex.CreateTiling | polyhex/objects/polyhexes.py:97-122 | a bad name or offset (default "odd-r") raises its error and an empty tiling an IndexError, nothing changed; otherwise the tiling's hexagons are appended, and on an empty hypergraph they all pass |
| Shapes.Polyhex.Seed | polyhex/objects/polyhexes.py:63-67 | without the border graph an AssertionError, nothing changed; otherwise the hexagon at the origin is appended |
| Shapes.Polyhex.CreateFromNumber | polyhex/objects/polyhexes.py:62-76 | on an empty hypergraph with the hexagon and border graphs, n border cells drawn one after the other all pass, leaving max(n, 1) cells that every graph describes |
| Shapes.Polyhex.GrowRound | polyhex/objects/polyhexes.py:86-93 | a round appends the placeholders of a snapshot of the border and grows the ball of radius k to radius k+1 |
| Shapes.Polyhex.GrowRounds | polyhex/objects/polyhexes.py:84-93 | rounds 1 .. radius all pass and leave the ball of the radius |
| Shapes.Polyhex.CreateSpiral | polyhex/objects/polyhexes.py:78-94 | on an empty hypergraph with the hexagon and border graphs, the spiral passes and places exactly the ball of the radius |
| Shapes.ValuesAtSnoc | polyhex/objects/polyhexes.py:86-88 | listing one more dictionary value keeps the listing aligned with its keys |
| Shapes.Snapshot | polyhex/objects/polyhexes.py:86-88 | `list(nodes.values())` lists the value at every key, each key once |
| OldPolyhexes.EncodeEdge | polyhex/objects/old_polyhexes.py:246-249 | an edge without a feature has no habitat code, and appending that to the step is a TypeError; otherwise the encoding steps from the inner cell to the placeholder across the edge and ends with the edge's habitat code |
| OldPolyhexes.MakePlaceholder | polyhex/objects/old_polyhexes.py:107-117 | `placeholder_hex` builds with the default configuration: it fails with a KeyError exactly when the edge feature is missing from its habitat table, and otherwise sits at the given cell carrying the feature |
| OldPolyhexes.PlaceholderChecked | polyhex/objects/hexagons.py:21-71 | for the supported grid kind, the argument checks of the placeholder's construction with the default configuration fail exactly as `MakePlaceholder` does, with a KeyError |
| OldPolyhexes.EncodingIdentifiesSide | polyhex/objects/old_polyhexes.py:246-249 | two border edges of one cell with the same step are the same side of it |
| OldPolyhexes.EncodeEdgeConnectivity | polyhex/objects/old_polyhexes.py:242-265 | the link holds the distance of the placeholders as `compute_distance` measures it, the sum of the absolute differences of their q and r; a feature flag that is 1 exactly when their features agree; and an area flag that is 1 exactly when, besides, the inner cells are connected in that feature's disjoint set. A missing set or cell is a KeyError |
| OldPolyhexes.EncodeEdgeConnectivitySymmetric | polyhex/objects/old_polyhexes.py:251-265 | the link does not depend on which border edge comes first |
| OldPolyhexes.WithoutSpec | polyhex/objects/old_polyhexes.py:151 | popping a key from the insertion order drops exactly that key and keeps the rest without repeats |
| OldPolyhexes.LinkOfOK | polyhex/objects/old_polyhexes.py:251-265 | between entries whose cells lie in their features' sets the link computes without error and is sound |
| OldPolyhexes.ConnAssembledShape | polyhex/objects/old_polyhexes.py:119-141 | after both loops the table has a row for every border key, covering every other border key |
| OldPolyhexes.ConnAssembledLinks | polyhex/objects/old_polyhexes.py:119-141 | every link of the assembled table is sound for its two entries |
| OldPolyhexes.SameKeySlot | polyhex/objects/old_polyhexes.py:180-182 | two edges of placed cells share a feature key only when they are the same edge or the shared edge seen from the neighbour, with the same feature |
| OldPolyhexes.EdgesStep | polyhex/objects/old_polyhexes.py:180-185 | registering one more edge keeps `edges` holding one edge per feature key among the registered edges |
| OldPolyhexes.RegisterEdge | polyhex/objects/old_polyhexes.py:174-186 | `append_edge`: a new feature gets a set and is listed once; the cell joins its feature's set; a feature key seen before is merged with the neighbour (a KeyError when the neighbour is not in the set), a new key is stored; nothing registered is lost and sets only coarsen |
| OldPolyhexes.RegisterStep | polyhex/objects/old_polyhexes.py:194-196 | registering edge k of a placed cell passes and keeps the registry exact for the first k+1 edges |
| OldPolyhexes.RegisterEdges | polyhex/objects/old_polyhexes.py:194-196 | the loop of `append_hex` over the six edges is the fold `RegisterAll` of `append_edge` over the adjacent cells and edges, and in a consistent polyhex no step fails; the registry stays exact for the grown set of cells and only grows |
| OldPolyhexes.RegisterAll | polyhex/objects/old_polyhexes.py:174-186 | registering the first n edges of a cell in turn stops at the first failure, which is a KeyError, and never drops or changes an edge already registered |
| OldPolyhexes.PlaceHex | polyhex/objects/old_polyhexes.py:190-193 | storing a hexagon at a free coordinate keeps the registry and the border bookkeeping of the other cells |
| OldPolyhexes.PlaceHexValues | polyhex/objects/old_polyhexes.py:189-196 | placing a hexagon at a free coordinate puts it in the map and registers its six edges as the fold `RegisterAll`; the registry grows, and the placed map with it satisfies everything but the border of the new cell |
| OldPolyhexes.PopColumn | polyhex/objects/old_polyhexes.py:156-157 | the key is popped from every row and the rows stay the same otherwise |
| OldPolyhexes.CloseKey | polyhex/objects/old_polyhexes.py:150-157 | an exposed segment that the new cell covers leaves the border, its place in the border order, its row and every column; every other entry and link is unchanged |
| OldPolyhexes.OpenKey | polyhex/objects/old_polyhexes.py:158-169 | an edge of the new cell facing an empty cell fails exactly when it cannot be opened, with its exception (a feature missing from the default habitat table is a KeyError in `placeholder_hex`, no feature a TypeError in `encode_edge`), leaving border and order as they were; otherwise its key joins the border at the end of the order with the new cell inside and a placeholder carrying its feature outside; other entries are unchanged |
| OldPolyhexes.ToggleEdge | polyhex/objects/old_polyhexes.py:146-169 | one pass of the loop of `_update_border` fails, changing nothing, exactly when the edge is blocked (faces an empty cell and cannot be opened), with that edge's KeyError or TypeError; otherwise it toggles the edge's spatial key, removing it from the order if it was on the border and appending it if not; kept entries and links are unchanged |
| OldPolyhexes.ToggleNext | polyhex/objects/old_polyhexes.py:146-169 | a pass from edge i carries the loop state (keys of edges 0 .. i-1 toggled, order folded by `OrderAfter`) to edge i + 1, or fails with edge i's exception exactly when edge i is blocked, which is then the first blocked edge |
| OldPolyhexes.FirstBlocked | polyhex/objects/old_polyhexes.py:146-169 | the index of the first blocked edge of a cell from edge i on, 6 when there is none; the edge at that index is blocked |
| OldPolyhexes.FirstBlockedFirst | polyhex/objects/old_polyhexes.py:146-169 | no edge before the first blocked one is blocked |
| OldPolyhexes.FirstBlockedPlaced | polyhex/objects/old_polyhexes.py:189-199 | placing a cell in the map before its border update does not change which of its edges is blocked first, since no edge of a cell faces the cell itself |
| OldPolyhexes.ToggleEdges | polyhex/objects/old_polyhexes.py:146-169 | the loop over the six edges of the new cell ends as `OpenOutcome`: with the exception of the first blocked edge, after toggling the keys of the edges before it; without one, all six keys toggle, so the border holds exactly the exposed segments; the order is the fold `OrderAfter` of removals and appends |
| OldPolyhexes.OpenOutcomeFirst | polyhex/objects/old_polyhexes.py:146-169 | the border loop fails exactly when the cell has a blocked edge, and then with the exception of the first one |
| OldPolyhexes.FirstBlockedStep | polyhex/objects/old_polyhexes.py:146-169 | scanning the edges in order, an edge reached before any blocked one is either the first blocked edge or lets the scan go on |
| OldPolyhexes.BorderFacesEmpty | polyhex/objects/old_polyhexes.py:159-168 | every border entry lies on a placed cell and its placeholder is the empty neighbour across the edge |
| OldPolyhexes.BorderNodesFaceEmpty | polyhex/objects/old_polyhexes.py:290-294 | every border node's encoding steps from a placed cell to an empty neighbour |
| OldPolyhexes.HabitatCoarsen | polyhex/objects/old_polyhexes.py:204-213 | the score of the listed features never drops when the sets coarsen |
| OldPolyhexes.HabitatExtend | polyhex/objects/old_polyhexes.py:204-213 | listing more features never lowers the total |
| OldPolyhexes.HabitatMonotone | polyhex/objects/old_polyhexes.py:204-213 | the habitat score never decreases as the registry grows |
| OldPolyhexes.LargestIs | polyhex/objects/old_polyhexes.py:207 | n is the size of the largest subset exactly when no subset is larger and one has n elements |
| OldPolyhexes.LargestSubset | polyhex/objects/old_polyhexes.py:207 | the loop computes the size of the largest subset |
| OldPolyhexes.HabitatOf | polyhex/objects/old_polyhexes.py:204-213 | the loop sums, over the features in their order, the size of each feature's largest area |
| OldPolyhexes.IndexOfSpec | polyhex/objects/old_polyhexes.py:272-275 | the search finds the key exactly when it occurs, at its first position |
| OldPolyhexes.IndexOfFirst | polyhex/objects/old_polyhexes.py:272-275 | a first occurrence at i is what the search returns |
| OldPolyhexes.IndexRoundTrip | polyhex/objects/old_polyhexes.py:267-275 | in a list without repeats, the key at position i is found back at i |
| OldPolyhexes.KeyRoundTrip | polyhex/objects/old_polyhexes.py:267-275 | a key that is found is the key at the position returned |
| OldPolyhexes.LinksRow | polyhex/objects/old_polyhexes.py:283-287 | the inner loop of `get_graph_edges` appends row i of the pairs with their stored links |
| OldPolyhexes.BorderNodes | polyhex/objects/old_polyhexes.py:290-294 | the encodings of the border entries in insertion order, each facing an empty cell |
| OldPolyhexes.EmptyAssembled | polyhex/objects/old_polyhexes.py:21-30 | the polyhex with every table empty satisfies the invariant |
| OldPolyhexes.ConsistentList | polyhex/objects/old_polyhexes.py:34-45 | an empty list fails with IndexError when its first element is read |
| OldPolyhexes.ConsistentMeansDistinctCells | polyhex/objects/old_polyhexes.py:34-45 | for built hexagons, a list passes the check exactly when it is not empty, all are compatible with the first and no two share a coordinate |
| OldPolyhexes.OldPolyhex.constructor | polyhex/objects/old_polyhexes.py:13-30 | every table is empty, the grid properties are read off the first hexagon and the default configuration is kept for the placeholders |
| OldPolyhexes.OldPolyhex.Create | polyhex/objects/old_polyhexes.py:13-68 | a missing collection is an AssertionError, a dict NotImplementedError, anything else ValueError; a list succeeds exactly when it passes the consistency check and every edge that faces no earlier cell carries a feature of the default habitat table; otherwise an empty list is an IndexError, an inconsistent list an AssertionError, and an open edge that cannot be opened the KeyError or TypeError of the first such hexagon (`ListOutcome`); on success every hexagon is placed at its own coordinate with the first hexagon's properties |
| OldPolyhexes.OldPolyhex.CreateFromList | polyhex/objects/old_polyhexes.py:48-56 | the hexagons, at pairwise distinct coordinates, are appended in order; the run ends as `ListOutcome`, failing exactly when some hexagon has an edge facing no earlier cell whose feature is missing or not in the default habitat table, and otherwise ends with all of them placed and the invariant kept |
| OldPolyhexes.OpenEdgesListOutcome | polyhex/objects/old_polyhexes.py:48-56 | a list has a feature of the default habitat table on every edge that faces no earlier cell exactly when appending its hexagons in order passes |
| OldPolyhexes.ListOutcomeAt | polyhex/objects/old_polyhexes.py:48-56 | when the first n hexagons pass, each single one of them has no blocked edge |
| OldPolyhexes.ListOutcomeKept | polyhex/objects/old_polyhexes.py:48-56 | once a hexagon of the list has failed, the run of the whole list ends with that failure |
| OldPolyhexes.ListOutcomeAll | polyhex/objects/old_polyhexes.py:48-56 | a list none of whose hexagons has a blocked edge when appended passes |
| OldPolyhexes.OldPolyhex.ExtendRow | polyhex/objects/old_polyhexes.py:124-129 | a row gains the link to each new key |
| OldPolyhexes.OldPolyhex.RowFor | polyhex/objects/old_polyhexes.py:132-141 | a new key's row links it to every other border key |
| OldPolyhexes.OldPolyhex.UpdateBorderConnectivity | polyhex/objects/old_polyhexes.py:119-141 | the table gets a row per border key covering every other, old links are kept and every link involving a new key is computed from the current sets |
| OldPolyhexes.OldPolyhex.ToggleBorder | polyhex/objects/old_polyhexes.py:145-169 | the loop of `_update_border` ends as `OpenOutcome`: with the KeyError or TypeError of the first blocked edge of the new cell, if any; the keys before it (all six without one) are toggled, the order is the fold `OrderAfter`, kept entries keep their links, and the table is ready for the new keys; the placed cells and the registry are unchanged |
| OldPolyhexes.OldPolyhex.SetBorder | polyhex/objects/old_polyhexes.py:150-169 | the border, its order and the table take the given values; the cells and the registry are unchanged |
| OldPolyhexes.OldPolyhex.UpdateBorder | polyhex/objects/old_polyhexes.py:143-171 | `_update_border` ends as `OpenOutcome`, failing exactly when the new cell has a blocked edge, and then leaves the border half toggled (the keys before that edge toggled, the table without their rows and columns); otherwise the border holds exactly the exposed segments of the grown shape, entries that stay are kept and new links are computed; in both cases the order is the fold `OrderAfter` |
| OldPolyhexes.OldPolyhex.AppendEdge | polyhex/objects/old_polyhexes.py:174-186 | the registry becomes what `RegisterEdge` makes of it and nothing else changes |
| OldPolyhexes.OldPolyhex.AppendHex | polyhex/objects/old_polyhexes.py:188-199 | a second hexagon at a coordinate is an AssertionError with nothing changed; otherwise it is placed and its edges registered as the fold `RegisterAll`; the border update then ends as `OpenOutcome`, failing with the KeyError or TypeError of the first blocked edge and leaving the border half toggled, and otherwise the border and links are updated and the invariant kept |
| OldPolyhexes.OldPolyhex.AddToken | polyhex/objects/old_polyhexes.py:201-202 | the hexagon at the coordinate takes the token exactly when `Hexagon.add_token` allows it; no hexagon there is a KeyError |
| OldPolyhexes.OldPolyhex.HabitatResult | polyhex/objects/old_polyhexes.py:204-213 | the total of the largest area per feature |
| OldPolyhexes.OldPolyhex.EdgeKeyToIndex | polyhex/objects/old_polyhexes.py:272-275 | the position of the key in the border's insertion order, None exactly when it is not a border key |
| OldPolyhexes.OldPolyhex.IndexToEdgeKey | polyhex/objects/old_polyhexes.py:267-270 | the border key at a position, None exactly when the position is out of range; the key found maps back to the position |
| OldPolyhexes.OldPolyhex.GetGraphEdges | polyhex/objects/old_polyhexes.py:277-288 | every ordered pair of distinct border positions, n(n-1) of them, with the stored link, each sound for its two entries |
| OldPolyhexes.OldPolyhex.GetGraphNodes | polyhex/objects/old_polyhexes.py:290-294 | the encodings of the border entries in insertion order, each stepping from a placed cell to an empty one |
| OldPolyhexes.FrontierFacing | polyhex/objects/old_polyhexes.py:146-157 | an edge of the new cell was on the border of the old shape exactly when its neighbour is placed |
| OldPolyhexes.BorderUpdated | polyhex/objects/old_polyhexes.py:143-171 | after the toggles and the table update the border bookkeeping is sound, old entries keep their values, links between old keys are kept and links touching a new key are recomputed |
| OldPolyhexes.HexCovered | polyhex/objects/old_polyhexes.py:178-179 | every edge feature of a placed cell has a disjoint set containing that cell |
| OldPolyhexes.OldPolyhex.LinkRowsToNew | polyhex/objects/old_polyhexes.py:122-129 | the first loop of `_update_border_connectivity` extends every existing row with the links to the new keys |
| OldPolyhexes.OldPolyhex.AddRows | polyhex/objects/old_polyhexes.py:132-141 | the second loop adds, for each new key, a row linking it to every other border key and leaves the old rows alone |
| OldPolyhexes.OldPolyhex.AppendItem | polyhex/objects/old_polyhexes.py:54-56 | one pass of the loop of `_create_from_list` places the next hexagon after those before it; it ends as `OpenOutcome` for the cells before it, failing exactly when that hexagon has a blocked edge facing none of them |
| OldPolyhexes.OldPolyhex.AppendFresh | polyhex/objects/old_polyhexes.py:188-199 | a hexagon at a free coordinate is placed and registered; the border update ends as `OpenOutcome`, failing exactly when it has a blocked edge, with the border half toggled; otherwise the invariant is kept and the links are updated |
| OldPolyhexes.OldPolyhex.PlaceFresh | polyhex/objects/old_polyhexes.py:189-196 | the first part of `append_hex`: the hexagon is placed and its edges registered as the fold `RegisterAll`, the border tables untouched |
| OldPolyhexes.OldPolyhex.SetRegistry | polyhex/objects/old_polyhexes.py:190-196 | the placed hexagons and the feature registry take the given values, the border tables are untouched |
| Scoring.Points | polyhex/rules/scoring.py:8-27 | a negative count fails the assertion; the points stay within 26, are 0 only for no hawk and reach 26 exactly from eight hawks on |
| Scoring.PointsStep | polyhex/rules/scoring.py:8-27 | each hawk up to the eighth adds 2 to 4 points, later ones add nothing |
| Scoring.PointsMonotone | polyhex/rules/scoring.py:8-27 | more hawks never score less, and strictly more up to eight |
| Scoring.SolitaryCount | polyhex/rules/scoring.py:29-41 | the solitary hawks are at most all the hawks |
| Scoring.SolitaryCountAll | polyhex/rules/scoring.py:29-41 | every hawk is counted exactly when none has a hawk beside it |
| Scoring.HawkA | polyhex/rules/scoring.py:29-41 | as written, `hex.adjency()` calls the list the `adjency` property returns, so any hawk ends the score with a TypeError (after recording its coordinate); only an empty set of hawks scores, 0 points |
| Scoring.HawkCount | polyhex/rules/scoring.py:29-41 | with the neighbour list read as a property, the loop still scores the number of hawks, solitary or not, because the `break` only leaves the neighbour search |
| Scoring.SolitaryHawkA | polyhex/rules/scoring.py:29-41 | the loop scores the number of hawks with no hawk among their six neighbours |
| Scoring.HawkCountFinding | polyhex/rules/scoring.py:29-41 | two neighbouring hawks score 5 when every hawk is counted, as the loop does, and 0 by the solitary count |
| Scoring.ScoreHawk | polyhex/rules/scoring.py:43-47 | card A is scored by `hawk_A` as written: 0 points without hawks and a TypeError with any; any other card is a ValueError |
| Scoring.Wildlife | polyhex/rules/scoring.py:49-51 | no "hawk" identifier is a KeyError; otherwise it passes exactly when the card is A and there are no hawks; a hawk card other than A is a ValueError and card A with hawks a TypeError |
| Scoring.Max | polyhex/rules/scoring.py:57 | `max` returns an element no other element exceeds |
| Scoring.Largest | polyhex/rules/scoring.py:56-58 | for each feature, one of its areas that no other area of it exceeds |
| Scoring.Habitat | polyhex/rules/scoring.py:53-65 | a feature with no area is a ValueError from `max`; otherwise the largest area of each feature and their sum |
| Scoring.HabitatMonotone | polyhex/rules/scoring.py:53-65 | areas that only grow or merge never lower the total |
| Scoring.HabitatCovers | polyhex/rules/scoring.py:53-65 | no area of any feature exceeds the total |
| Training.Lead | polyhex/environment/training.py:16-18 | the first position from i on holding no whitespace, with only whitespace before it |
| Training.Trail | polyhex/environment/training.py:16-18 | the end of the text once trailing whitespace is cut, with only whitespace after it |
| Training.StripSpec | polyhex/environment/training.py:16-18 | `strip` returns a slice that neither starts nor ends with whitespace and cuts off only whitespace |
| Training.StripIdempotent | polyhex/environment/training.py:16-18 | stripping twice strips nothing more |
| Training.ParseNodeFeature | polyhex/environment/training.py:15-26 | a row shorter than nine columns is an IndexError, any other row parses |
| Training.NodeFeatureSpec | polyhex/environment/training.py:15-26 | the feature is column 6 alone exactly when column 7 reads `False`, columns 6 and 7 joined by `_` exactly when column 8 is the first to read `False`, and all three joined otherwise |
| Training.ParseEdgeFeature | polyhex/environment/training.py:28-29 | a row shorter than six columns is an IndexError, otherwise its first six columns stripped, in order |
| Training.ParseRow | polyhex/environment/training.py:31-34 | the row parses exactly when it has at least nine columns, into its node feature and its edge features |
| Training.ParsedStripped | polyhex/environment/training.py:28-34 | the parsed edge features carry no surrounding whitespace |
| Training.PoolTile | polyhex/environment/training.py:40-43 | the pool's hexagon is built exactly when the node feature is a slot of the configuration, there are one or six edge features and each is in its habitat table; it then carries the row's node and edge features; otherwise a wrong number of edges is a ValueError and an unknown feature a KeyError, as the hexagon's argument checks make them |
| Training.BuildPool | polyhex/environment/training.py:36-43 | the pool is built exactly when every row is accepted (at least nine fields, a known slot, six known habitats), with one hexagon per row carrying its parsed features; otherwise the first rejected row decides the error: IndexError for a short row, KeyError for an unknown feature |
| Training.FirstSame | polyhex/environment/training.py:76 | the first tile equal to x, with no equal tile before it |
| Training.Remove | polyhex/environment/training.py:76 | `list.remove`: a ValueError when no tile equals x, otherwise one tile fewer, the first equal one taken out |
| Training.PoolRemovesFirst | polyhex/environment/training.py:73-77 | in a pool of default hexagons every draw removes the first tile of the pool |
| Training.DrawFinding | polyhex/environment/training.py:73-77 | drawing the second of two tiles with different features removes the first |
| Training.WithoutAt | polyhex/environment/training.py:73-77 | the pool without the tile at the drawn index, one tile fewer, the others in order |
| Training.Env.constructor | polyhex/environment/training.py:56 | the environment holds the given pool |
| Training.Env.Draw | polyhex/environment/training.py:73-77 | as written: an empty pool is a ValueError; otherwise the tile at the index is returned and `remove` deletes the first tile equal to it |
| Training.Env.DrawAt | polyhex/environment/training.py:73-77 | as intended: the tile at the index is returned and exactly it leaves the pool |

## Left out

- Rendering: the `draw`, `render` and `_render*` methods, matplotlib and pygame are not part of this model. They are drawing code with nothing to state.
- Floating-point geometry: the scaled display positions use `radius` times a fixed approximation of the square root of 3 and are stored, not reasoned about. The Euclidean distance options, `_compute_dimensions` and `display_coordinates` are not part of this model.
- OldPolyhexes.EncodeEdge: stores the integer step between the inner cell and the placeholder. The source halves it as a float.
- OldPolyhexes.EncodeEdgeConnectivity: the link stores the distance d, the sum of the absolute differences of q and r. The source stores the float 1/(1+d), which is a strictly decreasing function of d.
- scipy's `DisjointSet` is a library the model cannot see. `Partition` stands for it: every element carries the tag of its subset, and `merge` re-tags one subset. Only `add`, `merge`, `connected` and the subset sizes are modelled.
- Randomness: `create_from_number` takes any border cell (a free choice), and `CascadiaEnv.draw` takes the drawn index as a parameter. The generator and its seed are not modelled.
- Configuration and data files: the JSON configuration, the asset loaders and the CSV tile table are not read. Their lookup tables (feature and token codes, token compatibility) are parameters, and the tile table is a sequence of rows of strings.
- Imports that bind the wrong collaborator: each module is modelled against the collaborator it evidently intends, not the one its imports bind, because as written these calls fail before doing any work.
  - polyhex/objects/polyhexes.py:8 imports the older `Hexagon`, whose constructor (polyhex/objects/hexagons.py:21-31) takes none of `hex_coord`, `radius`, `vertex_orientation`, `assets` or `hexagon_feature`. So `create_tiling` (line 120) and `placeholder_hex` (lines 139-150) raise TypeError, and `_create_from_list` raises AttributeError at `.vertex_orientation` and `.assets` (lines 43-44). The model gives this file the newer engine's hexagon, the one polyhex/objects/graphs/graphs_module.py:4 imports from `new_hexagons`. That file is not part of this model.
  - polyhex/rules/scoring.py:32, 38 and 56 read `polyhex.hawk_hexagons` and `polyhex.edge_features`, which no polyhex class defines; only the commented-out polyhex/objects/old.py does. As written these raise AttributeError. The model takes both as parameters, as from a polyhex that provides them.
  - polyhex/objects/hexagons.py:14 imports `Node` and `Edge` from `polyhex.objects`, which exports neither. The model builds that hexagon from the older node and edge classes (polyhex/objects/old_nodes.py and polyhex/objects/old_edges.py).
- The newer engine's hexagon constructor (from `new_hexagons`) and `placeholder_hex` are parameters (`Makers`). The graphs see a hexagon as a `Cell`: its coordinate, its grid properties and its vertices and edges with the keys it reports as adjacent. The lemmas about shapes assume the makers put a cell at the coordinate they are given.
- Graph adjacency lists hold keys, not objects. The source's lists hold node objects; in the edge border graph these are `HexagonEdge` objects, which compare equal exactly when their feature keys do, so `remove` finds an edge by its feature key. Each list is modelled by the keys its members compare by.
- OldPolyhexes.OldPolyhex.CreateFromList: the half-built state after a KeyError or TypeError is not described. The constructor raises, so no caller sees it.
- Scoring: `hawk_hexagons` and `edge_features` are parameters, given in dictionary order. `habitat`'s `verbose` printing is not modelled.
- Training: `str.strip` removes ASCII whitespace only. Unicode spaces are not modelled.
- Training: `HEXAGON_POOL` is a module-level list that every `CascadiaEnv` shares and mutates. The model gives each environment its own pool value.
- Training: the rest of `CascadiaEnv` is not part of this model, because it reads the configuration, uses the generator, builds observations or renders. This covers `__init__` beyond the pool, `_get_obs` and `render`.
- `__len__`, `__str__` and `__repr__` are formatting only, and `print` output is not modelled.
- Python's `isinstance` checks on list and dict arguments are modelled as a datatype of the argument kinds: `Collection` and `Scalar` in the older engine, `Iterable` in the newer one. Integer parameters typed `int` are Dafny `int`.
- OldEdges.NewEdge: requires both end vertices to have an unscaled display vector (`cartesian_coord_vector`). Every vertex the older engine builds is given one.
- Tilings.TiltedSize: states the size of the tilted tiling for n, m >= 1 only. For smaller arguments the tiling is empty, which `Tilings.TiltedMembers` states.
- polyhex/objects/old.py is entirely commented out and is not part of this model. The same holds for the torch exporter, the start-tile pool data, the re-exporting `__init__.py`, and the example and test scripts.

## Findings

| source | as written | input that shows it | evidently intended | confidence | as-written member | corrected member |
|---|---|---|---|---|---|---|
| polyhex/rules/scoring.py:37 | `hex.adjency()` calls the list that the `adjency` property returns | any polyhex with one hawk: a TypeError before any point is counted | iterate over `hex.adjency` | not executed | Scoring.HawkA | Scoring.HawkCount |
| polyhex/rules/scoring.py:32-40 | the `break` only leaves the neighbour search, so `count += 1` runs for every hawk | two hawks at (0, 0) and (1, 0): they score 5 though neither is solitary | only hawks with no hawk beside them count, giving 0 | not executed | Scoring.HawkCount, Scoring.HawkCountFinding | Scoring.SolitaryHawkA |
| polyhex/environment/training.py:74-76 | `list.remove` deletes the first tile equal to the drawn one, and pool tiles all equal each other (same default coordinate and properties) | a pool of two tiles with node features "a" and "b", index 1 drawn: "b" is returned and "a" is removed | the drawn tile leaves the pool | not executed | Training.Env.Draw, Training.DrawFinding | Training.Env.DrawAt |
