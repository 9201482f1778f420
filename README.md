# Layered flow-network layout (maxFlow/plotFlow.py)

This project models how the plotting helpers in `maxFlow/plotFlow.py` lay out a flow network given as a
capacity matrix, and proves properties of that model. There are three plotting functions:
`plot_graph_from_matrix`, `plot_graph_from_matrix_string` and `plot_graph_from_matrix_string2`. Each one
computes the same layout before it draws:

1. Build a directed graph with one edge i → j per matrix cell that counts as an edge. The edge is labelled
   with the cell's capacity. In the numeric variant a cell counts when it is `> 0`; in the two string
   variants it counts when it is not `"0"`.
2. Run a breadth-first search from the source over the graph's successor lists. It uses a FIFO queue and a
   level dictionary that also records insertion order.
3. Group the dictionary into one list per level, walking it in insertion order.
4. Place the k nodes of a level at the interior points of `linspace(0, 1, k + 2)`, with y = −level.
5. If the sink was never reached, put it at (0.5, −(deepest level + 1)).

The three functions differ only in the edge test and in how they draw. So the layout is a single method,
`LevelLayout.Build`, that takes the edge test as a parameter. Each plotting function is a thin entry point
that calls it.

The project has three modules:

- **`FlowGraph`** (`flow_graph.dfy`) covers the matrix, the edge test and the graph.
  - The graph is represented by its edge list in `add_edge` order, which is row-major.
  - A node's successors are that list filtered by source node. This matches networkx, where a node's
    successors come out in the order their edges were first added.
  - The nested extraction loop is the method `ExtractEdges`.
- **`BfsLevels`** (`bfs_levels.dfy`) is the breadth-first search as an imperative loop.
  - The dictionary is a `map` together with its insertion order, a `seq`.
  - The queue is a `seq`. The search keeps the queue equal to the not-yet-dequeued suffix of the insertion
    order.
  - The search is proved to compute shortest-path distances: every reached node's level is its distance
    from the source, and exactly the reachable nodes get a level.
  - The insertion order is proved to be the discovery order. A node's discoverer is the first dequeued
    node with an edge to it. Nodes come in the order of their discoverers, and nodes with one discoverer
    come in ascending column order. This order fixes which x each node of a row gets.
- **`LevelLayout`** (`level_layout.dfy`) covers grouping, placement, the sink fallback, the complete layout
  and the three entry points.
  - x coordinates are exact rationals, (i + 1)/(k + 1).
  - These are proved to be the interior points of an exact model of numpy's `linspace`.

The layout fails in one case: the source touches no edge. networkx then raises when asked for the source's
neighbours. The model returns `Err(SourceNotInGraph)` exactly when no cell of the source's row or column
counts as an edge.

## Model

| member | source | states |
|---|---|---|
| FlowGraph.NumericIsEdge | maxFlow/plotFlow.py:14 | The edge test of `plot_graph_from_matrix`: a capacity above zero. |
| FlowGraph.StringIsEdge | maxFlow/plotFlow.py:65 | The edge test of `plot_graph_from_matrix_string` (and line 119 of `plot_graph_from_matrix_string2`): any capacity other than `'0'`. |
| FlowGraph.ExtractEdges | maxFlow/plotFlow.py:12-15 | An edge i → j labelled c is produced exactly when cell (i, j) exists, passes the edge test and holds c. Edges come out in strictly increasing row-major order, so no pair repeats. |
| FlowGraph.Successors | maxFlow/plotFlow.py:23 | networkx's `G.neighbors(u)`: the targets of u's edges, in `add_edge` order. |
| FlowGraph.SuccessorsMembers | maxFlow/plotFlow.py:23 | v is among the neighbours of u exactly when some edge u → v was added. |
| FlowGraph.SuccessorsAscending | maxFlow/plotFlow.py:12-15 | On a row-major edge list, the neighbours of a node are visited in strictly ascending column order. |
| FlowGraph.SuccessorsOfExtracted | maxFlow/plotFlow.py:12-15 | In the built graph, v is a neighbour of u exactly when matrix cell (u, v) passes the edge test. |
| FlowGraph.InGraph | maxFlow/plotFlow.py:23 | The "u is a node of G" test. `G.neighbors(source)` raises when it fails, which is the `SourceNotInGraph` error. |
| FlowGraph.InGraphOfExtracted | maxFlow/plotFlow.py:15 | A node is in the graph exactly when some cell in its row or its column passes the edge test. |
| FlowGraph.SpanWithinWidth | maxFlow/plotFlow.py:12-15 | No node of the built graph has an id at or beyond the matrix width, so the graph has at most that many nodes. |
| BfsLevels.VisitNeighbors | maxFlow/plotFlow.py:23-26 | Handling one dequeued node keeps every existing entry and its position in the insertion order. It adds each neighbour not yet levelled, once, at level current + 1, in the order `G.neighbors` yields them. Afterwards every neighbour has a level. It appends exactly the added nodes to the queue. |
| BfsLevels.InOrderNext | maxFlow/plotFlow.py:23-26 | Going on to the next neighbour, whether or not it is appended, keeps the appended nodes in neighbour order. |
| BfsLevels.DequeueAndVisit | maxFlow/plotFlow.py:20-26 | One loop iteration pops the queue head `queue[0]` (line 21): the new queue is the rest of the old queue followed by exactly the appended nodes. Every old key keeps its level and its place in the insertion order, and every added key is a successor of the popped node, added once at its level + 1 (lines 23-26). It preserves the search invariant: levels never decrease along the insertion order, the queue spans at most two adjacent levels, and dequeued nodes are closed under edges. Every new node has a predecessor one level up. The insertion order is the discovery order. The queue remains the undequeued suffix of the insertion order. |
| BfsLevels.Advance | maxFlow/plotFlow.py:21-26 | Visiting the queue head's successors moves the whole search invariant on by one dequeued node. |
| BfsLevels.BfsStep | maxFlow/plotFlow.py:20-26 | Visiting the successors of the queue head re-establishes the search invariant with one more node dequeued. |
| BfsLevels.StepKeepsOrdered | maxFlow/plotFlow.py:24-26 | Appending nodes at level current + 1 keeps levels non-decreasing along the insertion order and keeps the queue within two adjacent levels. |
| BfsLevels.StepKeepsClosed | maxFlow/plotFlow.py:23-26 | After a node is dequeued, all its successors have a level at most one greater than its own. |
| BfsLevels.FirstFeederIs | maxFlow/plotFlow.py:20-26 | The discoverer's place is p exactly when the p-th dequeued node has an edge to the node and no earlier one does (p = the number of dequeued nodes: none does). |
| BfsLevels.DiscovererAt | maxFlow/plotFlow.py:20-26 | The discovering node is the node at the discoverer's place in the insertion order. |
| BfsLevels.FeederAfterStep | maxFlow/plotFlow.py:21-26 | A node already levelled keeps its discoverer. A node added while visiting the queue head has the head as its discoverer, because every node dequeued earlier had all its successors levelled. |
| BfsLevels.StepKeepsDiscoveryOrder | maxFlow/plotFlow.py:21-26 | Appending the head's new successors in neighbour order keeps the insertion order a discovery order. Every node after the source is discovered by an earlier one. Discoverers never move backwards along the insertion order. Nodes with a shared discoverer follow its neighbour order. Also, every node's discoverer has already been dequeued. |
| BfsLevels.DiscoveredEarlier | maxFlow/plotFlow.py:12-26 | On the row-major graph, of two nodes after the source, the earlier one has an earlier discoverer, or the same one and a smaller id. |
| BfsLevels.DiscoveryRank | maxFlow/plotFlow.py:12-26 | On the row-major graph, node a precedes node b (both after the source) exactly when a's discoverer is earlier, or they share it and a's id is smaller. |
| BfsLevels.StepKeepsDiscovered | maxFlow/plotFlow.py:24-25 | Every node added while visiting `current` has `current` as a predecessor exactly one level up. |
| BfsLevels.SearchStart | maxFlow/plotFlow.py:18-19 | The initial dictionary {source: 0} and queue [source] satisfy the search invariant. |
| BfsLevels.SearchDone | maxFlow/plotFlow.py:20 | An empty queue together with the invariant gives a layered dictionary: closed under edges, with every non-source node's parent one level up, in discovery order. |
| BfsLevels.Bfs | maxFlow/plotFlow.py:18-26 | The dictionary has the source at level 0. Every edge from a levelled node leads to a levelled node at most one level down. Every other levelled node has a parent exactly one level up: the levelled node whose visit discovered it, with an edge to it. The insertion order lists each key once, starts at the source and never decreases in level. It is the discovery order: each node after the source comes after the first dequeued node with an edge to it, these discoverers never move backwards, and nodes with one discoverer follow its neighbour order. It has at most max(span, source + 1) entries, so the loop, which dequeues one entry per iteration, terminates. |
| BfsLevels.PathsStayLevelled | maxFlow/plotFlow.py:18-26 | Any path from the source ends at a levelled node whose level is at most the path's edge count. |
| BfsLevels.PathOfLevelLength | maxFlow/plotFlow.py:18-26 | Every levelled node has a path from the source with exactly as many edges as its level. |
| BfsLevels.LevelsAreDistances | maxFlow/plotFlow.py:18-26 | The levelled nodes are exactly those reachable from the source. Each node's level is its shortest-path distance. |
| BfsLevels.DistinctBelow | maxFlow/plotFlow.py:24 | A list of distinct ids below n has at most n entries; this is what bounds the number of iterations. |
| LevelLayout.Linspace | maxFlow/plotFlow.py:38 | numpy.linspace(start, stop, n) is n values from start to stop with a constant step of (stop − start)/(n − 1). |
| LevelLayout.SlotX | maxFlow/plotFlow.py:38-40 | The x of the i-th of k nodes in a level lies strictly between 0 and 1. |
| LevelLayout.SlotIsLinspace | maxFlow/plotFlow.py:38 | SlotX(i, k) is element i of `linspace(0, 1, k + 2)[1:-1]`. |
| LevelLayout.SlotsIncrease | maxFlow/plotFlow.py:38 | Within a level, x strictly increases with the node's index in its list. |
| LevelLayout.SlotsSymmetric | maxFlow/plotFlow.py:38 | The x values of a level are symmetric about 0.5: x_i + x_(k−1−i) = 1. |
| LevelLayout.AtLevelMembers | maxFlow/plotFlow.py:31-34 | A node is in the list for level L exactly when it is a dictionary key with level L. |
| LevelLayout.AtLevelDistinct | maxFlow/plotFlow.py:31-34 | A level's list holds each node at most once. |
| LevelLayout.AtLevelKeepsOrder | maxFlow/plotFlow.py:31-34 | Within a level's list, nodes appear in dictionary insertion order. |
| LevelLayout.GroupsPartition | maxFlow/plotFlow.py:29-34 | Every key lies in the list of its own level, exactly once, and in no other list. |
| LevelLayout.GroupByLevel | maxFlow/plotFlow.py:29-34 | The grouping loop creates a list exactly for the levels that occur. Each list is that level's keys in insertion order. Each level is recorded once. |
| LevelLayout.GroupsDisjoint | maxFlow/plotFlow.py:29-34 | No node is in two lists, or twice in one list. |
| LevelLayout.PlaceLevel | maxFlow/plotFlow.py:38-40 | The inner loop gives the i-th of a level's k nodes the position (x_i, −level). It adds exactly those nodes and leaves every other position unchanged. |
| LevelLayout.Place | maxFlow/plotFlow.py:37-40 | The outer loop places exactly the grouped nodes. The i-th node of level L's list is at (SlotX(i, k), −L). |
| LevelLayout.PlacedRows | maxFlow/plotFlow.py:29-40 | After grouping and placement, exactly the dictionary keys have positions, each in the row of its level. |
| LevelLayout.MaxLevel | maxFlow/plotFlow.py:44 | The result is the largest value in the level dictionary. |
| LevelLayout.PlaceSink | maxFlow/plotFlow.py:43-45 | A sink without a position goes to (0.5, −(deepest level + 1)). A sink that already has a position keeps it. No other position changes. |
| LevelLayout.Arrange | maxFlow/plotFlow.py:29-45 | Every key and the sink get positions, and no other node does. The keys lie in their rows. An unplaced sink is centred one row below the deepest level. |
| LevelLayout.LayoutOfSearch | maxFlow/plotFlow.py:12-45 | The search result over the built graph, with the arranged positions, is a complete layout: reachability, distances, the insertion-order facts, rows and the sink. |
| LevelLayout.LayoutFrom | maxFlow/plotFlow.py:18-45 | Search, grouping, placement and the sink fallback over the built graph satisfy all layout properties, with the insertion order the discovery order. |
| LevelLayout.Build | maxFlow/plotFlow.py:7-45 | The layout fails exactly when the source touches no edge cell. Otherwise it returns the built graph, the level dictionary and the positions. These satisfy all layout properties, and the dictionary's insertion order is the discovery order. |
| LevelLayout.PlotGraphFromMatrix | maxFlow/plotFlow.py:7-45 | The layout with edges at capacities > 0, and every edge label is > 0. |
| LevelLayout.PlotGraphFromMatrixString | maxFlow/plotFlow.py:58-96 | The layout with edges at cells other than "0", and no label is "0". |
| LevelLayout.PlotGraphFromMatrixString2 | maxFlow/plotFlow.py:112-150 | The same as plot_graph_from_matrix_string. |
| LevelLayout.PathsAreCellWalks | maxFlow/plotFlow.py:12-23 | A path in the built graph is exactly a walk along matrix cells that pass the edge test. |
| LevelLayout.ReachedRow | maxFlow/plotFlow.py:37-40 | A reached node is placed at y = −(its distance from the source), with 0 < x < 1. |
| LevelLayout.InsideStrip | maxFlow/plotFlow.py:37-45 | Every placed node has 0 < x < 1 and y ≤ 0. |
| LevelLayout.RowDistinctX | maxFlow/plotFlow.py:38-40 | Two different nodes of the same level get different x values. |
| LevelLayout.SameRowDistinctX | maxFlow/plotFlow.py:37-45 | Two different placed nodes in the same row never overlap. This includes the fallback sink, which is alone in its row. |
| LevelLayout.ZeroDistanceIsSource | maxFlow/plotFlow.py:18 | A node is at distance 0 from the source exactly when it is the source. |
| LevelLayout.BothAfterSource | maxFlow/plotFlow.py:18-26 | Two different nodes of one level both come after the source in the insertion order. |
| LevelLayout.RowFollowsOrder | maxFlow/plotFlow.py:31-40 | Within one level, a node lies left of another exactly when it comes first in the dictionary's insertion order. |
| LevelLayout.RowOrder | maxFlow/plotFlow.py:12-40 | Within a row, v lies left of w exactly when v's discoverer was dequeued first, or they share a discoverer and v has the smaller column. |
| LevelLayout.TopRowIsSource | maxFlow/plotFlow.py:18-34 | When levels are distances, the list for level 0 is exactly [source]. |
| LevelLayout.SourceAtTopCentre | maxFlow/plotFlow.py:18-40 | The level-0 list is exactly [source], so the source is placed at (0.5, 0). |
| LevelLayout.SinkPlacement | maxFlow/plotFlow.py:43-45 | The sink always has a position. A reachable sink sits in the row of its distance. An unreachable sink is at x = 0.5, strictly below every reached node. |
| LevelLayout.AllNodesPlaced | maxFlow/plotFlow.py:43-48 | Every node of G has a position, which `nx.draw` needs, exactly when every node of G is reachable from the source or is the sink. |
| LevelLayout.EdgeDropsAtMostOneRow | maxFlow/plotFlow.py:12-40 | An edge leaving a reached node leads to a placed node at most one row lower. |

## Left out

- Drawing is not modelled: `nx.draw`, the edge-label drawing, titles, axes and `plt.show`.
- The failure while drawing is not modelled. All three functions call `nx.draw(G, pos, ...)` first
  (lines 48, 99, 153). It raises for any node of G without a position, i.e. any node that is neither
  reached from the source nor the sink. One example: edges 1 → 0 and 1 → 2, source 0, sink 1 leave node 2
  without a position. The model returns `Ok` with that layout. `LevelLayout.AllNodesPlaced` states
  exactly when every node of G has a position.
- The label-placement arithmetic of `plot_graph_from_matrix_string` (line 104) is left out with the rest
  of the drawing.
- numpy floating point is not modelled. `linspace` is computed exactly over the reals, so x values are exact
  rationals and rounding is ignored.
- Capacities are typed. The numeric variant's capacities are `real`; the string variants' are `string`,
  compared with `"0"` by value. Python's comparison of mixed or exotic types (NumPy scalars, Fractions,
  NaN) is not modelled.
- Node ids are natural numbers. Python would also accept negative or non-integer source and sink values;
  those are outside the model.
- Only the parts of networkx the layout uses are modelled: edge insertion order, successor order and the
  error raised for a node not in the graph.
- The imports of `deque` and `Fraction` are unused by the layout and are not modelled. Nor is the
  max-flow computation elsewhere in the repository.
- The three entry points return the layout instead of drawing it. `plot_graph_from_matrix_string2` is
  modelled as a call to the same computation as `plot_graph_from_matrix_string`, because its layout code
  (lines 112-150) is identical to lines 58-96. Only its label drawing differs: line 158 against lines 102-105.
