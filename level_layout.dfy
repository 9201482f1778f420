/**
 * The layered layout of maxFlow/plotFlow.py: the level dictionary is grouped
 * into one list per level (in discovery order), the k nodes of a level are
 * spread over the interior points of linspace(0, 1, k + 2) at y = -level,
 * and an unreached sink is put centred one level below the deepest level.
 * The three plotting functions differ only in the edge test on a cell and
 * in how they draw, so the layout is one method with the edge test as a
 * parameter, and three thin entry points.
 */
module LevelLayout {
  import opened FlowGraph
  import opened BfsLevels

  /** A node position: x exactly as a rational, y = minus the level. */
  datatype Point = Point(x: real, y: int)

  /** numpy.linspace(start, stop, n) with its default endpoint=True, computed exactly: n evenly spaced values. */
  function Linspace(start: real, stop: real, n: nat): (r: seq<real>)
    requires n >= 2
    ensures |r| == n && r[0] == start && r[n - 1] == stop
    ensures forall t :: 0 <= t < n - 1 ==> r[t + 1] - r[t] == (stop - start) / ((n - 1) as real)
  {
    var step := (stop - start) / ((n - 1) as real);
    assert (n - 1) as real * step == stop - start;
    seq(n, t requires 0 <= t < n => start + t as real * step)
  }

  /** The x coordinate given to the i-th (0-based) of the k nodes of one level. */
  function SlotX(i: nat, k: nat): (x: real)
    requires i < k
    ensures 0.0 < x < 1.0
  {
    (i + 1) as real / (k + 1) as real
  }

  /** SlotX(i, k) is element i of linspace(0, 1, k + 2)[1:-1], i.e. element i + 1 of the full sequence. */
  lemma SlotIsLinspace(i: nat, k: nat)
    requires i < k
    ensures SlotX(i, k) == Linspace(0.0, 1.0, k + 2)[1..k + 1][i]
  {
    var d := (k + 1) as real;
    assert Linspace(0.0, 1.0, k + 2)[i + 1] == (i + 1) as real * (1.0 / d);
  }

  /** Within a level the x coordinates strictly increase, so no two nodes of a level share one. */
  lemma SlotsIncrease(i: nat, j: nat, k: nat)
    requires i < j < k
    ensures SlotX(i, k) < SlotX(j, k)
  {
    var d := (k + 1) as real;
    assert SlotX(j, k) - SlotX(i, k) == (j - i) as real / d;
  }

  /** The x coordinates of a level are symmetric about 0.5. */
  lemma SlotsSymmetric(i: nat, k: nat)
    requires i < k
    ensures SlotX(i, k) + SlotX(k - 1 - i, k) == 1.0
  {
    var d := (k + 1) as real;
    calc {
      SlotX(i, k) + SlotX(k - 1 - i, k);
      (i + 1) as real / d + (k - i) as real / d;
      ((i + 1) as real + (k - i) as real) / d;
      d / d;
    }
  }

  /** The nodes of `order` at level L, in their order there (one list of vertical_locations). */
  function AtLevel(order: seq<nat>, levels: map<nat, nat>, L: nat): seq<nat> {
    if order == [] then []
    else
      var last := order[|order| - 1];
      AtLevel(order[..|order| - 1], levels, L) + (if last in levels && levels[last] == L then [last] else [])
  }

  /** Appending one node to the walk extends only the list of that node's level. */
  lemma AtLevelSnoc(s: seq<nat>, x: nat, levels: map<nat, nat>)
    ensures forall L :: (AtLevel(s + [x], levels, L) ==
      AtLevel(s, levels, L) + (if x in levels && levels[x] == L then [x] else []))
  {
    assert (s + [x])[..|s|] == s;
  }

  /** A node is in the level-L list exactly when it is in `order` with level L. */
  lemma {:induction false} AtLevelMembers(order: seq<nat>, levels: map<nat, nat>, L: nat)
    ensures forall v :: v in AtLevel(order, levels, L) <==> v in order && v in levels && levels[v] == L
  {
    if order != [] {
      AtLevelMembers(order[..|order| - 1], levels, L);
      assert order == order[..|order| - 1] + [order[|order| - 1]];
    }
  }

  /** Grouping keeps nodes distinct: each node sits at most once in its list. */
  lemma {:induction false} AtLevelDistinct(order: seq<nat>, levels: map<nat, nat>, L: nat)
    requires Distinct(order)
    ensures Distinct(AtLevel(order, levels, L))
  {
    if order != [] {
      var init := order[..|order| - 1];
      var last := order[|order| - 1];
      assert Distinct(init);
      AtLevelDistinct(init, levels, L);
      AtLevelMembers(init, levels, L);
      assert last !in init;
    }
  }

  /** Within a level's list, nodes keep the relative order they have in the walk. */
  lemma {:induction false} AtLevelKeepsOrder(order: seq<nat>, levels: map<nat, nat>, L: nat)
    ensures forall i, j :: 0 <= i < j < |AtLevel(order, levels, L)| ==>
      Precedes(order, AtLevel(order, levels, L)[i], AtLevel(order, levels, L)[j])
  {
    if order != [] {
      var init := order[..|order| - 1];
      var last := order[|order| - 1];
      var group := AtLevel(order, levels, L);
      var prev := AtLevel(init, levels, L);
      AtLevelKeepsOrder(init, levels, L);
      AtLevelMembers(init, levels, L);
      assert group == prev + (if last in levels && levels[last] == L then [last] else []);
      forall i, j | 0 <= i < j < |group| ensures Precedes(order, group[i], group[j]) {
        if j < |prev| {
          assert Precedes(init, prev[i], prev[j]);
          var a, b :| 0 <= a < b < |init| && init[a] == prev[i] && init[b] == prev[j];
          assert order[a] == group[i] && order[b] == group[j];
        } else {
          assert prev[i] in init;
          var a :| 0 <= a < |init| && init[a] == prev[i];
          assert order[a] == group[i] && order[|order| - 1] == group[j];
        }
      }
    }
  }

  /**
   * Grouping is a partition: every node of `order` lies in exactly one list,
   * the one of its own level, and there exactly once.
   */
  lemma GroupsPartition(order: seq<nat>, levels: map<nat, nat>, v: nat, L: nat)
    requires Distinct(order)
    requires v in order && v in levels
    ensures v in AtLevel(order, levels, L) <==> L == levels[v]
    ensures exists i :: 0 <= i < |AtLevel(order, levels, levels[v])| && AtLevel(order, levels, levels[v])[i] == v
    ensures forall i, j :: 0 <= i < j < |AtLevel(order, levels, levels[v])| ==>
      AtLevel(order, levels, levels[v])[i] != AtLevel(order, levels, levels[v])[j]
  {
    AtLevelMembers(order, levels, L);
    AtLevelMembers(order, levels, levels[v]);
    AtLevelDistinct(order, levels, levels[v]);
  }

  /** The grouping loop: walk the level dictionary in insertion order and append each node to its level's list. */
  method GroupByLevel(levels: map<nat, nat>, order: seq<nat>)
    returns (groups: map<nat, seq<nat>>, levelOrder: seq<nat>)
    requires forall a :: 0 <= a < |order| ==> order[a] in levels
    ensures forall L :: L in groups <==> AtLevel(order, levels, L) != []
    ensures forall L :: L in groups ==> groups[L] == AtLevel(order, levels, L)
    ensures Distinct(levelOrder)
    ensures forall L :: L in groups <==> L in levelOrder
  {
    groups := map[];
    levelOrder := [];
    var i := 0;
    while i < |order|
      invariant 0 <= i <= |order|
      invariant forall L :: L in groups <==> AtLevel(order[..i], levels, L) != []
      invariant forall L :: L in groups ==> groups[L] == AtLevel(order[..i], levels, L)
      invariant Distinct(levelOrder)
      invariant forall L :: L in groups <==> L in levelOrder
    {
      var node := order[i];
      var level := levels[node];
      assert order[..i + 1] == order[..i] + [node];
      AtLevelSnoc(order[..i], node, levels);
      if level !in groups {
        groups := groups[level := []];
        levelOrder := levelOrder + [level];
      }
      groups := groups[level := groups[level] + [node]];
      i := i + 1;
    }
    assert order[..|order|] == order;
  }

  /** No node sits in two lists, or twice in one list. */
  ghost predicate Disjoint(groups: map<nat, seq<nat>>) {
    forall L1, L2, i, j ::
      L1 in groups && L2 in groups && 0 <= i < |groups[L1]| && 0 <= j < |groups[L2]| &&
      groups[L1][i] == groups[L2][j]
      ==> L1 == L2 && i == j
  }

  /** The lists built from a duplicate-free walk are disjoint. */
  lemma GroupsDisjoint(order: seq<nat>, levels: map<nat, nat>, groups: map<nat, seq<nat>>)
    requires Distinct(order)
    requires forall L :: L in groups ==> groups[L] == AtLevel(order, levels, L)
    ensures Disjoint(groups)
  {
    forall L1, L2, i, j |
      L1 in groups && L2 in groups && 0 <= i < |groups[L1]| && 0 <= j < |groups[L2]| &&
      groups[L1][i] == groups[L2][j]
      ensures L1 == L2 && i == j
    {
      AtLevelMembers(order, levels, L1);
      AtLevelMembers(order, levels, L2);
      assert groups[L1][i] in AtLevel(order, levels, L1);
      assert groups[L2][j] in AtLevel(order, levels, L2);
      AtLevelDistinct(order, levels, L1);
    }
  }

  /**
   * The inner placement loop for one level: the k listed nodes get
   * x = linspace(0, 1, k + 2)[1:-1][i] and y = -level; every other entry stays.
   */
  method PlaceLevel(pos: map<nat, Point>, level: nat, nodes: seq<nat>) returns (pos': map<nat, Point>)
    requires Distinct(nodes)
    ensures forall v :: v in pos' <==> v in pos || v in nodes
    ensures forall i :: 0 <= i < |nodes| ==> pos'[nodes[i]] == Point(SlotX(i, |nodes|), -(level as int))
    ensures forall v :: v in pos && v !in nodes ==> pos'[v] == pos[v]
  {
    var k := |nodes|;
    var xs := Linspace(0.0, 1.0, k + 2)[1..k + 1];
    pos' := pos;
    var i := 0;
    while i < k
      invariant 0 <= i <= k
      invariant forall v :: v in pos' <==> v in pos || v in nodes[..i]
      invariant forall j :: 0 <= j < i ==> pos'[nodes[j]] == Point(SlotX(j, k), -(level as int))
      invariant forall v :: v in pos && v !in nodes[..i] ==> pos'[v] == pos[v]
    {
      SlotIsLinspace(i, k);
      assert nodes[..i + 1] == nodes[..i] + [nodes[i]];
      pos' := pos'[nodes[i] := Point(xs[i], -(level as int))];
      i := i + 1;
    }
    assert nodes[..k] == nodes;
  }

  /** The outer placement loop: one level after another, in the order their lists were created. */
  method Place(groups: map<nat, seq<nat>>, levelOrder: seq<nat>) returns (pos: map<nat, Point>)
    requires Distinct(levelOrder)
    requires forall L :: L in groups <==> L in levelOrder
    requires Disjoint(groups)
    ensures forall v :: v in pos <==> exists L, i :: L in groups && 0 <= i < |groups[L]| && groups[L][i] == v
    ensures forall L, i :: L in groups && 0 <= i < |groups[L]| ==>
      groups[L][i] in pos && pos[groups[L][i]] == Point(SlotX(i, |groups[L]|), -(L as int))
  {
    pos := map[];
    var t := 0;
    while t < |levelOrder|
      invariant 0 <= t <= |levelOrder|
      invariant forall v :: v in pos <==>
        exists L, i :: L in levelOrder[..t] && L in groups && 0 <= i < |groups[L]| && groups[L][i] == v
      invariant forall L, i :: L in levelOrder[..t] && L in groups && 0 <= i < |groups[L]| ==>
        groups[L][i] in pos && pos[groups[L][i]] == Point(SlotX(i, |groups[L]|), -(L as int))
    {
      var level := levelOrder[t];
      var nodes := groups[level];
      assert Distinct(nodes);
      var pos' := PlaceLevel(pos, level, nodes);
      assert levelOrder[..t + 1] == levelOrder[..t] + [level];
      assert forall L, i :: L in levelOrder[..t] && L in groups && 0 <= i < |groups[L]| ==> groups[L][i] !in nodes;
      pos := pos';
      t := t + 1;
    }
    assert levelOrder[..t] == levelOrder;
  }

  /** top is the largest value of the level dictionary. */
  ghost predicate IsDeepest(levels: map<nat, nat>, top: int) {
    (exists v :: v in levels && levels[v] == top) && forall v :: v in levels ==> levels[v] <= top
  }

  /** max(levels.values()), walking the dictionary in insertion order. */
  method MaxLevel(levels: map<nat, nat>, order: seq<nat>) returns (top: nat)
    requires order != []
    requires forall v :: v in levels <==> v in order
    ensures IsDeepest(levels, top)
  {
    top := levels[order[0]];
    var i := 1;
    while i < |order|
      invariant 1 <= i <= |order|
      invariant exists a :: 0 <= a < i && levels[order[a]] == top
      invariant forall a :: 0 <= a < i ==> levels[order[a]] <= top
    {
      if levels[order[i]] > top {
        top := levels[order[i]];
      }
      i := i + 1;
    }
    forall v | v in levels ensures levels[v] <= top {
      var a :| 0 <= a < |order| && order[a] == v;
    }
  }

  /**
   * The sink fallback: a sink without a position is put at x = 0.5, one level
   * below the deepest level; a placed sink keeps its place, and no other
   * position changes either way.
   */
  method PlaceSink(levels: map<nat, nat>, order: seq<nat>, pos: map<nat, Point>, sink: nat)
    returns (pos': map<nat, Point>)
    requires order != []
    requires forall v :: v in levels <==> v in order
    ensures forall v :: v in pos' <==> v in pos || v == sink
    ensures forall v :: v in pos ==> pos'[v] == pos[v]
    ensures sink !in pos ==> pos'[sink].x == 0.5 && IsDeepest(levels, -pos'[sink].y - 1)
  {
    pos' := pos;
    if sink !in pos {
      var top := MaxLevel(levels, order);
      pos' := pos[sink := Point(0.5, -(top as int + 1))];
    }
  }

  /** Over an extracted edge list, a path of the graph is exactly a walk along edge cells of the matrix. */
  lemma PathsAreCellWalks<C>(m: Matrix<C>, isEdge: C -> bool, edges: seq<Edge<C>>, source: nat, v: nat, p: seq<nat>)
    requires Extracted(m, isEdge, edges)
    ensures IsPath(edges, source, v, p) <==>
      && |p| >= 1 && p[0] == source && p[|p| - 1] == v
      && forall k :: 0 <= k < |p| - 1 ==> HasEdge(m, isEdge, p[k], p[k + 1])
  {
    forall k | 0 <= k < |p| - 1
      ensures Adjacent(edges, p[k], p[k + 1]) <==> HasEdge(m, isEdge, p[k], p[k + 1])
    {
      SuccessorsOfExtracted(m, isEdge, edges, p[k]);
    }
  }

  /** What a layout is built from and what it places. */
  datatype Layout<C> = Layout(edges: seq<Edge<C>>, levels: map<nat, nat>, order: seq<nat>, pos: map<nat, Point>)

  /** The one way the layout can fail: the source is not a node of the graph, so asking for its neighbours raises. */
  datatype LayoutError = SourceNotInGraph

  datatype Result<T> = Ok(value: T) | Err(error: LayoutError)

  /**
   * The graph and level dictionary of a layout: the graph is the matrix's,
   * the keys are the nodes reachable from the source, each levelled by its
   * distance, listed once each in an insertion order that starts at the
   * source and never goes back up a level, and at most one key per
   * matrix index (or just the source when it lies beyond the matrix).
   */
  ghost predicate Levelled<C>(m: Matrix<C>, isEdge: C -> bool, source: nat, g: Layout<C>) {
    && Extracted(m, isEdge, g.edges)
    && (forall v: nat :: v in g.levels <==> Reachable(g.edges, source, v))
    && (forall v :: v in g.levels ==> IsDistance(g.edges, source, v, g.levels[v]))
    && |g.order| >= 1 && g.order[0] == source
    && (forall v :: v in g.levels <==> v in g.order)
    && Distinct(g.order)
    && Monotone(g.levels, g.order)
    && |g.order| <= Max(Width(m), source + 1)
  }

  /** The i-th of the k nodes at level L (in insertion order) sits at x = (i + 1) / (k + 1), y = -L. */
  ghost predicate Rows(levels: map<nat, nat>, order: seq<nat>, pos: map<nat, Point>) {
    forall L: nat, i :: 0 <= i < |AtLevel(order, levels, L)| ==>
      && AtLevel(order, levels, L)[i] in pos
      && pos[AtLevel(order, levels, L)[i]] == Point(SlotX(i, |AtLevel(order, levels, L)|), -(L as int))
  }

  /**
   * The complete result: the levelled graph, a position for every reached
   * node and for the sink, the rows of the reached nodes, and an unreached
   * sink centred one row below the deepest level.
   */
  ghost predicate IsLayout<C>(m: Matrix<C>, isEdge: C -> bool, source: nat, sink: nat, g: Layout<C>) {
    && Levelled(m, isEdge, source, g)
    && (forall v :: v in g.pos <==> v in g.levels || v == sink)
    && Rows(g.levels, g.order, g.pos)
    && (sink !in g.levels ==> g.pos[sink].x == 0.5 && IsDeepest(g.levels, -g.pos[sink].y - 1))
  }

  /** The placement loops put exactly the walked nodes in their rows. */
  lemma PlacedRows(levels: map<nat, nat>, order: seq<nat>, groups: map<nat, seq<nat>>, pos: map<nat, Point>)
    requires forall v :: v in levels <==> v in order
    requires forall L :: L in groups <==> AtLevel(order, levels, L) != []
    requires forall L :: L in groups ==> groups[L] == AtLevel(order, levels, L)
    requires forall v :: v in pos <==> exists L, i :: L in groups && 0 <= i < |groups[L]| && groups[L][i] == v
    requires forall L, i :: L in groups && 0 <= i < |groups[L]| ==>
      groups[L][i] in pos && pos[groups[L][i]] == Point(SlotX(i, |groups[L]|), -(L as int))
    ensures forall v :: v in pos <==> v in levels
    ensures Rows(levels, order, pos)
  {
    forall v | v in pos ensures v in levels {
      var L, i :| L in groups && 0 <= i < |groups[L]| && groups[L][i] == v;
      AtLevelMembers(order, levels, L);
      assert v in AtLevel(order, levels, L);
    }
    forall v | v in levels ensures v in pos {
      AtLevelMembers(order, levels, levels[v]);
      var group := AtLevel(order, levels, levels[v]);
      assert v in group;
      var i :| 0 <= i < |group| && group[i] == v;
      assert groups[levels[v]][i] == v;
    }
    forall L: nat, i | 0 <= i < |AtLevel(order, levels, L)|
      ensures AtLevel(order, levels, L)[i] in pos
      ensures pos[AtLevel(order, levels, L)[i]] == Point(SlotX(i, |AtLevel(order, levels, L)|), -(L as int))
    {
      assert L in groups;
    }
  }

  /**
   * One plotting function without the drawing: build the graph from the
   * matrix, level it by breadth-first search from the source, group and
   * place the levels, then place the sink if it was not reached.
   */
  method Build<C>(m: Matrix<C>, isEdge: C -> bool, source: nat, sink: nat) returns (r: Result<Layout<C>>)
    ensures r.Err? <==> !exists y: nat :: HasEdge(m, isEdge, source, y) || HasEdge(m, isEdge, y, source)
    ensures r.Ok? ==> IsLayout(m, isEdge, source, sink, r.value)
    ensures r.Ok? ==> DiscoveryOrder(r.value.edges, r.value.order)
  {
    var edges := ExtractEdges(m, isEdge);
    assert Extracted(m, isEdge, edges);
    InGraphOfExtracted(m, isEdge, edges, source);
    if !InGraph(edges, source) {
      return Err(SourceNotInGraph);
    }
    var g := LayoutFrom(m, isEdge, source, sink, edges);
    r := Ok(g);
  }

  /** The search, grouping and placement over the graph built from the matrix. */
  method LayoutFrom<C>(m: Matrix<C>, isEdge: C -> bool, source: nat, sink: nat, edges: seq<Edge<C>>)
    returns (g: Layout<C>)
    requires Extracted(m, isEdge, edges)
    ensures IsLayout(m, isEdge, source, sink, g)
    ensures DiscoveryOrder(g.edges, g.order)
  {
    var levels, order, parent := Bfs(edges, source);
    var pos := Arrange(levels, order, sink);
    LayoutOfSearch(m, isEdge, source, sink, edges, levels, order, parent, pos);
    g := Layout(edges, levels, order, pos);
  }

  /**
   * Everything after the search: group the level dictionary, place each
   * level's row, then place the sink if it is still missing.
   */
  method Arrange(levels: map<nat, nat>, order: seq<nat>, sink: nat) returns (pos: map<nat, Point>)
    requires |order| >= 1
    requires forall v :: v in levels <==> v in order
    requires Distinct(order)
    ensures forall v :: v in pos <==> v in levels || v == sink
    ensures Rows(levels, order, pos)
    ensures sink !in levels ==> pos[sink].x == 0.5 && IsDeepest(levels, -pos[sink].y - 1)
  {
    var groups, levelOrder := GroupByLevel(levels, order);
    GroupsDisjoint(order, levels, groups);
    var rows := Place(groups, levelOrder);
    PlacedRows(levels, order, groups, rows);
    pos := PlaceSink(levels, order, rows, sink);
    RowsKept(levels, order, rows, pos);
  }

  /** Adding entries to the position dictionary keeps every row in place. */
  lemma RowsKept(levels: map<nat, nat>, order: seq<nat>, pos: map<nat, Point>, pos': map<nat, Point>)
    requires Rows(levels, order, pos)
    requires forall v :: v in pos ==> v in pos' && pos'[v] == pos[v]
    ensures Rows(levels, order, pos')
  {
  }

  /** What the search and the placement leave behind is a layout of the matrix. */
  lemma LayoutOfSearch<C>(m: Matrix<C>, isEdge: C -> bool, source: nat, sink: nat, edges: seq<Edge<C>>,
                          levels: map<nat, nat>, order: seq<nat>, parent: map<nat, nat>, pos: map<nat, Point>)
    requires Extracted(m, isEdge, edges)
    requires Layered(edges, source, levels, parent)
    requires |order| >= 1 && order[0] == source
    requires forall v :: v in levels <==> v in order
    requires Distinct(order)
    requires Monotone(levels, order)
    requires |order| <= Max(Span(edges), source + 1)
    requires forall v :: v in pos <==> v in levels || v == sink
    requires Rows(levels, order, pos)
    requires sink !in levels ==> pos[sink].x == 0.5 && IsDeepest(levels, -pos[sink].y - 1)
    ensures IsLayout(m, isEdge, source, sink, Layout(edges, levels, order, pos))
  {
    LevelsAreDistances(edges, source, levels, parent);
    SpanWithinWidth(m, isEdge, edges);
  }

  /** plot_graph_from_matrix: numeric capacities, an edge wherever the capacity is above zero. */
  method PlotGraphFromMatrix(m: Matrix<real>, source: nat, sink: nat) returns (r: Result<Layout<real>>)
    ensures r.Err? <==> !exists y: nat :: HasEdge(m, NumericIsEdge, source, y) || HasEdge(m, NumericIsEdge, y, source)
    ensures r.Ok? ==> IsLayout(m, NumericIsEdge, source, sink, r.value)
    ensures r.Ok? ==> DiscoveryOrder(r.value.edges, r.value.order)
    ensures r.Ok? ==> forall a :: 0 <= a < |r.value.edges| ==> r.value.edges[a].capacity > 0.0
  {
    r := Build(m, NumericIsEdge, source, sink);
  }

  /** plot_graph_from_matrix_string: capacities as strings, an edge wherever the cell is not "0". */
  method PlotGraphFromMatrixString(m: Matrix<string>, source: nat, sink: nat) returns (r: Result<Layout<string>>)
    ensures r.Err? <==> !exists y: nat :: HasEdge(m, StringIsEdge, source, y) || HasEdge(m, StringIsEdge, y, source)
    ensures r.Ok? ==> IsLayout(m, StringIsEdge, source, sink, r.value)
    ensures r.Ok? ==> DiscoveryOrder(r.value.edges, r.value.order)
    ensures r.Ok? ==> forall a :: 0 <= a < |r.value.edges| ==> r.value.edges[a].capacity != "0"
  {
    r := Build(m, StringIsEdge, source, sink);
  }

  /** plot_graph_from_matrix_string2: the same computation as plot_graph_from_matrix_string. */
  method PlotGraphFromMatrixString2(m: Matrix<string>, source: nat, sink: nat) returns (r: Result<Layout<string>>)
    ensures r.Err? <==> !exists y: nat :: HasEdge(m, StringIsEdge, source, y) || HasEdge(m, StringIsEdge, y, source)
    ensures r.Ok? ==> IsLayout(m, StringIsEdge, source, sink, r.value)
    ensures r.Ok? ==> DiscoveryOrder(r.value.edges, r.value.order)
    ensures r.Ok? ==> forall a :: 0 <= a < |r.value.edges| ==> r.value.edges[a].capacity != "0"
  {
    r := PlotGraphFromMatrixString(m, source, sink);
  }

  /** A reached node sits in the row of its distance from the source, strictly inside the unit interval. */
  lemma ReachedRow<C>(m: Matrix<C>, isEdge: C -> bool, source: nat, sink: nat, g: Layout<C>, v: nat)
    requires IsLayout(m, isEdge, source, sink, g)
    requires v in g.levels
    ensures v in g.pos && g.pos[v].y == -(g.levels[v] as int)
    ensures IsDistance(g.edges, source, v, g.levels[v])
    ensures 0.0 < g.pos[v].x < 1.0
  {
    GroupsPartition(g.order, g.levels, v, g.levels[v]);
    var group := AtLevel(g.order, g.levels, g.levels[v]);
    var i :| 0 <= i < |group| && group[i] == v;
    assert g.pos[group[i]] == Point(SlotX(i, |group|), -(g.levels[v] as int));
  }

  /** Every placed node lies in the strip 0 < x < 1, on or below the source's row y = 0. */
  lemma InsideStrip<C>(m: Matrix<C>, isEdge: C -> bool, source: nat, sink: nat, g: Layout<C>, v: nat)
    requires IsLayout(m, isEdge, source, sink, g)
    requires v in g.pos
    ensures 0.0 < g.pos[v].x < 1.0 && g.pos[v].y <= 0
  {
    if v in g.levels {
      ReachedRow(m, isEdge, source, sink, g, v);
    } else {
      assert v == sink;
      ReachedRow(m, isEdge, source, sink, g, source);
    }
  }

  /** Two different placed nodes in the same row never share an x coordinate. */
  lemma SameRowDistinctX<C>(m: Matrix<C>, isEdge: C -> bool, source: nat, sink: nat, g: Layout<C>, v: nat, w: nat)
    requires IsLayout(m, isEdge, source, sink, g)
    requires v in g.pos && w in g.pos && v != w
    requires g.pos[v].y == g.pos[w].y
    ensures g.pos[v].x != g.pos[w].x
  {
    SinkPlacement(m, isEdge, source, sink, g);
    if v !in g.levels || w !in g.levels {
      assert false;
    }
    ReachedRow(m, isEdge, source, sink, g, v);
    ReachedRow(m, isEdge, source, sink, g, w);
    RowDistinctX(g.levels, g.order, g.pos, v, w);
  }

  /** Two different nodes of one level's list get different slots. */
  lemma RowDistinctX(levels: map<nat, nat>, order: seq<nat>, pos: map<nat, Point>, v: nat, w: nat)
    requires Rows(levels, order, pos) && Distinct(order)
    requires v in order && w in order && v in levels && w in levels
    requires v != w && levels[v] == levels[w]
    ensures v in pos && w in pos && pos[v].x != pos[w].x
  {
    var L := levels[v];
    GroupsPartition(order, levels, v, L);
    GroupsPartition(order, levels, w, L);
    var group := AtLevel(order, levels, L);
    var i :| 0 <= i < |group| && group[i] == v;
    var j :| 0 <= j < |group| && group[j] == w;
    if i < j {
      SlotsIncrease(i, j, |group|);
    } else {
      SlotsIncrease(j, i, |group|);
    }
  }

  /** Within one level's row, x increases along the dictionary's insertion order. */
  lemma RowFollowsOrder(levels: map<nat, nat>, order: seq<nat>, pos: map<nat, Point>, a: nat, b: nat)
    requires Rows(levels, order, pos) && Distinct(order)
    requires a < |order| && b < |order| && a != b
    requires order[a] in levels && order[b] in levels && levels[order[a]] == levels[order[b]]
    ensures order[a] in pos && order[b] in pos
    ensures pos[order[a]].x < pos[order[b]].x <==> a < b
  {
    var v, w := order[a], order[b];
    var L := levels[v];
    GroupsPartition(order, levels, v, L);
    GroupsPartition(order, levels, w, L);
    AtLevelKeepsOrder(order, levels, L);
    var group := AtLevel(order, levels, L);
    var i :| 0 <= i < |group| && group[i] == v;
    var j :| 0 <= j < |group| && group[j] == w;
    if i < j {
      SlotsIncrease(i, j, |group|);
      var a', b' :| 0 <= a' < b' < |order| && order[a'] == v && order[b'] == w;
      assert a' == a && b' == b;
    } else {
      SlotsIncrease(j, i, |group|);
      var b', a' :| 0 <= b' < a' < |order| && order[b'] == w && order[a'] == v;
      assert a' == a && b' == b;
    }
  }

  /**
   * Within a row, nodes go left to right in the order the search discovered
   * them: by the place of their discoverer (the first dequeued node with an
   * edge to them), and, for one discoverer, by ascending column of its matrix row.
   */
  lemma RowOrder<C>(m: Matrix<C>, isEdge: C -> bool, source: nat, sink: nat, g: Layout<C>, v: nat, w: nat)
    requires IsLayout(m, isEdge, source, sink, g) && DiscoveryOrder(g.edges, g.order)
    requires v in g.levels && w in g.levels && v != w && g.levels[v] == g.levels[w]
    ensures v in g.pos && w in g.pos
    ensures g.pos[v].x < g.pos[w].x <==>
      || FirstFeeder(g.edges, g.order, v) < FirstFeeder(g.edges, g.order, w)
      || (FirstFeeder(g.edges, g.order, v) == FirstFeeder(g.edges, g.order, w) && v < w)
  {
    assert v in g.order && w in g.order;
    var a :| 0 <= a < |g.order| && g.order[a] == v;
    var b :| 0 <= b < |g.order| && g.order[b] == w;
    BothAfterSource(g.edges, source, g.levels, g.order, a, b);
    RowFollowsOrder(g.levels, g.order, g.pos, a, b);
    DiscoveryRank(g.edges, g.order, a, b);
  }

  /** Two different nodes of one level are both after the source in the insertion order. */
  lemma BothAfterSource<C>(edges: seq<Edge<C>>, source: nat, levels: map<nat, nat>, order: seq<nat>, a: nat, b: nat)
    requires forall v :: v in levels ==> IsDistance(edges, source, v, levels[v])
    requires |order| >= 1 && order[0] == source && Distinct(order)
    requires a < |order| && b < |order| && a != b
    requires order[a] in levels && order[b] in levels && levels[order[a]] == levels[order[b]]
    ensures 0 < a && 0 < b
  {
    ZeroDistanceIsSource(edges, source, order[a], levels[order[a]]);
    ZeroDistanceIsSource(edges, source, order[b], levels[order[b]]);
  }

  /** A node is at distance 0 exactly when it is the source: a path without edges stays at the source. */
  lemma ZeroDistanceIsSource<C>(edges: seq<Edge<C>>, source: nat, v: nat, d: nat)
    requires IsDistance(edges, source, v, d)
    ensures d == 0 <==> v == source
  {
    assert IsPath(edges, source, source, [source]);
    if d == 0 {
      var p :| IsPath(edges, source, v, p) && |p| == 1;
    }
  }

  /** When levels are distances, the level-0 list holds the source alone. */
  lemma TopRowIsSource<C>(edges: seq<Edge<C>>, source: nat, levels: map<nat, nat>, order: seq<nat>)
    requires forall v :: v in levels ==> IsDistance(edges, source, v, levels[v])
    requires source in order && source in levels && levels[source] == 0
    requires Distinct(order)
    ensures AtLevel(order, levels, 0) == [source]
  {
    var top := AtLevel(order, levels, 0);
    GroupsPartition(order, levels, source, 0);
    AtLevelMembers(order, levels, 0);
    assert top[0] in top;
    ZeroDistanceIsSource(edges, source, top[0], 0);
    if |top| > 1 {
      assert top[1] in top;
      ZeroDistanceIsSource(edges, source, top[1], 0);
      assert false;
    }
  }

  /** The source is the only node at level 0, so it sits alone at the top, centred: (0.5, 0). */
  lemma SourceAtTopCentre<C>(m: Matrix<C>, isEdge: C -> bool, source: nat, sink: nat, g: Layout<C>)
    requires IsLayout(m, isEdge, source, sink, g)
    ensures AtLevel(g.order, g.levels, 0) == [source]
    ensures source in g.pos && g.pos[source] == Point(0.5, 0)
  {
    assert g.order[0] in g.order;
    ReachedRow(m, isEdge, source, sink, g, source);
    assert IsPath(g.edges, source, source, [source]);
    TopRowIsSource(g.edges, source, g.levels, g.order);
    var top := AtLevel(g.order, g.levels, 0);
    assert g.pos[top[0]] == Point(SlotX(0, 1), 0);
  }

  /**
   * The sink always gets a position: a reachable sink in the row of its
   * distance, an unreachable one centred strictly below every reached node.
   */
  lemma SinkPlacement<C>(m: Matrix<C>, isEdge: C -> bool, source: nat, sink: nat, g: Layout<C>)
    requires IsLayout(m, isEdge, source, sink, g)
    ensures sink in g.pos
    ensures Reachable(g.edges, source, sink) ==>
      sink in g.levels && g.pos[sink].y <= 0 && IsDistance(g.edges, source, sink, -g.pos[sink].y)
    ensures !Reachable(g.edges, source, sink) ==>
      && g.pos[sink].x == 0.5
      && forall v :: v in g.levels ==> v in g.pos && g.pos[sink].y < g.pos[v].y
  {
    if sink in g.levels {
      ReachedRow(m, isEdge, source, sink, g, sink);
    } else {
      forall v | v in g.levels ensures v in g.pos && g.pos[sink].y < g.pos[v].y {
        ReachedRow(m, isEdge, source, sink, g, v);
      }
    }
  }

  /**
   * An edge cell leaving a reached node leads to a placed node at most one
   * row further down, so every such edge can be drawn and label-anchored.
   */
  lemma EdgeDropsAtMostOneRow<C>(m: Matrix<C>, isEdge: C -> bool, source: nat, sink: nat, g: Layout<C>,
                                 u: nat, v: nat)
    requires IsLayout(m, isEdge, source, sink, g)
    requires u in g.levels && HasEdge(m, isEdge, u, v)
    ensures u in g.pos && v in g.levels && v in g.pos
    ensures g.pos[u].y - 1 <= g.pos[v].y
  {
    SuccessorsOfExtracted(m, isEdge, g.edges, u);
    ReachedRow(m, isEdge, source, sink, g, u);
    var p :| IsPath(g.edges, source, u, p) && |p| == g.levels[u] + 1;
    ExtendPath(g.edges, source, u, v, p);
    ReachedRow(m, isEdge, source, sink, g, v);
  }

  /**
   * Every node of the graph has a position (what drawing the graph needs)
   * exactly when every node of the graph is reachable from the source or is the sink.
   */
  lemma AllNodesPlaced<C>(m: Matrix<C>, isEdge: C -> bool, source: nat, sink: nat, g: Layout<C>)
    requires IsLayout(m, isEdge, source, sink, g)
    ensures (forall x: nat :: InGraph(g.edges, x) ==> x in g.pos) <==>
            (forall x: nat :: InGraph(g.edges, x) ==> Reachable(g.edges, source, x) || x == sink)
  {
  }

  /** A path to u followed by an edge u -> v is a path to v. */
  lemma ExtendPath<C>(edges: seq<Edge<C>>, source: nat, u: nat, v: nat, p: seq<nat>)
    requires IsPath(edges, source, u, p) && Adjacent(edges, u, v)
    ensures IsPath(edges, source, v, p + [v])
  {
    var q := p + [v];
    forall k | 0 <= k < |q| - 1 ensures Adjacent(edges, q[k], q[k + 1]) {
      if k < |p| - 1 {
        assert q[k] == p[k] && q[k + 1] == p[k + 1];
      }
    }
  }
}
