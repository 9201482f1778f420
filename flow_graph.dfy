/**
 * The directed graph that the plotting functions of maxFlow/plotFlow.py build
 * from a capacity matrix: one labelled edge i -> j for every cell (i, j) whose
 * capacity says "there is an edge".  The graph object is represented by its
 * edge list in insertion order, which is the order in which the nested
 * row-major loop calls add_edge; a node's successors are read off that list.
 */
module FlowGraph {

  /** A capacity matrix: row i holds the capacities of the edges leaving node i. */
  type Matrix<C> = seq<seq<C>>

  /** A directed edge from -> to, labelled with the capacity of its matrix cell. */
  datatype Edge<C> = Edge(from: nat, to: nat, capacity: C)

  /** The edge test of plot_graph_from_matrix: a numeric capacity above zero. */
  predicate NumericIsEdge(c: real) {
    c > 0.0
  }

  /** The edge test of the two string variants: any capacity other than "0". */
  predicate StringIsEdge(c: string) {
    c != "0"
  }

  /** Cell (i, j) exists and its capacity passes the edge test. */
  predicate HasEdge<C>(m: Matrix<C>, isEdge: C -> bool, i: nat, j: nat) {
    i < |m| && j < |m[i]| && isEdge(m[i][j])
  }

  /** Cell (i, j) comes strictly before cell (k, l) in row-major order. */
  predicate Before(i: nat, j: nat, k: nat, l: nat) {
    i < k || (i == k && j < l)
  }

  /** The edges are listed in strictly increasing row-major order (so no pair twice). */
  ghost predicate RowMajor<C>(edges: seq<Edge<C>>) {
    forall a, b :: 0 <= a < b < |edges| ==>
      Before(edges[a].from, edges[a].to, edges[b].from, edges[b].to)
  }

  /**
   * `edges` is exactly the edge list built from `m`: an edge for every cell
   * that passes the test, labelled with that cell, in row-major order.
   */
  ghost predicate Extracted<C>(m: Matrix<C>, isEdge: C -> bool, edges: seq<Edge<C>>) {
    && (forall a :: 0 <= a < |edges| ==> IsCellEdge(m, isEdge, edges[a]))
    && (forall i: nat, j: nat :: HasEdge(m, isEdge, i, j) ==> Edge(i, j, m[i][j]) in edges)
    && RowMajor(edges)
  }

  /** The edge stands for a cell that passes the test and carries that cell's capacity. */
  ghost predicate IsCellEdge<C>(m: Matrix<C>, isEdge: C -> bool, e: Edge<C>) {
    HasEdge(m, isEdge, e.from, e.to) && e.capacity == m[e.from][e.to]
  }

  /** The nested loop that adds one edge per qualifying cell, row by row. */
  method ExtractEdges<C>(m: Matrix<C>, isEdge: C -> bool) returns (edges: seq<Edge<C>>)
    ensures forall e :: e in edges <==> HasEdge(m, isEdge, e.from, e.to) && e.capacity == m[e.from][e.to]
    ensures RowMajor(edges)
  {
    edges := [];
    var i := 0;
    while i < |m|
      invariant 0 <= i <= |m|
      invariant forall e :: e in edges <==>
        HasEdge(m, isEdge, e.from, e.to) && e.capacity == m[e.from][e.to] && e.from < i
      invariant RowMajor(edges)
    {
      var j := 0;
      while j < |m[i]|
        invariant 0 <= j <= |m[i]|
        invariant forall e :: e in edges <==>
          HasEdge(m, isEdge, e.from, e.to) && e.capacity == m[e.from][e.to] && Before(e.from, e.to, i, j)
        invariant RowMajor(edges)
      {
        if isEdge(m[i][j]) {
          edges := edges + [Edge(i, j, m[i][j])];
        }
        j := j + 1;
      }
      i := i + 1;
    }
  }

  /** The targets of the edges leaving u, in edge-list order (networkx's neighbors). */
  function Successors<C>(edges: seq<Edge<C>>, u: nat): seq<nat> {
    if edges == [] then []
    else (if edges[0].from == u then [edges[0].to] else []) + Successors(edges[1..], u)
  }

  /** v is a successor of u exactly when some edge u -> v is on the list. */
  lemma {:induction false} SuccessorsMembers<C>(edges: seq<Edge<C>>, u: nat)
    ensures forall v :: v in Successors(edges, u) <==>
      exists a :: 0 <= a < |edges| && edges[a].from == u && edges[a].to == v
  {
    if edges != [] {
      SuccessorsMembers(edges[1..], u);
      assert forall a :: 1 <= a < |edges| ==> edges[a] == edges[1..][a - 1];
      forall v | exists a :: 0 <= a < |edges| && edges[a].from == u && edges[a].to == v
        ensures v in Successors(edges, u)
      {
        var a :| 0 <= a < |edges| && edges[a].from == u && edges[a].to == v;
        if a > 0 {
          assert edges[1..][a - 1] == edges[a];
        }
      }
    }
  }

  /** The successors of a node come out strictly ascending when the list is row-major. */
  lemma {:induction false} SuccessorsAscending<C>(edges: seq<Edge<C>>, u: nat)
    requires RowMajor(edges)
    ensures forall a, b :: 0 <= a < b < |Successors(edges, u)| ==>
      Successors(edges, u)[a] < Successors(edges, u)[b]
  {
    if edges != [] {
      var rest := edges[1..];
      assert RowMajor(rest) by {
        forall a, b | 0 <= a < b < |rest|
          ensures Before(rest[a].from, rest[a].to, rest[b].from, rest[b].to)
        {
          assert rest[a] == edges[a + 1] && rest[b] == edges[b + 1];
        }
      }
      SuccessorsAscending(rest, u);
      if edges[0].from == u {
        var t := Successors(rest, u);
        SuccessorsMembers(rest, u);
        forall b | 0 <= b < |t| ensures edges[0].to < t[b] {
          assert t[b] in t;
          var k :| 0 <= k < |rest| && rest[k].from == u && rest[k].to == t[b];
          assert edges[k + 1] == rest[k];
        }
      }
    }
  }

  /** v follows u in the graph: some edge u -> v was added. */
  predicate Adjacent<C>(edges: seq<Edge<C>>, u: nat, v: nat) {
    v in Successors(edges, u)
  }

  /** One more than the largest node id on any edge (0 for no edges). */
  function Span<C>(edges: seq<Edge<C>>): (n: nat)
    ensures forall a :: 0 <= a < |edges| ==> edges[a].from < n && edges[a].to < n
  {
    if edges == [] then 0
    else
      var rest := Span(edges[1..]);
      var top := if edges[0].from < edges[0].to then edges[0].to else edges[0].from;
      assert forall a :: 1 <= a < |edges| ==> edges[a] == edges[1..][a - 1];
      if rest <= top then top + 1 else rest
  }

  /** Every successor of a node lies below Span. */
  lemma SuccessorsBelowSpan<C>(edges: seq<Edge<C>>, u: nat, v: nat)
    requires Adjacent(edges, u, v)
    ensures v < Span(edges)
  {
    SuccessorsMembers(edges, u);
  }

  /** Over an extracted edge list, v is a successor of u exactly when cell (u, v) is an edge. */
  lemma SuccessorsOfExtracted<C>(m: Matrix<C>, isEdge: C -> bool, edges: seq<Edge<C>>, u: nat)
    requires Extracted(m, isEdge, edges)
    ensures forall v: nat :: Adjacent(edges, u, v) <==> HasEdge(m, isEdge, u, v)
  {
    SuccessorsMembers(edges, u);
    forall v: nat | HasEdge(m, isEdge, u, v) ensures v in Successors(edges, u) {
      assert Edge(u, v, m[u][v]) in edges;
      var a :| 0 <= a < |edges| && edges[a] == Edge(u, v, m[u][v]);
    }
  }

  /** Node x is a node of the graph: some edge starts or ends at it. */
  predicate InGraph<C>(edges: seq<Edge<C>>, x: nat) {
    exists a :: 0 <= a < |edges| && (edges[a].from == x || edges[a].to == x)
  }

  /** Over an extracted edge list, the graph's nodes are the endpoints of edge cells. */
  lemma InGraphOfExtracted<C>(m: Matrix<C>, isEdge: C -> bool, edges: seq<Edge<C>>, x: nat)
    requires Extracted(m, isEdge, edges)
    ensures InGraph(edges, x) <==> exists y: nat :: HasEdge(m, isEdge, x, y) || HasEdge(m, isEdge, y, x)
  {
    if y: nat :| HasEdge(m, isEdge, x, y) || HasEdge(m, isEdge, y, x) {
      if HasEdge(m, isEdge, x, y) {
        assert Edge(x, y, m[x][y]) in edges;
      } else {
        assert Edge(y, x, m[y][x]) in edges;
      }
    }
  }

  /** An upper bound on every node id of the matrix: no row index or column index reaches it. */
  function Width<C>(m: Matrix<C>): (w: nat)
    ensures |m| <= w
    ensures forall i :: 0 <= i < |m| ==> |m[i]| <= w
  {
    if m == [] then 0
    else
      var rest := Width(m[..|m| - 1]);
      var last := |m[|m| - 1]|;
      var big := if rest < last then last else rest;
      if big < |m| then |m| else big
  }

  /** Span is the least bound: any bound on every endpoint bounds Span too. */
  lemma {:induction false} SpanAtMost<C>(edges: seq<Edge<C>>, w: nat)
    requires forall a :: 0 <= a < |edges| ==> edges[a].from < w && edges[a].to < w
    ensures Span(edges) <= w
  {
    if edges != [] {
      assert forall a :: 1 <= a < |edges| ==> edges[1..][a - 1] == edges[a];
      SpanAtMost(edges[1..], w);
    }
  }

  /** The graph built from a matrix has no node id at or beyond the matrix's width. */
  lemma SpanWithinWidth<C>(m: Matrix<C>, isEdge: C -> bool, edges: seq<Edge<C>>)
    requires Extracted(m, isEdge, edges)
    ensures Span(edges) <= Width(m)
  {
    forall a | 0 <= a < |edges| ensures edges[a].from < Width(m) && edges[a].to < Width(m) {
      assert IsCellEdge(m, isEdge, edges[a]);
    }
    SpanAtMost(edges, Width(m));
  }
}
