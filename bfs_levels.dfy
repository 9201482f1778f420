/**
 * The breadth-first level assignment of maxFlow/plotFlow.py: starting from the
 * source at level 0, a FIFO queue of discovered nodes is drained, and every
 * successor that has no level yet gets its discoverer's level plus one and
 * joins the queue.  The level dictionary is modelled as a map together with
 * the sequence of its keys in insertion order, since the later grouping step
 * walks the dictionary in that order.
 */
module BfsLevels {
  import opened FlowGraph

  /** The larger of two naturals; bounds the number of keys the search can insert. */
  function Max(a: nat, b: nat): nat {
    if a < b then b else a
  }

  /** No node occurs twice. */
  predicate Distinct(s: seq<nat>) {
    forall a, b :: 0 <= a < b < |s| ==> s[a] != s[b]
  }

  /** A sequence of distinct node ids below n has at most n elements. */
  lemma {:induction false} DistinctBelow(s: seq<nat>, n: nat)
    requires Distinct(s)
    requires forall a :: 0 <= a < |s| ==> s[a] < n
    ensures |s| <= n
    decreases n
  {
    if s == [] {
    } else if i :| 0 <= i < |s| && s[i] == n - 1 {
      var t := s[..i] + s[i + 1..];
      assert forall a :: 0 <= a < |t| ==> t[a] == if a < i then s[a] else s[a + 1];
      DistinctBelow(t, n - 1);
    } else {
      assert s[0] < n;
      DistinctBelow(s, n - 1);
    }
  }

  /** A sequence that starts with s is s followed by the rest of it. */
  lemma PrefixThenRest(s: seq<nat>, t: seq<nat>)
    requires |s| <= |t| && t[..|s|] == s
    ensures t == s + t[|s|..]
  {
  }

  /** Dropping i entries from s + t is dropping them from s, then appending t. */
  lemma SuffixOfAppend(s: seq<nat>, t: seq<nat>, i: nat)
    requires i <= |s|
    ensures s[i..] + t == (s + t)[i..]
  {
  }

  /** p walks from source to v along edge cells: p[0] = source, ..., p[|p| - 1] = v. */
  ghost predicate IsPath<C>(edges: seq<Edge<C>>, source: nat, v: nat, p: seq<nat>) {
    && |p| >= 1
    && p[0] == source
    && p[|p| - 1] == v
    && forall k :: 0 <= k < |p| - 1 ==> Adjacent(edges, p[k], p[k + 1])
  }

  /** Some directed path leads from source to v. */
  ghost predicate Reachable<C>(edges: seq<Edge<C>>, source: nat, v: nat) {
    exists p :: IsPath(edges, source, v, p)
  }

  /** d is the number of edges on a shortest directed path from source to v. */
  ghost predicate IsDistance<C>(edges: seq<Edge<C>>, source: nat, v: nat, d: nat) {
    && (exists p :: IsPath(edges, source, v, p) && |p| == d + 1)
    && (forall p :: IsPath(edges, source, v, p) ==> d + 1 <= |p|)
  }

  /**
   * What the breadth-first search leaves in its level dictionary: the source
   * at level 0; no edge from a levelled node skips a level or leaves the
   * levelled set; every other levelled node has a levelled parent, the node
   * whose visit discovered it, exactly one level up.
   */
  ghost predicate Layered<C>(edges: seq<Edge<C>>, source: nat, levels: map<nat, nat>, parent: map<nat, nat>) {
    && source in levels
    && levels[source] == 0
    && (forall u: nat, v: nat :: u in levels && Adjacent(edges, u, v) ==>
          v in levels && levels[v] <= levels[u] + 1)
    && Discovered(edges, source, levels, parent)
  }

  /** x occurs before y in s. */
  ghost predicate Precedes(s: seq<nat>, x: nat, y: nat) {
    exists a, b :: 0 <= a < b < |s| && s[a] == x && s[b] == y
  }

  /**
   * The place in `order` of the first node with an edge to v, or |order| when
   * no node of `order` has one.  Along a breadth-first order this is the node
   * whose visit discovered v.
   */
  function FirstFeeder<C>(edges: seq<Edge<C>>, order: seq<nat>, v: nat): (p: nat)
    ensures p <= |order|
  {
    if order == [] then 0
    else if Adjacent(edges, order[0], v) then 0
    else 1 + FirstFeeder(edges, order[1..], v)
  }

  /** FirstFeeder is p exactly when order[p] (if any) has an edge to v and no earlier node does. */
  lemma {:induction false} FirstFeederIs<C>(edges: seq<Edge<C>>, order: seq<nat>, v: nat, p: nat)
    ensures FirstFeeder(edges, order, v) == p <==>
      && p <= |order|
      && (p < |order| ==> Adjacent(edges, order[p], v))
      && (forall q :: 0 <= q < p && q < |order| ==> !Adjacent(edges, order[q], v))
    decreases |order|
  {
    if order != [] && p > 0 {
      var rest := order[1..];
      assert forall q :: 1 <= q < |order| ==> order[q] == rest[q - 1];
      FirstFeederIs(edges, rest, v, p - 1);
      if forall q :: 0 <= q < p && q < |order| ==> !Adjacent(edges, order[q], v) {
        assert forall q :: 0 <= q < p - 1 && q < |rest| ==> !Adjacent(edges, rest[q], v) by {
          forall q | 0 <= q < p - 1 && q < |rest| ensures !Adjacent(edges, rest[q], v) {
            assert rest[q] == order[q + 1];
          }
        }
      }
    }
  }

  /** The first node of `order` with an edge to v (0 when there is none). */
  function Discoverer<C>(edges: seq<Edge<C>>, order: seq<nat>, v: nat): nat {
    if order == [] then 0
    else if Adjacent(edges, order[0], v) then order[0]
    else Discoverer(edges, order[1..], v)
  }

  /** Discoverer is the node at place FirstFeeder. */
  lemma {:induction false} DiscovererAt<C>(edges: seq<Edge<C>>, order: seq<nat>, v: nat)
    ensures FirstFeeder(edges, order, v) < |order| ==>
      Discoverer(edges, order, v) == order[FirstFeeder(edges, order, v)]
    decreases |order|
  {
    if order != [] && !Adjacent(edges, order[0], v) {
      DiscovererAt(edges, order[1..], v);
    }
  }

  /**
   * `order` is a breadth-first discovery order: every node after the first
   * has an edge from an earlier node; the discoverers (first such nodes)
   * never move backwards along `order`; and nodes with the same discoverer
   * come in the order of its successor list.
   */
  ghost predicate DiscoveryOrder<C>(edges: seq<Edge<C>>, order: seq<nat>) {
    && (forall b :: 0 < b < |order| ==> FirstFeeder(edges, order, order[b]) < b)
    && (forall a, b :: 0 < a < b < |order| ==>
          FirstFeeder(edges, order, order[a]) <= FirstFeeder(edges, order, order[b]))
    && (forall a, b ::
          (0 < a < b < |order| && FirstFeeder(edges, order, order[a]) == FirstFeeder(edges, order, order[b]))
          ==> Precedes(Successors(edges, Discoverer(edges, order, order[a])), order[a], order[b]))
  }

  /**
   * On a row-major graph, a discovery order lists two nodes after the first
   * by their discoverers' places, and by ascending id when the discoverer is shared.
   */
  lemma DiscoveryRank<C>(edges: seq<Edge<C>>, order: seq<nat>, a: nat, b: nat)
    requires RowMajor(edges) && DiscoveryOrder(edges, order)
    requires 0 < a < |order| && 0 < b < |order| && a != b
    ensures a < b <==>
      || FirstFeeder(edges, order, order[a]) < FirstFeeder(edges, order, order[b])
      || (FirstFeeder(edges, order, order[a]) == FirstFeeder(edges, order, order[b]) && order[a] < order[b])
  {
    if a < b {
      DiscoveredEarlier(edges, order, a, b);
    } else {
      DiscoveredEarlier(edges, order, b, a);
    }
  }

  /** The earlier of two nodes after the first has an earlier discoverer, or the same one and a smaller id. */
  lemma DiscoveredEarlier<C>(edges: seq<Edge<C>>, order: seq<nat>, a: nat, b: nat)
    requires RowMajor(edges) && DiscoveryOrder(edges, order)
    requires 0 < a < b < |order|
    ensures || FirstFeeder(edges, order, order[a]) < FirstFeeder(edges, order, order[b])
            || (FirstFeeder(edges, order, order[a]) == FirstFeeder(edges, order, order[b]) && order[a] < order[b])
  {
    var p := FirstFeeder(edges, order, order[a]);
    if FirstFeeder(edges, order, order[b]) == p {
      assert p < a;
      var neighbors := Successors(edges, order[p]);
      DiscovererAt(edges, order, order[a]);
      assert Precedes(neighbors, order[a], order[b]);
      var i, j :| 0 <= i < j < |neighbors| && neighbors[i] == order[a] && neighbors[j] == order[b];
      SuccessorsAscending(edges, order[p]);
    }
  }

  /** Every node after the first was discovered by one of the first `head` nodes, the dequeued ones. */
  ghost predicate FedBefore<C>(edges: seq<Edge<C>>, order: seq<nat>, head: nat) {
    forall b :: 0 < b < |order| ==> FirstFeeder(edges, order, order[b]) < head
  }

  /** Every node of s occurs among the first k entries of `within`, and s keeps their order there. */
  ghost predicate InOrderWithin(s: seq<nat>, within: seq<nat>, k: nat) {
    && k <= |within|
    && (forall a :: 0 <= a < |s| ==> s[a] in within[..k])
    && (forall a, b :: 0 <= a < b < |s| ==> Precedes(within, s[a], s[b]))
  }

  /** Looking at one more entry of `within` keeps the order, with or without appending that entry. */
  lemma InOrderNext(s: seq<nat>, within: seq<nat>, k: nat)
    requires InOrderWithin(s, within, k) && k < |within|
    ensures InOrderWithin(s, within, k + 1)
    ensures InOrderWithin(s + [within[k]], within, k + 1)
  {
    assert forall a :: 0 <= a < |s| ==> s[a] in within[..k + 1] by {
      forall a | 0 <= a < |s| ensures s[a] in within[..k + 1] {
        var i :| 0 <= i < k && within[..k][i] == s[a];
        assert within[..k + 1][i] == s[a];
      }
    }
    var t := s + [within[k]];
    forall a, b | 0 <= a < b < |t| ensures Precedes(within, t[a], t[b]) {
      if b < |s| {
        assert t[a] == s[a] && t[b] == s[b];
      } else {
        var i :| 0 <= i < k && within[..k][i] == s[a];
        assert within[i] == t[a] && within[k] == t[b];
      }
    }
    assert within[..k + 1][k] == within[k];
  }

  /**
   * The dictionary (levels', order') extends (levels, order): old entries keep
   * their level and place, and every added key is one of `candidates`, added
   * once, at level `newLevel`.
   */
  ghost predicate Extends(levels: map<nat, nat>, order: seq<nat>, levels': map<nat, nat>, order': seq<nat>,
                          candidates: seq<nat>, newLevel: nat) {
    && |order| <= |order'| && order'[..|order|] == order
    && (forall v :: v in levels' <==> v in order')
    && Distinct(order')
    && (forall v :: v in levels ==> v in levels' && levels'[v] == levels[v])
    && (forall a :: |order| <= a < |order'| ==> order'[a] in candidates && levels'[order'[a]] == newLevel)
  }

  /**
   * The body of the search for one dequeued node: every successor without a
   * level gets level `currentLevel + 1` and is appended to both the level
   * dictionary and the queue; successors that already have a level are left alone.
   */
  method VisitNeighbors(neighbors: seq<nat>, currentLevel: nat,
                        levels: map<nat, nat>, order: seq<nat>, queue: seq<nat>)
    returns (levels': map<nat, nat>, order': seq<nat>, queue': seq<nat>)
    requires forall v :: v in levels <==> v in order
    requires Distinct(order)
    ensures Extends(levels, order, levels', order', neighbors, currentLevel + 1)
    ensures forall t :: 0 <= t < |neighbors| ==> neighbors[t] in levels'
    ensures queue' == queue + order'[|order|..]
    ensures InOrderWithin(order'[|order|..], neighbors, |neighbors|)
  {
    levels', order', queue' := levels, order, queue;
    var k := 0;
    while k < |neighbors|
      invariant 0 <= k <= |neighbors|
      invariant Extends(levels, order, levels', order', neighbors, currentLevel + 1)
      invariant forall t :: 0 <= t < k ==> neighbors[t] in levels'
      invariant queue' == queue + order'[|order|..]
      invariant InOrderWithin(order'[|order|..], neighbors, k)
    {
      var neighbor := neighbors[k];
      InOrderNext(order'[|order|..], neighbors, k);
      if neighbor !in levels' {
        assert (order' + [neighbor])[|order|..] == order'[|order|..] + [neighbor];
        levels' := levels'[neighbor := currentLevel + 1];
        queue' := queue' + [neighbor];
        order' := order' + [neighbor];
      }
      k := k + 1;
    }
  }

  /** Levels never decrease along the insertion order of the dictionary. */
  ghost predicate Monotone(levels: map<nat, nat>, order: seq<nat>) {
    forall a, b :: 0 <= a <= b < |order| ==>
      order[a] in levels && order[b] in levels && levels[order[a]] <= levels[order[b]]
  }

  /** The nodes not yet dequeued span at most two consecutive levels. */
  ghost predicate Spread(levels: map<nat, nat>, order: seq<nat>, head: nat) {
    head < |order| ==>
      order[head] in levels && order[|order| - 1] in levels &&
      levels[order[|order| - 1]] <= levels[order[head]] + 1
  }

  /** Every dequeued node has all its successors levelled, at most one level further down. */
  ghost predicate ClosedUpTo<C>(edges: seq<Edge<C>>, levels: map<nat, nat>, order: seq<nat>, head: nat) {
    forall a, v: nat :: 0 <= a < head && a < |order| && Adjacent(edges, order[a], v) ==>
      order[a] in levels && v in levels && levels[v] <= levels[order[a]] + 1
  }

  /** Every levelled node other than the source was discovered by a levelled predecessor one level up. */
  ghost predicate Discovered<C>(edges: seq<Edge<C>>, source: nat,
                                levels: map<nat, nat>, parent: map<nat, nat>) {
    forall v :: v in levels && v != source ==>
      v in parent && parent[v] in levels && Adjacent(edges, parent[v], v) &&
      levels[parent[v]] + 1 == levels[v]
  }

  /** The loop invariant of the search after `head` nodes have been dequeued. */
  ghost predicate Searching<C>(edges: seq<Edge<C>>, source: nat, bound: nat,
                               levels: map<nat, nat>, order: seq<nat>, head: nat, parent: map<nat, nat>) {
    && Levelling(edges, source, bound, levels, order, head, parent)
    && DiscoveryOrder(edges, order) && FedBefore(edges, order, head)
  }

  /** The part of the invariant about the levels themselves. */
  ghost predicate Levelling<C>(edges: seq<Edge<C>>, source: nat, bound: nat,
                               levels: map<nat, nat>, order: seq<nat>, head: nat, parent: map<nat, nat>) {
    && head <= |order| <= bound && 1 <= |order|
    && order[0] == source && source in levels && levels[source] == 0
    && Enumerates(levels, order, bound)
    && Layering(edges, source, levels, order, head, parent)
  }

  /** `order` lists the dictionary's keys once each, all below `bound`. */
  ghost predicate Enumerates(levels: map<nat, nat>, order: seq<nat>, bound: nat) {
    && (forall v :: v in levels <==> v in order)
    && Distinct(order)
    && (forall a :: 0 <= a < |order| ==> order[a] < bound)
  }

  /** The ordering, closure and discovery facts the search maintains. */
  ghost predicate Layering<C>(edges: seq<Edge<C>>, source: nat, levels: map<nat, nat>, order: seq<nat>,
                              head: nat, parent: map<nat, nat>) {
    && Monotone(levels, order)
    && Spread(levels, order, head)
    && ClosedUpTo(edges, levels, order, head)
    && Discovered(edges, source, levels, parent)
  }

  /** Appending nodes one level below the dequeued node keeps the levels monotone and the queue within two levels. */
  lemma StepKeepsOrdered(levels: map<nat, nat>, order: seq<nat>, head: nat,
                         levels': map<nat, nat>, order': seq<nat>)
    requires head < |order| && order[head] in levels
    requires Monotone(levels, order) && Spread(levels, order, head)
    requires |order| <= |order'| && order'[..|order|] == order
    requires forall v :: v in levels ==> v in levels' && levels'[v] == levels[v]
    requires forall a :: |order| <= a < |order'| ==>
      order'[a] in levels' && levels'[order'[a]] == levels[order[head]] + 1
    ensures Monotone(levels', order') && Spread(levels', order', head + 1)
    ensures forall a :: 0 <= a < |order'| ==> levels'[order'[a]] <= levels[order[head]] + 1
  {
    var top := levels[order[head]] + 1;
    forall a | 0 <= a < |order'| ensures order'[a] in levels' && levels'[order'[a]] <= top {
      if a < |order| {
        assert order'[a] == order[a];
      }
    }
    forall a, b | 0 <= a <= b < |order'|
      ensures order'[a] in levels' && order'[b] in levels' && levels'[order'[a]] <= levels'[order'[b]]
    {
      if b < |order| {
        assert order'[a] == order[a] && order'[b] == order[b];
      } else if a < |order| {
        assert order'[a] == order[a];
      }
    }
    if head + 1 < |order'| {
      assert levels'[order'[head + 1]] >= levels[order[head]];
    }
  }

  /** After the dequeued node's successors are visited, it joins the closed prefix. */
  lemma StepKeepsClosed<C>(edges: seq<Edge<C>>, levels: map<nat, nat>, order: seq<nat>, head: nat,
                           levels': map<nat, nat>, order': seq<nat>)
    requires head < |order| && order[head] in levels
    requires ClosedUpTo(edges, levels, order, head)
    requires |order| <= |order'| && order'[..|order|] == order
    requires forall v :: v in levels ==> v in levels' && levels'[v] == levels[v]
    requires forall v: nat :: Adjacent(edges, order[head], v) ==>
      v in levels' && levels'[v] <= levels[order[head]] + 1
    ensures ClosedUpTo(edges, levels', order', head + 1)
  {
    forall a, v: nat | 0 <= a < head + 1 && a < |order'| && Adjacent(edges, order'[a], v)
      ensures order'[a] in levels' && v in levels' && levels'[v] <= levels'[order'[a]] + 1
    {
      assert order'[a] == order[a];
    }
  }

  /** The nodes discovered from the dequeued node have it as their parent. */
  lemma StepKeepsDiscovered<C>(edges: seq<Edge<C>>, source: nat, current: nat,
                               levels: map<nat, nat>, parent: map<nat, nat>, levels': map<nat, nat>)
    requires Discovered(edges, source, levels, parent)
    requires source in levels && current in levels
    requires forall v :: v in levels ==> v in levels' && levels'[v] == levels[v]
    requires forall v :: v in levels' && v !in levels ==>
      Adjacent(edges, current, v) && levels'[v] == levels[current] + 1
    ensures Discovered(edges, source, levels', parent + map v | v in levels' && v !in levels :: current)
  {
  }

  /**
   * A node already in `order` keeps its discoverer when nodes are appended;
   * a node appended after visiting order[head] has order[head] as its
   * discoverer, since every node dequeued before it had all its successors levelled.
   */
  lemma FeederAfterStep<C>(edges: seq<Edge<C>>, levels: map<nat, nat>, order: seq<nat>, head: nat,
                           order': seq<nat>, b: nat)
    requires head < |order| && FedBefore(edges, order, head)
    requires ClosedUpTo(edges, levels, order, head) && forall v :: v in levels <==> v in order
    requires |order| <= |order'| && order'[..|order|] == order && Distinct(order')
    requires 0 < b < |order'|
    requires b >= |order| ==> Adjacent(edges, order[head], order'[b])
    ensures FirstFeeder(edges, order', order'[b]) == if b < |order| then FirstFeeder(edges, order, order[b]) else head
  {
    var v := order'[b];
    assert forall q :: 0 <= q < |order| ==> order'[q] == order[q];
    if b < |order| {
      var p := FirstFeeder(edges, order, v);
      FirstFeederIs(edges, order, v, p);
      FirstFeederIs(edges, order', v, p);
    } else {
      assert v !in order by {
        if c :| 0 <= c < |order| && order[c] == v {
          assert order'[c] == order'[b];
        }
      }
      FirstFeederIs(edges, order', v, head);
    }
  }

  /** Nodes appended while visiting order[head], in its successor order, keep `order` a discovery order. */
  lemma StepKeepsDiscoveryOrder<C>(edges: seq<Edge<C>>, levels: map<nat, nat>, order: seq<nat>, head: nat,
                                   order': seq<nat>)
    requires head < |order|
    requires DiscoveryOrder(edges, order) && FedBefore(edges, order, head)
    requires ClosedUpTo(edges, levels, order, head) && forall v :: v in levels <==> v in order
    requires |order| <= |order'| && order'[..|order|] == order && Distinct(order')
    requires InOrderWithin(order'[|order|..], Successors(edges, order[head]), |Successors(edges, order[head])|)
    ensures DiscoveryOrder(edges, order') && FedBefore(edges, order', head + 1)
  {
    var added := order'[|order|..];
    var neighbors := Successors(edges, order[head]);
    assert forall a :: |order| <= a < |order'| ==> order'[a] == added[a - |order|];
    assert neighbors[..|neighbors|] == neighbors;
    forall b | 0 < b < |order'|
      ensures FirstFeeder(edges, order', order'[b]) == if b < |order| then FirstFeeder(edges, order, order[b]) else head
    {
      if b >= |order| {
        assert added[b - |order|] in neighbors;
      }
      FeederAfterStep(edges, levels, order, head, order', b);
    }
    forall a, b | 0 < a < b < |order'| &&
        FirstFeeder(edges, order', order'[a]) == FirstFeeder(edges, order', order'[b])
      ensures Precedes(Successors(edges, Discoverer(edges, order', order'[a])), order'[a], order'[b])
    {
      var p := FirstFeeder(edges, order', order'[a]);
      DiscovererAt(edges, order', order'[a]);
      assert order'[p] == order[p];
      if b < |order| {
        DiscovererAt(edges, order, order[a]);
        assert order'[a] == order[a] && order'[b] == order[b];
      }
    }
  }

  /** One round of the loop: dequeue order[head], visit its successors; the invariant moves on by one node. */
  lemma BfsStep<C>(edges: seq<Edge<C>>, source: nat, bound: nat,
                   levels: map<nat, nat>, order: seq<nat>, head: nat, parent: map<nat, nat>,
                   levels': map<nat, nat>, order': seq<nat>)
    requires Levelling(edges, source, bound, levels, order, head, parent)
    requires head < |order| && Span(edges) <= bound
    requires Extends(levels, order, levels', order', Successors(edges, order[head]), levels[order[head]] + 1)
    requires forall t :: 0 <= t < |Successors(edges, order[head])| ==> Successors(edges, order[head])[t] in levels'
    ensures Levelling(edges, source, bound, levels', order', head + 1,
                      parent + map v | v in levels' && v !in levels :: order[head])
  {
    var current := order[head];
    var neighbors := Successors(edges, current);
    forall a | 0 <= a < |order'| ensures order'[a] < bound {
      if a < |order| {
        assert order'[a] == order[a];
      } else {
        SuccessorsBelowSpan(edges, current, order'[a]);
      }
    }
    DistinctBelow(order', bound);
    assert order'[0] == order[0];
    StepKeepsOrdered(levels, order, head, levels', order');
    forall v: nat | Adjacent(edges, current, v)
      ensures v in levels' && levels'[v] <= levels[current] + 1
    {
      assert v in neighbors;
      var t :| 0 <= t < |neighbors| && neighbors[t] == v;
      assert v in order';
      var b :| 0 <= b < |order'| && order'[b] == v;
    }
    StepKeepsClosed(edges, levels, order, head, levels', order');
    forall v | v in levels' && v !in levels
      ensures Adjacent(edges, current, v) && levels'[v] == levels[current] + 1
    {
      var b :| 0 <= b < |order'| && order'[b] == v;
      assert b >= |order|;
    }
    StepKeepsDiscovered(edges, source, current, levels, parent, levels');
  }

  /** Visiting the successors of order[head] moves the whole invariant on by one node. */
  lemma Advance<C>(edges: seq<Edge<C>>, source: nat, bound: nat,
                   levels: map<nat, nat>, order: seq<nat>, head: nat, parent: map<nat, nat>,
                   levels': map<nat, nat>, order': seq<nat>)
    requires Searching(edges, source, bound, levels, order, head, parent)
    requires head < |order| && Span(edges) <= bound
    requires Extends(levels, order, levels', order', Successors(edges, order[head]), levels[order[head]] + 1)
    requires forall t :: 0 <= t < |Successors(edges, order[head])| ==> Successors(edges, order[head])[t] in levels'
    requires InOrderWithin(order'[|order|..], Successors(edges, order[head]), |Successors(edges, order[head])|)
    ensures Searching(edges, source, bound, levels', order', head + 1,
                      parent + map v | v in levels' && v !in levels :: order[head])
  {
    BfsStep(edges, source, bound, levels, order, head, parent, levels', order');
    StepKeepsDiscoveryOrder(edges, levels, order, head, order');
  }

  /** Once the queue is empty, the whole dictionary is closed under successors. */
  lemma SearchDone<C>(edges: seq<Edge<C>>, source: nat, bound: nat,
                      levels: map<nat, nat>, order: seq<nat>, parent: map<nat, nat>)
    requires Searching(edges, source, bound, levels, order, |order|, parent)
    ensures Layered(edges, source, levels, parent)
    ensures |order| >= 1 && order[0] == source
    ensures forall v :: v in levels <==> v in order
    ensures Distinct(order)
    ensures Monotone(levels, order)
    ensures DiscoveryOrder(edges, order)
    ensures |order| <= bound
  {
    forall u: nat, v: nat | u in levels && Adjacent(edges, u, v)
      ensures v in levels && levels[v] <= levels[u] + 1
    {
      var a :| 0 <= a < |order| && order[a] == u;
    }
  }

  /**
   * One round of the loop: pop the head of the queue and visit its
   * successors in the graph's neighbour order.
   */
  method DequeueAndVisit<C>(edges: seq<Edge<C>>, ghost source: nat,
                            ghost bound: nat, levels: map<nat, nat>, order: seq<nat>, queue: seq<nat>,
                            ghost head: nat, ghost parent: map<nat, nat>)
    returns (levels': map<nat, nat>, order': seq<nat>, queue': seq<nat>, ghost parent': map<nat, nat>)
    requires Span(edges) <= bound
    requires Searching(edges, source, bound, levels, order, head, parent)
    requires queue == order[head..] && queue != []
    ensures Searching(edges, source, bound, levels', order', head + 1, parent')
    ensures Extends(levels, order, levels', order', Successors(edges, queue[0]), levels[queue[0]] + 1)
    ensures queue' == queue[1..] + order'[|order|..]
    ensures queue' == order'[head + 1..]
    ensures |order| <= |order'| <= bound
  {
    var current := queue[0];
    var rest := queue[1..];
    var currentLevel := levels[current];
    var neighbors := Successors(edges, current);
    levels', order', queue' := VisitNeighbors(neighbors, currentLevel, levels, order, rest);
    Advance(edges, source, bound, levels, order, head, parent, levels', order');
    PrefixThenRest(order, order');
    SuffixOfAppend(order, order'[|order|..], head + 1);
    parent' := parent + map v | v in levels' && v !in levels :: current;
  }

  /** Before the loop: only the source is levelled and queued. */
  lemma SearchStart<C>(edges: seq<Edge<C>>, source: nat)
    ensures Searching(edges, source, Max(Span(edges), source + 1), map[source := 0], [source], 0, map[])
  {
  }

  /** The BFS loop: a list used as a FIFO queue and a level dictionary filled on first discovery. */
  method Bfs<C>(edges: seq<Edge<C>>, source: nat)
    returns (levels: map<nat, nat>, order: seq<nat>, ghost parent: map<nat, nat>)
    ensures Layered(edges, source, levels, parent)
    ensures |order| >= 1 && order[0] == source
    ensures forall v :: v in levels <==> v in order
    ensures Distinct(order)
    ensures Monotone(levels, order)
    ensures DiscoveryOrder(edges, order)
    ensures |order| <= Max(Span(edges), source + 1)
  {
    levels := map[source := 0];
    order := [source];
    var queue := [source];
    ghost var head := 0;
    ghost var bound := Max(Span(edges), source + 1);
    parent := map[];
    SearchStart(edges, source);
    while queue != []
      invariant Searching(edges, source, bound, levels, order, head, parent)
      invariant queue == order[head..] && head + |queue| == |order|
      decreases bound - |order|, |queue|
    {
      levels, order, queue, parent :=
        DequeueAndVisit(edges, source, bound, levels, order, queue, head, parent);
      head := head + 1;
    }
    assert head == |order|;
    SearchDone(edges, source, bound, levels, order, parent);
  }

  /** Following a path from the source never leaves the levelled nodes, and a level never exceeds a path's length. */
  lemma {:induction false} PathsStayLevelled<C>(
    edges: seq<Edge<C>>, source: nat, levels: map<nat, nat>, parent: map<nat, nat>, v: nat, p: seq<nat>)
    requires Layered(edges, source, levels, parent)
    requires IsPath(edges, source, v, p)
    ensures v in levels && levels[v] + 1 <= |p|
    decreases |p|
  {
    if |p| > 1 {
      var q := p[..|p| - 1];
      var u := q[|q| - 1];
      assert Adjacent(edges, p[|p| - 2], p[|p| - 1]);
      assert IsPath(edges, source, u, q);
      PathsStayLevelled(edges, source, levels, parent, u, q);
    }
  }

  /** Every levelled node is reached by a path with exactly as many edges as its level. */
  lemma {:induction false} PathOfLevelLength<C>(
    edges: seq<Edge<C>>, source: nat, levels: map<nat, nat>, parent: map<nat, nat>, v: nat)
    returns (p: seq<nat>)
    requires Layered(edges, source, levels, parent)
    requires v in levels
    ensures IsPath(edges, source, v, p) && |p| == levels[v] + 1
    decreases levels[v]
  {
    if v == source {
      p := [source];
    } else {
      var u := parent[v];
      var q := PathOfLevelLength(edges, source, levels, parent, u);
      p := q + [v];
      assert forall k :: 0 <= k < |p| - 1 ==> Adjacent(edges, p[k], p[k + 1]) by {
        forall k | 0 <= k < |p| - 1 ensures Adjacent(edges, p[k], p[k + 1]) {
          if k < |q| - 1 {
            assert p[k] == q[k] && p[k + 1] == q[k + 1];
            assert Adjacent(edges, q[k], q[k + 1]);
          } else {
            assert p[k] == u && p[k + 1] == v;
          }
        }
      }
    }
  }

  /**
   * The levels are exactly the breadth-first distances: a node is levelled
   * exactly when the source reaches it, and its level is the number of edges
   * on a shortest path from the source.
   */
  lemma LevelsAreDistances<C>(edges: seq<Edge<C>>, source: nat, levels: map<nat, nat>, parent: map<nat, nat>)
    requires Layered(edges, source, levels, parent)
    ensures forall v: nat :: v in levels <==> Reachable(edges, source, v)
    ensures forall v :: v in levels ==> IsDistance(edges, source, v, levels[v])
  {
    forall v: nat | v in levels
      ensures Reachable(edges, source, v) && IsDistance(edges, source, v, levels[v])
    {
      var p := PathOfLevelLength(edges, source, levels, parent, v);
      forall q | IsPath(edges, source, v, q) ensures levels[v] + 1 <= |q| {
        PathsStayLevelled(edges, source, levels, parent, v, q);
      }
    }
    forall v: nat | Reachable(edges, source, v) ensures v in levels {
      var q :| IsPath(edges, source, v, q);
      PathsStayLevelled(edges, source, levels, parent, v, q);
    }
  }
}
