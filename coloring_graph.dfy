// Breadth-first traversal for the colouring program: the distances from
// one node (RunDijkstra), and the breadth-first order from a start node
// that renumbers the graph before the search (BuildOrdering).

module ColoringGraph {
  import opened ColoringSearch

  /** w is a walk: graph nodes, each one a neighbour of the node before it. */
  ghost predicate Walk(adj: Graph, w: seq<int>)
  {
    |w| > 0 && (forall k :: 0 <= k < |w| ==> 0 <= w[k] < |adj|) &&
    forall k :: 0 < k < |w| ==> w[k] in adj[w[k - 1]]
  }

  /** A walk goes on to a neighbour of its last node. */
  lemma WalkAppend(adj: Graph, w: seq<int>, n: int)
    requires Walk(adj, w) && 0 <= n < |adj| && n in adj[w[|w| - 1]]
    ensures Walk(adj, w + [n])
  {
    var w' := w + [n];
    forall i | 0 < i < |w'|
      ensures w'[i] in adj[w'[i - 1]]
    {
      if i < |w| {
        assert w'[i] == w[i] && w'[i - 1] == w[i - 1];
      }
    }
  }

  /** Some walk leads from s to n. */
  ghost predicate Reachable(adj: Graph, s: int, n: int)
  {
    exists w :: Walk(adj, w) && w[0] == s && w[|w| - 1] == n
  }

  /** No value occurs twice in s. */
  predicate Distinct(s: seq<int>)
  {
    forall k, l :: 0 <= k < l < |s| ==> s[k] != s[l]
  }

  /** order lists each of the nodes 0 .. n - 1 once. */
  predicate IsPermutation(order: seq<int>, n: int)
  {
    |order| == n && Distinct(order) && forall k :: 0 <= k < |order| ==> 0 <= order[k] < n
  }

  /** The values 0 .. n - 1. */
  function Range(n: nat): set<int>
  {
    if n == 0 then {} else Range(n - 1) + {n - 1}
  }

  lemma {:induction false} RangeCard(n: nat)
    ensures |Range(n)| == n
    ensures forall m :: m in Range(n) <==> 0 <= m < n
  {
    if n > 0 {
      RangeCard(n - 1);
    }
  }

  lemma {:induction false} DistinctCard(s: seq<int>)
    requires Distinct(s)
    ensures |set x | x in s| == |s|
  {
    if s != [] {
      var p := s[..|s| - 1];
      DistinctCard(p);
      assert (set x | x in s) == (set x | x in p) + {s[|s| - 1]};
    }
  }

  /** Distinct values below n: there are at most n of them, and n of them are all the values. */
  lemma Pigeonhole(s: seq<int>, n: nat)
    requires Distinct(s) && forall k :: 0 <= k < |s| ==> 0 <= s[k] < n
    ensures |s| <= n
    ensures |s| == n ==> forall m :: 0 <= m < n ==> m in s
  {
    var a := set x | x in s;
    RangeCard(n);
    DistinctCard(s);
    assert a <= Range(n);
    if |s| == n {
      var d := Range(n) - a;
      assert |d| == 0;
      forall m | 0 <= m < n
        ensures m in s
      {
        assert m !in d;
      }
    }
  }

  /** Fewer than n distinct values leave some value below n out. */
  lemma {:induction false} Missing(s: seq<int>, n: nat) returns (m: int)
    requires Distinct(s) && |s| < n
    ensures 0 <= m < n && m !in s
  {
    if n - 1 !in s {
      return n - 1;
    }
    var j :| 0 <= j < |s| && s[j] == n - 1;
    var rest := s[..j] + s[j + 1..];
    assert forall x :: x in s ==> x == n - 1 || x in rest by {
      forall x | x in s
        ensures x == n - 1 || x in rest
      {
        var k :| 0 <= k < |s| && s[k] == x;
        if k < j {
          assert rest[k] == x;
        } else if k > j {
          assert rest[k - 1] == x;
        }
      }
    }
    assert Distinct(rest) by {
      forall a, b | 0 <= a < b < |rest|
        ensures rest[a] != rest[b]
      {
        var a' := if a < j then a else a + 1;
        var b' := if b < j then b else b + 1;
        assert rest[a] == s[a'] && rest[b] == s[b'];
      }
    }
    m := Missing(rest, n - 1);
  }

  /** A set of nodes that holds s and every neighbour of its members holds every node reachable from s. */
  lemma {:induction false} ClosedWalk(adj: Graph, nodes: seq<int>, w: seq<int>)
    requires Walk(adj, w) && w[0] in nodes
    requires forall n :: n in nodes ==> 0 <= n < |adj| && forall e :: 0 <= e < |adj[n]| ==> adj[n][e] in nodes
    ensures w[|w| - 1] in nodes
  {
    if |w| > 1 {
      var p := w[..|w| - 1];
      assert Walk(adj, p);
      ClosedWalk(adj, nodes, p);
      var last := w[|w| - 1];
      var e :| 0 <= e < |adj[p[|p| - 1]]| && adj[p[|p| - 1]][e] == last;
    }
  }

  /** No node outside a closed set of nodes holding s is reachable from s. */
  lemma Unreachable(adj: Graph, nodes: seq<int>, s: int, n: int)
    requires s in nodes && n !in nodes
    requires forall n :: n in nodes ==> 0 <= n < |adj| && forall e :: 0 <= e < |adj[n]| ==> adj[n][e] in nodes
    ensures !Reachable(adj, s, n)
  {
    forall w | Walk(adj, w) && w[0] == s
      ensures w[|w| - 1] != n
    {
      ClosedWalk(adj, nodes, w);
    }
  }

  /**
   * A breadth-first order of the graph from start: every node once, start
   * first, and every later node a neighbour of an earlier one.
   */
  ghost predicate IsOrdering(adj: Graph, start: int, order: seq<int>)
  {
    IsPermutation(order, |adj|) && |order| > 0 && order[0] == start &&
    forall k :: 0 < k < |order| ==> exists j :: 0 <= j < k && order[k] in adj[order[j]]
  }

  /** Every node of a breadth-first order is reachable from its start. */
  lemma {:induction false} OrderingReaches(adj: Graph, start: int, order: seq<int>, k: int)
    requires IsOrdering(adj, start, order) && 0 <= k < |order|
    ensures Reachable(adj, start, order[k])
    decreases k
  {
    if k == 0 {
      assert Walk(adj, [start]);
    } else {
      var j :| 0 <= j < k && order[k] in adj[order[j]];
      OrderingReaches(adj, start, order, j);
      var w :| Walk(adj, w) && w[0] == start && w[|w| - 1] == order[j];
      WalkAppend(adj, w, order[k]);
    }
  }

  /**
   * The traversal so far: order holds the nodes seen, each later one with
   * the position par of the node it was seen from; the first idx nodes of
   * order have had all their neighbours seen.
   */
  ghost predicate Visiting(adj: Graph, start: int, order: seq<int>, seen: seq<bool>, par: seq<int>, idx: int)
  {
    GraphOk(adj) && |seen| == |adj| && |par| == |order| && 0 < |order| && order[0] == start &&
    0 <= idx <= |order| <= |adj| &&
    (forall k :: 0 <= k < |order| ==> 0 <= order[k] < |adj|) && Distinct(order) &&
    (forall n :: 0 <= n < |adj| ==> (seen[n] <==> n in order)) &&
    (forall k :: 0 < k < |order| ==> 0 <= par[k] < k && order[k] in adj[order[par[k]]]) &&
    (forall k, e :: 0 <= k < idx && 0 <= e < |adj[order[k]]| ==> seen[adj[order[k]][e]])
  }

  /** The traversal from start before any node is taken from the queue. */
  lemma VisitStart(adj: Graph, start: int)
    requires GraphOk(adj) && 0 <= start < |adj|
    ensures Visiting(adj, start, [start], seq(|adj|, n => n == start), [0], 0)
  {
    var seen := seq(|adj|, n => n == start);
    assert forall n :: 0 <= n < |adj| ==> (seen[n] <==> n == start);
  }

  /** Queuing an unseen neighbour of order[idx] keeps the traversal's facts. */
  lemma VisitPush(adj: Graph, start: int, order: seq<int>, seen: seq<bool>, par: seq<int>, idx: int, e: int, next: int)
    requires Visiting(adj, start, order, seen, par, idx) && idx < |order|
    requires 0 <= e < |adj[order[idx]]| && next == adj[order[idx]][e] && !seen[next]
    ensures Visiting(adj, start, order + [next], seen[next := true], par + [idx], idx)
  {
    var order' := order + [next];
    Pigeonhole(order', |adj|);
    assert next !in order;
  }

  /** The inner loop of the traversal: every neighbour of order[idx] not seen yet is seen and queued. */
  method VisitNeighbours(adj: Graph, start: int, order0: seq<int>, seen0: seq<bool>, ghost par0: seq<int>, idx: int)
    returns (order: seq<int>, seen: seq<bool>, ghost par: seq<int>)
    requires Visiting(adj, start, order0, seen0, par0, idx) && idx < |order0|
    ensures Visiting(adj, start, order, seen, par, idx + 1)
  {
    order, seen, par := order0, seen0, par0;
    var node := order[idx];
    var e := 0;
    while e < |adj[node]|
      invariant 0 <= e <= |adj[node]|
      invariant Visiting(adj, start, order, seen, par, idx) && idx < |order| && order[idx] == node
      invariant forall f :: 0 <= f < e ==> seen[adj[node][f]]
    {
      var next := adj[node][e];
      if !seen[next] {
        VisitPush(adj, start, order, seen, par, idx, e, next);
        par := par + [idx];
        order := order + [next];
        seen := seen[next := true];
      }
      e := e + 1;
    }
  }

  /** A finished traversal: the nodes seen hold every neighbour of theirs. */
  lemma VisitedClosed(adj: Graph, start: int, order: seq<int>, seen: seq<bool>, par: seq<int>)
    requires Visiting(adj, start, order, seen, par, |order|)
    ensures forall n :: n in order ==> 0 <= n < |adj| && forall e :: 0 <= e < |adj[n]| ==> adj[n][e] in order
  {
    forall n | n in order
      ensures 0 <= n < |adj| && forall e :: 0 <= e < |adj[n]| ==> adj[n][e] in order
    {
      var k :| 0 <= k < |order| && order[k] == n;
    }
  }

  /** Every later node of the traversal was seen from an earlier one. */
  lemma VisitedParents(adj: Graph, start: int, order: seq<int>, seen: seq<bool>, par: seq<int>, idx: int)
    requires Visiting(adj, start, order, seen, par, idx)
    ensures forall k :: 0 < k < |order| ==> exists j :: 0 <= j < k && order[k] in adj[order[j]]
  {
    forall k | 0 < k < |order|
      ensures exists j :: 0 <= j < k && order[k] in adj[order[j]]
    {
      var j := par[k];
      assert order[k] in adj[order[j]];
    }
  }

  /** std::find: the first position from `from` on that holds x, or |s| when there is none. */
  function Find(s: seq<int>, x: int, from: nat): (r: nat)
    requires from <= |s|
    ensures from <= r <= |s|
    ensures r < |s| ==> s[r] == x
    ensures forall k :: from <= k < r ==> s[k] != x
    decreases |s| - from
  {
    if from == |s| || s[from] == x then from else Find(s, x, from + 1)
  }

  /**
   * BuildOrdering(): the breadth-first order from start. The program
   * aborts unless the order lists every node exactly once, which happens
   * exactly when some node cannot be reached from start.
   */
  method BuildOrdering(adj: Graph, start: int) returns (r: Option<seq<int>>)
    requires GraphOk(adj) && 0 <= start < |adj|
    ensures r.Some? ==> IsOrdering(adj, start, r.value)
    ensures r.None? ==> exists n :: 0 <= n < |adj| && !Reachable(adj, start, n)
  {
    var seen := seq(|adj|, n => n == start);
    var order := [start];
    ghost var par := [0];
    VisitStart(adj, start);
    var idx := 0;
    while idx < |order|
      invariant Visiting(adj, start, order, seen, par, idx)
      decreases |adj| - idx
    {
      order, seen, par := VisitNeighbours(adj, start, order, seen, par, idx);
      idx := idx + 1;
    }
    VisitedClosed(adj, start, order, seen, par);
    VisitedParents(adj, start, order, seen, par, idx);
    if |order| != |adj| {
      var m := Missing(order, |adj|);
      Unreachable(adj, order, start, m);
      return None;
    }
    var i := 0;
    while i < |adj|
      invariant 0 <= i <= |adj|
    {
      var first := Find(order, i, 0);
      if first == |order| {
        Unreachable(adj, order, start, i);
        return None;
      }
      var second := Find(order, i, first + 1);
      if second != |order| {
        assert false;
        return None;
      }
      i := i + 1;
    }
    return Some(order);
  }

  /**
   * The distances RunDijkstra computes: 0 at start, -1 at the nodes never
   * reached, each other reached node one further than a neighbour it was
   * reached from, and no neighbour of a reached node more than one further.
   */
  ghost predicate Distances(adj: Graph, start: int, dist: seq<int>)
  {
    GraphOk(adj) && 0 <= start < |adj| && |dist| == |adj| && dist[start] == 0 &&
    (forall n :: 0 <= n < |adj| ==> dist[n] >= -1) &&
    (forall n :: 0 <= n < |adj| && dist[n] == 0 ==> n == start) &&
    (forall n :: 0 <= n < |adj| && dist[n] > 0 ==>
      exists p :: 0 <= p < |adj| && n in adj[p] && dist[p] == dist[n] - 1) &&
    (forall n, e :: 0 <= n < |adj| && dist[n] >= 0 && 0 <= e < |adj[n]| ==>
      0 <= dist[adj[n][e]] <= dist[n] + 1)
  }

  /** A walk from start ends at a reached node no further than the walk's length. */
  lemma {:induction false} WalkBound(adj: Graph, start: int, dist: seq<int>, w: seq<int>)
    requires Distances(adj, start, dist) && Walk(adj, w) && w[0] == start
    ensures 0 <= dist[w[|w| - 1]] <= |w| - 1
  {
    if |w| > 1 {
      var p := w[..|w| - 1];
      assert Walk(adj, p);
      WalkBound(adj, start, dist, p);
      var prev := p[|p| - 1];
      var e :| 0 <= e < |adj[prev]| && adj[prev][e] == w[|w| - 1];
    }
  }

  /** A reached node ends a walk from start with exactly dist + 1 nodes. */
  lemma {:induction false} WalkOfDistance(adj: Graph, start: int, dist: seq<int>, n: int) returns (w: seq<int>)
    requires Distances(adj, start, dist) && 0 <= n < |adj| && dist[n] >= 0
    ensures Walk(adj, w) && w[0] == start && w[|w| - 1] == n && |w| == dist[n] + 1
    decreases dist[n]
  {
    if dist[n] == 0 {
      w := [n];
    } else {
      var p :| 0 <= p < |adj| && n in adj[p] && dist[p] == dist[n] - 1;
      var v := WalkOfDistance(adj, start, dist, p);
      WalkAppend(adj, v, n);
      w := v + [n];
    }
  }

  /**
   * The distances are the lengths of shortest walks: a node is reached
   * exactly when it is reachable, and its distance is the fewest steps of
   * any walk to it.
   */
  lemma DistancesShortest(adj: Graph, start: int, dist: seq<int>, n: int)
    requires Distances(adj, start, dist) && 0 <= n < |adj|
    ensures dist[n] >= 0 <==> Reachable(adj, start, n)
    ensures dist[n] >= 0 ==> exists w :: Walk(adj, w) && w[0] == start && w[|w| - 1] == n && |w| == dist[n] + 1
    ensures forall w :: Walk(adj, w) && w[0] == start && w[|w| - 1] == n ==> dist[n] <= |w| - 1
  {
    if dist[n] >= 0 {
      var w := WalkOfDistance(adj, start, dist, n);
    }
    forall w | Walk(adj, w) && w[0] == start && w[|w| - 1] == n
      ensures 0 <= dist[n] <= |w| - 1
    {
      WalkBound(adj, start, dist, w);
    }
  }

  /**
   * The distances along RunDijkstra's queue: each later node one further
   * than the node it was seen from, never falling along the queue, growing
   * by at most one from the node being visited to the last one queued, and
   * no neighbour of a visited node more than one further.
   */
  ghost predicate Ranked(adj: Graph, order: seq<int>, par: seq<int>, dist: seq<int>, idx: int)
  {
    |dist| == |adj| && |par| == |order| && 0 <= idx <= |order| &&
    (forall k :: 0 <= k < |order| ==> 0 <= order[k] < |adj|) &&
    (forall k :: 0 < k < |order| ==> 0 <= par[k] < k && dist[order[k]] == dist[order[par[k]]] + 1) &&
    (forall k, l :: 0 <= k <= l < |order| ==> dist[order[k]] <= dist[order[l]]) &&
    (idx < |order| ==> dist[order[|order| - 1]] <= dist[order[idx]] + 1) &&
    (forall k, e :: 0 <= k < idx && 0 <= e < |adj[order[k]]| && 0 <= adj[order[k]][e] < |adj| ==>
      dist[adj[order[k]][e]] <= dist[order[k]] + 1)
  }

  /** The traversal of RunDijkstra: the one of BuildOrdering, with the distances of the nodes seen. */
  ghost predicate Measuring(adj: Graph, start: int, order: seq<int>, seen: seq<bool>, par: seq<int>,
                            dist: seq<int>, idx: int)
  {
    Visiting(adj, start, order, seen, par, idx) && |dist| == |adj| && dist[start] == 0 &&
    (forall n :: 0 <= n < |adj| ==> (dist[n] >= 0 <==> seen[n]) && dist[n] >= -1) &&
    Ranked(adj, order, par, dist, idx)
  }

  /** The inner loop of RunDijkstra: the neighbours of order[idx] not seen yet get its distance plus one. */
  method Measure(adj: Graph, start: int, order0: seq<int>, seen0: seq<bool>, ghost par0: seq<int>,
                 dist0: seq<int>, idx: int)
    returns (order: seq<int>, seen: seq<bool>, ghost par: seq<int>, dist: seq<int>)
    requires Measuring(adj, start, order0, seen0, par0, dist0, idx) && idx < |order0|
    ensures Measuring(adj, start, order, seen, par, dist, idx + 1)
  {
    order, seen, par, dist := order0, seen0, par0, dist0;
    var node := order[idx];
    var e := 0;
    ScanStart(adj, start, order, seen, par, dist, idx);
    while e < |adj[node]|
      invariant Measuring(adj, start, order, seen, par, dist, idx) && idx < |order| && order[idx] == node
      invariant Scanned(adj, order, seen, dist, node, e)
    {
      var next := adj[node][e];
      if !seen[next] {
        MeasureNew(adj, start, order, seen, par, dist, idx, node, e);
        order, seen, par, dist := order + [next], seen[next := true], par + [idx], dist[next := dist[node] + 1];
      } else {
        ScanSeen(adj, start, order, seen, par, dist, idx, e);
      }
      e := e + 1;
    }
    MeasureDone(adj, start, order, seen, par, dist, idx);
  }

  /**
   * The first e neighbours of node have been seen, none more than one
   * further than node, and the last node queued is at most one further.
   */
  ghost predicate Scanned(adj: Graph, order: seq<int>, seen: seq<bool>, dist: seq<int>, node: int, e: int)
  {
    GraphOk(adj) && |seen| == |adj| && |dist| == |adj| && 0 <= node < |adj| && 0 <= e <= |adj[node]| &&
    seen[node] && 0 < |order| && 0 <= order[|order| - 1] < |adj| &&
    dist[order[|order| - 1]] <= dist[node] + 1 &&
    forall f :: 0 <= f < e ==> seen[adj[node][f]] && dist[adj[node][f]] <= dist[node] + 1
  }

  /** Before the first neighbour nothing has been scanned. */
  lemma ScanStart(adj: Graph, start: int, order: seq<int>, seen: seq<bool>, par: seq<int>, dist: seq<int>, idx: int)
    requires Measuring(adj, start, order, seen, par, dist, idx) && idx < |order|
    ensures Scanned(adj, order, seen, dist, order[idx], 0)
  {
  }

  /** Queuing the unseen neighbour e of node, one further than node, moves the scan past it. */
  lemma MeasureNew(adj: Graph, start: int, order: seq<int>, seen: seq<bool>, par: seq<int>, dist: seq<int>,
                   idx: int, node: int, e: int)
    requires Measuring(adj, start, order, seen, par, dist, idx) && idx < |order| && order[idx] == node
    requires Scanned(adj, order, seen, dist, node, e) && e < |adj[node]| && !seen[adj[node][e]]
    ensures var next := adj[node][e];
      var order', seen', dist' := order + [next], seen[next := true], dist[next := dist[node] + 1];
      Measuring(adj, start, order', seen', par + [idx], dist', idx) && Scanned(adj, order', seen', dist', node, e + 1)
  {
    MeasureStep(adj, start, order, seen, par, dist, idx, e, adj[node][e]);
    ScanNew(adj, order, seen, dist, node, e);
  }

  /** Queuing the unseen neighbour e at one further than node scans it. */
  lemma ScanNew(adj: Graph, order: seq<int>, seen: seq<bool>, dist: seq<int>, node: int, e: int)
    requires Scanned(adj, order, seen, dist, node, e) && e < |adj[node]| && !seen[adj[node][e]]
    ensures var next := adj[node][e];
      Scanned(adj, order + [next], seen[next := true], dist[next := dist[node] + 1], node, e + 1)
  {
  }

  /** A neighbour already seen is no further than the last node queued, so it is scanned as it is. */
  lemma ScanSeen(adj: Graph, start: int, order: seq<int>, seen: seq<bool>, par: seq<int>, dist: seq<int>, idx: int, e: int)
    requires Measuring(adj, start, order, seen, par, dist, idx) && idx < |order|
    requires Scanned(adj, order, seen, dist, order[idx], e) && e < |adj[order[idx]]| && seen[adj[order[idx]][e]]
    ensures Scanned(adj, order, seen, dist, order[idx], e + 1)
  {
    var next := adj[order[idx]][e];
    assert next in order;
    var k :| 0 <= k < |order| && order[k] == next;
    assert dist[order[k]] <= dist[order[|order| - 1]];
  }

  /** A node whose neighbours have all been measured counts as visited. */
  lemma MeasureDone(adj: Graph, start: int, order: seq<int>, seen: seq<bool>, par: seq<int>, dist: seq<int>, idx: int)
    requires Measuring(adj, start, order, seen, par, dist, idx) && idx < |order|
    requires Scanned(adj, order, seen, dist, order[idx], |adj[order[idx]]|)
    ensures Measuring(adj, start, order, seen, par, dist, idx + 1)
  {
    assert forall k :: idx < k < |order| ==> dist[order[idx]] <= dist[order[k]];
  }

  /** Queuing an unseen neighbour keeps the traversal's facts. */
  lemma MeasureStep(adj: Graph, start: int, order: seq<int>, seen: seq<bool>, par: seq<int>,
                    dist: seq<int>, idx: int, e: int, next: int)
    requires Measuring(adj, start, order, seen, par, dist, idx) && idx < |order|
    requires dist[order[|order| - 1]] <= dist[order[idx]] + 1
    requires 0 <= e < |adj[order[idx]]| && next == adj[order[idx]][e] && !seen[next]
    ensures Measuring(adj, start, order + [next], seen[next := true], par + [idx], dist[next := dist[order[idx]] + 1], idx)
  {
    VisitPush(adj, start, order, seen, par, idx, e, next);
    assert next !in order;
    RankPush(adj, order, par, dist, idx, next);
  }

  /** Queuing a node not yet in the queue, one further than order[idx], keeps the distances ranked. */
  lemma RankPush(adj: Graph, order: seq<int>, par: seq<int>, dist: seq<int>, idx: int, next: int)
    requires Ranked(adj, order, par, dist, idx) && idx < |order|
    requires 0 <= next < |adj| && next !in order
    requires dist[order[|order| - 1]] <= dist[order[idx]] + 1
    requires forall k, e :: 0 <= k < idx && 0 <= e < |adj[order[k]]| ==> adj[order[k]][e] != next
    ensures Ranked(adj, order + [next], par + [idx], dist[next := dist[order[idx]] + 1], idx)
  {
    var order', par', dist' := order + [next], par + [idx], dist[next := dist[order[idx]] + 1];
    assert forall k :: 0 <= k < |order| ==> dist'[order'[k]] == dist[order[k]];
    assert forall k, l :: 0 <= k <= l < |order'| ==> dist'[order'[k]] <= dist'[order'[l]] by {
      forall k, l | 0 <= k <= l < |order'|
        ensures dist'[order'[k]] <= dist'[order'[l]]
      {
        if l == |order| && k < |order| {
          assert dist[order[k]] <= dist[order[|order| - 1]];
        }
      }
    }
  }

  /** The distances of a finished traversal, stated node by node. */
  lemma MeasuredDistances(adj: Graph, start: int, order: seq<int>, seen: seq<bool>, par: seq<int>, dist: seq<int>)
    requires Measuring(adj, start, order, seen, par, dist, |order|)
    ensures Distances(adj, start, dist)
  {
    forall n | 0 <= n < |adj| && dist[n] >= 0
      ensures n != start ==> exists p :: 0 <= p < |adj| && n in adj[p] && dist[p] == dist[n] - 1
      ensures dist[n] == 0 ==> n == start
      ensures forall e :: 0 <= e < |adj[n]| ==> 0 <= dist[adj[n][e]] <= dist[n] + 1
    {
      var k :| 0 <= k < |order| && order[k] == n;
      if k > 0 {
        var p := order[par[k]];
        assert n in adj[p] && dist[p] == dist[n] - 1;
        assert dist[order[0]] <= dist[order[par[k]]];
      }
    }
  }

  /**
   * RunDijkstra(i): breadth-first distances from start. The source leaves
   * the entries of nodes never reached unset; here they are -1.
   */
  method RunDijkstra(adj: Graph, start: int) returns (dist: seq<int>)
    requires GraphOk(adj) && 0 <= start < |adj|
    ensures Distances(adj, start, dist)
  {
    var seen := seq(|adj|, n => n == start);
    var order := [start];
    ghost var par := [0];
    dist := seq(|adj|, n => if n == start then 0 else -1);
    VisitStart(adj, start);
    var idx := 0;
    while idx < |order|
      invariant Measuring(adj, start, order, seen, par, dist, idx)
      decreases |adj| - idx
    {
      order, seen, par, dist := Measure(adj, start, order, seen, par, dist, idx);
      idx := idx + 1;
    }
    MeasuredDistances(adj, start, order, seen, par, dist);
  }
}
