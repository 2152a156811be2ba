// The colouring program's main: the graph is renumbered in breadth-first
// order from a start node, searched from the state with every colour
// possible everywhere and node 0 on the frontier, and the colouring found
// is carried back to the original numbering and checked edge by edge.

module ColoringMain {
  import opened ColorSets
  import opened ColoringSearch
  import opened ColoringGraph
  import opened ColoringRename

  /** How main ends: an abort in BuildOrdering, "failed!", or the colouring found. */
  datatype Outcome = Aborted | NoColoring | Colored(colors: seq<int>)

  /** Node n is a neighbour of some node numbered before it. */
  ghost predicate EarlierNeighbour(adj: Graph, n: int)
  {
    exists j :: 0 <= j < n && j < |adj| && n in adj[j]
  }

  /** Every node after node 0 is a neighbour of an earlier one, as in a graph numbered in breadth-first order. */
  ghost predicate Spanned(adj: Graph)
  {
    forall n :: 0 < n < |adj| ==> EarlierNeighbour(adj, n)
  }

  /** The state main searches from is a search state. */
  lemma StartSearch(adj: Graph)
    requires GraphOk(adj) && |adj| > 0
    ensures SearchOk(adj, seq(|adj|, _ => Full), {0})
  {
    FullMembers();
    assert !Full.IsEmpty() && InPalette(Full);
  }

  /** Every node of a breadth-first order's graph is reachable from its start. */
  lemma AllReachable(adj: Graph, start: int, order: seq<int>)
    requires IsOrdering(adj, start, order)
    ensures forall n :: 0 <= n < |adj| ==> Reachable(adj, start, n)
  {
    Pigeonhole(order, |adj|);
    forall n | 0 <= n < |adj|
      ensures Reachable(adj, start, n)
    {
      assert n in order;
      var k :| 0 <= k < |order| && order[k] == n;
      OrderingReaches(adj, start, order, k);
    }
  }

  /** In the graph renamed along a breadth-first order, every node after 0 is a neighbour of an earlier one. */
  lemma RenamedOrder(adj: Graph, start: int, ordering: seq<int>, perm: seq<int>, newAdj: Graph)
    requires IsOrdering(adj, start, ordering) && RenamedGraph(adj, ordering, perm, newAdj)
    ensures Spanned(newAdj)
  {
    forall k | 0 < k < |newAdj|
      ensures EarlierNeighbour(newAdj, k)
    {
      var j :| 0 <= j < k && ordering[k] in adj[ordering[j]];
      RenamedEdges(adj, ordering, perm, newAdj, j);
      assert k in newAdj[j];
    }
  }

  /**
   * A decided node decides its neighbours: the colour it keeps is gone
   * from each of them, so none of them is still full, and a search that
   * succeeded leaves every non-full node decided.
   */
  lemma {:induction false} SettledSpreads(adj: Graph, col: seq<ColorSet>, k: int)
    requires GraphOk(adj) && |col| == |adj| && 0 <= k < |adj|
    requires forall n :: 0 <= n < |col| ==> InPalette(col[n]) && (col[n] == Full || Settled(adj, col, n))
    requires Settled(adj, col, 0)
    requires Spanned(adj)
    ensures Settled(adj, col, k)
    decreases k
  {
    if k > 0 {
      assert EarlierNeighbour(adj, k);
      var j :| 0 <= j < k && j < |adj| && k in adj[j];
      SettledSpreads(adj, col, j);
      var e :| 0 <= e < |adj[j]| && adj[j][e] == k;
      CountZeroOne(col[j]);
      PaletteIndex(col[j]);
      FullMembers();
      assert col[k] != Full;
    }
  }

  /** The colours of decided nodes: each node's one colour, which no neighbour shares. */
  lemma SettledProper(adj: Graph, col: seq<ColorSet>)
    requires GraphOk(adj) && |col| == |adj|
    requires forall n :: 0 <= n < |col| ==> InPalette(col[n]) && Settled(adj, col, n)
    ensures forall n :: 0 <= n < |col| ==> col[n].Count() == 1
    ensures Proper(adj, seq(|col|, n requires 0 <= n < |col| => col[n].SetIndex()))
  {
    var colors := seq(|col|, n requires 0 <= n < |col| => col[n].SetIndex());
    forall n | 0 <= n < |col|
      ensures col[n].Count() == 1 && 0 <= colors[n] < kColors && col[n].Has(colors[n])
    {
      CountZeroOne(col[n]);
      PaletteIndex(col[n]);
    }
    forall n, e | 0 <= n < |adj| && 0 <= e < |adj[n]|
      ensures colors[adj[n][e]] != colors[n]
    {
      var m := adj[n][e];
      assert !col[m].Has(col[n].SetIndex());
    }
  }

  /**
   * The check at the end of main: the colour of every node is read, and
   * bad is set when some node has a neighbour of the same colour (the
   * program reports "bad adj. color").
   */
  method FinalCheck(adj: Graph, coloring: seq<ColorSet>) returns (colors: seq<int>, bad: bool)
    requires GraphOk(adj) && |coloring| == |adj|
    requires forall n :: 0 <= n < |coloring| ==> coloring[n].Count() == 1
    ensures |colors| == |adj| && forall n :: 0 <= n < |adj| ==> colors[n] == GetColor(coloring[n])
    ensures !bad <==> forall n, e :: 0 <= n < |adj| && 0 <= e < |adj[n]| ==> colors[adj[n][e]] != colors[n]
  {
    colors := seq(|adj|, n requires 0 <= n < |adj| => GetColor(coloring[n]));
    bad := false;
    var i := 0;
    while i < |adj|
      invariant 0 <= i <= |adj|
      invariant !bad <==> forall n, e :: 0 <= n < i && 0 <= e < |adj[n]| ==> colors[adj[n][e]] != colors[n]
    {
      var color := GetColor(coloring[i]);
      var e := 0;
      ghost var badBefore := bad;
      while e < |adj[i]|
        invariant 0 <= e <= |adj[i]|
        invariant !bad <==> !badBefore && forall f :: 0 <= f < e ==> colors[adj[i][f]] != colors[i]
      {
        var adjColor := GetColor(coloring[adj[i][e]]);
        if adjColor == color {
          bad := true;
        }
        e := e + 1;
      }
      i := i + 1;
    }
  }

  /**
   * main(), from a given start node: it aborts exactly when some node
   * cannot be reached from the start, and a colouring it reports gives
   * every node one of the four colours and no two neighbours the same one.
   */
  method ColorGraph(adj: Graph, start: int) returns (r: Outcome)
    requires GraphOk(adj) && 0 <= start < |adj|
    ensures r.Aborted? <==> exists n :: 0 <= n < |adj| && !Reachable(adj, start, n)
    ensures r.Colored? ==> Proper(adj, r.colors)
  {
    var ordering := BuildOrdering(adj, start);
    if ordering.None? {
      return Aborted;
    }
    AllReachable(adj, start, ordering.value);
    var renaming := RenameGraph(adj, ordering.value);
    var newAdj, perm := renaming.value.adj, renaming.value.perm;
    RenamedGraphOk(adj, ordering.value, perm, newAdj);
    RenamedOrder(adj, start, ordering.value, perm, newAdj);

    var found := SearchRenamed(newAdj);
    if found.None? {
      return NoColoring;
    }
    var col := found.value;
    SettledProper(newAdj, col);

    var restored := Undo(col, perm);
    var colors, bad := FinalCheck(adj, restored);
    var renamedColors := seq(|col|, n requires 0 <= n < |col| => col[n].SetIndex());
    ProperBack(adj, ordering.value, perm, newAdj, renamedColors);
    assert colors == seq(|perm|, i requires 0 <= i < |perm| => renamedColors[perm[i]]);
    return Colored(colors);
  }

  /**
   * The search in main: State s; s.frontier.set(0); s.Rec(). A success
   * leaves every node of the renamed graph decided.
   */
  method SearchRenamed(adj: Graph) returns (r: Option<seq<ColorSet>>)
    requires GraphOk(adj) && |adj| > 0 && Spanned(adj)
    ensures r.Some? ==> |r.value| == |adj|
    ensures r.Some? ==> forall n :: 0 <= n < |adj| ==> InPalette(r.value[n]) && Settled(adj, r.value, n)
  {
    var s := new State(adj);
    s.frontier := {0};
    StartSearch(adj);
    var ok := s.Rec();
    if !ok {
      return None;
    }
    SearchSucceeded(adj, s.coloring);
    return Some(s.coloring);
  }

  /** After a successful search from main's start state, every node is decided. */
  lemma SearchSucceeded(adj: Graph, col: seq<ColorSet>)
    requires GraphOk(adj) && |adj| > 0
    requires Shrunk(col, seq(|adj|, _ => Full))
    requires forall n :: 0 <= n < |col| ==> col[n] == Full || Settled(adj, col, n)
    requires forall n :: n in {0} ==> Settled(adj, col, n)
    requires Spanned(adj)
    ensures forall n :: 0 <= n < |col| ==> InPalette(col[n]) && Settled(adj, col, n)
  {
    assert InPalette(Full);
    forall n | 0 <= n < |col|
      ensures InPalette(col[n])
    {
      SubsetPalette(col[n], Full);
    }
    assert Settled(adj, col, 0) by {
      assert 0 in {0};
    }
    forall n | 0 <= n < |col|
      ensures Settled(adj, col, n)
    {
      SettledSpreads(adj, col, n);
    }
  }
}
