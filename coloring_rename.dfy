// RenameGraph: the graph renumbered along an ordering of its nodes, so that
// node i of the renamed graph is node ordering[i] of the original, and the
// undo step that carries a colouring of the renamed graph back to the
// original numbering.

module ColoringRename {
  import opened ColorSets
  import opened ColoringSearch
  import opened ColoringGraph

  /** The values of s never fall: each is at most the next. */
  predicate Sorted(s: seq<int>)
  {
    forall k :: 0 < k < |s| ==> s[k - 1] <= s[k]
  }

  /** x put into its place in a sorted sequence. */
  function Insert(x: int, s: seq<int>): (r: seq<int>)
    requires Sorted(s)
    ensures |r| == |s| + 1 && multiset(r) == multiset(s) + multiset{x}
    ensures Sorted(r) && (r[0] == x || (|s| > 0 && r[0] == s[0]))
  {
    if s == [] then [x]
    else if x <= s[0] then [x] + s
    else
      assert s == [s[0]] + s[1..];
      [s[0]] + Insert(x, s[1..])
  }

  /** std::sort: the same values in ascending order. */
  function Sort(s: seq<int>): (r: seq<int>)
    ensures Sorted(r) && multiset(r) == multiset(s)
  {
    if s == [] then []
    else
      assert s == s[..|s| - 1] + [s[|s| - 1]];
      Insert(s[|s| - 1], Sort(s[..|s| - 1]))
  }

  /** The row with every neighbour renamed by perm. */
  function Renamed(row: seq<int>, perm: seq<int>): seq<int>
    requires forall k :: 0 <= k < |row| ==> 0 <= row[k] < |perm|
  {
    seq(|row|, k requires 0 <= k < |row| => perm[row[k]])
  }

  /** perm undoes ordering: ordering[i] is renamed to i, and every node comes back. */
  ghost predicate Inverse(ordering: seq<int>, perm: seq<int>)
  {
    IsPermutation(ordering, |perm|) && IsPermutation(perm, |ordering|) &&
    (forall i :: 0 <= i < |ordering| ==> perm[ordering[i]] == i) &&
    (forall m :: 0 <= m < |perm| ==> ordering[perm[m]] == m)
  }

  /** The loop that fills perm: perm[ordering[i]] = i. */
  method InvertOrdering(ordering: seq<int>) returns (perm: seq<int>)
    requires IsPermutation(ordering, |ordering|)
    ensures Inverse(ordering, perm)
  {
    var n := |ordering|;
    perm := seq(n, _ => 0);
    var i := 0;
    while i < n
      invariant 0 <= i <= n && |perm| == n
      invariant forall k :: 0 <= k < i ==> perm[ordering[k]] == k
    {
      perm := perm[ordering[i] := i];
      i := i + 1;
    }
    Pigeonhole(ordering, n);
    InverseBack(ordering, perm);
  }

  /** perm[ordering[i]] == i for every i makes perm the inverse of the permutation ordering. */
  lemma InverseBack(ordering: seq<int>, perm: seq<int>)
    requires IsPermutation(ordering, |ordering|) && |perm| == |ordering|
    requires forall m :: 0 <= m < |ordering| ==> m in ordering
    requires forall k :: 0 <= k < |ordering| ==> perm[ordering[k]] == k
    ensures Inverse(ordering, perm)
  {
    forall m | 0 <= m < |perm|
      ensures 0 <= perm[m] < |ordering| && ordering[perm[m]] == m
    {
      assert m in ordering;
      var k :| 0 <= k < |ordering| && ordering[k] == m;
    }
  }

  /** The in-place loop over a copied row: every entry x becomes perm[x]. */
  method RenameRow(row: seq<int>, perm: seq<int>) returns (r: seq<int>)
    requires forall k :: 0 <= k < |row| ==> 0 <= row[k] < |perm|
    ensures r == Renamed(row, perm)
  {
    r := row;
    var k := 0;
    while k < |r|
      invariant 0 <= k <= |r| == |row|
      invariant forall j :: 0 <= j < k ==> r[j] == perm[row[j]]
      invariant forall j :: k <= j < |r| ==> r[j] == row[j]
    {
      r := r[k := perm[r[k]]];
      k := k + 1;
    }
  }

  /**
   * The renamed graph: row i holds, in ascending order, the new names of
   * the neighbours of node ordering[i].
   */
  ghost predicate RenamedGraph(adj: Graph, ordering: seq<int>, perm: seq<int>, newAdj: Graph)
  {
    GraphOk(adj) && Inverse(ordering, perm) && |perm| == |adj| && |newAdj| == |adj| &&
    forall i :: 0 <= i < |newAdj| ==>
      Sorted(newAdj[i]) && multiset(newAdj[i]) == multiset(Renamed(adj[ordering[i]], perm))
  }

  /** The loop that builds new_adj. */
  method RenameRows(adj: Graph, ordering: seq<int>, perm: seq<int>) returns (newAdj: Graph)
    requires GraphOk(adj) && Inverse(ordering, perm) && |perm| == |adj|
    ensures RenamedGraph(adj, ordering, perm, newAdj)
  {
    newAdj := [];
    var i := 0;
    while i < |adj|
      invariant 0 <= i <= |adj| && |newAdj| == i
      invariant forall j :: 0 <= j < i ==>
        Sorted(newAdj[j]) && multiset(newAdj[j]) == multiset(Renamed(adj[ordering[j]], perm))
    {
      var row := RenameRow(adj[ordering[i]], perm);
      newAdj := newAdj + [Sort(row)];
      i := i + 1;
    }
  }

  /**
   * The renamed graph is the original under the renaming: x is a
   * neighbour of i there exactly when ordering[x] is a neighbour of
   * ordering[i] here, and the rows keep their sizes.
   */
  lemma RenamedEdges(adj: Graph, ordering: seq<int>, perm: seq<int>, newAdj: Graph, i: int)
    requires RenamedGraph(adj, ordering, perm, newAdj) && 0 <= i < |newAdj|
    ensures |newAdj[i]| == |adj[ordering[i]]|
    ensures forall x :: x in newAdj[i] <==> 0 <= x < |adj| && ordering[x] in adj[ordering[i]]
  {
    var row := adj[ordering[i]];
    var ren := Renamed(row, perm);
    assert |newAdj[i]| == |multiset(newAdj[i])| == |multiset(ren)| == |ren|;
    forall x
      ensures x in newAdj[i] <==> 0 <= x < |adj| && ordering[x] in adj[ordering[i]]
    {
      assert x in newAdj[i] <==> x in multiset(ren);
      if x in ren {
        var k :| 0 <= k < |ren| && ren[k] == x;
        assert row[k] == ordering[x];
      }
      if 0 <= x < |adj| && ordering[x] in row {
        var k :| 0 <= k < |row| && row[k] == ordering[x];
        assert ren[k] == x;
      }
    }
  }

  /** Every neighbour in the renamed graph is one of its nodes. */
  lemma RenamedGraphOk(adj: Graph, ordering: seq<int>, perm: seq<int>, newAdj: Graph)
    requires RenamedGraph(adj, ordering, perm, newAdj)
    ensures GraphOk(newAdj)
  {
    forall n, k | 0 <= n < |newAdj| && 0 <= k < |newAdj[n]|
      ensures 0 <= newAdj[n][k] < |newAdj|
    {
      RenamedEdges(adj, ordering, perm, newAdj, n);
      assert newAdj[n][k] in newAdj[n];
    }
  }

  /**
   * The isomorphism check of RenameGraph: every renamed row has the size
   * of the original row, and the original name of each of its entries is in
   * the original row.
   */
  method CheckRenamed(adj: Graph, ordering: seq<int>, newAdj: Graph) returns (ok: bool)
    requires GraphOk(adj) && GraphOk(newAdj) && |newAdj| == |adj| && IsPermutation(ordering, |adj|)
    ensures ok <==> forall i :: 0 <= i < |newAdj| ==>
      |newAdj[i]| == |adj[ordering[i]]| && forall x :: x in newAdj[i] ==> ordering[x] in adj[ordering[i]]
  {
    var i := 0;
    while i < |newAdj|
      invariant 0 <= i <= |newAdj|
      invariant forall j :: 0 <= j < i ==>
        |newAdj[j]| == |adj[ordering[j]]| && forall x :: x in newAdj[j] ==> ordering[x] in adj[ordering[j]]
    {
      var renamedRow := newAdj[i];
      var oldRow := adj[ordering[i]];
      if |renamedRow| != |oldRow| {
        return false;
      }
      var k := 0;
      while k < |renamedRow|
        invariant 0 <= k <= |renamedRow|
        invariant forall j :: 0 <= j < k ==> ordering[renamedRow[j]] in oldRow
      {
        var oldX := ordering[renamedRow[k]];
        if oldX !in oldRow {
          return false;
        }
        k := k + 1;
      }
      i := i + 1;
    }
    return true;
  }

  /** What RenameGraph hands back: the renamed graph and perm, which Undo uses. */
  datatype Renaming = Renaming(adj: Graph, perm: seq<int>)

  /**
   * RenameGraph(ordering): renames the graph along the ordering and checks
   * the result. The check never fails, so the program never aborts here.
   */
  method RenameGraph(adj: Graph, ordering: seq<int>) returns (r: Option<Renaming>)
    requires GraphOk(adj) && IsPermutation(ordering, |adj|)
    ensures r.Some? && RenamedGraph(adj, ordering, r.value.perm, r.value.adj)
  {
    var perm := InvertOrdering(ordering);
    var newAdj := RenameRows(adj, ordering, perm);
    RenamedGraphOk(adj, ordering, perm, newAdj);
    forall i | 0 <= i < |newAdj|
      ensures |newAdj[i]| == |adj[ordering[i]]| && forall x :: x in newAdj[i] ==> ordering[x] in adj[ordering[i]]
    {
      RenamedEdges(adj, ordering, perm, newAdj, i);
    }
    var ok := CheckRenamed(adj, ordering, newAdj);
    if !ok {
      assert false;
      return None;
    }
    return Some(Renaming(newAdj, perm));
  }

  /** The undo function: node i of the original takes the colour set of its renamed node perm[i]. */
  method Undo(coloring: seq<ColorSet>, perm: seq<int>) returns (restored: seq<ColorSet>)
    requires |coloring| == |perm| && forall i :: 0 <= i < |perm| ==> 0 <= perm[i] < |coloring|
    ensures |restored| == |perm| && forall i :: 0 <= i < |perm| ==> restored[i] == coloring[perm[i]]
  {
    restored := seq(|perm|, _ => Full);
    var i := 0;
    while i < |perm|
      invariant 0 <= i <= |perm| && |restored| == |perm|
      invariant forall j :: 0 <= j < i ==> restored[j] == coloring[perm[j]]
    {
      restored := restored[i := coloring[perm[i]]];
      i := i + 1;
    }
  }

  /** A colouring of nodes by palette colours in which no node shares its colour with a neighbour. */
  ghost predicate Proper(adj: Graph, colors: seq<int>)
  {
    |colors| == |adj| && (forall n :: 0 <= n < |colors| ==> 0 <= colors[n] < kColors) &&
    forall n, e :: 0 <= n < |adj| && 0 <= e < |adj[n]| ==>
      0 <= adj[n][e] < |colors| && colors[adj[n][e]] != colors[n]
  }

  /** A proper colouring of the renamed graph, read through perm, is a proper colouring of the original. */
  lemma ProperBack(adj: Graph, ordering: seq<int>, perm: seq<int>, newAdj: Graph, colors: seq<int>)
    requires RenamedGraph(adj, ordering, perm, newAdj) && Proper(newAdj, colors)
    ensures Proper(adj, seq(|perm|, i requires 0 <= i < |perm| => colors[perm[i]]))
  {
    var back := seq(|perm|, i requires 0 <= i < |perm| => colors[perm[i]]);
    forall n, e | 0 <= n < |adj| && 0 <= e < |adj[n]|
      ensures 0 <= adj[n][e] < |back| && back[adj[n][e]] != back[n]
    {
      var m := adj[n][e];
      RenamedEdges(adj, ordering, perm, newAdj, perm[n]);
      assert ordering[perm[m]] in adj[ordering[perm[n]]];
      var f :| 0 <= f < |newAdj[perm[n]]| && newAdj[perm[n]][f] == perm[m];
    }
  }
}
