// The backtracking search for a 4-colouring. A search state holds, for
// every node, the colours still possible there, and a frontier of nodes
// whose possibilities have shrunk but which have not been decided yet.
// Picking a colour at a frontier node removes that colour from its
// neighbours, and every neighbour left with one colour forces the same in
// turn; the search picks at frontier nodes depth first, excluding a colour
// at a node once every way on from it has failed.

module ColoringSearch {
  import opened ColorSets

  /** kAdj: the neighbours of every node. */
  type Graph = seq<seq<int>>

  /** Every neighbour named in the graph is one of its nodes. */
  ghost predicate GraphOk(adj: Graph)
  {
    forall n, k :: 0 <= n < |adj| && 0 <= k < |adj[n]| ==> 0 <= adj[n][k] < |adj|
  }

  /** A colouring of the graph: one palette colour set per node. */
  ghost predicate ColoringOk(adj: Graph, col: seq<ColorSet>)
  {
    GraphOk(adj) && |col| == |adj| && forall n :: 0 <= n < |col| ==> InPalette(col[n])
  }

  /** Node n is decided: one colour is left there and no neighbour may still take it. */
  ghost predicate Settled(adj: Graph, col: seq<ColorSet>, n: int)
  {
    0 <= n < |col| && n < |adj| && col[n].CountIsOne() &&
    forall k :: 0 <= k < |adj[n]| ==> 0 <= adj[n][k] < |col| && !col[adj[n][k]].Has(col[n].SetIndex())
  }

  /** Every node keeps only colours it had. */
  ghost predicate Shrunk(col: seq<ColorSet>, before: seq<ColorSet>)
  {
    |col| == |before| && forall n :: 0 <= n < |col| ==> SubsetOf(col[n], before[n])
  }

  /** The nodes whose colour sets differ between two colourings. */
  ghost function Changed(before: seq<ColorSet>, col: seq<ColorSet>): set<int>
  {
    set n | 0 <= n < |col| && n < |before| && col[n] != before[n]
  }

  /** The number of possible colours over all nodes. */
  function Total(col: seq<ColorSet>): nat
  {
    if col == [] then 0 else Total(col[..|col| - 1]) + col[|col| - 1].Count()
  }

  /** Replacing one colour set changes the total by the difference of the counts. */
  lemma {:induction false} TotalUpdate(col: seq<ColorSet>, a: int, v: ColorSet)
    requires 0 <= a < |col|
    ensures Total(col[a := v]) + col[a].Count() == Total(col) + v.Count()
  {
    var last := |col| - 1;
    if a < last {
      TotalUpdate(col[..last], a, v);
      assert col[a := v][..last] == col[..last][a := v];
    } else {
      assert col[a := v][..last] == col[..last];
    }
  }

  /** Shrinking never adds to the total, and keeps it only when nothing changed. */
  lemma {:induction false} TotalShrunk(col: seq<ColorSet>, before: seq<ColorSet>)
    requires Shrunk(col, before)
    ensures Total(col) <= Total(before)
    ensures Total(col) == Total(before) ==> col == before
  {
    if col != [] {
      var last := |col| - 1;
      TotalShrunk(col[..last], before[..last]);
      SubsetCount(col[last], before[last]);
      if Total(col) == Total(before) {
        assert col == col[..last] + [col[last]];
        assert before == before[..last] + [before[last]];
      }
    }
  }

  lemma ShrunkTrans(a: seq<ColorSet>, b: seq<ColorSet>, c: seq<ColorSet>)
    requires Shrunk(a, b) && Shrunk(b, c)
    ensures Shrunk(a, c)
  {
    forall n | 0 <= n < |a|
      ensures SubsetOf(a[n], c[n])
    {
      SubsetTrans(a[n], b[n], c[n]);
    }
  }

  /** A decided node stays decided while the sets shrink without emptying it. */
  lemma SettledShrunk(adj: Graph, before: seq<ColorSet>, col: seq<ColorSet>, n: int)
    requires Settled(adj, before, n) && Shrunk(col, before) && !col[n].IsEmpty()
    ensures Settled(adj, col, n)
  {
    SubsetOfSingle(col[n], before[n]);
    forall k | 0 <= k < |adj[n]|
      ensures !col[adj[n][k]].Has(col[n].SetIndex())
    {
      var x := adj[n][k];
      if col[x].Has(col[n].SetIndex()) {
        SubsetHas(col[x], before[x], col[n].SetIndex());
      }
    }
  }

  /** A colour that the propagation still has to push to the neighbours of its node. */
  datatype Pending = Pending(node: int, color: int)

  /** The nodes waiting in the stack. */
  ghost function Waiting(q: seq<Pending>): set<int>
  {
    if q == [] then {} else Waiting(q[..|q| - 1]) + {q[|q| - 1].node}
  }

  /** The colour set a node is bounded by while the colour is picked at node. */
  function Base(col0: seq<ColorSet>, node: int, color: nat, n: int): ColorSet
    requires 0 <= n < |col0| && color < kColors
  {
    if n == node then col0[n].MakeSingletonAtBit(color) else col0[n]
  }

  /** Every set is bounded by Base. */
  ghost predicate Bounded(col0: seq<ColorSet>, node: int, color: nat, col: seq<ColorSet>)
    requires color < kColors
  {
    |col| == |col0| && forall n :: 0 <= n < |col| ==> SubsetOf(col[n], Base(col0, node, color, n))
  }

  /** A node forced to one colour: the picked node, or one left with a single colour by this pick. */
  ghost predicate Forced(col0: seq<ColorSet>, node: int, col: seq<ColorSet>, n: int)
    requires 0 <= n < |col| && |col| == |col0|
  {
    n == node || (col[n] != col0[n] && col[n].CountIsOne())
  }

  /**
   * The result of picking color at node from (col0, fr0): the sets only
   * shrank (the picked node to the one colour), none that changed is
   * empty, the frontier gained the changed nodes and lost the picked one,
   * and every forced node is decided.
   */
  ghost predicate PickedFrom(adj: Graph, col0: seq<ColorSet>, fr0: set<int>, node: int, color: nat,
                             col: seq<ColorSet>, fr: set<int>)
    requires color < kColors
  {
    Bounded(col0, node, color, col) && 0 <= node < |col| &&
    col[node] == col0[node].MakeSingletonAtBit(color) &&
    (forall n :: 0 <= n < |col| && col[n] != col0[n] ==> !col[n].IsEmpty()) &&
    fr == (fr0 + Changed(col0, col)) - {node} &&
    (forall n :: 0 <= n < |col| && Forced(col0, node, col, n) ==> Settled(adj, col, n))
  }

  /** Some node has no colour left. */
  ghost predicate Failed(col: seq<ColorSet>)
  {
    exists n :: 0 <= n < |col| && col[n].IsEmpty()
  }

  /** What holds of the propagation apart from the stack. */
  ghost predicate Common(adj: Graph, col0: seq<ColorSet>, fr0: set<int>, node: int, color: nat,
                         col: seq<ColorSet>, fr: set<int>)
  {
    ColoringOk(adj, col0) && 0 <= node < |adj| && color < kColors &&
    Bounded(col0, node, color, col) &&
    col[node] == col0[node].MakeSingletonAtBit(color) &&
    (forall n :: 0 <= n < |col| && col[n] != col0[n] ==> !col[n].IsEmpty()) &&
    fr == fr0 + Changed(col0, col)
  }

  /** Every stacked node has one colour left, and it is the stacked colour. */
  ghost predicate StackOk(col: seq<ColorSet>, q: seq<Pending>)
  {
    forall i :: 0 <= i < |q| ==>
      0 <= q[i].node < |col| && col[q[i].node].CountIsOne() && col[q[i].node].SetIndex() == q[i].color
  }

  /** At the head of the outer loop: every forced node is decided or stacked. */
  ghost predicate Outer(adj: Graph, col0: seq<ColorSet>, fr0: set<int>, node: int, color: nat,
                        col: seq<ColorSet>, fr: set<int>, q: seq<Pending>)
  {
    Common(adj, col0, fr0, node, color, col, fr) && StackOk(col, q) &&
    forall n :: 0 <= n < |col| && Forced(col0, node, col, n) ==> Settled(adj, col, n) || n in Waiting(q)
  }

  /**
   * Inside the inner loop for the popped (m, c): m has c alone, the first
   * k neighbours of m no longer have c, and every other forced node is
   * decided or stacked.
   */
  ghost predicate Inner(adj: Graph, col0: seq<ColorSet>, fr0: set<int>, node: int, color: nat,
                        col: seq<ColorSet>, fr: set<int>, q: seq<Pending>, m: int, c: int, k: int)
  {
    Common(adj, col0, fr0, node, color, col, fr) && StackOk(col, q) &&
    0 <= m < |col| && 0 <= c < kColors && col[m].CountIsOne() && col[m].SetIndex() == c &&
    0 <= k <= |adj[m]| &&
    (forall j :: 0 <= j < k ==> !col[adj[m][j]].Has(c)) &&
    forall n :: 0 <= n < |col| && Forced(col0, node, col, n) ==> Settled(adj, col, n) || n in Waiting(q) || n == m
  }

  /** Picking the colour and stacking it starts the outer loop. */
  lemma PropagateStart(adj: Graph, col0: seq<ColorSet>, fr0: set<int>, node: int, color: nat)
    requires ColoringOk(adj, col0) && node in fr0 && 0 <= node < |adj| && color < kColors
    ensures Outer(adj, col0, fr0, node, color, col0[node := col0[node].MakeSingletonAtBit(color)], fr0,
                  [Pending(node, color)])
  {
    var col := col0[node := col0[node].MakeSingletonAtBit(color)];
    SingletonFacts(col0[node], color);
    assert Changed(col0, col) <= {node};
    assert Waiting([Pending(node, color)]) == {node};
    forall n | 0 <= n < |col| && Forced(col0, node, col, n)
      ensures n == node
    {
    }
  }

  /** Popping the top of the stack starts the inner loop for it. */
  lemma PopStep(adj: Graph, col0: seq<ColorSet>, fr0: set<int>, node: int, color: nat,
                col: seq<ColorSet>, fr: set<int>, q: seq<Pending>)
    requires Outer(adj, col0, fr0, node, color, col, fr, q) && |q| > 0
    ensures Inner(adj, col0, fr0, node, color, col, fr, q[..|q| - 1], q[|q| - 1].node, q[|q| - 1].color, 0)
  {
    var m := q[|q| - 1].node;
    assert StackOk(col, q[..|q| - 1]) by {
      assert forall i :: 0 <= i < |q| - 1 ==> q[..|q| - 1][i] == q[i];
    }
    PaletteIndex(col[m]);
    assert Waiting(q) == Waiting(q[..|q| - 1]) + {m};
  }

  /** When every neighbour of m has lost c, m is decided and the outer loop resumes. */
  lemma InnerDone(adj: Graph, col0: seq<ColorSet>, fr0: set<int>, node: int, color: nat,
                  col: seq<ColorSet>, fr: set<int>, q: seq<Pending>, m: int, c: int)
    requires 0 <= m < |adj| && Inner(adj, col0, fr0, node, color, col, fr, q, m, c, |adj[m]|)
    ensures Outer(adj, col0, fr0, node, color, col, fr, q)
  {
    assert Settled(adj, col, m);
  }

  /** A neighbour that lacks c already needs nothing. */
  lemma InnerSkip(adj: Graph, col0: seq<ColorSet>, fr0: set<int>, node: int, color: nat,
                  col: seq<ColorSet>, fr: set<int>, q: seq<Pending>, m: int, c: int, k: int)
    requires Inner(adj, col0, fr0, node, color, col, fr, q, m, c, k) && k < |adj[m]|
    requires !col[adj[m][k]].Has(c)
    ensures Inner(adj, col0, fr0, node, color, col, fr, q, m, c, k + 1)
  {
  }

  /** Removing c from a neighbour keeps every set bounded and lowers the total. */
  lemma ResetBounded(adj: Graph, col0: seq<ColorSet>, fr0: set<int>, node: int, color: nat,
                     col: seq<ColorSet>, fr: set<int>, q: seq<Pending>, m: int, c: int, k: int)
    requires Inner(adj, col0, fr0, node, color, col, fr, q, m, c, k) && k < |adj[m]|
    requires col[adj[m][k]].Has(c)
    ensures var a := adj[m][k];
      Bounded(col0, node, color, col[a := col[a].Reset(c)]) &&
      Total(col[a := col[a].Reset(c)]) < Total(col) &&
      (col[a].Reset(c).IsEmpty() ==> Failed(col[a := col[a].Reset(c)]))
  {
    var a := adj[m][k];
    var v := col[a].Reset(c);
    ResetShrinks(col[a], c);
    SubsetTrans(v, col[a], Base(col0, node, color, a));
    SubsetCount(v, col[a]);
    TotalUpdate(col, a, v);
  }

  /** Removing c from a neighbour that keeps some colour keeps the inner loop going. */
  lemma ResetStep(adj: Graph, col0: seq<ColorSet>, fr0: set<int>, node: int, color: nat,
                  col: seq<ColorSet>, fr: set<int>, q: seq<Pending>, m: int, c: int, k: int)
    requires Inner(adj, col0, fr0, node, color, col, fr, q, m, c, k) && k < |adj[m]|
    requires col[adj[m][k]].Has(c) && !col[adj[m][k]].Reset(c).IsEmpty()
    ensures var a := adj[m][k];
      var v := col[a].Reset(c);
      Inner(adj, col0, fr0, node, color, col[a := v], fr + {a},
            if v.CountIsOne() then q + [Pending(a, v.SetIndex())] else q, m, c, k + 1)
  {
    var a := adj[m][k];
    var v := col[a].Reset(c);
    var col' := col[a := v];
    var q' := if v.CountIsOne() then q + [Pending(a, v.SetIndex())] else q;
    ResetShrinks(col[a], c);
    ResetBounded(adj, col0, fr0, node, color, col, fr, q, m, c, k);
    if col[a].CountIsOne() {
      ResetSingleton(col[a], c);
    }
    ResetCommon(adj, col0, fr0, node, color, col, fr, a, c);
    StackStep(col, q, a, v);
    ForcedStep(adj, col0, node, color, col, q, m, a, v);
    NeighboursStep(adj, col, m, c, k, v);
  }

  /** Stacking the node just left with one colour keeps the stack consistent. */
  lemma StackStep(col: seq<ColorSet>, q: seq<Pending>, a: int, v: ColorSet)
    requires StackOk(col, q) && 0 <= a < |col| && !col[a].CountIsOne()
    ensures StackOk(col[a := v], if v.CountIsOne() then q + [Pending(a, v.SetIndex())] else q)
  {
    var col' := col[a := v];
    var q' := if v.CountIsOne() then q + [Pending(a, v.SetIndex())] else q;
    forall i | 0 <= i < |q'|
      ensures 0 <= q'[i].node < |col'| && col'[q'[i].node].CountIsOne() && col'[q'[i].node].SetIndex() == q'[i].color
    {
      if i < |q| {
        assert q'[i] == q[i];
      }
    }
  }

  /** After removing a colour at a, every forced node is still decided, stacked or the one in hand. */
  lemma ForcedStep(adj: Graph, col0: seq<ColorSet>, node: int, color: nat, col: seq<ColorSet>,
                   q: seq<Pending>, m: int, a: int, v: ColorSet)
    requires |col| == |col0| && 0 <= a < |col| && SubsetOf(v, col[a]) && v != col[a] && !col[a].CountIsOne()
    requires color < kColors && 0 <= node < |col| && col[node] == col0[node].MakeSingletonAtBit(color)
    requires forall n :: 0 <= n < |col| && Forced(col0, node, col, n) ==> Settled(adj, col, n) || n in Waiting(q) || n == m
    ensures var q' := if v.CountIsOne() then q + [Pending(a, v.SetIndex())] else q;
      forall n :: 0 <= n < |col| && Forced(col0, node, col[a := v], n) ==>
        Settled(adj, col[a := v], n) || n in Waiting(q') || n == m
  {
    var col' := col[a := v];
    var q' := if v.CountIsOne() then q + [Pending(a, v.SetIndex())] else q;
    SingletonFacts(col0[node], color);
    assert Waiting(q) <= Waiting(q');
    assert v.CountIsOne() ==> a in Waiting(q') by {
      if v.CountIsOne() {
        assert q'[..|q'| - 1] == q;
      }
    }
    forall n | 0 <= n < |col'| && Forced(col0, node, col', n)
      ensures Settled(adj, col', n) || n in Waiting(q') || n == m
    {
      if n != a {
        assert Forced(col0, node, col, n);
        if Settled(adj, col, n) {
          SettledShrunkOne(adj, col, a, v, n);
        }
      }
    }
  }

  /** The neighbours of m handled so far, and now the k-th, lack c. */
  lemma NeighboursStep(adj: Graph, col: seq<ColorSet>, m: int, c: int, k: int, v: ColorSet)
    requires 0 <= m < |adj| && 0 <= k < |adj[m]| && 0 <= adj[m][k] < |col|
    requires forall j :: 0 <= j < k ==> 0 <= adj[m][j] < |col| && !col[adj[m][j]].Has(c)
    requires SubsetOf(v, col[adj[m][k]]) && !v.Has(c)
    ensures forall j :: 0 <= j < k + 1 ==> !col[adj[m][k] := v][adj[m][j]].Has(c)
  {
    var a := adj[m][k];
    forall j | 0 <= j < k + 1
      ensures !col[a := v][adj[m][j]].Has(c)
    {
    }
  }

  /** The part of the loop state that does not involve the stack survives removing c at a. */
  lemma ResetCommon(adj: Graph, col0: seq<ColorSet>, fr0: set<int>, node: int, color: nat,
                    col: seq<ColorSet>, fr: set<int>, a: int, c: nat)
    requires Common(adj, col0, fr0, node, color, col, fr) && 0 <= a < |col| && c < kColors
    requires col[a].Has(c) && !col[a].Reset(c).IsEmpty() && !col[a].CountIsOne()
    requires Bounded(col0, node, color, col[a := col[a].Reset(c)])
    ensures Common(adj, col0, fr0, node, color, col[a := col[a].Reset(c)], fr + {a})
  {
    var v := col[a].Reset(c);
    var col' := col[a := v];
    ResetShrinks(col[a], c);
    SingletonFacts(col0[node], color);
    assert a != node;
    ProperSubset(v, col[a], col0[a]);
    assert Changed(col0, col') == Changed(col0, col) + {a};
  }

  /** Shrinking one other set keeps a decided node decided. */
  lemma SettledShrunkOne(adj: Graph, col: seq<ColorSet>, a: int, v: ColorSet, n: int)
    requires Settled(adj, col, n) && 0 <= a < |col| && a != n && SubsetOf(v, col[a])
    ensures Settled(adj, col[a := v], n)
  {
    var col' := col[a := v];
    forall k | 0 <= k < |adj[n]|
      ensures !col'[adj[n][k]].Has(col'[n].SetIndex())
    {
      if adj[n][k] == a && v.Has(col[n].SetIndex()) {
        SubsetHas(v, col[a], col[n].SetIndex());
      }
    }
  }

  /** An empty stack at the head of the outer loop completes the pick. */
  lemma PropagateDone(adj: Graph, col0: seq<ColorSet>, fr0: set<int>, node: int, color: nat,
                      col: seq<ColorSet>, fr: set<int>)
    requires Outer(adj, col0, fr0, node, color, col, fr, [])
    ensures PickedFrom(adj, col0, fr0, node, color, col, fr - {node})
  {
  }

  /**
   * DoPickColorAt's propagation: colour color is picked at the frontier
   * node, and every colour forced on a node is removed from its
   * neighbours through a stack, until the stack is empty or some node has
   * no colour left.
   */
  method Propagate(adj: Graph, col0: seq<ColorSet>, fr0: set<int>, node: int, color: nat)
    returns (ok: bool, col: seq<ColorSet>, fr: set<int>)
    requires ColoringOk(adj, col0) && node in fr0 && 0 <= node < |adj| && color < kColors
    ensures Bounded(col0, node, color, col)
    ensures ok ==> PickedFrom(adj, col0, fr0, node, color, col, fr)
    ensures !ok ==> Failed(col)
  {
    col := col0[node := col0[node].MakeSingletonAtBit(color)];
    fr := fr0;
    var q := [Pending(node, color)];
    PropagateStart(adj, col0, fr0, node, color);
    while |q| > 0
      invariant Outer(adj, col0, fr0, node, color, col, fr, q)
      decreases Total(col) + |q|
    {
      ghost var before := Total(col) + |q|;
      var m := q[|q| - 1].node;
      var c := q[|q| - 1].color;
      PopStep(adj, col0, fr0, node, color, col, fr, q);
      q := q[..|q| - 1];
      var k := 0;
      while k < |adj[m]|
        invariant Inner(adj, col0, fr0, node, color, col, fr, q, m, c, k)
        invariant Total(col) + |q| < before
        decreases |adj[m]| - k
      {
        var a := adj[m][k];
        if col[a].Has(c) {
          var v := col[a].Reset(c);
          ResetBounded(adj, col0, fr0, node, color, col, fr, q, m, c, k);
          CountZeroOne(v);
          if v.Count() == 0 {
            col := col[a := v];
            return false, col, fr;
          }
          ResetStep(adj, col0, fr0, node, color, col, fr, q, m, c, k);
          col := col[a := v];
          fr := fr + {a};
          if v.Count() == 1 {
            q := q + [Pending(a, v.SetIndex())];
          }
        } else {
          InnerSkip(adj, col0, fr0, node, color, col, fr, q, m, c, k);
        }
        k := k + 1;
      }
      InnerDone(adj, col0, fr0, node, color, col, fr, q, m, c);
    }
    PropagateDone(adj, col0, fr0, node, color, col, fr);
    fr := fr - {node};
    ok := true;
  }

  /**
   * What the search keeps of every state: every node has some colour left,
   * and a node outside the frontier is either untouched (every colour
   * possible) or decided.
   */
  ghost predicate SearchOk(adj: Graph, col: seq<ColorSet>, fr: set<int>)
  {
    ColoringOk(adj, col) && (forall n :: n in fr ==> 0 <= n < |col|) &&
    forall n :: 0 <= n < |col| ==> !col[n].IsEmpty() && (n !in fr ==> col[n] == Full || Settled(adj, col, n))
  }

  /** The search measure of (col, fr) lies below that of (col0, fr0). */
  ghost predicate Below(col: seq<ColorSet>, fr: set<int>, col0: seq<ColorSet>, fr0: set<int>)
  {
    Total(col) < Total(col0) || (Total(col) == Total(col0) && |fr| < |fr0|)
  }

  /**
   * A successful pick of a possible colour at a frontier node keeps
   * SearchOk, decides the node, keeps the rest of the frontier, and lowers
   * the search measure.
   */
  lemma PickKeepsSearch(adj: Graph, col0: seq<ColorSet>, fr0: set<int>, node: int, color: nat,
                        col: seq<ColorSet>, fr: set<int>)
    requires SearchOk(adj, col0, fr0) && node in fr0 && color < kColors && col0[node].Has(color)
    requires PickedFrom(adj, col0, fr0, node, color, col, fr)
    ensures SearchOk(adj, col, fr) && Shrunk(col, col0) && Settled(adj, col, node) && fr0 - {node} <= fr
    ensures Below(col, fr, col0, fr0)
  {
    SingletonFacts(col0[node], color);
    SingletonSubset(col0[node], color);
    assert Shrunk(col, col0);
    forall n | 0 <= n < |col|
      ensures InPalette(col[n]) && !col[n].IsEmpty() && (n !in fr ==> col[n] == Full || Settled(adj, col, n))
    {
      SubsetPalette(col[n], col0[n]);
      if n != node && n !in fr && Settled(adj, col0, n) {
        SettledShrunk(adj, col0, col, n);
      }
    }
    TotalShrunk(col, col0);
    if Total(col) == Total(col0) {
      assert Changed(col0, col) == {};
      assert fr == fr0 - {node};
    }
  }

  /** One search state: the colour sets, the frontier, and the depth of picks that led to it. */
  class State {
    const adj: Graph
    var coloring: seq<ColorSet>
    var frontier: set<int>
    var depth: int

    /** State(): every colour possible at every node, and an empty frontier. */
    constructor (adj: Graph)
      ensures this.adj == adj && coloring == seq(|adj|, _ => Full) && frontier == {} && depth == 0
    {
      this.adj := adj;
      coloring := seq(|adj|, _ => Full);
      frontier := {};
      depth := 0;
    }

    /** The copy constructor. */
    constructor Copy(other: State)
      ensures adj == other.adj && coloring == other.coloring && frontier == other.frontier && depth == other.depth
    {
      adj := other.adj;
      coloring := other.coloring;
      frontier := other.frontier;
      depth := other.depth;
    }

    /**
     * DoPickColorAt(node, color): picks the colour at the frontier node and
     * propagates; true when no node is left without a colour.
     */
    method DoPickColorAt(node: int, color: nat) returns (ok: bool)
      requires ColoringOk(adj, coloring) && node in frontier && 0 <= node < |adj| && color < kColors
      modifies this
      ensures depth == old(depth) + 1
      ensures Bounded(old(coloring), node, color, coloring)
      ensures ok ==> PickedFrom(adj, old(coloring), old(frontier), node, color, coloring, frontier)
      ensures !ok ==> Failed(coloring)
    {
      depth := depth + 1;
      ok, coloring, frontier := Propagate(adj, coloring, frontier, node, color);
    }

    /**
     * PickColorAt(node, color): the state after the pick, made on a copy;
     * None when the pick fails, the copy's colouring (returned in failed)
     * then having some node with no colour left.
     */
    method PickColorAt(node: int, color: nat) returns (r: Option<State>, ghost failed: seq<ColorSet>)
      requires ColoringOk(adj, coloring) && node in frontier && 0 <= node < |adj| && color < kColors
      ensures r.Some? ==> fresh(r.value) && r.value.adj == adj && r.value.depth == depth + 1
      ensures r.Some? ==> PickedFrom(adj, coloring, frontier, node, color, r.value.coloring, r.value.frontier)
      ensures r.None? ==> Bounded(coloring, node, color, failed) && Failed(failed)
    {
      var s := new State.Copy(this);
      var ok := s.DoPickColorAt(node, color);
      r := if ok then Some(s) else None;
      failed := s.coloring;
    }

    /** ch holds the state reached from this one by picking color at node. */
    ghost predicate ChildOf(ch: Option<State>, node: int, color: int)
      reads this, if ch.Some? then {ch.value} else {}
    {
      ch.Some? && 0 <= color < kColors && ch.value.adj == adj &&
      PickedFrom(adj, coloring, frontier, node, color, ch.value.coloring, ch.value.frontier)
    }

    /** best leads the frontier nodes below i: fewest colours, the first of them on a tie. */
    ghost predicate Leads(best: int, i: int)
      reads this
    {
      0 <= best < |coloring| &&
      forall n :: n in frontier && 0 <= n < i && n < |coloring| ==>
        coloring[best].Count() <= coloring[n].Count() && (n < best ==> coloring[best].Count() < coloring[n].Count())
    }

    /** The scan of the frontier below i has chosen (best, bestColor), its state in ch; best is -1 before any choice. */
    ghost predicate ChosenBelow(best: int, bestColor: int, ch: Option<State>, i: int)
      reads this, if ch.Some? then {ch.value} else {}
    {
      (best == -1 ==> forall n :: n in frontier ==> n >= i) &&
      (best != -1 ==>
        0 <= best < i && best < |coloring| && best in frontier && 0 <= bestColor < kColors && coloring[best].Has(bestColor) &&
        ChildOf(ch, best, bestColor) && Leads(best, i))
    }

    /**
     * The inner loop of the choice for frontier node i: each possible
     * colour of i is picked on a copy; a failing pick ends the choice, and
     * otherwise i replaces the choice so far when it has fewer colours.
     */
    method ScanNode(i: int, best0: int, bestColor0: int, child0: Option<State>)
      returns (best: int, bestColor: int, child: Option<State>, failed: bool)
      requires SearchOk(adj, coloring, frontier) && i in frontier
      requires ChosenBelow(best0, bestColor0, child0, i)
      ensures failed ==> best == i && 0 <= bestColor < kColors && coloring[i].Has(bestColor) && child.None?
      ensures !failed ==> ChosenBelow(best, bestColor, child, i + 1)
      ensures child.Some? && child != child0 ==> fresh(child.value)
    {
      best, bestColor, child, failed := best0, bestColor0, child0, false;
      var j := 0;
      ghost var seen := false;
      while j < kColors
        invariant 0 <= j <= kColors
        invariant Kept(best0, bestColor0, child0, best, bestColor, child, i)
        invariant !seen ==> forall c :: 0 <= c < j ==> !coloring[i].Has(c)
        invariant seen && best == best0 ==> best0 != -1 && coloring[best0].Count() <= coloring[i].Count()
        invariant child.Some? && child != child0 ==> fresh(child.value)
      {
        best, bestColor, child, failed, seen := ScanColor(i, j, best0, bestColor0, child0, best, bestColor, child, seen);
        if failed {
          return;
        }
        j := j + 1;
      }
      PaletteIndex(coloring[i]);
      KeptBelow(best0, bestColor0, child0, best, bestColor, child, i);
    }

    /** One pass of ScanNode's loop: colour j of node i, if possible there, is picked on a copy. */
    method ScanColor(i: int, j: int, best0: int, bestColor0: int, child0: Option<State>,
                     best1: int, bestColor1: int, child1: Option<State>, ghost seen1: bool)
      returns (best: int, bestColor: int, child: Option<State>, failed: bool, ghost seen: bool)
      requires SearchOk(adj, coloring, frontier)
      requires Kept(best0, bestColor0, child0, best1, bestColor1, child1, i) && 0 <= j < kColors
      requires !seen1 ==> forall c :: 0 <= c < j ==> !coloring[i].Has(c)
      requires seen1 && best1 == best0 ==> best0 != -1 && coloring[best0].Count() <= coloring[i].Count()
      ensures failed ==> best == i && 0 <= bestColor < kColors && coloring[i].Has(bestColor) && child.None?
      ensures !failed ==> Kept(best0, bestColor0, child0, best, bestColor, child, i)
      ensures !failed && !seen ==> forall c :: 0 <= c < j + 1 ==> !coloring[i].Has(c)
      ensures !failed && seen && best == best0 ==> best0 != -1 && coloring[best0].Count() <= coloring[i].Count()
      ensures child.Some? && child != child1 ==> fresh(child.value)
    {
      best, bestColor, child, failed, seen := best1, bestColor1, child1, false, seen1;
      if coloring[i].Has(j) {
        var candidate, _ := PickColorAt(i, j);
        if candidate.None? {
          return i, j, None, true, seen;
        }
        assert Kept(best0, bestColor0, child0, best1, bestColor1, child1, i);
        if best == -1 || coloring[i].Count() < coloring[best].Count() {
          KeptSwitch(best0, bestColor0, child0, best1, bestColor1, child1, i, j, candidate);
          best, bestColor, child := i, j, candidate;
        }
        seen := true;
      }
    }

    /**
     * During ScanNode for node i: the choice is still the one from below i,
     * or it is i with a possible colour, its state, and fewer colours than
     * the earlier choice.
     */
    ghost predicate Kept(best0: int, bestColor0: int, child0: Option<State>, best: int, bestColor: int, child: Option<State>, i: int)
      reads this, if child0.Some? then {child0.value} else {}, if child.Some? then {child.value} else {}
    {
      0 <= i < |coloring| && i in frontier && ChosenBelow(best0, bestColor0, child0, i) &&
      ((best == best0 && bestColor == bestColor0 && child == child0) ||
       (best == i && 0 <= bestColor < kColors && coloring[i].Has(bestColor) && ChildOf(child, i, bestColor) &&
        (best0 == -1 || coloring[i].Count() < coloring[best0].Count())))
    }

    /** A pick at node i that beats the choice so far replaces it. */
    lemma KeptSwitch(best0: int, bestColor0: int, child0: Option<State>, best1: int, bestColor1: int, child1: Option<State>,
                     i: int, j: int, candidate: Option<State>)
      requires Kept(best0, bestColor0, child0, best1, bestColor1, child1, i)
      requires 0 <= j < kColors && coloring[i].Has(j) && candidate.Some? && candidate.value.adj == adj
      requires PickedFrom(adj, coloring, frontier, i, j, candidate.value.coloring, candidate.value.frontier)
      requires best1 == -1 || coloring[i].Count() < coloring[best1].Count()
      ensures Kept(best0, bestColor0, child0, i, j, candidate, i)
    {
      assert ChildOf(candidate, i, j);
    }

    /** Node i scanned, seen to have a colour: the choice covers the frontier up to i. */
    lemma KeptBelow(best0: int, bestColor0: int, child0: Option<State>, best: int, bestColor: int, child: Option<State>, i: int)
      requires Kept(best0, bestColor0, child0, best, bestColor, child, i)
      requires best == best0 ==> best0 != -1 && coloring[best0].Count() <= coloring[i].Count()
      ensures ChosenBelow(best, bestColor, child, i + 1)
    {
      assert forall n :: n in frontier && 0 <= n < i + 1 && n < |coloring| ==> n < i || n == i;
    }

    /**
     * The choice at the head of Rec: the frontier nodes are scanned in
     * order and each one's possible colours from 0 up. A pick that fails is
     * taken at once; otherwise the first node with the fewest colours left
     * wins, with its first possible colour. best is -1 exactly when the
     * frontier is empty.
     */
    method Choose() returns (best: int, bestColor: int, child: Option<State>)
      requires SearchOk(adj, coloring, frontier)
      ensures best == -1 <==> frontier == {}
      ensures best != -1 ==> best in frontier && 0 <= bestColor < kColors && coloring[best].Has(bestColor)
      ensures child.Some? ==> fresh(child.value) && ChildOf(child, best, bestColor)
      ensures child.Some? ==> forall n :: n in frontier ==>
        coloring[best].Count() <= coloring[n].Count() && (n < best ==> coloring[best].Count() < coloring[n].Count())
    {
      best, bestColor, child := -1, -1, None;
      var i := 0;
      while i < |adj|
        invariant 0 <= i <= |adj|
        invariant ChosenBelow(best, bestColor, child, i)
        invariant child.Some? ==> fresh(child.value)
        invariant best == -1 ==> child.None?
      {
        if i in frontier {
          var failed;
          best, bestColor, child, failed := ScanNode(i, best, bestColor, child);
          if failed {
            return;
          }
        } else {
          SkipNode(best, bestColor, child, i);
        }
        i := i + 1;
      }
      ChooseDone(best, bestColor, child);
    }

    /** The scan of the whole frontier gives Choose's result. */
    lemma ChooseDone(best: int, bestColor: int, child: Option<State>)
      requires SearchOk(adj, coloring, frontier)
      requires ChosenBelow(best, bestColor, child, |adj|) && (best == -1 ==> child.None?)
      ensures best == -1 <==> frontier == {}
      ensures best != -1 ==> best in frontier && 0 <= bestColor < kColors && coloring[best].Has(bestColor)
      ensures child.Some? ==> ChildOf(child, best, bestColor)
      ensures child.Some? ==> forall n :: n in frontier ==>
        coloring[best].Count() <= coloring[n].Count() && (n < best ==> coloring[best].Count() < coloring[n].Count())
    {
      if best == -1 {
        NoneLeft(frontier, |adj|);
      }
    }

    /** A node outside the frontier leaves the choice as it is. */
    lemma SkipNode(best: int, bestColor: int, ch: Option<State>, i: int)
      requires ChosenBelow(best, bestColor, ch, i) && i !in frontier
      ensures ChosenBelow(best, bestColor, ch, i + 1)
    {
    }

    /** ch is a state below this one that picked a colour at best and can be searched next. */
    ghost predicate Descends(ch: Option<State>, best: int, col0: seq<ColorSet>, fr0: set<int>)
      reads this, if ch.Some? then {ch.value} else {}
    {
      ch.Some? ==>
        ch.value.adj == adj && SearchOk(adj, ch.value.coloring, ch.value.frontier) &&
        Shrunk(ch.value.coloring, coloring) && Settled(adj, ch.value.coloring, best) &&
        frontier - {best} <= ch.value.frontier && Below(ch.value.coloring, ch.value.frontier, col0, fr0)
    }

    /**
     * The exclusion step of Rec's loop: the colour that failed is removed at
     * best; unless that empties best, the lowest colour left there is next.
     */
    method Exclude(best: int, bestColor: int) returns (emptied: bool, color: int)
      requires SearchOk(adj, coloring, frontier) && best in frontier && 0 <= bestColor < kColors
      requires coloring[best].Has(bestColor)
      modifies this
      ensures frontier == old(frontier) && Shrunk(coloring, old(coloring))
      ensures coloring == old(coloring)[best := old(coloring)[best].Reset(bestColor)]
      ensures coloring[best].Count() < old(coloring)[best].Count()
      ensures emptied <==> coloring[best].IsEmpty()
      ensures !emptied ==> SearchOk(adj, coloring, frontier) && 0 <= color < kColors && coloring[best].Has(color)
      ensures !emptied ==> forall c :: 0 <= c < color ==> !coloring[best].Has(c)
    {
      var reduced := coloring[best].Reset(bestColor);
      ResetShrinks(coloring[best], bestColor);
      SubsetCount(reduced, coloring[best]);
      ExcludeShrinks(coloring, best, reduced);
      if reduced.IsEmpty() {
        coloring := coloring[best := reduced];
        return true, -1;
      }
      ExcludeKeepsSearch(adj, coloring, frontier, best, bestColor);
      coloring := coloring[best := reduced];
      emptied := false;
      color := 0;
      while color < kColors && !coloring[best].Has(color)
        invariant 0 <= color <= kColors
        invariant forall c :: 0 <= c < color ==> !coloring[best].Has(c)
      {
        color := color + 1;
      }
      PaletteIndex(coloring[best]);
    }

    /**
     * Rec(): the depth-first search from this state. The chosen child is
     * searched; when that fails, its colour is excluded at the chosen node
     * and the node's lowest remaining colour is tried, until the node has
     * no colour left. On success the colouring is the one found below, the
     * nodes of the frontier are all decided and every node is decided or
     * untouched.
     */
    method Rec() returns (ok: bool)
      requires SearchOk(adj, coloring, frontier)
      modifies this
      decreases Total(coloring), |frontier|, 1
      ensures frontier == old(frontier) && Shrunk(coloring, old(coloring))
      ensures ok ==> forall n :: 0 <= n < |coloring| ==> coloring[n] == Full || Settled(adj, coloring, n)
      ensures ok ==> forall n :: n in old(frontier) ==> Settled(adj, coloring, n)
    {
      var best, bestColor, child := Choose();
      if best == -1 {
        return true;
      }
      ShrunkRefl(coloring);
      FirstDescends(child, best, bestColor);
      while true
        invariant Searching(best, bestColor, old(coloring), old(frontier))
        invariant child.Some? ==> fresh(child.value)
        invariant Descends(child, best, old(coloring), old(frontier))
        decreases coloring[best].Count()
      {
        if child.Some? {
          var found := Descend(child.value, best, bestColor, old(coloring), old(frontier));
          if found {
            return true;
          }
        }
        var emptied;
        emptied, bestColor, child := Retry(best, bestColor, old(coloring), old(frontier));
        if emptied {
          return false;
        }
      }
    }

    /** Rec's loop: the search below col0/fr0 goes on with colour bestColor at node best. */
    ghost predicate Searching(best: int, bestColor: int, col0: seq<ColorSet>, fr0: set<int>)
      reads this
    {
      SearchOk(adj, coloring, frontier) && frontier == fr0 && Shrunk(coloring, col0) &&
      best in frontier && 0 <= bestColor < kColors && 0 <= best < |coloring| && coloring[best].Has(bestColor)
    }

    /** The search below the chosen child; when it succeeds, the child's colouring is taken over. */
    method Descend(c: State, best: int, bestColor: int, ghost col0: seq<ColorSet>, ghost fr0: set<int>)
      returns (found: bool)
      requires c != this && Searching(best, bestColor, col0, fr0) && Descends(Some(c), best, col0, fr0)
      modifies this, c
      decreases Total(col0), |fr0|, 0
      ensures found ==> frontier == fr0 && Shrunk(coloring, col0)
      ensures found ==> forall n :: 0 <= n < |coloring| ==> coloring[n] == Full || Settled(adj, coloring, n)
      ensures found ==> forall n :: n in fr0 ==> Settled(adj, coloring, n)
      ensures !found ==> Searching(best, bestColor, col0, fr0)
      ensures !found ==> coloring == old(coloring)
    {
      ghost var start := c.coloring;
      found := c.Rec();
      if found {
        RecSucceeded(adj, col0, coloring, start, c.coloring, frontier, c.frontier, best);
        coloring := c.coloring;
      }
    }

    /** After a failed child: the colour is excluded at best and, unless none is left, the next one picked. */
    method Retry(best: int, bestColor: int, ghost col0: seq<ColorSet>, ghost fr0: set<int>)
      returns (emptied: bool, color: int, child: Option<State>)
      requires Searching(best, bestColor, col0, fr0)
      modifies this
      ensures frontier == old(frontier) && Shrunk(coloring, col0)
      ensures coloring[best].Count() < old(coloring[best].Count())
      ensures !emptied ==> Searching(best, color, col0, fr0)
      ensures !emptied ==> (child.Some? ==> fresh(child.value)) && Descends(child, best, col0, fr0)
    {
      ghost var before := coloring;
      emptied, color := Exclude(best, bestColor);
      ShrunkTrans(coloring, before, col0);
      if emptied {
        return emptied, color, None;
      }
      ghost var emptiedAt;
      child, emptiedAt := PickColorAt(best, color);
      NextDescends(child, best, color, col0, fr0);
    }

    /** The first child of Rec, if the pick succeeded, can be searched. */
    lemma FirstDescends(child: Option<State>, best: int, bestColor: int)
      requires SearchOk(adj, coloring, frontier) && best in frontier && 0 <= bestColor < kColors
      requires coloring[best].Has(bestColor)
      requires child.Some? ==> ChildOf(child, best, bestColor)
      ensures Descends(child, best, coloring, frontier)
    {
      if child.Some? {
        PickKeepsSearch(adj, coloring, frontier, best, bestColor, child.value.coloring, child.value.frontier);
      }
    }

    /** A later child of Rec, if the pick succeeded, can be searched. */
    lemma NextDescends(child: Option<State>, best: int, bestColor: int, col0: seq<ColorSet>, fr0: set<int>)
      requires SearchOk(adj, coloring, frontier) && best in frontier && 0 <= bestColor < kColors
      requires coloring[best].Has(bestColor) && Shrunk(coloring, col0) && frontier == fr0
      requires child.Some? ==> ChildOf(child, best, bestColor)
      ensures Descends(child, best, col0, fr0)
    {
      if child.Some? {
        PickKeepsSearch(adj, coloring, frontier, best, bestColor, child.value.coloring, child.value.frontier);
        BelowShrunk(child.value.coloring, child.value.frontier, coloring, col0, frontier);
      }
    }
  }

  /** A set of nodes all at least k and all below k is empty. */
  lemma NoneLeft(fr: set<int>, k: int)
    requires forall n :: n in fr ==> n >= k
    requires forall n :: n in fr ==> n < k
    ensures fr == {}
  {
    assert forall n :: n !in fr;
  }

  lemma ShrunkRefl(col: seq<ColorSet>)
    ensures Shrunk(col, col)
  {
  }

  /** Excluding colours at one node shrinks the colouring. */
  lemma ExcludeShrinks(col: seq<ColorSet>, a: int, v: ColorSet)
    requires 0 <= a < |col| && SubsetOf(v, col[a])
    ensures Shrunk(col[a := v], col)
  {
  }

  /** Excluding a colour at a frontier node that keeps some colour keeps SearchOk. */
  lemma ExcludeKeepsSearch(adj: Graph, col: seq<ColorSet>, fr: set<int>, a: int, c: nat)
    requires SearchOk(adj, col, fr) && a in fr && c < kColors && !col[a].Reset(c).IsEmpty()
    ensures SearchOk(adj, col[a := col[a].Reset(c)], fr)
  {
    var v := col[a].Reset(c);
    ResetShrinks(col[a], c);
    forall n | 0 <= n < |col| && n !in fr && col[n] != Full
      ensures Settled(adj, col[a := v], n)
    {
      SettledShrunkOne(adj, col, a, v, n);
    }
  }

  /** A measure below that of the current state is below that of any state it shrank from with the same frontier. */
  lemma BelowShrunk(childCol: seq<ColorSet>, childFr: set<int>, col: seq<ColorSet>, before: seq<ColorSet>, fr: set<int>)
    requires Below(childCol, childFr, col, fr) && Shrunk(col, before)
    ensures Below(childCol, childFr, before, fr)
  {
    TotalShrunk(col, before);
  }

  /** A search that succeeded below the child decides every node of the parent's frontier. */
  lemma RecSucceeded(adj: Graph, before: seq<ColorSet>, col: seq<ColorSet>, start: seq<ColorSet>,
                     final: seq<ColorSet>, fr: set<int>, childFr: set<int>, best: int)
    requires Shrunk(col, before) && Shrunk(start, col) && Shrunk(final, start)
    requires Settled(adj, start, best) && fr - {best} <= childFr
    requires forall n :: 0 <= n < |final| ==> final[n] == Full || Settled(adj, final, n)
    requires forall n :: n in childFr ==> Settled(adj, final, n)
    ensures Shrunk(final, before)
    ensures forall n :: n in fr ==> Settled(adj, final, n)
  {
    ShrunkTrans(final, start, col);
    ShrunkTrans(final, col, before);
    assert final[best] == Full || Settled(adj, final, best);
    SettledShrunk(adj, start, final, best);
  }

  datatype Option<T> = None | Some(value: T)
}
