// Binary search trees shared by the AVL, treap and splay variants: the node
// shape, the in-order key sequence, and the facts every lower-bound descent
// relies on.

module BinaryTree {
  import opened Keys
  import opened OrderedSet

  /**
   * A binary tree node. `ann` is what each variant stores besides the key:
   * a height, a balance factor or a priority.
   */
  datatype Tree<A> = Nil | Node(left: Tree<A>, value: Key, ann: A, right: Tree<A>)

  function Max(a: int, b: int): int
  {
    if a < b then b else a
  }

  /** The number of nodes on the longest root-to-leaf path. */
  function Height<A>(t: Tree<A>): nat
  {
    match t
    case Nil => 0
    case Node(l, _, _, r) => Max(Height(l), Height(r)) + 1
  }

  /** In-order key sequence. */
  function Elems<A>(t: Tree<A>): seq<Key>
  {
    match t
    case Nil => []
    case Node(l, v, _, r) => Elems(l) + [v] + Elems(r)
  }

  /** Regrouping of in-order sequences across a rotation. */
  lemma RegroupInner(a: seq<Key>, k1: Key, b: seq<Key>, k2: Key, c: seq<Key>, k3: Key, d: seq<Key>)
    ensures (a + [k1] + (b + [k2] + c)) + [k3] + d == a + [k1] + b + [k2] + c + [k3] + d
    ensures a + [k1] + ((b + [k2] + c) + [k3] + d) == a + [k1] + b + [k2] + c + [k3] + d
    ensures (a + [k1] + b) + [k2] + (c + [k3] + d) == a + [k1] + b + [k2] + c + [k3] + d
  {
  }

  lemma RegroupRight(a: seq<Key>, k1: Key, b: seq<Key>, k2: Key, c: seq<Key>)
    ensures a + [k1] + (b + [k2] + c) == a + [k1] + b + [k2] + c
  {
  }

  /** Search-tree order at a node: in-order sorted iff both sides are and they straddle the key. */
  lemma SortedNode<A>(t: Tree<A>)
    requires t.Node?
    ensures Sorted(Elems(t)) <==>
      Sorted(Elems(t.left)) && Sorted(Elems(t.right)) &&
      AllLessEq(Elems(t.left), t.value) && AllGreaterEq(Elems(t.right), t.value)
  {
    var l, x, r := Elems(t.left), t.value, Elems(t.right);
    if Sorted(Elems(t)) {
      SortedParts(l, x, r);
    }
    if Sorted(l) && Sorted(r) && AllLessEq(l, x) && AllGreaterEq(r, x) {
      SortedJoin(l, x, r);
    }
  }

  /** The same characterisation for strictly increasing in-order sequences. */
  lemma StrictlySortedNode<A>(t: Tree<A>)
    requires t.Node?
    ensures StrictlySorted(Elems(t)) <==>
      StrictlySorted(Elems(t.left)) && StrictlySorted(Elems(t.right)) &&
      AllLess(Elems(t.left), t.value) && AllGreater(Elems(t.right), t.value)
  {
    var l, x, r := Elems(t.left), t.value, Elems(t.right);
    if StrictlySorted(Elems(t)) {
      StrictlySortedParts(l, x, r);
    }
    if StrictlySorted(l) && StrictlySorted(r) && AllLess(l, x) && AllGreater(r, x) {
      StrictlySortedJoin(l, x, r);
    }
  }

  // ----- splitting at a key, and the place a descent stops at -----

  /**
   * Split::Rec of the treap and of the splay tree's move-to-top insert:
   * the nodes with keys below value, in their order, and the other nodes,
   * in theirs. Each node keeps its annotation and the subtree on its far
   * side; only the links along the search path change.
   */
  function Split<A>(value: Key, t: Tree<A>): (r: (Tree<A>, Tree<A>))
  {
    match t
    case Nil => (Nil, Nil)
    case Node(l, v, p, rt) =>
      if Less(v, value) then
        var (a, b) := Split(value, rt);
        (Node(l, v, p, a), b)
      else
        var (a, b) := Split(value, l);
        (a, Node(b, v, p, rt))
  }

  /** The two parts, read in order one after the other, are the original tree in order. */
  lemma {:induction false} SplitElems<A>(value: Key, t: Tree<A>)
    ensures Elems(Split(value, t).0) + Elems(Split(value, t).1) == Elems(t)
  {
    if t.Node? {
      if Less(t.value, value) {
        var (a, b) := Split(value, t.right);
        SplitElems(value, t.right);
        Associate(Elems(t.left) + [t.value], Elems(a), Elems(b));
      } else {
        var (a, b) := Split(value, t.left);
        SplitElems(value, t.left);
        Associate(Elems(a), Elems(b) + [t.value], Elems(t.right));
        Associate(Elems(a), Elems(b), [t.value]);
      }
    }
  }

  /** On a search tree the left part holds exactly the keys below value. */
  lemma {:induction false} SplitSides<A>(value: Key, t: Tree<A>)
    requires StrictlySorted(Elems(t))
    ensures AllLess(Elems(Split(value, t).0), value)
    ensures AllGreaterEq(Elems(Split(value, t).1), value)
  {
    if t.Node? {
      StrictlySortedNode(t);
      var (a, b) := Split(value, t);
      if Less(t.value, value) {
        SplitSides(value, t.right);
        BelowKey(Elems(t.left), t.value, value);
        assert Elems(a) == Elems(t.left) + [t.value] + Elems(Split(value, t.right).0);
      } else {
        SplitSides(value, t.left);
        NotLess(t.value, value);
        AboveOrAt(t.value, Elems(t.right), value);
        assert Elems(b) == Elems(Split(value, t.left).1) + [t.value] + Elems(t.right);
      }
    }
  }

  /** Keys above k, which is itself not below x, are not below x. */
  lemma AboveOrAt(k: Key, r: seq<Key>, x: Key)
    requires AllGreater(r, k) && LessEq(x, k)
    ensures AllGreaterEq(r, x)
  {
    forall y | y in r ensures LessEq(x, y) {
      if x != k {
        LessTransitive(x, k, y);
      }
    }
  }

  /**
   * The path from the root to the place a descent's `parent_place` points
   * at: each step remembers the node passed and the subtree on the side not
   * taken.
   */
  datatype Hole<A> =
    | AtRoot
    | WentLeft(up: Hole<A>, value: Key, ann: A, right: Tree<A>)
    | WentRight(left: Tree<A>, value: Key, ann: A, up: Hole<A>)

  /** The whole tree with t written into the place. */
  function Fill<A>(path: Hole<A>, t: Tree<A>): Tree<A>
  {
    match path
    case AtRoot => t
    case WentLeft(up, v, p, r) => Fill(up, Node(t, v, p, r))
    case WentRight(l, v, p, up) => Fill(up, Node(l, v, p, t))
  }

  /** The keys in order before the place. */
  function KeysBefore<A>(path: Hole<A>): seq<Key>
  {
    match path
    case AtRoot => []
    case WentLeft(up, _, _, _) => KeysBefore(up)
    case WentRight(l, v, _, up) => KeysBefore(up) + Elems(l) + [v]
  }

  /** The keys in order after the place. */
  function KeysAfter<A>(path: Hole<A>): seq<Key>
  {
    match path
    case AtRoot => []
    case WentLeft(up, v, _, r) => [v] + Elems(r) + KeysAfter(up)
    case WentRight(_, _, _, up) => KeysAfter(up)
  }

  /** Plugging puts t between the keys before and after the place. */
  lemma {:induction false} FillElems<A>(path: Hole<A>, t: Tree<A>)
    ensures Elems(Fill(path, t)) == KeysBefore(path) + Elems(t) + KeysAfter(path)
  {
    match path
    case AtRoot =>
    case WentLeft(up, v, p, r) =>
      FillElems(up, Node(t, v, p, r));
      assert KeysAfter(path) == [v] + Elems(r) + KeysAfter(up);
      Associate(KeysBefore(up), Elems(t) + [v] + Elems(r), KeysAfter(up));
      Associate(Elems(t), [v] + Elems(r), KeysAfter(up));
      Associate(Elems(t), [v], Elems(r));
    case WentRight(l, v, p, up) =>
      FillElems(up, Node(l, v, p, t));
      assert KeysBefore(path) == KeysBefore(up) + Elems(l) + [v];
      Associate(KeysBefore(up), Elems(l) + [v], Elems(t));
      Associate(KeysBefore(up), Elems(l), [v]);
  }

  /**
   * One step of a descent past a node whose key is below value: the
   * node and its left subtree join the keys before the place.
   */
  lemma DescendRight<A>(path: Hole<A>, node: Tree<A>, value: Key)
    requires node.Node? && StrictlySorted(Elems(node)) && Less(node.value, value)
    requires AllLess(KeysBefore(path), value)
    ensures AllLess(KeysBefore(WentRight(node.left, node.value, node.ann, path)), value)
    ensures Fill(WentRight(node.left, node.value, node.ann, path), node.right) == Fill(path, node)
  {
    StrictlySortedNode(node);
    BelowKey(Elems(node.left), node.value, value);
  }

  /** The mirror step past a node whose key is not below value. */
  lemma DescendLeft<A>(path: Hole<A>, node: Tree<A>, value: Key)
    requires node.Node? && StrictlySorted(Elems(node)) && !Less(node.value, value)
    requires AllGreaterEq(KeysAfter(path), value)
    ensures AllGreaterEq(KeysAfter(WentLeft(path, node.value, node.ann, node.right)), value)
    ensures Fill(WentLeft(path, node.value, node.ann, node.right), node.left) == Fill(path, node)
  {
    StrictlySortedNode(node);
    NotLess(node.value, value);
    AboveOrAt(node.value, Elems(node.right), value);
  }

  /** The subtree at the place of a strictly sorted plugged tree is strictly sorted. */
  lemma FilledSorted<A>(path: Hole<A>, t: Tree<A>)
    requires StrictlySorted(Elems(Fill(path, t)))
    ensures StrictlySorted(Elems(t))
  {
    FillElems(path, t);
    StrictlySortedAround(KeysBefore(path), Elems(t), KeysAfter(path));
  }

  /** A key placed between the keys below it and the keys not below it lands where InsertAt puts it. */
  lemma InsertBetween(a: seq<Key>, b: seq<Key>, value: Key)
    requires AllLess(a, value) && AllGreaterEq(b, value)
    ensures a + [value] + b == InsertAt(a + b, CountLess(a + b, value), value)
  {
    assert a + [] == a;
    InsertWithin(a + b, a, [], b, value);
    assert InsertAt([], 0, value) == [value];
  }

  /** The new node with the two parts of a search tree as children holds its keys with value inserted. */
  lemma SplitInsert<A>(node: Tree<A>, value: Key, p: A)
    requires StrictlySorted(Elems(node))
    ensures var s := Elems(node);
      Elems(Node(Split(value, node).0, value, p, Split(value, node).1)) == InsertAt(s, CountLess(s, value), value)
  {
    var (a, b) := Split(value, node);
    SplitElems(value, node);
    SplitSides(value, node);
    InsertBetween(Elems(a), Elems(b), value);
  }

  /**
   * Writing the new node, with the two parts of the subtree it replaces as
   * its children, into the place inserts value in key order.
   */
  lemma FilledInOrder<A>(path: Hole<A>, node: Tree<A>, value: Key, p: A)
    requires StrictlySorted(Elems(node))
    requires AllLess(KeysBefore(path), value) && AllGreaterEq(KeysAfter(path), value)
    ensures var s := Elems(Fill(path, node));
      Elems(Fill(path, Node(Split(value, node).0, value, p, Split(value, node).1))) ==
        InsertAt(s, CountLess(s, value), value)
  {
    var n' := Node(Split(value, node).0, value, p, Split(value, node).1);
    SplitInsert(node, value, p);
    FillElems(path, node);
    FillElems(path, n');
    InsertWithin(Elems(Fill(path, node)), KeysBefore(path), Elems(node), KeysAfter(path), value);
  }

  /** A strict in-order walk: the keys before, then l, then x, then r. */
  lemma WalkParts(before: seq<Key>, l: seq<Key>, x: Key, r: seq<Key>)
    ensures StrictlySorted(before + (l + [x] + r)) <==>
      StrictlySorted(before + l) && StrictlySorted(Seen(LastOf(before + l)) + [x]) && StrictlySorted(Seen(Some(x)) + r)
    ensures LastOf(before + (l + [x] + r)) == LastOf(Seen(Some(x)) + r)
  {
    assert before + (l + [x] + r) == (before + l) + [x] + r;
    StrictlySortedWalk(before + l, x, r);
  }

  /** At a node whose key is below q, the lower bound lies in the right subtree. */
  lemma LowerBoundGoRight<A>(t: Tree<A>, q: Key)
    requires t.Node? && Sorted(Elems(t)) && Less(t.value, q)
    ensures Sorted(Elems(t.right))
    ensures LowerBound(Elems(t), q) == LowerBound(Elems(t.right), q)
  {
    SortedNode(t);
    var m := LowerBound(Elems(t.right), q);
    LowerBoundPastPivot(Elems(t.left), t.value, Elems(t.right), q, m);
    LowerBoundUnique(Elems(t), q, m, LowerBound(Elems(t), q));
  }

  /** At a node whose key is not below q, the lower bound is in the left subtree, or else the node. */
  lemma LowerBoundGoLeft<A>(t: Tree<A>, q: Key)
    requires t.Node? && Sorted(Elems(t)) && !Less(t.value, q)
    ensures Sorted(Elems(t.left))
    ensures LowerBound(Elems(t), q) == Combine(LowerBound(Elems(t.left), q), Some(t.value))
  {
    SortedNode(t);
    NotLess(t.value, q);
    var m := LowerBound(Elems(t.left), q);
    LowerBoundAtPivot(Elems(t.left), t.value, Elems(t.right), q, m);
    LowerBoundUnique(Elems(t), q, Combine(m, Some(t.value)), LowerBound(Elems(t), q));
  }

  /**
   * LowerBound: the smallest stored key not below q, found by one descent
   * that remembers the last node whose key was not below q.
   */
  method FindLowerBound<A>(root: Tree<A>, q: Key) returns (best: Option<Key>)
    requires Sorted(Elems(root))
    ensures best == LowerBound(Elems(root), q)
  {
    if root.Nil? {
      return None;
    }
    var node := root;
    best := if !Less(node.value, q) then Some(node.value) else None;
    if !Less(node.value, q) {
      LowerBoundGoLeft(node, q);
    }
    while node.Node?
      invariant Sorted(Elems(node))
      invariant LowerBound(Elems(root), q) == Combine(LowerBound(Elems(node), q), best)
      decreases node
    {
      if Less(node.value, q) {
        LowerBoundGoRight(node, q);
        node := node.right;
      } else {
        LowerBoundGoLeft(node, q);
        best := Some(node.value);
        node := node.left;
      }
    }
  }
}
