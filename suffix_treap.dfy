// The treap of suffix-treap.cc: a binary search tree over the keys that is
// also a min-heap over random priorities drawn from a 48-bit linear
// congruential generator. Nodes are values; the `Node**` places the source
// rewires become a zipper that is plugged back together.

module SuffixTreap {
  import opened Keys
  import opened OrderedSet
  import opened BinaryTree

  // ----- the priority generator -----

  const Multiplier: nat := 0x5DEECE66D
  const Increment: nat := 0xB
  const Two48: nat := 0x1_0000_0000_0000
  const Two64: nat := 0x1_0000_0000_0000_0000

  /** Reducing modulo 2^64 first does not change the residue modulo 2^48. */
  lemma WrapKeepsLow(x: nat)
    ensures (x % Two64) % Two48 == x % Two48
  {
    var q := x / Two64;
    assert x == q * Two64 + x % Two64;
    assert q * Two64 == (q * 0x1_0000) * Two48;
  }

  /**
   * NextRandom on a uint64: the product wraps at 2^64, then the mask keeps
   * the low 48 bits.
   */
  function NextRandom(rnd: nat): (r: nat)
    requires rnd < Two64
    ensures r < Two48
  {
    ((Multiplier * rnd + Increment) % Two64) % Two48
  }

  /** The wrap-around at 2^64 is invisible: NextRandom is the 48-bit LCG step. */
  lemma NextRandomIsLcg(rnd: nat)
    requires rnd < Two64
    ensures NextRandom(rnd) == (Multiplier * rnd + Increment) % Two48
  {
    WrapKeepsLow(Multiplier * rnd + Increment);
  }

  /** The generator state the first node draws from: three steps from 0xbeefcafe. */
  const InitialState: nat := NextRandom(NextRandom(NextRandom(0xbeefcafe)))

  /** The static `rng` shared by every node: each new node advances it and takes its value. */
  class Rng {
    var state: nat

    constructor ()
      ensures state == InitialState
    {
      state := InitialState;
    }

    method Next() returns (p: nat)
      requires state < Two64
      modifies this
      ensures state == NextRandom(old(state)) && p == state
    {
      state := NextRandom(state);
      p := state;
    }
  }

  // ----- the heap order -----

  type Tree = BinaryTree.Tree<nat>

  /** A child, if present, has a larger priority than its parent p. */
  predicate AboveParent(c: Tree, p: nat)
  {
    c.Node? ==> c.ann > p
  }

  /** Every child has a larger priority than its parent. */
  predicate HeapOrdered(t: Tree)
  {
    match t
    case Nil => true
    case Node(l, _, p, r) => HeapOrdered(l) && HeapOrdered(r) && AboveParent(l, p) && AboveParent(r, p)
  }

  /** Every node of t has a priority above p. */
  predicate AllAbove(t: Tree, p: nat)
  {
    match t
    case Nil => true
    case Node(l, _, q, r) => q > p && AllAbove(l, p) && AllAbove(r, p)
  }

  /** The priorities stored in t. */
  function Priorities(t: Tree): set<nat>
  {
    match t
    case Nil => {}
    case Node(l, _, p, r) => Priorities(l) + {p} + Priorities(r)
  }

  /** The (key, priority) pairs stored in t. */
  function Entries(t: Tree): multiset<(Key, nat)>
  {
    match t
    case Nil => multiset{}
    case Node(l, v, p, r) => Entries(l) + multiset{(v, p)} + Entries(r)
  }

  /** In a heap-ordered tree whose root lies above p, every node lies above p. */
  lemma {:induction false} HeapAbove(t: Tree, p: nat)
    requires HeapOrdered(t) && AboveParent(t, p)
    ensures AllAbove(t, p)
  {
    if t.Node? {
      HeapAbove(t.left, t.ann);
      HeapAbove(t.right, t.ann);
      AllAboveWeaker(t.left, t.ann, p);
      AllAboveWeaker(t.right, t.ann, p);
    }
  }

  lemma {:induction false} AllAboveWeaker(t: Tree, q: nat, p: nat)
    requires AllAbove(t, q) && p <= q
    ensures AllAbove(t, p)
  {
    if t.Node? {
      AllAboveWeaker(t.left, q, p);
      AllAboveWeaker(t.right, q, p);
    }
  }

  // ----- Split::Rec and the place Insert writes to -----

  /** Split loses and duplicates no node. */
  lemma {:induction false} SplitEntries(value: Key, t: Tree)
    ensures Entries(Split(value, t).0) + Entries(Split(value, t).1) == Entries(t)
  {
    if t.Node? {
      if Less(t.value, value) {
        var (a, b) := Split(value, t.right);
        SplitEntries(value, t.right);
        assert Split(value, t) == (Node(t.left, t.value, t.ann, a), b);
      } else {
        var (a, b) := Split(value, t.left);
        SplitEntries(value, t.left);
        assert Split(value, t) == (a, Node(b, t.value, t.ann, t.right));
      }
    }
  }

  /** Both parts of a heap-ordered tree are heap-ordered, and keep any lower bound on priorities. */
  lemma {:induction false} SplitHeap(value: Key, t: Tree, p: nat)
    requires HeapOrdered(t) && AllAbove(t, p)
    ensures HeapOrdered(Split(value, t).0) && HeapOrdered(Split(value, t).1)
    ensures AllAbove(Split(value, t).0, p) && AllAbove(Split(value, t).1, p)
  {
    if t.Node? {
      if Less(t.value, value) {
        HeapAbove(t.right, t.ann);
        SplitHeap(value, t.right, p);
        SplitHeap(value, t.right, t.ann);
      } else {
        HeapAbove(t.left, t.ann);
        SplitHeap(value, t.left, p);
        SplitHeap(value, t.left, t.ann);
      }
    }
  }

  /** The entries outside the place. */
  function Outside(path: Hole<nat>): multiset<(Key, nat)>
  {
    match path
    case AtRoot => multiset{}
    case WentLeft(up, v, p, r) => Outside(up) + multiset{(v, p)} + Entries(r)
    case WentRight(l, v, p, up) => Outside(up) + Entries(l) + multiset{(v, p)}
  }

  /**
   * The path is heap-ordered around its place: every sibling subtree hangs
   * correctly below its node and every node lies above the one before it.
   */
  predicate HeapHole(path: Hole<nat>)
  {
    match path
    case AtRoot => true
    case WentLeft(up, _, p, r) => HeapHole(up) && HeapOrdered(r) && AboveParent(r, p) && BelowPlace(up, p)
    case WentRight(l, _, p, up) => HeapHole(up) && HeapOrdered(l) && AboveParent(l, p) && BelowPlace(up, p)
  }

  /** A subtree with root priority p may sit in the place. */
  predicate BelowPlace(path: Hole<nat>, p: nat)
  {
    !path.AtRoot? ==> p > path.ann
  }

  /** Plugging adds t's entries to those outside the place. */
  lemma {:induction false} FillEntries(path: Hole<nat>, t: Tree)
    ensures Entries(Fill(path, t)) == Outside(path) + Entries(t)
  {
    match path
    case AtRoot =>
    case WentLeft(up, v, p, r) =>
      FillEntries(up, Node(t, v, p, r));
    case WentRight(l, v, p, up) =>
      FillEntries(up, Node(l, v, p, t));
  }

  /** The plugged tree is heap-ordered exactly when the path is, t is, and t fits the place. */
  lemma {:induction false} FillHeap(path: Hole<nat>, t: Tree)
    ensures HeapOrdered(Fill(path, t)) <==> HeapHole(path) && HeapOrdered(t) && (t.Node? ==> BelowPlace(path, t.ann))
  {
    match path
    case AtRoot =>
    case WentLeft(up, v, p, r) =>
      FillHeap(up, Node(t, v, p, r));
    case WentRight(l, v, p, up) =>
      FillHeap(up, Node(l, v, p, t));
  }

  /** The node just above the place is stored in the tree. */
  lemma {:induction false} PlacePriority(path: Hole<nat>, t: Tree)
    requires !path.AtRoot?
    ensures path.ann in Priorities(Fill(path, t))
  {
    match path
    case WentLeft(up, v, p, r) =>
      PriorityKept(up, Node(t, v, p, r), p);
    case WentRight(l, v, p, up) =>
      PriorityKept(up, Node(l, v, p, t), p);
  }

  lemma {:induction false} PriorityKept(path: Hole<nat>, t: Tree, p: nat)
    requires p in Priorities(t)
    ensures p in Priorities(Fill(path, t))
  {
    match path
    case AtRoot =>
    case WentLeft(up, v, q, r) =>
      PriorityKept(up, Node(t, v, q, r), p);
    case WentRight(l, v, q, up) =>
      PriorityKept(up, Node(l, v, q, t), p);
  }

  /** Writing the new node into the place adds exactly its entry. */
  lemma PlacedEntries(path: Hole<nat>, node: Tree, value: Key, p: nat)
    ensures Entries(Fill(path, Node(Split(value, node).0, value, p, Split(value, node).1))) ==
      Entries(Fill(path, node)) + multiset{(value, p)}
  {
    SplitEntries(value, node);
    FillEntries(path, node);
    FillEntries(path, Node(Split(value, node).0, value, p, Split(value, node).1));
  }

  /**
   * The new node fits the place when every node passed had a priority below
   * p and the replaced subtree's nodes all lie above p.
   */
  lemma PlacedHeap(path: Hole<nat>, node: Tree, value: Key, p: nat)
    requires HeapOrdered(Fill(path, node))
    requires !path.AtRoot? ==> path.ann < p
    requires AboveParent(node, p)
    ensures HeapOrdered(Fill(path, Node(Split(value, node).0, value, p, Split(value, node).1)))
  {
    FillHeap(path, node);
    HeapAbove(node, p);
    SplitHeap(value, node, p);
    var (a, b) := Split(value, node);
    assert AboveParent(a, p) && AboveParent(b, p);
    FillHeap(path, Node(a, value, p, b));
  }

  // ----- the treap -----

  class Treap {
    var root: Tree

    /** The search-tree order: in-order keys strictly increase. */
    ghost predicate Valid()
      reads this
    {
      StrictlySorted(Elems(root))
    }

    /** The keys of the treap, in order. */
    function Contents(): seq<Key>
      reads this
    {
      Elems(root)
    }

    constructor ()
      ensures root == Nil && Valid() && HeapOrdered(root)
    {
      root := Nil;
    }

    /**
     * Insert a key that is not yet stored: descend while the nodes met have
     * priorities not above the new one, then write the new node there with
     * the split of the rest of the path's subtree as its children. The new
     * priority is the generator's next value; when it differs from every
     * stored priority the heap order is kept.
     */
    method Insert(value: Key, rng: Rng)
      requires Valid() && value !in Contents() && rng.state < Two64
      modifies this, rng
      ensures Valid()
      ensures Contents() == InsertAt(old(Contents()), CountLess(old(Contents()), value), value)
      ensures rng.state == NextRandom(old(rng.state))
      ensures Entries(root) == old(Entries(root)) + multiset{(value, rng.state)}
      ensures old(HeapOrdered(root)) && rng.state !in old(Priorities(root)) ==> HeapOrdered(root)
    {
      var priority := rng.Next();
      var path: Hole<nat> := AtRoot;
      var node := root;
      while node.Node?
        invariant root == old(root) && rng.state == priority
        invariant Fill(path, node) == old(root)
        invariant AllLess(KeysBefore(path), value) && AllGreaterEq(KeysAfter(path), value)
        invariant !path.AtRoot? ==> path.ann <= priority
        decreases node
      {
        if node.ann > priority {
          break;
        }
        FilledSorted(path, node);
        if Less(node.value, value) {
          DescendRight(path, node, value);
          path := WentRight(node.left, node.value, node.ann, path);
          node := node.right;
        } else {
          DescendLeft(path, node, value);
          path := WentLeft(path, node.value, node.ann, node.right);
          node := node.left;
        }
      }
      FilledSorted(path, node);
      var (left, right) := Split(value, node);
      FilledInOrder(path, node, value, priority);
      PlacedEntries(path, node, value, priority);
      InsertStrictlySorted(Elems(old(root)), value);
      if HeapOrdered(old(root)) && priority !in Priorities(old(root)) {
        if !path.AtRoot? {
          PlacePriority(path, node);
        }
        PlacedHeap(path, node, value, priority);
      }
      root := Fill(path, Node(left, value, priority, right));
    }

    /** LowerBound: the smallest stored key not below str, or None. */
    method LowerBound(str: Key) returns (r: Option<Key>)
      requires Valid()
      ensures r == OrderedSet.LowerBound(Contents(), str)
    {
      StrictlySortedIsSorted(Elems(root));
      r := FindLowerBound(root, str);
    }

    /** Clear: every node is deleted once, in key order, and the treap is left empty. */
    method Clear() returns (totalDeleted: nat, ghost deletedKeys: seq<Key>)
      modifies this
      ensures root == Nil
      ensures deletedKeys == old(Contents()) && totalDeleted == |deletedKeys|
    {
      var d := new Deleter();
      d.Rec(root);
      totalDeleted, deletedKeys := d.totalDeleted, d.deleted;
      root := Nil;
    }
  }

  /** Clear's Deleter: deletes left subtree, node, right subtree, counting the nodes. */
  class Deleter {
    var totalDeleted: nat
    ghost var deleted: seq<Key>

    constructor ()
      ensures totalDeleted == 0 && deleted == []
    {
      totalDeleted := 0;
      deleted := [];
    }

    method Rec(n: Tree)
      requires totalDeleted == |deleted|
      modifies this
      decreases n
      ensures deleted == old(deleted) + Elems(n) && totalDeleted == |deleted|
    {
      if n.Nil? {
        assert old(deleted) + Elems(n) == old(deleted);
        return;
      }
      Rec(n.left);
      var r := n.right;
      totalDeleted := totalDeleted + 1;
      deleted := deleted + [n.value];
      Rec(r);
      Associate(old(deleted), Elems(n.left) + [n.value], Elems(r));
      Associate(old(deleted), Elems(n.left), [n.value]);
    }
  }

  // ----- Validate -----

  /** Validate's Checker: an in-order walk remembering the last key seen. */
  class Checker {
    var prevSeen: Option<Key>

    constructor ()
      ensures prevSeen == None
    {
      prevSeen := None;
    }

    /**
     * Checks one subtree and returns its height: each child's priority is
     * above its parent's and keys strictly increase along the walk. The
     * source aborts where this returns false.
     */
    method Rec(t: Tree) returns (h: int, ok: bool)
      modifies this
      decreases t
      ensures ok <==> HeapOrdered(t) && StrictlySorted(Seen(old(prevSeen)) + Elems(t))
      ensures ok ==> h == Height(t) && prevSeen == LastOf(Seen(old(prevSeen)) + Elems(t))
    {
      if t.Nil? {
        assert Seen(prevSeen) + Elems(t) == Seen(prevSeen);
        return 0, true;
      }
      WalkParts(Seen(prevSeen), Elems(t.left), t.value, Elems(t.right));
      var leftHeight, leftOk := Rec(t.left);
      if !leftOk {
        return 0, false;
      }
      if !AboveParent(t.left, t.ann) || !AboveParent(t.right, t.ann) {
        return 0, false;
      }
      SeenBelow(prevSeen, t.value);
      if prevSeen.Some? && !Less(prevSeen.value, t.value) {
        return 0, false;
      }
      prevSeen := Some(t.value);
      var rightHeight, rightOk := Rec(t.right);
      if !rightOk {
        return 0, false;
      }
      return Max(leftHeight, rightHeight) + 1, true;
    }
  }

  /** Validate: the checks pass exactly when the treap is heap-ordered and a strict search tree. */
  method Validate(t: Tree) returns (ok: bool)
    ensures ok <==> HeapOrdered(t) && StrictlySorted(Elems(t))
  {
    var checker := new Checker();
    assert Seen(checker.prevSeen) + Elems(t) == Elems(t);
    var height;
    height, ok := checker.Rec(t);
  }
}
