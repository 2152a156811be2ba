// The splay tree of suffix-splay.cc: a plain binary search tree whose
// insertions bring the new key to the root, by a move-to-top split, by a
// top-down splay that also rotates zig-zig pairs, or not at all (the naive
// insert at the bottom). Nodes are values; the `Node**` places the source
// writes through become the parts a recursive function returns.

module SuffixSplay {
  import opened Keys
  import opened OrderedSet
  import opened BinaryTree

  type Tree = BinaryTree.Tree<()>

  // ----- SplitOp: split with zig-zig rotations -----

  /**
   * SplitOp::Rec: the nodes of t not above value and the nodes above it,
   * in order, where isLess is the caller's comparison of value with t's
   * key. When value and the next key down lie on the same side, that child
   * first rotates above its parent (the zig-zig step).
   */
  function SplitOp(value: Key, isLess: bool, t: Tree): (Tree, Tree)
    requires t.Node?
    decreases t, 0
  {
    if isLess then
      var l := t.left;
      if l.Node? && Less(value, l.value) then
        GoLeft(value, false, false, Node(l.left, l.value, (), Node(l.right, t.value, (), t.right)), l.left)
      else if l.Node? then
        GoLeft(value, true, false, t, l)
      else
        GoLeft(value, false, false, t, l)
    else
      var r := t.right;
      if r.Node? && Less(r.value, value) then
        GoRight(value, false, false, Node(Node(t.left, t.value, (), r.left), r.value, (), r.right), r.right)
      else if r.Node? then
        GoRight(value, true, true, t, r)
      else
        GoRight(value, false, false, t, r)
  }

  /**
   * GoLeft: root joins the part above value and the split goes on in its
   * left subtree l; known says whether the comparison with l's key was
   * already made, giving valueIsLess.
   */
  function GoLeft(value: Key, known: bool, valueIsLess: bool, root: Tree, l: Tree): (Tree, Tree)
    requires root.Node? && root.left == l && (known ==> l.Node?)
    decreases l, 1
  {
    if !known && l.Nil? then
      (Nil, Node(Nil, root.value, (), root.right))
    else
      var isLess := if known then valueIsLess else Less(value, l.value);
      var (a, b) := SplitOp(value, isLess, l);
      (a, Node(b, root.value, (), root.right))
  }

  /** GoRight: the mirror of GoLeft. */
  function GoRight(value: Key, known: bool, valueIsLess: bool, root: Tree, r: Tree): (Tree, Tree)
    requires root.Node? && root.right == r && (known ==> r.Node?)
    decreases r, 1
  {
    if !known && r.Nil? then
      (Node(root.left, root.value, (), Nil), Nil)
    else
      var isLess := if known then valueIsLess else Less(value, r.value);
      var (a, b) := SplitOp(value, isLess, r);
      (Node(root.left, root.value, (), a), b)
  }

  /** The zig-zig rotations keep the in-order: the two parts read together are t. */
  lemma {:induction false} SplitOpElems(value: Key, isLess: bool, t: Tree)
    requires t.Node?
    decreases t, 0
    ensures Elems(SplitOp(value, isLess, t).0) + Elems(SplitOp(value, isLess, t).1) == Elems(t)
  {
    if isLess {
      var l := t.left;
      if l.Node? && Less(value, l.value) {
        var top := Node(l.left, l.value, (), Node(l.right, t.value, (), t.right));
        GoLeftElems(value, false, false, top, l.left);
        RegroupInner(Elems(l.left), l.value, Elems(l.right), t.value, Elems(t.right), l.value, []);
        RotatedElems(l.left, l.value, l.right, t.value, t.right);
      } else if l.Node? {
        GoLeftElems(value, true, false, t, l);
      } else {
        GoLeftElems(value, false, false, t, l);
      }
    } else {
      var r := t.right;
      if r.Node? && Less(r.value, value) {
        var top := Node(Node(t.left, t.value, (), r.left), r.value, (), r.right);
        GoRightElems(value, false, false, top, r.right);
        RotatedElems(t.left, t.value, r.left, r.value, r.right);
      } else if r.Node? {
        GoRightElems(value, true, true, t, r);
      } else {
        GoRightElems(value, false, false, t, r);
      }
    }
  }

  /** A rotation between two nodes keeps the in-order. */
  lemma RotatedElems(a: Tree, x: Key, b: Tree, y: Key, c: Tree)
    ensures Elems(Node(Node(a, x, (), b), y, (), c)) == Elems(Node(a, x, (), Node(b, y, (), c)))
  {
    RegroupInner(Elems(a), x, Elems(b), y, Elems(c), y, []);
    RegroupRight(Elems(a), x, Elems(b), y, Elems(c));
  }

  lemma {:induction false} GoLeftElems(value: Key, known: bool, valueIsLess: bool, root: Tree, l: Tree)
    requires root.Node? && root.left == l && (known ==> l.Node?)
    decreases l, 1
    ensures Elems(GoLeft(value, known, valueIsLess, root, l).0) + Elems(GoLeft(value, known, valueIsLess, root, l).1) == Elems(root)
  {
    if known || l.Node? {
      var isLess := if known then valueIsLess else Less(value, l.value);
      var (a, b) := SplitOp(value, isLess, l);
      SplitOpElems(value, isLess, l);
      Associate(Elems(a), Elems(b) + [root.value], Elems(root.right));
      Associate(Elems(a), Elems(b), [root.value]);
    }
  }

  lemma {:induction false} GoRightElems(value: Key, known: bool, valueIsLess: bool, root: Tree, r: Tree)
    requires root.Node? && root.right == r && (known ==> r.Node?)
    decreases r, 1
    ensures Elems(GoRight(value, known, valueIsLess, root, r).0) + Elems(GoRight(value, known, valueIsLess, root, r).1) == Elems(root)
  {
    if known || r.Node? {
      var isLess := if known then valueIsLess else Less(value, r.value);
      var (a, b) := SplitOp(value, isLess, r);
      SplitOpElems(value, isLess, r);
      Associate(Elems(root.left) + [root.value], Elems(a), Elems(b));
    }
  }

  /**
   * On a search tree without value, given the right comparison with the
   * top key, the first part holds the keys below value and the second the
   * keys above it.
   */
  lemma {:induction false} SplitOpSides(value: Key, isLess: bool, t: Tree)
    requires t.Node? && StrictlySorted(Elems(t)) && value !in Elems(t)
    requires isLess == Less(value, t.value)
    decreases t, 0
    ensures AllLess(Elems(SplitOp(value, isLess, t).0), value)
    ensures AllGreater(Elems(SplitOp(value, isLess, t).1), value)
  {
    StrictlySortedNode(t);
    if isLess {
      var l := t.left;
      if l.Node? && Less(value, l.value) {
        var top := Node(l.left, l.value, (), Node(l.right, t.value, (), t.right));
        RotatedElems(l.left, l.value, l.right, t.value, t.right);
        GoLeftSides(value, false, false, top, l.left);
      } else if l.Node? {
        assert l.value in Elems(t);
        Trichotomy(value, l.value);
        GoLeftSides(value, true, false, t, l);
      } else {
        GoLeftSides(value, false, false, t, l);
      }
    } else {
      assert t.value in Elems(t);
      Trichotomy(value, t.value);
      var r := t.right;
      if r.Node? && Less(r.value, value) {
        var top := Node(Node(t.left, t.value, (), r.left), r.value, (), r.right);
        RotatedElems(t.left, t.value, r.left, r.value, r.right);
        GoRightSides(value, false, false, top, r.right);
      } else if r.Node? {
        assert r.value in Elems(t);
        Trichotomy(value, r.value);
        GoRightSides(value, true, true, t, r);
      } else {
        GoRightSides(value, false, false, t, r);
      }
    }
  }

  lemma {:induction false} GoLeftSides(value: Key, known: bool, valueIsLess: bool, root: Tree, l: Tree)
    requires root.Node? && root.left == l && (known ==> l.Node?)
    requires StrictlySorted(Elems(root)) && value !in Elems(root) && Less(value, root.value)
    requires known ==> valueIsLess == Less(value, l.value)
    decreases l, 1
    ensures AllLess(Elems(GoLeft(value, known, valueIsLess, root, l).0), value)
    ensures AllGreater(Elems(GoLeft(value, known, valueIsLess, root, l).1), value)
  {
    StrictlySortedNode(root);
    if known || l.Node? {
      var isLess := if known then valueIsLess else Less(value, l.value);
      var (a, b) := SplitOp(value, isLess, l);
      SplitOpSides(value, isLess, l);
      GreaterParts(Elems(b), root.value, Elems(root.right), value);
    } else {
      GreaterParts([], root.value, Elems(root.right), value);
    }
  }

  lemma {:induction false} GoRightSides(value: Key, known: bool, valueIsLess: bool, root: Tree, r: Tree)
    requires root.Node? && root.right == r && (known ==> r.Node?)
    requires StrictlySorted(Elems(root)) && value !in Elems(root) && Less(root.value, value)
    requires known ==> valueIsLess == Less(value, r.value)
    decreases r, 1
    ensures AllLess(Elems(GoRight(value, known, valueIsLess, root, r).0), value)
    ensures AllGreater(Elems(GoRight(value, known, valueIsLess, root, r).1), value)
  {
    StrictlySortedNode(root);
    if known || r.Node? {
      var isLess := if known then valueIsLess else Less(value, r.value);
      var (a, b) := SplitOp(value, isLess, r);
      SplitOpSides(value, isLess, r);
      LessParts(Elems(root.left), root.value, Elems(a), value);
    } else {
      LessParts(Elems(root.left), root.value, [], value);
    }
  }

  /** Keys above x, then k above x, then keys above k: all above x. */
  lemma GreaterParts(b: seq<Key>, k: Key, r: seq<Key>, x: Key)
    requires AllGreater(b, x) && Less(x, k) && AllGreater(r, k)
    ensures AllGreater(b + [k] + r, x)
  {
    forall y | y in b + [k] + r ensures Less(x, y) {
      if y in r {
        LessTransitive(x, k, y);
      }
    }
  }

  /** Keys below k, then k below x, then keys below x: all below x. */
  lemma LessParts(l: seq<Key>, k: Key, a: seq<Key>, x: Key)
    requires AllLess(l, k) && Less(k, x) && AllLess(a, x)
    ensures AllLess(l + [k] + a, x)
  {
    forall y | y in l + [k] + a ensures Less(y, x) {
      if y in l {
        LessTransitive(y, k, x);
      }
    }
  }

  // ----- LowerBound's split and RemoveRoot's join -----

  /** The leftmost key of t, and t without it: its right subtree moves into its place. */
  function DetachMin(t: Tree): (r: (Key, Tree))
    requires t.Node?
  {
    if t.left.Nil? then (t.value, t.right)
    else
      var (m, l) := DetachMin(t.left);
      (m, Node(l, t.value, (), t.right))
  }

  /** DetachMin takes the first key in order and keeps the rest in order. */
  lemma {:induction false} DetachMinElems(t: Tree)
    requires t.Node?
    ensures [DetachMin(t).0] + Elems(DetachMin(t).1) == Elems(t)
  {
    if t.left.Node? {
      var (m, l) := DetachMin(t.left);
      DetachMinElems(t.left);
      Associate([m], Elems(l), [t.value]);
      Associate([m], Elems(l) + [t.value], Elems(t.right));
    }
  }

  /** When no node goes to the part not below str, the split leaves the tree as it was. */
  lemma {:induction false} SplitAllBelow(str: Key, t: Tree)
    requires Split(str, t).1.Nil?
    ensures Split(str, t).0 == t
  {
    if t.Node? {
      SplitAllBelow(str, t.right);
    }
  }

  /** The lower bound of a + b, with a below q and b not, is b's first key. */
  lemma LowerBoundAtSeam(a: seq<Key>, b: seq<Key>, q: Key)
    requires Sorted(a + b) && AllLess(a, q) && AllGreaterEq(b, q)
    ensures OrderedSet.LowerBound(a + b, q) == if |b| > 0 then Some(b[0]) else None
  {
    assert a + b == a + [] + b;
    CountAround(a, [], b, q);
    assert CountLess([], q) == 0;
  }

  /**
   * Join::RecLeft: the left tree's root on top, its right subtree joined
   * with the right tree; Join::RecRight is the mirror.
   */
  function JoinLeft(l: Tree, r: Tree): Tree
    decreases |Elems(l)| + |Elems(r)|
  {
    if l.Nil? then r else Node(l.left, l.value, (), JoinRight(l.right, r))
  }

  function JoinRight(l: Tree, r: Tree): Tree
    decreases |Elems(l)| + |Elems(r)|
  {
    if r.Nil? then l else Node(JoinLeft(l, r.left), r.value, (), r.right)
  }

  /** Joining keeps the keys of both trees, left ones first. */
  lemma {:induction false} JoinLeftElems(l: Tree, r: Tree)
    decreases |Elems(l)| + |Elems(r)|
    ensures Elems(JoinLeft(l, r)) == Elems(l) + Elems(r)
  {
    if l.Node? {
      JoinRightElems(l.right, r);
      Associate(Elems(l.left) + [l.value], Elems(l.right), Elems(r));
    }
  }

  lemma {:induction false} JoinRightElems(l: Tree, r: Tree)
    decreases |Elems(l)| + |Elems(r)|
    ensures Elems(JoinRight(l, r)) == Elems(l) + Elems(r)
  {
    if r.Node? {
      JoinLeftElems(l, r.left);
      Associate(Elems(l), Elems(r.left), [r.value]);
      Associate(Elems(l), Elems(r.left) + [r.value], Elems(r.right));
    }
  }

  /** Dropping the root key of a strict search tree keeps the others, still strictly increasing. */
  lemma RootRemoved(t: Tree)
    requires t.Node? && StrictlySorted(Elems(t))
    ensures StrictlySorted(Elems(t.left) + Elems(t.right))
    ensures multiset(Elems(t.left) + Elems(t.right)) == multiset(Elems(t)) - multiset{t.value}
    ensures t.value !in Elems(t.left) + Elems(t.right)
  {
    StrictlySortedNode(t);
    var l, r := Elems(t.left), Elems(t.right);
    StrictlySortedConcatAround(l, t.value, r);
    forall k | k in l ensures k != t.value {
      LessIrreflexive(k);
    }
    forall k | k in r ensures k != t.value {
      LessIrreflexive(k);
    }
  }

  /** Keys below x followed by keys above x are strictly increasing when each run is. */
  lemma StrictlySortedConcatAround(l: seq<Key>, x: Key, r: seq<Key>)
    requires StrictlySorted(l) && StrictlySorted(r) && AllLess(l, x) && AllGreater(r, x)
    ensures StrictlySorted(l + r)
  {
    var s := l + r;
    forall i, j | 0 <= i < j < |s| ensures Less(s[i], s[j]) {
      if j < |l| {
        assert s[i] == l[i] && s[j] == l[j];
      } else if i >= |l| {
        assert s[i] == r[i - |l|] && s[j] == r[j - |l|];
      } else {
        assert s[i] in l && s[j] in r;
        LessTransitive(s[i], x, s[j]);
      }
    }
  }

  // ----- the splay tree -----

  class SplayTree {
    var root: Tree

    /** The search-tree order: in-order keys strictly increase. */
    ghost predicate Valid()
      reads this
    {
      StrictlySorted(Elems(root))
    }

    /** The keys of the tree, in order. */
    function Contents(): seq<Key>
      reads this
    {
      Elems(root)
    }

    constructor ()
      ensures root == Nil && Valid()
    {
      root := Nil;
    }

    /**
     * InsertMoveToTop: split the tree at value and make the new node the
     * root, the keys below value on its left and the others on its right.
     */
    method InsertMoveToTop(value: Key)
      requires Valid() && value !in Contents()
      modifies this
      ensures Valid()
      ensures Contents() == InsertAt(old(Contents()), CountLess(old(Contents()), value), value)
      ensures root.Node? && root.value == value
      ensures AllLess(Elems(root.left), value) && AllGreaterEq(Elems(root.right), value)
    {
      var (left, right) := Split(value, root);
      SplitSides(value, root);
      SplitInsert(root, value, ());
      InsertStrictlySorted(Elems(root), value);
      root := Node(left, value, (), right);
    }

    /** NonSplayUnbalancedInsert: descend to an empty place and hang the new leaf there. */
    method NonSplayUnbalancedInsert(value: Key)
      requires Valid() && value !in Contents()
      modifies this
      ensures Valid()
      ensures Contents() == InsertAt(old(Contents()), CountLess(old(Contents()), value), value)
    {
      var path: Hole<()> := AtRoot;
      var node := root;
      while node.Node?
        invariant root == old(root)
        invariant Fill(path, node) == root
        invariant AllLess(KeysBefore(path), value) && AllGreaterEq(KeysAfter(path), value)
        decreases node
      {
        FilledSorted(path, node);
        if Less(node.value, value) {
          DescendRight(path, node, value);
          path := WentRight(node.left, node.value, node.ann, path);
          node := node.right;
        } else {
          DescendLeft(path, node, value);
          path := WentLeft(path, node.value, node.ann, node.right);
          node := node.left;
        }
      }
      assert Split(value, node) == (Nil, Nil);
      FilledInOrder(path, node, value, ());
      InsertStrictlySorted(Elems(root), value);
      root := Fill(path, Node(Nil, value, (), Nil));
    }

    /**
     * Insert: the top-down splay. The tree is split at value with zig-zig
     * rotations on the way down, and the new node becomes the root over the
     * two parts.
     */
    method Insert(value: Key)
      requires Valid() && value !in Contents()
      modifies this
      ensures Valid()
      ensures Contents() == InsertAt(old(Contents()), CountLess(old(Contents()), value), value)
      ensures root.Node? && root.value == value
      ensures AllLess(Elems(root.left), value) && AllGreater(Elems(root.right), value)
    {
      var left: Tree, right: Tree := Nil, Nil;
      if root.Node? {
        var isLess := Less(value, root.value);
        left, right := SplitOp(value, isLess, root).0, SplitOp(value, isLess, root).1;
        SplitOpElems(value, isLess, root);
        SplitOpSides(value, isLess, root);
      }
      AboveIsNotBelow(Elems(right), value);
      InsertBetween(Elems(left), Elems(right), value);
      InsertStrictlySorted(Elems(root), value);
      root := Node(left, value, (), right);
    }

    /**
     * LowerBound: split the tree at str; the first key of the part not
     * below str is the answer, and its node becomes the root over the two
     * parts. When that part is empty the tree is left as it was.
     */
    method LowerBound(str: Key) returns (r: Option<Key>)
      requires Valid()
      modifies this
      ensures Valid() && Contents() == old(Contents())
      ensures r == OrderedSet.LowerBound(Contents(), str)
      ensures r.Some? ==> root.Node? && root.value == r.value
      ensures r.None? ==> root == old(root)
    {
      var (left, right) := Split(str, root);
      SplitElems(str, root);
      SplitSides(str, root);
      StrictlySortedIsSorted(Elems(root));
      LowerBoundAtSeam(Elems(left), Elems(right), str);
      if right.Nil? {
        SplitAllBelow(str, root);
        return None;
      }
      var (m, rest) := DetachMin(right);
      DetachMinElems(right);
      Associate(Elems(left), [m], Elems(rest));
      root := Node(left, m, (), rest);
      r := Some(m);
    }

    /** RemoveRoot: join the root's two subtrees in its place. */
    method RemoveRoot()
      requires Valid()
      modifies this
      ensures Valid()
      ensures old(root).Nil? ==> root == Nil
      ensures old(root).Node? ==> Contents() == Elems(old(root).left) + Elems(old(root).right)
      ensures old(root).Node? ==>
        multiset(Contents()) == multiset(old(Contents())) - multiset{old(root).value} &&
        old(root).value !in Contents()
    {
      if root.Nil? {
        return;
      }
      JoinLeftElems(root.left, root.right);
      RootRemoved(root);
      root := JoinLeft(root.left, root.right);
    }

    /**
     * Clear without recursion: a node whose left subtree is pending is
     * pushed on the parent chain (kept in its left link), and a node whose
     * left subtree is done is deleted before its right subtree is visited.
     */
    method Clear() returns (totalDeleted: nat, ghost deletedKeys: seq<Key>)
      modifies this
      ensures root == Nil
      ensures deletedKeys == old(Contents()) && totalDeleted == |deletedKeys|
    {
      totalDeleted, deletedKeys := 0, [];
      var n := root;
      var parents: seq<(Key, Tree)> := [];
      while true
        invariant deletedKeys + Elems(n) + Pending(parents) == old(Contents())
        invariant totalDeleted == |deletedKeys|
        decreases |Elems(n)| + |Pending(parents)|, |Elems(n)|
      {
        var next: Tree;
        if n.Nil? {
          if |parents| == 0 {
            break;
          }
          var (k, right) := parents[|parents| - 1];
          ghost var rest := Pending(parents[..|parents| - 1]);
          assert Pending(parents) == [k] + Elems(right) + rest;
          assert deletedKeys + Elems(n) == deletedKeys;
          Associate(deletedKeys, [k], Elems(right));
          Associate(deletedKeys, [k] + Elems(right), rest);
          parents := parents[..|parents| - 1];
          next := right;
          totalDeleted := totalDeleted + 1;
          deletedKeys := deletedKeys + [k];
        } else {
          ghost var rest := Pending(parents);
          PendingPush(parents, n.value, n.right);
          Associate(deletedKeys + Elems(n.left), [n.value], Elems(n.right));
          Associate(deletedKeys + Elems(n.left), [n.value] + Elems(n.right), rest);
          Associate(deletedKeys, Elems(n.left), [n.value] + Elems(n.right));
          next := n.left;
          parents := parents + [(n.value, n.right)];
        }
        n := next;
      }
      root := Nil;
    }
  }

  /** The keys still to delete above the current node: each parent's key, then its right subtree, innermost first. */
  function Pending(parents: seq<(Key, Tree)>): seq<Key>
  {
    if |parents| == 0 then []
    else
      var (k, r) := parents[|parents| - 1];
      [k] + Elems(r) + Pending(parents[..|parents| - 1])
  }

  /** Pushing a parent puts its key and right subtree in front of the keys pending before. */
  lemma PendingPush(parents: seq<(Key, Tree)>, k: Key, r: Tree)
    ensures Pending(parents + [(k, r)]) == [k] + Elems(r) + Pending(parents)
  {
    assert (parents + [(k, r)])[..|parents|] == parents;
  }

  /** Keys strictly above value are, in particular, not below it. */
  lemma AboveIsNotBelow(s: seq<Key>, value: Key)
    requires AllGreater(s, value)
    ensures AllGreaterEq(s, value)
  {
  }

  // ----- Validate -----

  /** Validate's Checker: an in-order walk remembering the last key seen. */
  class Checker {
    var prevSeen: Option<Key>

    constructor ()
      ensures prevSeen == None
    {
      prevSeen := None;
    }

    /**
     * Checks one subtree and returns its height: keys strictly increase
     * along the walk. The source aborts where this returns false.
     */
    method Rec(t: Tree) returns (h: int, ok: bool)
      modifies this
      decreases t
      ensures ok <==> StrictlySorted(Seen(old(prevSeen)) + Elems(t))
      ensures ok ==> h == Height(t) && prevSeen == LastOf(Seen(old(prevSeen)) + Elems(t))
    {
      if t.Nil? {
        assert Seen(prevSeen) + Elems(t) == Seen(prevSeen);
        return 0, true;
      }
      WalkParts(Seen(prevSeen), Elems(t.left), t.value, Elems(t.right));
      var leftHeight, leftOk := Rec(t.left);
      if !leftOk {
        return 0, false;
      }
      SeenBelow(prevSeen, t.value);
      if prevSeen.Some? && !Less(prevSeen.value, t.value) {
        return 0, false;
      }
      prevSeen := Some(t.value);
      var rightHeight, rightOk := Rec(t.right);
      if !rightOk {
        return 0, false;
      }
      return Max(leftHeight, rightHeight) + 1, true;
    }
  }

  /** Validate: the checks pass exactly when in-order keys strictly increase. */
  method Validate(t: Tree) returns (ok: bool)
    ensures ok <==> StrictlySorted(Elems(t))
  {
    var checker := new Checker();
    assert Seen(checker.prevSeen) + Elems(t) == Elems(t);
    var height;
    height, ok := checker.Rec(t);
  }
}
