// Persistent AVL tree with immutable nodes (suffix-avl-persistent.cc).
//
// Every node field except the reference count is const, so a node is a value:
// the model represents nodes as `Tree<int>` values whose annotation is the
// stored height, and Insert builds a new path of nodes while sharing the
// untouched subtrees. The reference count is modelled on its own by
// `Counted`.

module PersistentAvl {
  import opened Keys
  import opened OrderedSet
  import opened BinaryTree

  /** A node pointer; `ann` is the node's stored height and Nil is null. */
  type AvlTree = Tree<int>

  /** Stored height, with 0 for null. */
  function HeightOf(t: AvlTree): int
  {
    if t.Nil? then 0 else t.ann
  }

  /** Height of the right side minus height of the left side. */
  function BalanceOf(left: AvlTree, right: AvlTree): int
  {
    HeightOf(right) - HeightOf(left)
  }

  /** Every stored height is exact and every node's balance lies in [-1, 1]. */
  predicate Avl(t: AvlTree)
  {
    match t
    case Nil => true
    case Node(l, _, h, r) =>
      Avl(l) && Avl(r) && h == Max(HeightOf(l), HeightOf(r)) + 1 && -1 <= BalanceOf(l, r) <= 1
  }

  /** In an AVL tree the stored height is the true height. */
  lemma {:induction false} AvlHeightExact(t: AvlTree)
    requires Avl(t)
    ensures HeightOf(t) == Height(t)
  {
    if t.Node? {
      AvlHeightExact(t.left);
      AvlHeightExact(t.right);
    }
  }

  /** Heights in an AVL tree are never negative; a node's is at least 1. */
  lemma AvlHeights(t: AvlTree)
    requires Avl(t)
    ensures HeightOf(t) >= 0
    ensures t.Node? ==> HeightOf(t) >= 1 && HeightOf(t.left) >= 0 && HeightOf(t.right) >= 0
  {
    AvlHeightExact(t);
    if t.Node? {
      AvlHeightExact(t.left);
      AvlHeightExact(t.right);
    }
  }

  /** The leaf constructor Node(value). */
  function MakeLeaf(v: Key): (t: AvlTree)
    ensures Avl(t) && Elems(t) == [v] && HeightOf(t) == 1
  {
    Node(Nil, v, 1, Nil)
  }

  /** The constructor Node(left, value, right); its assert becomes the precondition. */
  function MakeNode(l: AvlTree, v: Key, r: AvlTree): (t: AvlTree)
    requires -1 <= BalanceOf(l, r) <= 1
    ensures Avl(l) && Avl(r) ==> Avl(t)
    ensures Elems(t) == Elems(l) + [v] + Elems(r)
    ensures HeightOf(t) == Max(HeightOf(l), HeightOf(r)) + 1
  {
    Node(l, v, Max(HeightOf(l), HeightOf(r)) + 1, r)
  }

  /** The `(balance & 3) == 2` test; on two's complement ints `& 3` is the Euclidean `% 4`. */
  predicate IsImbalanced(balance: int)
  {
    balance % 4 == 2
  }

  /** For balances that can occur, the bit test singles out exactly -2 and 2. */
  lemma ImbalanceTest(balance: int)
    requires -2 <= balance <= 2
    ensures IsImbalanced(balance) <==> (balance == -2 || balance == 2)
  {
  }

  /** A strictly sorted subtree: its children's root keys straddle its own. */
  predicate RootOrdered(t: AvlTree)
  {
    t.Node? ==>
      (t.left.Nil? || Less(t.left.value, t.value)) &&
      (t.right.Nil? || Less(t.value, t.right.value))
  }

  /**
   * mk3's assertions (the root keys of the pieces are in order) and the
   * heights that keep both new nodes and the new root within balance.
   */
  predicate Mk3Fits(a: AvlTree, k1: Key, b: AvlTree, k2: Key, c: AvlTree, k3: Key, d: AvlTree)
  {
    (a.Nil? || Less(a.value, k1)) && Less(k1, k2) && (b.Nil? || Less(b.value, k2)) &&
    Less(k2, k3) && (c.Nil? || Less(c.value, k3)) && (d.Nil? || Less(k3, d.value)) &&
    -1 <= BalanceOf(a, b) <= 1 && -1 <= BalanceOf(c, d) <= 1 &&
    -1 <= Max(HeightOf(c), HeightOf(d)) - Max(HeightOf(a), HeightOf(b)) <= 1
  }

  /** mk2's assertions and the heights that keep both new nodes within balance. */
  predicate Mk2Fits(a: AvlTree, k1: Key, b: AvlTree, k2: Key, c: AvlTree, rootAtK1: bool)
  {
    (a.Nil? || Less(a.value, k1)) && Less(k1, k2) && (b.Nil? || Less(b.value, k2)) &&
    (c.Nil? || Less(k2, c.value)) &&
    (rootAtK1 ==> -1 <= BalanceOf(b, c) <= 1 && -1 <= Max(HeightOf(b), HeightOf(c)) + 1 - HeightOf(a) <= 1) &&
    (!rootAtK1 ==> -1 <= BalanceOf(a, b) <= 1 && -1 <= HeightOf(c) - Max(HeightOf(a), HeightOf(b)) - 1 <= 1)
  }

  /**
   * mk3: four subtrees and three keys, in order, rebuilt as a perfect
   * two-level shape rooted at k2.
   */
  function Mk3(a: AvlTree, k1: Key, b: AvlTree, k2: Key, c: AvlTree, k3: Key, d: AvlTree): (t: AvlTree)
    requires Mk3Fits(a, k1, b, k2, c, k3, d)
    ensures Elems(t) == Elems(a) + [k1] + Elems(b) + [k2] + Elems(c) + [k3] + Elems(d)
    ensures t.Node? && t.value == k2
    ensures Avl(a) && Avl(b) && Avl(c) && Avl(d) ==> Avl(t)
    ensures HeightOf(t) == Max(Max(HeightOf(a), HeightOf(b)), Max(HeightOf(c), HeightOf(d))) + 2
  {
    MakeNode(MakeNode(a, k1, b), k2, MakeNode(c, k3, d))
  }

  /** mk2: three subtrees and two keys, rooted at k1 or at k2. */
  function Mk2(a: AvlTree, k1: Key, b: AvlTree, k2: Key, c: AvlTree, rootAtK1: bool): (t: AvlTree)
    requires Mk2Fits(a, k1, b, k2, c, rootAtK1)
    ensures Elems(t) == Elems(a) + [k1] + Elems(b) + [k2] + Elems(c)
    ensures t.Node? && t.value == (if rootAtK1 then k1 else k2)
    ensures Avl(a) && Avl(b) && Avl(c) ==> Avl(t)
    ensures rootAtK1 ==> HeightOf(t) == Max(HeightOf(a), Max(HeightOf(b), HeightOf(c)) + 1) + 1
    ensures !rootAtK1 ==> HeightOf(t) == Max(Max(HeightOf(a), HeightOf(b)) + 1, HeightOf(c)) + 1
  {
    if rootAtK1 then MakeNode(a, k1, MakeNode(b, k2, c))
    else MakeNode(MakeNode(a, k1, b), k2, c)
  }

  /** Root keys of a strictly sorted tree are ordered against their children. */
  lemma StrictlySortedRootOrdered(t: AvlTree)
    requires StrictlySorted(Elems(t))
    ensures RootOrdered(t)
    ensures t.Node? ==> StrictlySorted(Elems(t.left)) && StrictlySorted(Elems(t.right))
    ensures t.Node? ==> AllLess(Elems(t.left), t.value) && AllGreater(Elems(t.right), t.value)
  {
    if t.Node? {
      StrictlySortedNode(t);
      if t.left.Node? { assert t.left.value in Elems(t.left); }
      if t.right.Node? { assert t.right.value in Elems(t.right); }
    }
  }

  /**
   * The key comparisons the rotations' assertions check (mk3 and mk2 assert
   * that the root keys of the pieces are in order), for both children down
   * two levels.
   */
  predicate RotationOrdered(l: AvlTree, v: Key, r: AvlTree)
  {
    RootOrdered(l) && RootOrdered(r) &&
    (l.Node? ==> RootOrdered(l.left) && RootOrdered(l.right) && Less(l.value, v)) &&
    (l.Node? && l.right.Node? ==>
      Less(l.right.value, v) && (l.right.right.Nil? || Less(l.right.right.value, v)) &&
      (l.right.left.Nil? || Less(l.value, l.right.left.value))) &&
    (r.Node? ==> RootOrdered(r.left) && RootOrdered(r.right) && Less(v, r.value)) &&
    (r.Node? && r.left.Node? ==>
      Less(v, r.left.value) && (r.left.left.Nil? || Less(v, r.left.left.value)) &&
      (r.left.right.Nil? || Less(r.left.right.value, r.value)))
  }

  /** A strictly sorted in-order sequence passes every rotation assertion. */
  lemma SlowPathOrder(l: AvlTree, v: Key, r: AvlTree)
    requires StrictlySorted(Elems(l) + [v] + Elems(r))
    ensures RotationOrdered(l, v, r)
  {
    StrictlySortedParts(Elems(l), v, Elems(r));
    StrictlySortedRootOrdered(l);
    StrictlySortedRootOrdered(r);
    if l.Node? {
      assert l.value in Elems(l);
      StrictlySortedRootOrdered(l.left);
      StrictlySortedRootOrdered(l.right);
      if l.right.Node? {
        assert l.right.value in Elems(l);
        if l.right.right.Node? {
          assert l.right.right.value in Elems(l.right);
        }
        if l.right.left.Node? {
          assert l.right.left.value in Elems(l.right);
        }
      }
    }
    if r.Node? {
      assert r.value in Elems(r);
      StrictlySortedRootOrdered(r.left);
      StrictlySortedRootOrdered(r.right);
      if r.left.Node? {
        assert r.left.value in Elems(r);
        if r.left.left.Node? {
          assert r.left.left.value in Elems(r.left);
        }
        if r.left.right.Node? {
          assert r.left.right.value in Elems(r.left);
        }
      }
    }
  }

  /** What the slow path promises: a valid tree with the same keys, at most one level taller. */
  predicate Rebalanced(l: AvlTree, v: Key, r: AvlTree, t: AvlTree)
  {
    Avl(t) && t.Node? && Elems(t) == Elems(l) + [v] + Elems(r) &&
    Max(HeightOf(l), HeightOf(r)) <= HeightOf(t) <= Max(HeightOf(l), HeightOf(r)) + 1
  }

  /** Left-heavy, left child leaning right: double rotation lifting the left-right grandchild. */
  lemma LeftInnerCase(l: AvlTree, v: Key, r: AvlTree)
    requires Avl(l) && Avl(r) && BalanceOf(l, r) == -2 && RotationOrdered(l, v, r)
    requires l.Node? && BalanceOf(l.left, l.right) == 1
    ensures l.right.Node?
    ensures Mk3Fits(l.left, l.value, l.right.left, l.right.value, l.right.right, v, r)
    ensures Rebalanced(l, v, r, Mk3(l.left, l.value, l.right.left, l.right.value, l.right.right, v, r))
  {
    AvlHeights(l);
    AvlHeights(r);
    var lr := l.right;
    AvlHeights(lr);
    RegroupInner(Elems(l.left), l.value, Elems(lr.left), lr.value, Elems(lr.right), v, Elems(r));
  }

  /** Left-heavy otherwise: single rotation lifting the left child. */
  lemma LeftOuterCase(l: AvlTree, v: Key, r: AvlTree)
    requires Avl(l) && Avl(r) && BalanceOf(l, r) == -2 && RotationOrdered(l, v, r)
    requires l.Node? && BalanceOf(l.left, l.right) != 1
    ensures Mk2Fits(l.left, l.value, l.right, v, r, true)
    ensures Rebalanced(l, v, r, Mk2(l.left, l.value, l.right, v, r, true))
  {
    AvlHeights(l);
    AvlHeights(r);
  }

  /** Right-heavy, right child leaning left: double rotation lifting the right-left grandchild. */
  lemma RightInnerCase(l: AvlTree, v: Key, r: AvlTree)
    requires Avl(l) && Avl(r) && BalanceOf(l, r) == 2 && RotationOrdered(l, v, r)
    requires r.Node? && BalanceOf(r.left, r.right) == -1
    ensures r.left.Node?
    ensures Mk3Fits(l, v, r.left.left, r.left.value, r.left.right, r.value, r.right)
    ensures Rebalanced(l, v, r, Mk3(l, v, r.left.left, r.left.value, r.left.right, r.value, r.right))
  {
    AvlHeights(l);
    AvlHeights(r);
    var rl := r.left;
    AvlHeights(rl);
    RegroupInner(Elems(l), v, Elems(rl.left), rl.value, Elems(rl.right), r.value, Elems(r.right));
  }

  /** Right-heavy otherwise: single rotation lifting the right child. */
  lemma RightOuterCase(l: AvlTree, v: Key, r: AvlTree)
    requires Avl(l) && Avl(r) && BalanceOf(l, r) == 2 && RotationOrdered(l, v, r)
    requires r.Node? && BalanceOf(r.left, r.right) != -1
    ensures Mk2Fits(l, v, r.left, r.value, r.right, false)
    ensures Rebalanced(l, v, r, Mk2(l, v, r.left, r.value, r.right, false))
  {
    AvlHeights(l);
    AvlHeights(r);
    RegroupRight(Elems(l), v, Elems(r.left), r.value, Elems(r.right));
  }

  /**
   * The rotations. A left-heavy node (balance -2) uses a double rotation iff
   * the left child leans right (its balance is 1), making the left-right
   * grandchild the root; otherwise the left child becomes the root. The
   * right-heavy case is the mirror image.
   */
  function MakeAndRebalanceSlowPath(l: AvlTree, v: Key, r: AvlTree, balance: int): (t: AvlTree)
    requires balance == BalanceOf(l, r) && (balance == -2 || balance == 2)
    requires Avl(l) && Avl(r)
    requires RotationOrdered(l, v, r)
    ensures Rebalanced(l, v, r, t)
    ensures balance == -2 ==> l.Node?
    ensures balance == -2 && BalanceOf(l.left, l.right) == 1 ==> l.right.Node? && t.value == l.right.value
    ensures balance == -2 && BalanceOf(l.left, l.right) != 1 ==> t.value == l.value
    ensures balance == 2 ==> r.Node?
    ensures balance == 2 && BalanceOf(r.left, r.right) == -1 ==> r.left.Node? && t.value == r.left.value
    ensures balance == 2 && BalanceOf(r.left, r.right) != -1 ==> t.value == r.value
  {
    AvlHeights(l);
    AvlHeights(r);
    if balance == -2 then
      if BalanceOf(l.left, l.right) == 1 then
        LeftInnerCase(l, v, r);
        Mk3(l.left, l.value, l.right.left, l.right.value, l.right.right, v, r)
      else
        LeftOuterCase(l, v, r);
        Mk2(l.left, l.value, l.right, v, r, true)
    else
      if BalanceOf(r.left, r.right) == -1 then
        RightInnerCase(l, v, r);
        Mk3(l, v, r.left.left, r.left.value, r.left.right, r.value, r.right)
      else
        RightOuterCase(l, v, r);
        Mk2(l, v, r.left, r.value, r.right, false)
  }

  /**
   * Builds the node directly when the balance passes the bit test, and
   * through the rotations otherwise.
   */
  function MakeAndRebalance(l: AvlTree, v: Key, r: AvlTree): (t: AvlTree)
    requires Avl(l) && Avl(r) && -2 <= BalanceOf(l, r) <= 2
    requires IsImbalanced(BalanceOf(l, r)) ==> RotationOrdered(l, v, r)
    ensures Avl(t)
    ensures Elems(t) == Elems(l) + [v] + Elems(r)
    ensures !IsImbalanced(BalanceOf(l, r)) ==> t == Node(l, v, Max(HeightOf(l), HeightOf(r)) + 1, r)
    ensures -1 <= BalanceOf(l, r) <= 1 ==> HeightOf(t) == Max(HeightOf(l), HeightOf(r)) + 1
    ensures Max(HeightOf(l), HeightOf(r)) <= HeightOf(t) <= Max(HeightOf(l), HeightOf(r)) + 1
  {
    var balance := BalanceOf(l, r);
    ImbalanceTest(balance);
    if !IsImbalanced(balance) then MakeNode(l, v, r)
    else MakeAndRebalanceSlowPath(l, v, r, balance)
  }

  /** Height bookkeeping of one rebuilt node on the insertion path. */
  lemma RebuiltHeight(hl: int, hr: int, hl2: int, h: int)
    requires -1 <= hr - hl <= 1 && hl <= hl2 <= hl + 1
    requires Max(hl2, hr) <= h <= Max(hl2, hr) + 1
    requires -1 <= hr - hl2 <= 1 ==> h == Max(hl2, hr) + 1
    ensures Max(hl, hr) + 1 <= h <= Max(hl, hr) + 2
    ensures -2 <= hr - hl2 <= 2
  {
  }

  /** The mirror image of RebuiltHeight, for a grown right subtree. */
  lemma RebuiltHeightRight(hl: int, hr: int, hr2: int, h: int)
    requires -1 <= hr - hl <= 1 && hr <= hr2 <= hr + 1
    requires Max(hl, hr2) <= h <= Max(hl, hr2) + 1
    requires -1 <= hr2 - hl <= 1 ==> h == Max(hl, hr2) + 1
    ensures Max(hl, hr) + 1 <= h <= Max(hl, hr) + 2
    ensures -2 <= hr2 - hl <= 2
  {
  }

  /** The children of a node on the insertion path satisfy Insert's precondition. */
  lemma InsertDescends(t: AvlTree, v: Key)
    requires t.Node? && Avl(t) && StrictlySorted(Elems(t)) && v !in Elems(t)
    ensures Avl(t.left) && StrictlySorted(Elems(t.left)) && v !in Elems(t.left)
    ensures Avl(t.right) && StrictlySorted(Elems(t.right)) && v !in Elems(t.right)
    ensures v != t.value
  {
    StrictlySortedNode(t);
  }

  /** Growing the left part of a strictly sorted l + [x] + r by one key below x keeps it strictly sorted. */
  lemma GrowLeftPart(l: seq<Key>, x: Key, r: seq<Key>, v: Key, l2: seq<Key>)
    requires StrictlySorted(l + [x] + r) && Less(v, x)
    requires StrictlySorted(l2) && multiset(l2) == multiset(l) + multiset{v}
    ensures StrictlySorted(l2 + [x] + r)
    ensures multiset(l2 + [x] + r) == multiset(l + [x] + r) + multiset{v}
  {
    StrictlySortedParts(l, x, r);
    forall k | k in l2 ensures Less(k, x) {
      assert k in multiset(l2);
      if k != v {
        assert k in multiset(l);
      }
    }
    StrictlySortedJoin(l2, x, r);
  }

  /** Growing the right part by one key above x, likewise. */
  lemma GrowRightPart(l: seq<Key>, x: Key, r: seq<Key>, v: Key, r2: seq<Key>)
    requires StrictlySorted(l + [x] + r) && Less(x, v)
    requires StrictlySorted(r2) && multiset(r2) == multiset(r) + multiset{v}
    ensures StrictlySorted(l + [x] + r2)
    ensures multiset(l + [x] + r2) == multiset(l + [x] + r) + multiset{v}
  {
    StrictlySortedParts(l, x, r);
    forall k | k in r2 ensures Less(x, k) {
      assert k in multiset(r2);
      if k != v {
        assert k in multiset(r);
      }
    }
    StrictlySortedJoin(l, x, r2);
  }

  /** Rebuilding a node after inserting into its left subtree. */
  lemma RebuildLeft(t: AvlTree, v: Key, l2: AvlTree)
    requires t.Node? && Avl(t) && StrictlySorted(Elems(t)) && Less(v, t.value)
    requires Avl(l2) && StrictlySorted(Elems(l2))
    requires multiset(Elems(l2)) == multiset(Elems(t.left)) + multiset{v}
    requires HeightOf(t.left) <= HeightOf(l2) <= HeightOf(t.left) + 1
    ensures -2 <= BalanceOf(l2, t.right) <= 2 && RotationOrdered(l2, t.value, t.right)
    ensures var res := MakeAndRebalance(l2, t.value, t.right);
      Avl(res) && StrictlySorted(Elems(res)) &&
      multiset(Elems(res)) == multiset(Elems(t)) + multiset{v} &&
      HeightOf(t) <= HeightOf(res) <= HeightOf(t) + 1
  {
    var x, rr := t.value, t.right;
    GrowLeftPart(Elems(t.left), x, Elems(rr), v, Elems(l2));
    SlowPathOrder(l2, x, rr);
    var res := MakeAndRebalance(l2, x, rr);
    RebuiltHeight(HeightOf(t.left), HeightOf(rr), HeightOf(l2), HeightOf(res));
  }

  /** Rebuilding a node after inserting into its right subtree. */
  lemma RebuildRight(t: AvlTree, v: Key, r2: AvlTree)
    requires t.Node? && Avl(t) && StrictlySorted(Elems(t)) && Less(t.value, v)
    requires Avl(r2) && StrictlySorted(Elems(r2))
    requires multiset(Elems(r2)) == multiset(Elems(t.right)) + multiset{v}
    requires HeightOf(t.right) <= HeightOf(r2) <= HeightOf(t.right) + 1
    ensures -2 <= BalanceOf(t.left, r2) <= 2 && RotationOrdered(t.left, t.value, r2)
    ensures var res := MakeAndRebalance(t.left, t.value, r2);
      Avl(res) && StrictlySorted(Elems(res)) &&
      multiset(Elems(res)) == multiset(Elems(t)) + multiset{v} &&
      HeightOf(t) <= HeightOf(res) <= HeightOf(t) + 1
  {
    var l, x := t.left, t.value;
    GrowRightPart(Elems(l), x, Elems(t.right), v, Elems(r2));
    SlowPathOrder(l, x, r2);
    var res := MakeAndRebalance(l, x, r2);
    RebuiltHeightRight(HeightOf(l), HeightOf(t.right), HeightOf(r2), HeightOf(res));
  }

  /**
   * R::Rec: insert into a subtree, rebuilding the search path. A key below
   * the node's key descends left; any other key descends right.
   */
  function InsertRec(t: AvlTree, v: Key): (r: AvlTree)
    requires Avl(t) && StrictlySorted(Elems(t)) && v !in Elems(t)
    ensures Avl(r) && StrictlySorted(Elems(r))
    ensures multiset(Elems(r)) == multiset(Elems(t)) + multiset{v}
    ensures HeightOf(t) <= HeightOf(r) <= HeightOf(t) + 1
  {
    match t
    case Nil => MakeLeaf(v)
    case Node(l, x, _, rr) =>
      InsertDescends(t, v);
      if Less(v, x) then
        var l2 := InsertRec(l, v);
        RebuildLeft(t, v, l2);
        MakeAndRebalance(l2, x, rr)
      else
        Trichotomy(v, x);
        var r2 := InsertRec(rr, v);
        RebuildRight(t, v, r2);
        MakeAndRebalance(l, x, r2)
  }

  /** Insert places the key at its rank in the in-order sequence and changes nothing else. */
  lemma InsertRecElems(t: AvlTree, v: Key)
    requires Avl(t) && StrictlySorted(Elems(t)) && v !in Elems(t)
    ensures Elems(InsertRec(t, v)) == InsertAt(Elems(t), CountLess(Elems(t), v), v)
  {
    var s := Elems(t);
    InsertStrictlySorted(s, v);
    InsertAtMultiset(s, CountLess(s, v), v);
    StrictlySortedUnique(Elems(InsertRec(t, v)), InsertAt(s, CountLess(s, v), v));
  }

  /** Keys without repetition, as the driver inserts them (distinct suffixes). */
  predicate Distinct(keys: seq<Key>)
  {
    forall i, j :: 0 <= i < j < |keys| ==> keys[i] != keys[j]
  }

  /** The tree obtained by inserting keys in order into an empty tree. */
  function InsertAll(keys: seq<Key>): (t: AvlTree)
    requires Distinct(keys)
    ensures Avl(t) && StrictlySorted(Elems(t))
    ensures multiset(Elems(t)) == multiset(keys)
  {
    if |keys| == 0 then Nil
    else
      var init, last := keys[..|keys| - 1], keys[|keys| - 1];
      assert keys == init + [last];
      var t0 := InsertAll(init);
      assert last !in multiset(init);
      InsertRec(t0, last)
  }

  /** After any sequence of inserts the checks of Validate all pass. */
  lemma InsertAllValid(keys: seq<Key>)
    requires Distinct(keys)
    ensures Avl(InsertAll(keys)) && Sorted(Elems(InsertAll(keys)))
  {
    StrictlySortedIsSorted(Elems(InsertAll(keys)));
  }

  /**
   * A node's mutable reference count. IncRef and DecRef accept null (the
   * absent node); a node is deleted when its count drops to zero.
   */
  class Counted {
    var refcount: int
    var deleted: bool

    /** A fresh node starts with count 0 until a pointer takes hold of it. */
    constructor()
      ensures refcount == 0 && !deleted
    {
      refcount := 0;
      deleted := false;
    }

    static method IncRef(p: Counted?)
      requires p != null ==> !p.deleted
      modifies p
      ensures p != null ==> p.refcount == old(p.refcount) + 1 && !p.deleted
    {
      if p != null {
        p.refcount := p.refcount + 1;
      }
    }

    static method DecRef(p: Counted?)
      requires p != null ==> !p.deleted && p.refcount >= 1
      modifies p
      ensures p != null ==> p.refcount == old(p.refcount) - 1
      ensures p != null ==> (p.deleted <==> p.refcount == 0)
    {
      if p == null {
        return;
      }
      p.refcount := p.refcount - 1;
      if p.refcount == 0 {
        p.deleted := true;
      }
    }
  }

  /**
   * Validate's Checker: an in-order walk that remembers the previous key and
   * recomputes every height. A failed check (an abort in the source) makes
   * the walk return false at once.
   */
  class Checker {
    var prevSeen: Option<Key>

    constructor()
      ensures prevSeen == None
    {
      prevSeen := None;
    }

    /** Checks one subtree and returns its height. */
    method Rec(t: AvlTree) returns (h: int, ok: bool)
      modifies this
      decreases t
      ensures ok <==> Avl(t) && Sorted(Seen(old(prevSeen)) + Elems(t))
      ensures ok ==> h == HeightOf(t) && prevSeen == LastOf(Seen(old(prevSeen)) + Elems(t))
    {
      if t.Nil? {
        assert Seen(prevSeen) + Elems(t) == Seen(prevSeen);
        return 0, true;
      }
      SortedWalk(Seen(prevSeen), Elems(t.left), t.value, Elems(t.right));
      var leftHeight, leftOk := Rec(t.left);
      if !leftOk {
        return 0, false;
      }
      SeenNext(prevSeen, t.value);
      if prevSeen.Some? && Less(t.value, prevSeen.value) {
        return 0, false;
      }
      prevSeen := Some(t.value);
      var rightHeight, rightOk := Rec(t.right);
      if !rightOk {
        return 0, false;
      }
      var expectedHeight := Max(leftHeight, rightHeight) + 1;
      if expectedHeight != t.ann {
        return 0, false;
      }
      var balance := BalanceOf(t.left, t.right);
      if balance <= -2 || balance >= 2 {
        return 0, false;
      }
      return t.ann, true;
    }
  }

  /** DoValidate: the checks pass exactly on a height-balanced tree with nondecreasing in-order keys. */
  method DoValidate(t: AvlTree) returns (ok: bool, height: int)
    ensures ok <==> Avl(t) && Sorted(Elems(t))
    ensures ok ==> height == HeightOf(t)
  {
    var checker := new Checker();
    assert Seen(checker.prevSeen) + Elems(t) == Elems(t);
    height, ok := checker.Rec(t);
  }

  /** The tree handle: an optional root pointer, replaced wholesale by Insert. */
  class AVLTree {
    var root: AvlTree

    /** The invariant Insert keeps: balanced, with strictly increasing keys. */
    predicate Valid()
      reads this
    {
      Avl(root) && StrictlySorted(Elems(root))
    }

    constructor()
      ensures root == Nil && Valid()
    {
      root := Nil;
    }

    method Insert(value: Key)
      requires Valid() && value !in Elems(root)
      modifies this
      ensures Valid()
      ensures Elems(root) == InsertAt(old(Elems(root)), CountLess(old(Elems(root)), value), value)
    {
      InsertRecElems(root, value);
      if root.Nil? {
        root := MakeLeaf(value);
        return;
      }
      root := InsertRec(root, value);
    }

    method LowerBound(str: Key) returns (r: Option<Key>)
      requires Valid()
      ensures r == OrderedSet.LowerBound(Elems(root), str)
    {
      StrictlySortedIsSorted(Elems(root));
      r := FindLowerBound(root, str);
    }

    /** Validate: an empty tree passes trivially; otherwise DoValidate runs. */
    method Validate() returns (ok: bool)
      ensures ok <==> Avl(root) && Sorted(Elems(root))
    {
      if root.Nil? {
        return true;
      }
      var maxHeight;
      ok, maxHeight := DoValidate(root);
    }
  }
}
