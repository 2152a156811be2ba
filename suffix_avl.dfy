// AVL tree updated in place with per-node balance factors (suffix-avl.cc).
//
// The source rewires child pointers through a stack of incoming links
// (`tree_path::parents`). The model keeps the same cursor discipline with a
// zipper: `TreePath.parents` holds, for every node above the cursor, which
// side the path took, that node's key and balance, and the subtree on the
// other side; `TreePath.current` is the subtree under the cursor. Writing a
// node's balance or a child link in place becomes replacing `current`, and
// the whole tree is always `Plug(parents, current)`.

module InPlaceAvl {
  import opened Keys
  import opened OrderedSet
  import opened BinaryTree
  import opened Arith

  /** A node pointer; `ann` is the node's stored balance, Nil is null. */
  type BalTree = Tree<int>

  /** Capacity of the parents[] link stack. */
  const kMaxLevels: int := 104

  /** Every stored balance is the right height minus the left height. */
  predicate BalanceExact(t: BalTree)
  {
    match t
    case Nil => true
    case Node(l, _, b, r) => BalanceExact(l) && BalanceExact(r) && b == Height(r) - Height(l)
  }

  /** The AVL invariant: balances exact and within [-1, 1]. */
  predicate Balanced(t: BalTree)
  {
    match t
    case Nil => true
    case Node(l, _, b, r) =>
      Balanced(l) && Balanced(r) && b == Height(r) - Height(l) && -1 <= b <= 1
  }

  lemma BalancedIsExact(t: BalTree)
    requires Balanced(t)
    ensures BalanceExact(t)
  {
  }

  function Leaf(v: Key): (t: BalTree)
    ensures Balanced(t) && Elems(t) == [v] && Height(t) == 1
  {
    Node(Nil, v, 0, Nil)
  }

  /** Child idx of a node: 0 is the left child, anything else the right. */
  function Child(t: BalTree, idx: int): BalTree
    requires t.Node?
  {
    if idx == 0 then t.left else t.right
  }

  /** The node with child idx replaced. */
  function WithChild(t: BalTree, idx: int, c: BalTree): (r: BalTree)
    requires t.Node? && (idx == 0 || idx == 1)
    ensures r.Node? && r.value == t.value && r.ann == t.ann
    ensures Child(r, idx) == c && Child(r, 1 - idx) == Child(t, 1 - idx)
  {
    if idx == 0 then t.(left := c) else t.(right := c)
  }

  /** balance_towards: the balance seen from side idx (positive when that side is taller). */
  function BalanceTowards(n: BalTree, idx: int): (b: int)
    requires n.Node?
    ensures idx == 1 ==> b == n.ann
    ensures idx == 0 ==> b == -n.ann
  {
    if idx != 0 then n.ann else -n.ann
  }

  /** The change of a parent's balance when its side-idx subtree grows by one. */
  function Delta(idx: int): int
  {
    if idx != 0 then 1 else -1
  }

  /** is_imbalanced: the low two bits of the balance are 10. */
  predicate IsImbalanced(balance: int)
  {
    balance % 4 == 2
  }

  /** For balances the tree can reach, the bit test picks out exactly -2 and 2. */
  lemma ImbalanceTest(balance: int)
    requires -2 <= balance <= 2
    ensures IsImbalanced(balance) <==> (balance == -2 || balance == 2)
  {
  }

  // ----- rotations on a subtree value -----

  /**
   * swap_child: single rotation that lifts child idx. The result's second
   * component says whether the subtree height dropped.
   */
  function SingleRotation(t: BalTree, idx: int): (BalTree, bool)
    requires idx == 0 || idx == 1
    requires t.Node? && Child(t, idx).Node?
  {
    var c := Child(t, idx);
    var reduce := BalanceTowards(c, idx) == 1;
    var nb := if reduce then 0 else if idx == 1 then 1 else -1;
    var cb := if reduce then 0 else if idx == 1 then -1 else 1;
    if idx == 1 then
      (Node(Node(t.left, t.value, nb, c.left), c.value, cb, c.right), reduce)
    else
      (Node(c.left, c.value, cb, Node(c.right, t.value, nb, t.right)), reduce)
  }

  /** A node whose side idx is two levels taller, with balanced subtrees. */
  predicate HeavyTowards(t: BalTree, idx: int)
    requires idx == 0 || idx == 1
  {
    t.Node? && Balanced(t.left) && Balanced(t.right) &&
    t.ann == Height(t.right) - Height(t.left) && BalanceTowards(t, idx) == 2
  }

  lemma HeavyChild(t: BalTree, idx: int)
    requires idx == 0 || idx == 1
    requires HeavyTowards(t, idx)
    ensures Child(t, idx).Node? && Height(Child(t, idx)) == Height(Child(t, 1 - idx)) + 2
    ensures Height(t) == Height(Child(t, idx)) + 1
  {
  }

  /** swap_child keeps the in-order keys. */
  lemma SingleRotationElems(t: BalTree, idx: int)
    requires idx == 0 || idx == 1
    requires t.Node? && Child(t, idx).Node?
    ensures Elems(SingleRotation(t, idx).0) == Elems(t)
  {
    var c := Child(t, idx);
    if idx == 1 {
      assert Elems(t) == Elems(t.left) + [t.value] + (Elems(c.left) + [c.value] + Elems(c.right));
    } else {
      assert Elems(t) == (Elems(c.left) + [c.value] + Elems(c.right)) + [t.value] + Elems(t.right);
    }
  }

  /**
   * swap_child restores the AVL invariant; the height drops by one exactly
   * when the child leaned towards idx.
   */
  lemma SingleRotationBalanced(t: BalTree, idx: int)
    requires idx == 0 || idx == 1
    requires HeavyTowards(t, idx)
    requires Child(t, idx).Node? && BalanceTowards(Child(t, idx), idx) >= 0
    ensures var (r, reduce) := SingleRotation(t, idx);
      Balanced(r) &&
      (reduce <==> BalanceTowards(Child(t, idx), idx) == 1) &&
      Height(r) == (if reduce then Height(t) - 1 else Height(t))
  {
    HeavyChild(t, idx);
    var c := Child(t, idx);
    var o := Child(t, 1 - idx);
    var hO, hIn, hOut := Height(o), Height(Child(c, 1 - idx)), Height(Child(c, idx));
    assert Height(c) == Max(hIn, hOut) + 1 == hO + 2;
    assert Height(t) == hO + 3;
  }

  lemma SingleRotationCorrect(t: BalTree, idx: int)
    requires idx == 0 || idx == 1
    requires HeavyTowards(t, idx)
    requires Child(t, idx).Node? && BalanceTowards(Child(t, idx), idx) >= 0
    ensures var (r, reduce) := SingleRotation(t, idx);
      Balanced(r) && Elems(r) == Elems(t) &&
      (reduce <==> BalanceTowards(Child(t, idx), idx) == 1) &&
      Height(r) == (if reduce then Height(t) - 1 else Height(t))
  {
    SingleRotationElems(t, idx);
    SingleRotationBalanced(t, idx);
  }

  /** swap_grand_child: double rotation that lifts the inner grandchild on side idx. */
  function DoubleRotation(t: BalTree, idx: int): BalTree
    requires idx == 0 || idx == 1
    requires t.Node? && Child(t, idx).Node? && Child(Child(t, idx), 1 - idx).Node?
  {
    var n2 := Child(t, idx);
    var n21 := Child(n2, 1 - idx);
    var b := BalanceTowards(n21, idx);
    var nb := if b > 0 then (if idx == 1 then -1 else 1) else 0;
    var n2b := if b < 0 then (if idx == 1 then 1 else -1) else 0;
    if idx == 1 then
      Node(Node(t.left, t.value, nb, n21.left), n21.value, 0, Node(n21.right, n2.value, n2b, n2.right))
    else
      Node(Node(n2.left, n2.value, n2b, n21.left), n21.value, 0, Node(n21.right, t.value, nb, t.right))
  }

  lemma DoubleRotationElems(t: BalTree, idx: int)
    requires idx == 0 || idx == 1
    requires t.Node? && Child(t, idx).Node? && Child(Child(t, idx), 1 - idx).Node?
    ensures Elems(DoubleRotation(t, idx)) == Elems(t)
  {
    var n2 := Child(t, idx);
    var n21 := Child(n2, 1 - idx);
    assert Elems(n21) == Elems(n21.left) + [n21.value] + Elems(n21.right);
    if idx == 1 {
      RegroupInner(Elems(t.left), t.value, Elems(n21.left), n21.value, Elems(n21.right), n2.value, Elems(n2.right));
    } else {
      RegroupInner(Elems(n2.left), n2.value, Elems(n21.left), n21.value, Elems(n21.right), t.value, Elems(t.right));
    }
  }

  lemma DoubleRotationBalanced(t: BalTree, idx: int)
    requires idx == 0 || idx == 1
    requires HeavyTowards(t, idx)
    requires Child(t, idx).Node? && BalanceTowards(Child(t, idx), idx) < 0
    ensures Child(Child(t, idx), 1 - idx).Node?
    ensures var r := DoubleRotation(t, idx);
      Balanced(r) && Height(r) == Height(t) - 1 && r.ann == 0
  {
    if idx == 1 {
      DoubleRotationRightBalanced(t);
    } else {
      DoubleRotationLeftBalanced(t);
    }
  }

  /** The right-heavy case of DoubleRotationBalanced. */
  lemma DoubleRotationRightBalanced(t: BalTree)
    requires HeavyTowards(t, 1)
    requires t.right.Node? && t.right.ann < 0
    ensures t.right.left.Node?
    ensures var r := DoubleRotation(t, 1);
      Balanced(r) && Height(r) == Height(t) - 1 && r.ann == 0
  {
    var n2 := t.right;
    var n21 := n2.left;
    var h := Height(t.left);
    assert Height(n2) == h + 2 && Height(n21) == h + 1 && Height(n2.right) == h;
    assert Balanced(n21) && Max(Height(n21.left), Height(n21.right)) == h;
    var r := DoubleRotation(t, 1);
    if n21.ann > 0 {
      assert Height(n21.left) == h - 1 && Height(n21.right) == h;
    } else if n21.ann < 0 {
      assert Height(n21.left) == h && Height(n21.right) == h - 1;
    } else {
      assert Height(n21.left) == h && Height(n21.right) == h;
    }
    assert Height(r.left) == h + 1 && Height(r.right) == h + 1;
  }

  /** The left-heavy case of DoubleRotationBalanced. */
  lemma DoubleRotationLeftBalanced(t: BalTree)
    requires HeavyTowards(t, 0)
    requires t.left.Node? && t.left.ann > 0
    ensures t.left.right.Node?
    ensures var r := DoubleRotation(t, 0);
      Balanced(r) && Height(r) == Height(t) - 1 && r.ann == 0
  {
    var n2 := t.left;
    var n21 := n2.right;
    var h := Height(t.right);
    assert Height(n2) == h + 2 && Height(n21) == h + 1 && Height(n2.left) == h;
    assert Balanced(n21) && Max(Height(n21.left), Height(n21.right)) == h;
    var r := DoubleRotation(t, 0);
    if n21.ann > 0 {
      assert Height(n21.left) == h - 1 && Height(n21.right) == h;
    } else if n21.ann < 0 {
      assert Height(n21.left) == h && Height(n21.right) == h - 1;
    } else {
      assert Height(n21.left) == h && Height(n21.right) == h;
    }
    assert Height(r.left) == h + 1 && Height(r.right) == h + 1;
  }

  /** swap_grand_child keeps the in-order keys, restores balance and always lowers the height. */
  lemma DoubleRotationCorrect(t: BalTree, idx: int)
    requires idx == 0 || idx == 1
    requires HeavyTowards(t, idx)
    requires Child(t, idx).Node? && BalanceTowards(Child(t, idx), idx) < 0
    ensures Child(Child(t, idx), 1 - idx).Node?
    ensures var r := DoubleRotation(t, idx);
      Balanced(r) && Elems(r) == Elems(t) && Height(r) == Height(t) - 1 && r.ann == 0
  {
    DoubleRotationBalanced(t, idx);
    DoubleRotationElems(t, idx);
  }

  // ----- the path of incoming links as a zipper -----

  /**
   * One entry of parents[] above the cursor: the side the path took (the
   * child index), the parent's key and balance, and the parent's other child.
   */
  datatype Frame = Frame(dir: int, value: Key, balance: int, sibling: BalTree)

  /** The link stack, innermost parent first; its depth is parents_idx. */
  datatype Path = Top | Below(frame: Frame, up: Path)

  function Depth(path: Path): nat
  {
    if path.Top? then 0 else Depth(path.up) + 1
  }

  /** The parent node rebuilt around the subtree c. */
  function Attach(f: Frame, c: BalTree): (r: BalTree)
    ensures r.Node? && r.value == f.value && r.ann == f.balance
  {
    if f.dir == 0 then Node(c, f.value, f.balance, f.sibling)
    else Node(f.sibling, f.value, f.balance, c)
  }

  /** The whole tree: the cursor's subtree with every frame above it reattached. */
  function Plug(path: Path, c: BalTree): BalTree
  {
    if path.Top? then c else Plug(path.up, Attach(path.frame, c))
  }

  /** Keys that lie before the cursor's subtree in in-order. */
  function Lefts(path: Path): seq<Key>
  {
    if path.Top? then []
    else
      var f := path.frame;
      Lefts(path.up) + (if f.dir == 0 then [] else Elems(f.sibling) + [f.value])
  }

  /** Keys that lie after the cursor's subtree in in-order. */
  function Rights(path: Path): seq<Key>
  {
    if path.Top? then []
    else
      var f := path.frame;
      (if f.dir == 0 then [f.value] + Elems(f.sibling) else []) + Rights(path.up)
  }

  /** The keys around a left (dir 0) or right (dir 1) attachment, regrouped. */
  lemma AttachElems(f: Frame, c: BalTree, L: seq<Key>, R: seq<Key>)
    ensures f.dir == 0 ==>
      L + Elems(Attach(f, c)) + R == L + Elems(c) + ([f.value] + Elems(f.sibling) + R)
    ensures f.dir != 0 ==>
      L + Elems(Attach(f, c)) + R == (L + Elems(f.sibling) + [f.value]) + Elems(c) + R
  {
    if f.dir == 0 {
      assert Elems(Attach(f, c)) == Elems(c) + [f.value] + Elems(f.sibling);
    } else {
      assert Elems(Attach(f, c)) == Elems(f.sibling) + [f.value] + Elems(c);
    }
  }

  /** The in-order keys of the whole tree around the cursor. */
  lemma {:induction false} PlugElems(path: Path, c: BalTree)
    ensures Elems(Plug(path, c)) == Lefts(path) + Elems(c) + Rights(path)
  {
    if path.Below? {
      PlugElems(path.up, Attach(path.frame, c));
      AttachElems(path.frame, c, Lefts(path.up), Rights(path.up));
    }
  }

  /** Replacing the cursor's subtree by one with the same keys keeps the whole tree's keys. */
  lemma PlugSameElems(path: Path, c1: BalTree, c2: BalTree)
    requires Elems(c1) == Elems(c2)
    ensures Elems(Plug(path, c1)) == Elems(Plug(path, c2))
  {
    PlugElems(path, c1);
    PlugElems(path, c2);
  }

  /** The tree is at least as tall as the cursor's depth plus its subtree's height. */
  lemma {:induction false} PlugHeight(path: Path, c: BalTree)
    ensures Height(Plug(path, c)) >= Depth(path) + Height(c)
  {
    if path.Below? {
      PlugHeight(path.up, Attach(path.frame, c));
    }
  }

  /**
   * The frames above the cursor are balanced for a cursor subtree of height
   * h: every child index is 0 or 1, every sibling is balanced and every
   * stored balance is exact and within [-1, 1].
   */
  predicate PathFits(path: Path, h: int)
  {
    if path.Top? then true
    else
      var f := path.frame;
      var hs := Height(f.sibling);
      (f.dir == 0 || f.dir == 1) &&
      Balanced(f.sibling) &&
      f.balance == (if f.dir == 0 then hs - h else h - hs) &&
      -1 <= f.balance <= 1 &&
      PathFits(path.up, Max(h, hs) + 1)
  }

  /** A balanced cursor subtree under fitting frames gives a balanced tree. */
  lemma {:induction false} PlugBalanced(path: Path, c: BalTree)
    requires Balanced(c) && PathFits(path, Height(c))
    ensures Balanced(Plug(path, c))
  {
    if path.Below? {
      var f := path.frame;
      var a := Attach(f, c);
      assert Balanced(a) && Height(a) == Max(Height(c), Height(f.sibling)) + 1;
      PlugBalanced(path.up, a);
    }
  }

  /** Every child index on the path is 0 or 1. */
  predicate ValidDirs(path: Path)
  {
    path.Below? ==> (path.frame.dir == 0 || path.frame.dir == 1) && ValidDirs(path.up)
  }

  /** Conversely, every cursor position of a balanced tree sees fitting frames. */
  lemma {:induction false} UnplugBalanced(path: Path, c: BalTree)
    requires Balanced(Plug(path, c)) && ValidDirs(path)
    ensures Balanced(c) && PathFits(path, Height(c))
  {
    if path.Below? {
      var f := path.frame;
      var a := Attach(f, c);
      UnplugBalanced(path.up, a);
      assert Height(a) == Max(Height(c), Height(f.sibling)) + 1;
    }
  }

  // ----- insert_leaf's upward walk -----

  /**
   * The state insert_leaf walks up with: child idx of the cursor node grew by
   * one level, while the cursor node's balance and every frame above still
   * describe the tree from before the growth.
   */
  predicate Grown(path: Path, c: BalTree, idx: int)
  {
    GrownAt(c, idx) && PathFits(path, HeightBefore(c, idx))
  }

  /** The cursor node's own part of Grown. */
  predicate GrownAt(c: BalTree, idx: int)
  {
    (idx == 0 || idx == 1) && c.Node? &&
    var g, o := Child(c, idx), Child(c, 1 - idx);
    Balanced(g) && Balanced(o) && Height(g) >= 1 && (Height(g) == 1 || g.ann != 0) &&
    -1 <= c.ann <= 1 &&
    c.ann + Delta(idx) == Height(c.right) - Height(c.left)
  }

  /** The cursor node's height before child idx grew by one level. */
  function HeightBefore(c: BalTree, idx: int): int
    requires c.Node?
  {
    Max(Height(Child(c, idx)) - 1, Height(Child(c, 1 - idx))) + 1
  }

  function Adjusted(c: BalTree, idx: int): (r: BalTree)
    requires c.Node?
    ensures r.Node? && Elems(r) == Elems(c) && Height(r) == Height(c)
  {
    c.(ann := c.ann + Delta(idx))
  }

  /** After the update, a balance of +-2 calls for a rotation that the growth makes height-reducing. */
  lemma GrownImbalanced(path: Path, c: BalTree, idx: int)
    requires Grown(path, c, idx)
    requires IsImbalanced(Adjusted(c, idx).ann)
    ensures var a := Adjusted(c, idx);
      var i := if a.ann > 1 then 1 else 0;
      i == idx && HeavyTowards(a, i) && BalanceTowards(Child(a, i), i) != 0 &&
      PathFits(path, Height(a) - 1)
  {
    var a := Adjusted(c, idx);
    ImbalanceTest(a.ann);
  }

  /** A rotation that takes the grown node back to its old height restores the whole tree. */
  lemma GrownRotated(path: Path, c: BalTree, idx: int, r: BalTree)
    requires Grown(path, c, idx) && IsImbalanced(Adjusted(c, idx).ann)
    requires Balanced(r) && Height(r) == Height(Adjusted(c, idx)) - 1
    ensures Balanced(Plug(path, r))
  {
    GrownImbalanced(path, c, idx);
    PlugBalanced(path, r);
  }

  lemma GrownSettled(path: Path, c: BalTree, idx: int)
    requires Grown(path, c, idx)
    requires Adjusted(c, idx).ann == 0
    ensures Balanced(Adjusted(c, idx)) && PathFits(path, Height(Adjusted(c, idx)))
  {
  }

  /** Otherwise the cursor subtree is balanced but one level taller. */
  lemma GrownRises(path: Path, c: BalTree, idx: int)
    requires Grown(path, c, idx)
    requires !IsImbalanced(Adjusted(c, idx).ann) && Adjusted(c, idx).ann != 0
    ensures var a := Adjusted(c, idx);
      Balanced(a) && a.ann != 0 && PathFits(path, Height(a) - 1)
  {
    var a := Adjusted(c, idx);
    ImbalanceTest(a.ann);
    assert c.ann == 0;
    assert Height(Child(c, idx)) - 1 == Height(Child(c, 1 - idx));
    assert HeightBefore(c, idx) == Height(a) - 1;
  }

  /** What fitting frames say about the innermost one. */
  lemma PathFitsFrame(path: Path, h: int)
    requires path.Below? && PathFits(path, h)
    ensures var f, hs := path.frame, Height(path.frame.sibling);
      (f.dir == 0 || f.dir == 1) && Balanced(f.sibling) && -1 <= f.balance <= 1 &&
      f.balance == (if f.dir == 0 then hs - h else h - hs) &&
      PathFits(path.up, Max(h, hs) + 1)
  {
  }

  /** The children of a node rebuilt from a frame. */
  lemma AttachChildren(f: Frame, c: BalTree)
    requires f.dir == 0 || f.dir == 1
    ensures Child(Attach(f, c), f.dir) == c && Child(Attach(f, c), 1 - f.dir) == f.sibling
  {
  }

  /** The parent rebuilt around a subtree that grew is itself in the grown state... */
  lemma ParentGrownAt(path: Path, a: BalTree, h: int)
    requires path.Below?
    requires a.Node? && Balanced(a) && a.ann != 0 && Height(a) == h + 1 && PathFits(path, h)
    ensures GrownAt(Attach(path.frame, a), path.frame.dir)
  {
    PathFitsFrame(path, h);
    AttachChildren(path.frame, a);
  }

  /** ...and the frames above it fit its height from before the growth. */
  lemma ParentFits(path: Path, a: BalTree, h: int)
    requires path.Below?
    requires a.Node? && Height(a) == h + 1 && PathFits(path, h)
    ensures PathFits(path.up, HeightBefore(Attach(path.frame, a), path.frame.dir))
  {
    PathFitsFrame(path, h);
    AttachChildren(path.frame, a);
  }

  /** Walking up from a subtree that grew (and is not flat) leaves its parent grown. */
  lemma GrownParent(path: Path, a: BalTree, h: int)
    requires path.Below?
    requires a.Node? && Balanced(a) && a.ann != 0 && Height(a) == h + 1 && PathFits(path, h)
    ensures Grown(path.up, Attach(path.frame, a), path.frame.dir)
  {
    ParentGrownAt(path, a, h);
    ParentFits(path, a, h);
  }

  /** One step of the walk: a grown node that is still tilted hands the growth to its parent. */
  lemma GrownStep(path: Path, c: BalTree, idx: int)
    requires Grown(path, c, idx) && path.Below?
    requires !IsImbalanced(Adjusted(c, idx).ann) && Adjusted(c, idx).ann != 0
    ensures Grown(path.up, Attach(path.frame, Adjusted(c, idx)), path.frame.dir)
  {
    var a := Adjusted(c, idx);
    GrownRises(path, c, idx);
    GrownParent(path, a, Height(a) - 1);
  }

  /** A key placed in an empty child slot starts the walk. */
  lemma GrownStart(path: Path, c: BalTree, idx: int, v: Key)
    requires ValidDirs(path) && (idx == 0 || idx == 1)
    requires c.Node? && Child(c, idx).Nil?
    requires Balanced(Plug(path, c))
    ensures Grown(path, WithChild(c, idx, Leaf(v)), idx)
  {
    UnplugBalanced(path, c);
    assert Height(Child(c, 1 - idx)) <= 1;
    if idx == 0 {
      assert Height(c) == Max(0, Height(c.right)) + 1;
    } else {
      assert Height(c) == Max(Height(c.left), 0) + 1;
    }
  }

  // ----- erase_at_leaf's upward walk -----

  /**
   * The state erase_at_leaf walks up with: child idx of the cursor node lost
   * one level, while the cursor node's balance and every frame above still
   * describe the tree from before the loss.
   */
  predicate Shrunk(path: Path, c: BalTree, idx: int)
  {
    ShrunkAt(c, idx) && PathFits(path, HeightWas(c, idx))
  }

  /** The cursor node's own part of Shrunk. */
  predicate ShrunkAt(c: BalTree, idx: int)
  {
    (idx == 0 || idx == 1) && c.Node? && Balanced(c.left) && Balanced(c.right) &&
    -1 <= c.ann <= 1 &&
    c.ann - Delta(idx) == Height(c.right) - Height(c.left)
  }

  /** The cursor node's height before child idx lost a level. */
  function HeightWas(c: BalTree, idx: int): int
    requires c.Node?
  {
    Max(Height(Child(c, idx)) + 1, Height(Child(c, 1 - idx))) + 1
  }

  /** The cursor node with balance_delta (towards the side that did not shrink) added. */
  function Shrink(c: BalTree, idx: int): (r: BalTree)
    requires c.Node?
    ensures r.Node? && Elems(r) == Elems(c) && Height(r) == Height(c)
  {
    c.(ann := c.ann - Delta(idx))
  }

  /** After the update, a balance of +-2 leans away from the shrunk side and calls for a rotation. */
  lemma ShrunkImbalanced(path: Path, c: BalTree, idx: int)
    requires Shrunk(path, c, idx)
    requires IsImbalanced(Shrink(c, idx).ann)
    ensures var a := Shrink(c, idx);
      (a.ann == 2 || a.ann == -2) && HeavyTowards(a, if a.ann > 1 then 1 else 0) &&
      Height(a) == HeightWas(c, idx) && PathFits(path, Height(a))
  {
    var a := Shrink(c, idx);
    ImbalanceTest(a.ann);
  }

  /** After the update, a balance of +-1 means the subtree kept its height: the tree is balanced again. */
  lemma ShrunkSettled(path: Path, c: BalTree, idx: int)
    requires Shrunk(path, c, idx)
    requires !IsImbalanced(Shrink(c, idx).ann) && Shrink(c, idx).ann != 0
    ensures Balanced(Plug(path, Shrink(c, idx)))
  {
    var a := Shrink(c, idx);
    ImbalanceTest(a.ann);
    assert c.ann == 0;
    assert Height(a) == HeightWas(c, idx);
    PlugBalanced(path, a);
  }

  /** After the update, a balance of 0 means the subtree is balanced but one level lower. */
  lemma ShrunkLowered(path: Path, c: BalTree, idx: int)
    requires Shrunk(path, c, idx)
    requires Shrink(c, idx).ann == 0
    ensures var a := Shrink(c, idx);
      Balanced(a) && PathFits(path, Height(a) + 1)
    ensures path.Below? ==> Shrunk(path.up, Attach(path.frame, Shrink(c, idx)), path.frame.dir)
  {
    var a := Shrink(c, idx);
    assert Height(a) + 1 == HeightWas(c, idx);
    if path.Below? {
      ShrunkParent(path, a);
    }
  }

  /** A rotation that keeps the height ends the walk; one that lowers it hands the loss upwards. */
  lemma ShrunkRotated(path: Path, c: BalTree, idx: int, r: BalTree, reduced: bool)
    requires Shrunk(path, c, idx) && IsImbalanced(Shrink(c, idx).ann)
    requires Balanced(r)
    requires Height(r) == if reduced then Height(Shrink(c, idx)) - 1 else Height(Shrink(c, idx))
    ensures !reduced ==> Balanced(Plug(path, r))
    ensures reduced ==> PathFits(path, Height(r) + 1)
  {
    ShrunkImbalanced(path, c, idx);
    if !reduced {
      PlugBalanced(path, r);
    } else {
      var h := Height(r) + 1;
      assert h == Height(Shrink(c, idx));
      assert PathFits(path, h);
    }
  }

  /** A rotation that lowered the subtree below a parent makes that parent the next shrunk node. */
  lemma ShrunkRotatedUp(path: Path, c: BalTree, idx: int, r: BalTree)
    requires Shrunk(path, c, idx) && IsImbalanced(Shrink(c, idx).ann)
    requires Balanced(r) && Height(r) == Height(Shrink(c, idx)) - 1 && path.Below?
    ensures Shrunk(path.up, Attach(path.frame, r), path.frame.dir)
  {
    ShrunkImbalanced(path, c, idx);
    var h := Height(r) + 1;
    assert h == Height(Shrink(c, idx));
    assert PathFits(path, h);
    ShrunkParent(path, r);
  }

  /** A balanced subtree one level lower than its frames expect makes its parent the next shrunk node. */
  lemma ShrunkParent(path: Path, r: BalTree)
    requires path.Below? && Balanced(r) && PathFits(path, Height(r) + 1)
    ensures Shrunk(path.up, Attach(path.frame, r), path.frame.dir)
  {
    ShrunkAtParent(path, r);
    ShrunkParentFits(path, r);
  }

  /** The parent's own part of ShrunkParent. */
  lemma ShrunkAtParent(path: Path, r: BalTree)
    requires path.Below? && Balanced(r) && PathFits(path, Height(r) + 1)
    ensures ShrunkAt(Attach(path.frame, r), path.frame.dir)
  {
    PathFitsFrame(path, Height(r) + 1);
    var f, a := path.frame, Attach(path.frame, r);
    if f.dir == 0 {
      assert a.left == r && a.right == f.sibling;
    } else {
      assert a.right == r && a.left == f.sibling;
    }
  }

  /** The frames above the parent fit its height from before the loss. */
  lemma ShrunkParentFits(path: Path, r: BalTree)
    requires path.Below? && PathFits(path, Height(r) + 1)
    ensures PathFits(path.up, HeightWas(Attach(path.frame, r), path.frame.dir))
  {
    var h, f := Height(r) + 1, path.frame;
    var above := Max(h, Height(f.sibling)) + 1;
    assert PathFits(path.up, above) && (f.dir == 0 || f.dir == 1) by {
      PathFitsFrame(path, h);
    }
    assert HeightWas(Attach(f, r), f.dir) == above by {
      HeightWasAttached(f, r);
    }
    PathFitsAt(path.up, above, HeightWas(Attach(f, r), f.dir));
  }

  lemma PathFitsAt(path: Path, h: int, h': int)
    requires PathFits(path, h) && h == h'
    ensures PathFits(path, h')
  {
  }

  lemma HeightWasAttached(f: Frame, r: BalTree)
    requires f.dir == 0 || f.dir == 1
    ensures HeightWas(Attach(f, r), f.dir) == Max(Height(r) + 1, Height(f.sibling)) + 1
  {
    AttachChildren(f, r);
  }

  /** Cutting a leaf off removes exactly its key from the in-order sequence. */
  lemma LeafRemoved(path: Path, c: BalTree)
    requires c.Node? && c.left.Nil? && c.right.Nil?
    ensures |Lefts(path)| < |Elems(Plug(path, c))|
    ensures Elems(Plug(path, Nil)) == RemoveAt(Elems(Plug(path, c)), |Lefts(path)|)
  {
    PlugElems(path, c);
    PlugElems(path, Nil);
    RemoveAtSeam(Lefts(path), c.value, Rights(path));
  }

  /** Removing the key between A and B leaves A + B. */
  lemma RemoveAtSeam(A: seq<Key>, x: Key, B: seq<Key>)
    ensures RemoveAt(A + [x] + B, |A|) == A + B
  {
    var s := A + [x] + B;
    assert s[..|A|] == A && s[|A| + 1..] == B;
  }

  /** The cursor node's key sits right after the keys before it and its left subtree. */
  lemma CursorKey(path: Path, c: BalTree)
    requires c.Node?
    ensures var E, k := Elems(Plug(path, c)), CursorIndex(path, c);
      k < |E| && E[k] == c.value
  {
    PlugElems(path, c);
    KeyAtSeam(Lefts(path), Elems(c.left), c.value, Elems(c.right), Rights(path));
  }

  /** The in-order position of the cursor node's key: the keys its frames put before it, then its left subtree. */
  function CursorIndex(path: Path, c: BalTree): nat
    requires c.Node?
  {
    |Lefts(path)| + |Elems(c.left)|
  }

  lemma KeyAtSeam(A: seq<Key>, B: seq<Key>, x: Key, C: seq<Key>, D: seq<Key>)
    ensures |A| + |B| < |A + (B + [x] + C) + D|
    ensures (A + (B + [x] + C) + D)[|A| + |B|] == x
  {
    assert A + (B + [x] + C) + D == (A + B) + [x] + (C + D);
  }

  // ----- erase_at_leaf's cursor after a rotation, as written -----

  /**
   * node_ptr's debug check: the cursor's cached node is the node behind the
   * incoming link. Nodes are told apart by their keys, which differ between
   * the nodes of a tree of distinct keys.
   */
  predicate NodePtrCheck(cached: BalTree, link: BalTree)
  {
    cached.Node? && link.Node? && cached.value == link.value
  }

  /**
   * As written, swap_child and swap_grand_child rewrite only the incoming
   * link and leave the cached cursor node on the node they rotated down. In
   * the tree 10{3{2{1},4},12{11,13{-,14}}}, erasing the leaf 4 leaves node
   * 3 at balance -2; swap_child(0) lowers that subtree below the root, and
   * the `parent = node_ptr()` that follows finds node 3 cached while the
   * link holds node 2, so its check fails. The model reads the node behind
   * the link instead, which is what the cache holds once the rotations set
   * it to the new root.
   */
  lemma StaleCursorAfterErase()
    ensures var L, R := Node(Node(Nil, [1], 0, Nil), [2], -1, Nil),
                        Node(Node(Nil, [11], 0, Nil), [12], 1, Node(Nil, [13], 1, Node(Nil, [14], 0, Nil)));
      var P := Below(Frame(1, [3], -1, L), Below(Frame(0, [10], 0, R), Top));
      var n := Shrink(Attach(P.frame, Nil), P.frame.dir);
      Balanced(Plug(P, Node(Nil, [4], 0, Nil))) &&
      IsImbalanced(n.ann) && n.ann == -2 && BalanceTowards(Child(n, 0), 0) >= 0 &&
      SingleRotation(n, 0).1 && P.up.Below? && !NodePtrCheck(n, SingleRotation(n, 0).0)
  {
    var L := Node(Node(Nil, [1], 0, Nil), [2], -1, Nil);
    var R := Node(Node(Nil, [11], 0, Nil), [12], 1, Node(Nil, [13], 1, Node(Nil, [14], 0, Nil)));
    var T := Node(Node(L, [3], -1, Node(Nil, [4], 0, Nil)), [10], 0, R);
    assert Height(L) == 2 && Height(R) == 3;
    assert Balanced(T);
  }

  // ----- erase_current's swap with the closest descendant -----

  /** The frames seg (innermost first) stacked on top of base. */
  function Stack(seg: Path, base: Path): (r: Path)
    ensures Depth(r) == Depth(seg) + Depth(base)
  {
    if seg.Top? then base else Below(seg.frame, Stack(seg.up, base))
  }

  /** Every frame of seg took side dir. */
  predicate AllDir(seg: Path, dir: int)
  {
    seg.Below? ==> seg.frame.dir == dir && AllDir(seg.up, dir)
  }

  lemma StackKeys(seg: Path, base: Path)
    ensures Lefts(Stack(seg, base)) == Lefts(base) + Lefts(seg)
    ensures Rights(Stack(seg, base)) == Rights(seg) + Rights(base)
  {
    StackLefts(seg, base);
    StackRights(seg, base);
  }

  lemma {:induction false} StackLefts(seg: Path, base: Path)
    ensures Lefts(Stack(seg, base)) == Lefts(base) + Lefts(seg)
  {
    if seg.Below? {
      StackLefts(seg.up, base);
      var f, st := seg.frame, Stack(seg.up, base);
      var F := if f.dir == 0 then [] else Elems(f.sibling) + [f.value];
      assert Stack(seg, base) == Below(f, st);
      assert Lefts(Below(f, st)) == Lefts(st) + F;
      assert Lefts(seg) == Lefts(seg.up) + F;
      Regroup3(Lefts(base), Lefts(seg.up), F);
    }
  }

  lemma Regroup3(A: seq<Key>, B: seq<Key>, C: seq<Key>)
    ensures (A + B) + C == A + (B + C)
  {
  }

  lemma {:induction false} StackRights(seg: Path, base: Path)
    ensures Rights(Stack(seg, base)) == Rights(seg) + Rights(base)
  {
    if seg.Below? {
      StackRights(seg.up, base);
    }
  }

  lemma {:induction false} StackPlug(seg: Path, base: Path, c: BalTree)
    ensures Plug(Stack(seg, base), c) == Plug(base, Plug(seg, c))
  {
    if seg.Below? {
      StackPlug(seg.up, base, Attach(seg.frame, c));
    }
  }

  /** Frames that all went right contribute nothing after the cursor; all left, nothing before it. */
  lemma {:induction false} OneSided(seg: Path, dir: int)
    requires AllDir(seg, dir)
    ensures dir != 0 ==> Rights(seg) == []
    ensures dir == 0 ==> Lefts(seg) == []
  {
    if seg.Below? {
      OneSided(seg.up, dir);
    }
  }

  /** The path with the key of the frame i levels above the cursor replaced. */
  function SetValueAt(path: Path, i: nat, v: Key): (r: Path)
    requires i < Depth(path)
    ensures Depth(r) == Depth(path)
  {
    if i == 0 then Below(path.frame.(value := v), path.up)
    else Below(path.frame, SetValueAt(path.up, i - 1, v))
  }

  /** Replacing a key in the stack's lowest base frame. */
  lemma {:induction false} SetValueInStack(seg: Path, f: Frame, base: Path, v: Key)
    ensures SetValueAt(Stack(seg, Below(f, base)), Depth(seg), v) == Stack(seg, Below(f.(value := v), base))
  {
    if seg.Below? {
      SetValueInStack(seg.up, f, base, v);
    }
  }

  /** Keys play no part in the balance of the frames. */
  lemma {:induction false} SetValueFits(path: Path, i: nat, v: Key, h: int)
    requires i < Depth(path) && PathFits(path, h) && ValidDirs(path)
    ensures PathFits(SetValueAt(path, i, v), h) && ValidDirs(SetValueAt(path, i, v))
  {
    if i > 0 {
      var f := path.frame;
      SetValueFits(path.up, i - 1, v, Max(h, Height(f.sibling)) + 1);
    }
  }

  /**
   * The in-order keys after erase_current's swap: n's key now sits in p's
   * node, p's key in n's, and removing n's key from its new place removes it
   * from the tree as it was. closest == 0: p is n's predecessor.
   */
  lemma SwapLeftRemoves(P0: Path, n: BalTree, seg: Path, p: BalTree)
    requires n.Node? && p.Node? && p.right.Nil? && AllDir(seg, 1) && Plug(seg, p) == n.left
    ensures CursorIndex(P0, n) < |Elems(Plug(P0, n))|
    ensures CursorIndex(Stack(seg, Below(Frame(0, p.value, n.ann, n.right), P0)), Node(p.left, n.value, p.ann, p.right)) <
      |Elems(Plug(Stack(seg, Below(Frame(0, p.value, n.ann, n.right), P0)), Node(p.left, n.value, p.ann, p.right)))|
    ensures |Elems(Plug(Stack(seg, Below(Frame(0, p.value, n.ann, n.right), P0)), Node(p.left, n.value, p.ann, p.right)))| ==
      |Elems(Plug(P0, n))|
    ensures RemoveAt(Elems(Plug(Stack(seg, Below(Frame(0, p.value, n.ann, n.right), P0)), Node(p.left, n.value, p.ann, p.right))),
        CursorIndex(Stack(seg, Below(Frame(0, p.value, n.ann, n.right), P0)), Node(p.left, n.value, p.ann, p.right))) ==
      RemoveAt(Elems(Plug(P0, n)), CursorIndex(P0, n))
  {
    SwapLeftBefore(P0, n, seg, p);
    SwapLeftAfter(P0, n.ann, n.right, n.value, seg, p);
    SwapAdjacent(Lefts(P0) + Lefts(seg) + Elems(p.left), p.value, n.value, Elems(n.right) + Rights(P0),
      Elems(Plug(P0, n)), CursorIndex(P0, n),
      Elems(Plug(Stack(seg, Below(Frame(0, p.value, n.ann, n.right), P0)), Node(p.left, n.value, p.ann, p.right))),
      CursorIndex(Stack(seg, Below(Frame(0, p.value, n.ann, n.right), P0)), Node(p.left, n.value, p.ann, p.right)));
  }

  /** The keys around n before the swap, p's key right before n's. */
  lemma SwapLeftBefore(P0: Path, n: BalTree, seg: Path, p: BalTree)
    requires n.Node? && p.Node? && p.right.Nil? && AllDir(seg, 1) && Plug(seg, p) == n.left
    ensures var X := Lefts(P0) + Lefts(seg) + Elems(p.left);
      Elems(Plug(P0, n)) == X + [p.value] + [n.value] + (Elems(n.right) + Rights(P0)) &&
      |Lefts(P0)| + |Elems(n.left)| == |X| + 1
  {
    PlugElems(seg, p);
    OneSided(seg, 1);
    assert Elems(n.left) == Lefts(seg) + (Elems(p.left) + [p.value] + []) + [];
    PlugElems(P0, n);
    Regroup5(Lefts(P0), Lefts(seg), Elems(p.left), p.value, n.value, Elems(n.right), Rights(P0));
  }

  /** The keys after the swap, n's key in p's old node right before p's key. */
  lemma SwapLeftAfter(P0: Path, a: int, N: BalTree, x: Key, seg: Path, p: BalTree)
    requires p.Node? && p.right.Nil? && AllDir(seg, 1)
    ensures var Q := Stack(seg, Below(Frame(0, p.value, a, N), P0));
      var c := Node(p.left, x, p.ann, p.right);
      var X := Lefts(P0) + Lefts(seg) + Elems(p.left);
      Elems(Plug(Q, c)) == X + [x] + [p.value] + (Elems(N) + Rights(P0)) &&
      |Lefts(Q)| + |Elems(p.left)| == |X|
  {
    var base := Below(Frame(0, p.value, a, N), P0);
    var Q := Stack(seg, base);
    var c := Node(p.left, x, p.ann, p.right);
    var L, S, B, R := Lefts(P0), Lefts(seg), Elems(p.left), Rights(P0);
    StackKeys(seg, base);
    OneSided(seg, 1);
    assert Lefts(base) == L + [] && Rights(base) == [p.value] + Elems(N) + R;
    PlugElems(Q, c);
    assert Elems(Plug(Q, c)) == (L + [] + S) + (B + [x] + []) + ([] + ([p.value] + Elems(N) + R));
    Regroup6(L, S, B, x, p.value, Elems(N), R);
  }

  lemma Regroup5(L: seq<Key>, S: seq<Key>, B: seq<Key>, y: Key, x: Key, N: seq<Key>, R: seq<Key>)
    ensures L + ((S + (B + [y] + []) + []) + [x] + N) + R == (L + S + B) + [y] + [x] + (N + R)
  {
  }

  lemma Regroup6(L: seq<Key>, S: seq<Key>, B: seq<Key>, x: Key, y: Key, N: seq<Key>, R: seq<Key>)
    ensures (L + [] + S) + (B + [x] + []) + ([] + ([y] + N + R)) == (L + S + B) + [x] + [y] + (N + R)
  {
  }

  /** SwapLeftRemoves for closest == 1: p is n's successor. */
  lemma SwapRightRemoves(P0: Path, n: BalTree, seg: Path, p: BalTree)
    requires n.Node? && p.Node? && p.left.Nil? && AllDir(seg, 0) && Plug(seg, p) == n.right
    ensures CursorIndex(P0, n) < |Elems(Plug(P0, n))|
    ensures CursorIndex(Stack(seg, Below(Frame(1, p.value, n.ann, n.left), P0)), Node(p.left, n.value, p.ann, p.right)) <
      |Elems(Plug(Stack(seg, Below(Frame(1, p.value, n.ann, n.left), P0)), Node(p.left, n.value, p.ann, p.right)))|
    ensures |Elems(Plug(Stack(seg, Below(Frame(1, p.value, n.ann, n.left), P0)), Node(p.left, n.value, p.ann, p.right)))| ==
      |Elems(Plug(P0, n))|
    ensures RemoveAt(Elems(Plug(Stack(seg, Below(Frame(1, p.value, n.ann, n.left), P0)), Node(p.left, n.value, p.ann, p.right))),
        CursorIndex(Stack(seg, Below(Frame(1, p.value, n.ann, n.left), P0)), Node(p.left, n.value, p.ann, p.right))) ==
      RemoveAt(Elems(Plug(P0, n)), CursorIndex(P0, n))
  {
    SwapRightBefore(P0, n, seg, p);
    SwapRightAfter(P0, n.ann, n.left, n.value, seg, p);
    SwapAdjacent(Lefts(P0) + Elems(n.left), p.value, n.value, Elems(p.right) + Rights(seg) + Rights(P0),
      Elems(Plug(Stack(seg, Below(Frame(1, p.value, n.ann, n.left), P0)), Node(p.left, n.value, p.ann, p.right))),
      CursorIndex(Stack(seg, Below(Frame(1, p.value, n.ann, n.left), P0)), Node(p.left, n.value, p.ann, p.right)),
      Elems(Plug(P0, n)), CursorIndex(P0, n));
  }

  /** The keys around n before the swap, p's key right after n's. */
  lemma SwapRightBefore(P0: Path, n: BalTree, seg: Path, p: BalTree)
    requires n.Node? && p.Node? && p.left.Nil? && AllDir(seg, 0) && Plug(seg, p) == n.right
    ensures Elems(Plug(P0, n)) ==
      (Lefts(P0) + Elems(n.left)) + [n.value] + [p.value] + (Elems(p.right) + Rights(seg) + Rights(P0))
  {
    PlugElems(seg, p);
    OneSided(seg, 0);
    assert Elems(n.right) == [] + ([] + [p.value] + Elems(p.right)) + Rights(seg);
    PlugElems(P0, n);
    Regroup7(Lefts(P0), Elems(n.left), n.value, p.value, Elems(p.right), Rights(seg), Rights(P0));
  }

  /** The keys after the swap, n's key in p's old node right after p's key. */
  lemma SwapRightAfter(P0: Path, a: int, N: BalTree, x: Key, seg: Path, p: BalTree)
    requires p.Node? && p.left.Nil? && AllDir(seg, 0)
    ensures var Q := Stack(seg, Below(Frame(1, p.value, a, N), P0));
      var c := Node(p.left, x, p.ann, p.right);
      var X := Lefts(P0) + Elems(N);
      Elems(Plug(Q, c)) == X + [p.value] + [x] + (Elems(p.right) + Rights(seg) + Rights(P0)) &&
      |Lefts(Q)| + |Elems(p.left)| == |X| + 1
  {
    var base := Below(Frame(1, p.value, a, N), P0);
    var Q := Stack(seg, base);
    var c := Node(p.left, x, p.ann, p.right);
    var L, B, T, R := Lefts(P0), Elems(p.right), Rights(seg), Rights(P0);
    StackKeys(seg, base);
    OneSided(seg, 0);
    assert Lefts(base) == L + (Elems(N) + [p.value]) && Rights(base) == [] + R;
    PlugElems(Q, c);
    assert Elems(Plug(Q, c)) == (L + (Elems(N) + [p.value]) + []) + ([] + [x] + B) + (T + ([] + R));
    Regroup8(L, Elems(N), p.value, x, B, T, R);
  }

  lemma Regroup7(L: seq<Key>, N: seq<Key>, x: Key, y: Key, B: seq<Key>, T: seq<Key>, R: seq<Key>)
    ensures L + (N + [x] + ([] + ([] + [y] + B) + T)) + R == (L + N) + [x] + [y] + (B + T + R)
  {
  }

  lemma Regroup8(L: seq<Key>, N: seq<Key>, y: Key, x: Key, B: seq<Key>, T: seq<Key>, R: seq<Key>)
    ensures (L + (N + [y]) + []) + ([] + [x] + B) + (T + ([] + R)) == (L + N) + [y] + [x] + (B + T + R)
  {
  }

  /** Removing x from X + [a] + [x] + Y is removing it from X + [x] + [a] + Y. */
  lemma SwapAdjacent(X: seq<Key>, a: Key, x: Key, Y: seq<Key>, E: seq<Key>, k: nat, E': seq<Key>, k': nat)
    requires E == X + [a] + [x] + Y && k == |X| + 1
    requires E' == X + [x] + [a] + Y && k' == |X|
    ensures k < |E| && k' < |E'| && |E| == |E'| && RemoveAt(E, k) == RemoveAt(E', k')
  {
    RemoveAtSeam(X + [a], x, Y);
    assert X + [x] + [a] + Y == X + [x] + ([a] + Y);
    RemoveAtSeam(X, x, [a] + Y);
  }

  /**
   * The cursor of the source's tree_path: the incoming links above the
   * cursor and the subtree under it.
   */
  class TreePath {
    var parents: Path
    var current: BalTree

    /** The tree the path runs through, as the root link sees it. */
    function Whole(): BalTree
      reads this
    {
      Plug(parents, current)
    }

    constructor(root: BalTree)
      ensures parents == Top && current == root
    {
      parents := Top;
      current := root;
    }

    predicate IsAtRoot()
      reads this
    {
      parents.Top?
    }

    method ResetToRoot()
      modifies this
      ensures parents == Top && current == old(Whole())
    {
      current := Plug(parents, current);
      parents := Top;
    }

    method MoveUp()
      requires parents.Below?
      modifies this
      ensures parents == old(parents.up)
      ensures current == Attach(old(parents.frame), old(current))
      ensures Whole() == old(Whole())
    {
      current := Attach(parents.frame, current);
      parents := parents.up;
    }

    /** Moves one level up and returns the side the cursor was on. */
    method MoveUpReturnIdx() returns (idx: int)
      requires parents.Below?
      modifies this
      ensures idx == old(parents.frame.dir)
      ensures parents == old(parents.up)
      ensures current == Attach(old(parents.frame), old(current))
      ensures Whole() == old(Whole())
    {
      idx := parents.frame.dir;
      MoveUp();
    }

    /** Pushes the link to child idx; the slot written must exist in parents[]. */
    method MoveDown(idx: int) returns (n: BalTree)
      requires idx == 0 || idx == 1
      requires current.Node?
      requires Depth(parents) + 1 < kMaxLevels
      modifies this
      ensures parents == Below(Frame(idx, old(current).value, old(current).ann, Child(old(current), 1 - idx)), old(parents))
      ensures current == Child(old(current), idx) && n == current
      ensures Whole() == old(Whole())
    {
      var f := Frame(idx, current.value, current.ann, Child(current, 1 - idx));
      assert Attach(f, Child(current, idx)) == current;
      parents := Below(f, parents);
      current := Child(current, idx);
      n := current;
    }

    /** swap_child: single rotation at the cursor; the link above now holds the lifted child. */
    method SwapChild(idx: int) returns (reduce: bool)
      requires idx == 0 || idx == 1
      requires current.Node? && Child(current, idx).Node?
      requires BalanceTowards(current, idx) == 2 && BalanceTowards(Child(current, idx), idx) >= 0
      requires -2 < Child(current, idx).ann < 2
      modifies this
      ensures parents == old(parents)
      ensures (current, reduce) == SingleRotation(old(current), idx)
    {
      var r := SingleRotation(current, idx);
      current := r.0;
      reduce := r.1;
    }

    /** swap_grand_child: double rotation at the cursor. */
    method SwapGrandChild(idx: int)
      requires idx == 0 || idx == 1
      requires current.Node? && Child(current, idx).Node? && Child(Child(current, idx), 1 - idx).Node?
      requires BalanceTowards(current, idx) == 2 && BalanceTowards(Child(current, idx), idx) < 0
      modifies this
      ensures parents == old(parents)
      ensures current == DoubleRotation(old(current), idx)
    {
      current := DoubleRotation(current, idx);
    }

    /**
     * balance_locally: rotate towards the heavy side; a double rotation when
     * the heavy child leans the other way. Reports whether the height dropped,
     * which is always the case right after an insertion.
     */
    method BalanceLocally(balance: int, justInserted: bool) returns (reduced: bool)
      requires current.Node? && balance == current.ann && (balance == 2 || balance == -2)
      requires HeavyTowards(current, if balance > 1 then 1 else 0)
      requires justInserted ==> BalanceTowards(Child(current, if balance > 1 then 1 else 0), if balance > 1 then 1 else 0) != 0
      modifies this
      ensures parents == old(parents)
      ensures Balanced(current) && Elems(current) == Elems(old(current))
      ensures Height(current) == if reduced then Height(old(current)) - 1 else Height(old(current))
      ensures justInserted ==> reduced
    {
      var idx := if balance > 1 then 1 else 0;
      HeavyChild(current, idx);
      var child := Child(current, idx);
      if BalanceTowards(child, idx) >= 0 {
        SingleRotationCorrect(current, idx);
        reduced := SwapChild(idx);
        return;
      }
      DoubleRotationCorrect(current, idx);
      SwapGrandChild(idx);
      reduced := true;
    }

    /**
     * insert_leaf: hang a new leaf in the empty slot idx of the cursor node
     * (or at the cursor when the tree is empty), then walk up adjusting
     * balances until a node's balance becomes 0, a rotation is done, or the
     * root is reached.
     */
    method InsertLeaf(v: Key, idx: int)
      requires ValidDirs(parents) && (idx == 0 || idx == 1)
      requires current.Nil? || Child(current, idx).Nil?
      requires current.Nil? ==> parents.Top?
      requires Balanced(Whole())
      modifies this
      ensures Balanced(Whole())
      ensures Elems(Whole()) ==
        Elems(Plug(old(parents), if old(current).Nil? then Leaf(v) else WithChild(old(current), idx, Leaf(v))))
    {
      if current.Nil? {
        current := Leaf(v);
        return;
      }
      GrownStart(parents, current, idx, v);
      current := WithChild(current, idx, Leaf(v));
      var i := idx;
      var done := false;
      while !done
        invariant !done ==> Grown(parents, current, i)
        invariant done ==> Balanced(Whole())
        invariant Elems(Whole()) == Elems(Plug(old(parents), WithChild(old(current), idx, Leaf(v))))
        decreases Depth(parents) + (if done then 0 else 1)
      {
        done, i := WalkUpStep(i);
      }
    }

    /**
     * One round of insert_leaf's loop: add the growth to the cursor node's
     * balance, then stop after a rotation, at a balance of 0 or at the root,
     * or move up to the parent.
     */
    method WalkUpStep(idx: int) returns (done: bool, next: int)
      requires Grown(parents, current, idx)
      modifies this
      ensures Elems(Whole()) == Elems(old(Whole()))
      ensures done ==> Balanced(Whole())
      ensures done ==> parents == old(parents)
      ensures !done ==> Grown(parents, current, next) && Depth(parents) < Depth(old(parents))
    {
      ghost var before := current;
      current := Adjusted(current, idx);
      PlugSameElems(parents, before, current);
      if IsImbalanced(current.ann) {
        GrownImbalanced(parents, before, idx);
        ghost var rotatedFrom := current;
        var reduced := BalanceLocally(current.ann, true);
        PlugSameElems(parents, rotatedFrom, current);
        GrownRotated(parents, before, idx, current);
        return true, idx;
      }
      if current.ann == 0 {
        GrownSettled(parents, before, idx);
        PlugBalanced(parents, current);
        return true, idx;
      }
      if IsAtRoot() {
        GrownRises(parents, before, idx);
        return true, idx;
      }
      GrownStep(parents, before, idx);
      next := MoveUpReturnIdx();
      done := false;
    }

    /**
     * erase_at_leaf: unlink the leaf under the cursor, then walk up adding
     * balance_delta to each parent until a balance becomes +-1, a rotation
     * keeps the height, or the root is reached.
     */
    method EraseAtLeaf()
      requires ValidDirs(parents) && Balanced(Whole())
      requires current.Node? && current.left.Nil? && current.right.Nil?
      modifies this
      ensures Balanced(Whole())
      ensures |Lefts(old(parents))| < |old(Elems(Whole()))|
      ensures Elems(Whole()) == RemoveAt(old(Elems(Whole())), |Lefts(old(parents))|)
    {
      UnplugBalanced(parents, current);
      LeafRemoved(parents, current);
      ghost var cut := Plug(parents, Nil);
      current := Nil;
      if IsAtRoot() {
        return;
      }
      ShrunkParent(parents, Nil);
      var i := MoveUpReturnIdx();
      var done := false;
      while !done
        invariant !done ==> Shrunk(parents, current, i)
        invariant done ==> Balanced(Whole())
        invariant Elems(Whole()) == Elems(cut)
        decreases Depth(parents) + (if done then 0 else 1)
      {
        done, i := ShrinkStep(i);
      }
    }

    /**
     * One round of erase_at_leaf's loop: add balance_delta to the cursor
     * node's balance, rotate at +-2, and stop when the subtree kept its
     * height or at the root; otherwise move up to the parent.
     */
    method ShrinkStep(idx: int) returns (done: bool, next: int)
      requires Shrunk(parents, current, idx)
      modifies this
      ensures Elems(Whole()) == Elems(old(Whole()))
      ensures done ==> Balanced(Whole())
      ensures done ==> parents == old(parents)
      ensures !done ==> Shrunk(parents, current, next) && Depth(parents) < Depth(old(parents))
    {
      ghost var before := current;
      current := Shrink(current, idx);
      PlugSameElems(parents, before, current);
      if IsImbalanced(current.ann) {
        ShrunkImbalanced(parents, before, idx);
        ghost var rotatedFrom := current;
        var reduced := BalanceLocally(current.ann, false);
        PlugSameElems(parents, rotatedFrom, current);
        ShrunkRotated(parents, before, idx, current, reduced);
        if !reduced || IsAtRoot() {
          return true, idx;
        }
        ShrunkRotatedUp(parents, before, idx, current);
        next := MoveUpReturnIdx();
        return false, next;
      }
      if current.ann != 0 {
        ShrunkSettled(parents, before, idx);
        return true, idx;
      }
      ShrunkLowered(parents, before, idx);
      if IsAtRoot() {
        return true, idx;
      }
      next := MoveUpReturnIdx();
      done := false;
    }

    /**
     * erase_current: remove the cursor node's key. A leaf is cut off
     * directly; otherwise the node trades places with its closest
     * descendant on the taller side (the left one when level), which breaks
     * the order for a moment, and the removal repeats from that lower spot.
     * Nodes carry their keys, so trading places is trading keys while the
     * shape and the balances stay where they are.
     */
    method EraseCurrent()
      requires ValidDirs(parents) && current.Node? && Balanced(Whole())
      requires |Elems(Whole())| < 0x1_0000_0000_0000_0000
      modifies this
      ensures Balanced(Whole())
      ensures var E, k := old(Elems(Whole())), old(CursorIndex(parents, current));
        k < |E| && E[k] == old(current).value && Elems(Whole()) == RemoveAt(E, k)
      decreases Height(current)
    {
      CursorKey(parents, current);
      UnplugBalanced(parents, current);
      if current.ann == 0 && current.right.Nil? {
        EraseAtLeaf();
        return;
      }
      HeightBound(Whole());
      SwapWithClosest();
      EraseCurrent();
    }

    /**
     * erase_current's swap: the cursor walks to the node next to n in tree
     * order on n's taller side, and n and that node trade keys, so that the
     * cursor is again on n's key, one level lower or more.
     */
    method SwapWithClosest()
      requires ValidDirs(parents) && current.Node? && Balanced(Whole()) && Height(Whole()) < 96
      requires !(current.ann == 0 && current.right.Nil?)
      modifies this
      ensures ValidDirs(parents) && current.Node? && Balanced(Plug(parents, current))
      ensures Height(current) < old(Height(current)) && current.value == old(current.value)
      ensures old(CursorIndex(parents, current)) < |Elems(Plug(old(parents), old(current)))|
      ensures |Elems(Plug(parents, current))| == |Elems(Plug(old(parents), old(current)))|
      ensures CursorIndex(parents, current) < |Elems(Plug(parents, current))|
      ensures RemoveAt(Elems(Plug(parents, current)), CursorIndex(parents, current)) ==
        RemoveAt(Elems(Plug(old(parents), old(current))), old(CursorIndex(parents, current)))
    {
      var n := current;
      ghost var P0 := parents;
      UnplugBalanced(parents, n);
      var closest := if n.ann == 1 then 1 else 0;
      var nthDepth := Depth(parents);
      var p, seg := DescendClosest(closest);
      ghost var Q0: Path, i: nat := parents, Depth(parents) - nthDepth - 1;
      parents := SetValueAt(parents, Depth(parents) - nthDepth - 1, p.value);
      current := Node(p.left, n.value, p.ann, p.right);
      ghost var Q1, c1 := parents, current;
      SwapStep(P0, n, closest, seg, p, Q0, i, Q1, c1);
    }

    /**
     * erase_current's descent: one step to the closest side, then down the
     * other side as far as it goes.
     */
    method DescendClosest(closest: int) returns (p: BalTree, ghost seg: Path)
      requires closest == 0 || closest == 1
      requires current.Node? && Child(current, closest).Node?
      requires ValidDirs(parents) && Height(Whole()) < 96
      modifies this
      ensures p == current && p.Node? && Child(p, 1 - closest).Nil?
      ensures parents == Stack(seg, Below(Frame(closest, old(current).value, old(current).ann, Child(old(current), 1 - closest)), old(parents)))
      ensures AllDir(seg, 1 - closest) && Plug(seg, p) == Child(old(current), closest)
      ensures ValidDirs(parents) && Whole() == old(Whole())
    {
      var other := 1 - closest;
      ghost var n, P0 := current, parents;
      ghost var f := Frame(closest, n.value, n.ann, Child(n, other));
      PlugHeight(parents, n);
      p := MoveDown(closest);
      seg := Top;
      while Child(p, other).Node?
        invariant p == current && p.Node?
        invariant parents == Stack(seg, Below(f, P0)) && AllDir(seg, other)
        invariant Plug(seg, p) == Child(n, closest) && Whole() == Plug(P0, n)
        invariant ValidDirs(parents) && Height(Whole()) < 96
        decreases Height(p)
      {
        PlugHeight(parents, p);
        seg := Below(Frame(other, p.value, p.ann, Child(p, closest)), seg);
        p := MoveDown(other);
      }
    }
  }

  /** Everything erase_current's swap establishes, about the path and subtree it leaves the cursor with. */
  lemma SwapStep(P0: Path, n: BalTree, closest: int, seg: Path, p: BalTree, Q0: Path, i: nat, Q: Path, c: BalTree)
    requires closest == 0 || closest == 1
    requires n.Node? && p.Node? && Child(p, 1 - closest).Nil? && AllDir(seg, 1 - closest)
    requires Plug(seg, p) == Child(n, closest)
    requires Q0 == Stack(seg, Below(Frame(closest, n.value, n.ann, Child(n, 1 - closest)), P0)) && i == Depth(seg)
    requires ValidDirs(Q0) && Balanced(Plug(Q0, p))
    requires i < Depth(Q0) && Q == SetValueAt(Q0, i, p.value) && c == Node(p.left, n.value, p.ann, p.right)
    ensures ValidDirs(Q) && c.Node? && Balanced(Plug(Q, c)) && Height(c) < Height(n) && c.value == n.value
    ensures var E, k := Elems(Plug(P0, n)), CursorIndex(P0, n);
      var E', k' := Elems(Plug(Q, c)), CursorIndex(Q, c);
      k < |E| && k' < |E'| && |E'| == |E| && RemoveAt(E', k') == RemoveAt(E, k)
  {
    PlugHeight(seg, p);
    SwapBalanced(Q0, p, i, p.value, n.value);
    SwapKeys(P0, n, closest, seg, p, Q0, i);
  }


  /** Trading the cursor's key keeps the tree balanced, since keys play no part in balance. */
  lemma SwapBalanced(path: Path, p: BalTree, i: nat, v: Key, x: Key)
    requires p.Node? && i < Depth(path) && ValidDirs(path) && Balanced(Plug(path, p))
    ensures ValidDirs(SetValueAt(path, i, v))
    ensures Balanced(Plug(SetValueAt(path, i, v), Node(p.left, x, p.ann, p.right)))
  {
    UnplugBalanced(path, p);
    SetValueFits(path, i, v, Height(p));
    PlugBalanced(SetValueAt(path, i, v), Node(p.left, x, p.ann, p.right));
  }

  /**
   * The keys after erase_current's swap, whichever side p came from: the
   * frame n's key occupied now holds p's key, p's node holds n's key.
   */
  lemma SwapKeys(P0: Path, n: BalTree, closest: int, seg: Path, p: BalTree, Q0: Path, i: nat)
    requires closest == 0 || closest == 1
    requires n.Node? && p.Node? && Child(p, 1 - closest).Nil? && AllDir(seg, 1 - closest)
    requires Plug(seg, p) == Child(n, closest)
    requires Q0 == Stack(seg, Below(Frame(closest, n.value, n.ann, Child(n, 1 - closest)), P0)) && i == Depth(seg)
    ensures i < Depth(Q0)
    ensures var Q := SetValueAt(Q0, i, p.value);
      var E, k := Elems(Plug(P0, n)), CursorIndex(P0, n);
      var E', k' := Elems(Plug(Q, Node(p.left, n.value, p.ann, p.right))), CursorIndex(Q, Node(p.left, n.value, p.ann, p.right));
      k < |E| && k' < |E'| && |E'| == |E| && RemoveAt(E', k') == RemoveAt(E, k)
  {
    var f := Frame(closest, n.value, n.ann, Child(n, 1 - closest));
    SetValueInStack(seg, f, P0, p.value);
    if closest == 0 {
      assert f.(value := p.value) == Frame(0, p.value, n.ann, n.right);
      SwapLeftRemoves(P0, n, seg, p);
    } else {
      assert f.(value := p.value) == Frame(1, p.value, n.ann, n.left);
      SwapRightRemoves(P0, n, seg, p);
    }
  }


  // ----- why 104 links suffice -----

  /** The fewest nodes an AVL tree of height h can have. */
  function FewestNodes(h: nat): nat
  {
    if h == 0 then 0 else if h == 1 then 1 else FewestNodes(h - 1) + FewestNodes(h - 2) + 1
  }

  lemma {:induction false} FewestNodesMono(a: nat, b: nat)
    requires a <= b
    ensures FewestNodes(a) <= FewestNodes(b)
    decreases b
  {
    if a < b {
      FewestNodesMono(a, b - 1);
    }
  }

  /** A balanced tree has at least FewestNodes(height) keys. */
  lemma {:induction false} BalancedSize(t: BalTree)
    requires Balanced(t)
    ensures |Elems(t)| >= FewestNodes(Height(t))
  {
    if t.Node? {
      BalancedSize(t.left);
      BalancedSize(t.right);
      var h := Height(t);
      if h >= 2 {
        FewestNodesMono(h - 2, Height(t.left));
        FewestNodesMono(h - 2, Height(t.right));
      }
    }
  }

  /** FewestNodes(h) + 1 grows at least like (8/5)^h, as 8 * 8 <= 5 * 8 + 5 * 5. */
  lemma {:induction false} FewestNodesGrowth(h: nat)
    ensures Pow(8, h) <= Pow(5, h) * (FewestNodes(h) + 1)
  {
    if h >= 2 {
      FewestNodesGrowth(h - 1);
      FewestNodesGrowth(h - 2);
      GrowthStep(Pow(8, h - 2), Pow(5, h - 2), FewestNodes(h - 1) + 1, FewestNodes(h - 2) + 1);
    }
  }

  /** The arithmetic of one step of FewestNodesGrowth. */
  lemma GrowthStep(p8: nat, p5: nat, g1: nat, g2: nat)
    requires 8 * p8 <= 5 * p5 * g1 && p8 <= p5 * g2
    ensures 8 * (8 * p8) <= 5 * (5 * p5) * (g1 + g2)
  {
    assert 5 * (5 * p5) * (g1 + g2) == 5 * (5 * p5 * g1) + 25 * (p5 * g2);
  }

  /** Fewer keys than (8/5)^n rule out height n. */
  lemma ManyNodes(n: nat, m: nat)
    requires Pow(5, n) * m < Pow(8, n)
    ensures m <= FewestNodes(n)
  {
    FewestNodesGrowth(n);
    CancelFactor(Pow(5, n), m, FewestNodes(n) + 1);
  }

  /**
   * kMaxLevels is ample: a balanced tree with fewer than 2^64 keys is less
   * than 96 levels tall.
   */
  lemma HeightBound(t: BalTree)
    requires Balanced(t) && |Elems(t)| < 0x1_0000_0000_0000_0000
    ensures Height(t) < 96
  {
    if Height(t) >= 96 {
      BalancedSize(t);
      FewestNodesMono(96, Height(t));
      Bound96();
      ManyNodes(96, Pow(2, 64));
      TwoTo64();
    }
  }

  // ----- Insert -----

  /**
   * One step of Insert's descent: a key below data sends the walk right,
   * anything else left, so the keys left of the cursor stay below data and
   * those right of it stay at or above it.
   */
  lemma DescendStep(path: Path, n: BalTree, data: Key)
    requires n.Node? && Sorted(Lefts(path) + Elems(n) + Rights(path))
    requires AllLess(Lefts(path), data) && AllGreaterEq(Rights(path), data)
    ensures var idx := if Less(n.value, data) then 1 else 0;
      var p := Below(Frame(idx, n.value, n.ann, Child(n, 1 - idx)), path);
      AllLess(Lefts(p), data) && AllGreaterEq(Rights(p), data)
  {
    var L, R, v := Lefts(path), Rights(path), n.value;
    var El, Er := Elems(n.left), Elems(n.right);
    assert L + Elems(n) + R == (L + El) + [v] + (Er + R);
    SortedParts(L + El, v, Er + R);
    if Less(v, data) {
      forall k | k in L + El + [v] ensures Less(k, data) {
        if k in L {
        } else if k in El {
          assert k in L + El;
          LessEqLessTransitive(k, v, data);
        }
      }
    } else {
      NotLess(v, data);
      forall k | k in [v] + Er + R ensures LessEq(data, k) {
        if k in R {
        } else if k in Er {
          assert k in Er + R;
          LessEqTransitive(data, v, k);
        }
      }
    }
  }

  /** Where the descent ends, hanging the new leaf puts data right after the keys below it. */
  lemma LeafPlacement(path: Path, tree: BalTree, data: Key)
    requires path.Below? && Plug(path, Nil) == tree
    requires AllLess(Lefts(path), data) && AllGreaterEq(Rights(path), data)
    requires path.frame.dir == 0 || path.frame.dir == 1
    requires Sorted(Elems(tree))
    ensures Sorted(InsertAt(Elems(tree), CountLess(Elems(tree), data), data))
    ensures Child(Attach(path.frame, Nil), path.frame.dir).Nil?
    ensures Elems(Plug(path.up, WithChild(Attach(path.frame, Nil), path.frame.dir, Leaf(data)))) ==
      InsertAt(Elems(tree), CountLess(Elems(tree), data), data)
  {
    var L, R := Lefts(path), Rights(path);
    PlugElems(path, Nil);
    assert Elems(tree) == L + R;
    CountLessAt(L, R, data);
    InsertAtSeam(L, R, data);
    AttachChildren(path.frame, Nil);
    AttachChildren(path.frame, Leaf(data));
    PlugElems(path, Leaf(data));
    InsertBeforeEqualSorted(Elems(tree), data);
  }

  /**
   * Insert: descend from the root (a key below data goes right, anything
   * else left, so data lands before the keys equal to it), then hang a leaf
   * in the empty slot and rebalance upwards. Fewer than 2^64 keys keep the
   * descent within the link stack.
   */
  method Insert(tree: BalTree, data: Key) returns (r: BalTree)
    requires Balanced(tree) && Sorted(Elems(tree)) && |Elems(tree)| < 0x1_0000_0000_0000_0000
    ensures Balanced(r) && Sorted(Elems(r))
    ensures Elems(r) == InsertAt(Elems(tree), CountLess(Elems(tree), data), data)
  {
    if tree.Nil? {
      return Leaf(data);
    }
    HeightBound(tree);
    var path := new TreePath(tree);
    var node := tree;
    while true
      invariant path.Whole() == tree && path.current == node
      invariant ValidDirs(path.parents)
      invariant Depth(path.parents) + Height(node) <= Height(tree)
      invariant AllLess(Lefts(path.parents), data) && AllGreaterEq(Rights(path.parents), data)
      invariant node.Node?
      decreases Height(tree) - Depth(path.parents)
    {
      PlugElems(path.parents, node);
      DescendStep(path.parents, node, data);
      if Less(node.value, data) {
        node := path.MoveDown(1);
      } else {
        node := path.MoveDown(0);
      }
      if node.Nil? {
        break;
      }
    }
    LeafPlacement(path.parents, tree, data);
    var idx := path.MoveUpReturnIdx();
    path.InsertLeaf(data, idx);
    r := path.Whole();
  }

  /** LowerBound: the smallest stored key not below str, or None. */
  method LowerBound(root: BalTree, str: Key) returns (r: Option<Key>)
    requires Sorted(Elems(root))
    ensures r == OrderedSet.LowerBound(Elems(root), str)
  {
    r := FindLowerBound(root, str);
  }

  // ----- Validate -----

  /** Validate's Checker: an in-order walk remembering the last key seen. */
  class Checker {
    var prevSeen: Option<Key>

    constructor()
      ensures prevSeen == None
    {
      prevSeen := None;
    }

    /**
     * Checks one subtree and returns its height: keys never decrease along
     * the walk and every stored balance is the actual one. The source aborts
     * where this returns false.
     */
    method Rec(t: BalTree) returns (h: int, ok: bool)
      modifies this
      decreases t
      ensures ok <==> BalanceExact(t) && Sorted(Seen(old(prevSeen)) + Elems(t))
      ensures ok ==> h == Height(t) && prevSeen == LastOf(Seen(old(prevSeen)) + Elems(t))
    {
      if t.Nil? {
        assert Seen(prevSeen) + Elems(t) == Seen(prevSeen);
        return 0, true;
      }
      SortedWalk(Seen(prevSeen), Elems(t.left), t.value, Elems(t.right));
      var leftHeight, leftOk := Rec(t.left);
      if !leftOk {
        return 0, false;
      }
      SeenNext(prevSeen, t.value);
      if prevSeen.Some? && Less(t.value, prevSeen.value) {
        return 0, false;
      }
      prevSeen := Some(t.value);
      var rightHeight, rightOk := Rec(t.right);
      if !rightOk {
        return 0, false;
      }
      var actualBalance := rightHeight - leftHeight;
      if t.ann != actualBalance {
        return 0, false;
      }
      return Max(leftHeight, rightHeight) + 1, true;
    }
  }

  /** Validate: the checks pass exactly when every balance is exact and in-order keys never decrease. */
  method Validate(t: BalTree) returns (ok: bool)
    ensures ok <==> BalanceExact(t) && Sorted(Elems(t))
  {
    var checker := new Checker();
    assert Seen(checker.prevSeen) + Elems(t) == Elems(t);
    var height;
    height, ok := checker.Rec(t);
  }
}
