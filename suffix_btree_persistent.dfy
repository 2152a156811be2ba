// The persistent B-tree variant of the suffix index: refcounted, logically
// immutable nodes holding up to kWidth keys (internal) or kLeafWidth keys
// (leaves). Insert rebuilds the path from the root, splitting the run of full
// nodes it meets on a second pass; a fast path rewrites one child pointer in
// place when nothing on the path is shared.
//
// Nodes are values here. A node's `refcount` is the count the node carried
// when the operation started; the model reads it (TryFastPath does) but does
// not recompute the counts of nodes that become shared.

module PersistentBTree {
  import opened Keys
  import opened OrderedSet

  // ----- node geometry on a 64-bit target -----

  /** sizeof(NodePtr): one pointer. */
  const kPointerSize := 8
  /** sizeof(std::string_view): a pointer and a length. */
  const kViewSize := 16

  const kWidth := 19
  const kInternalPointersOffset := kWidth * kViewSize
  const kInternalSize := (kWidth + 1) * kPointerSize + kInternalPointersOffset
  /** A leaf packs as many keys as an internal node's whole storage holds. */
  const kLeafWidth := kInternalSize / kViewSize

  lemma Widths()
    ensures kLeafWidth == 29 && kLeafWidth / 2 == 14 && kWidth / 2 == 9
  {
  }

  // ----- span operations -----

  /** The list `elements` with `value` placed at index pos, read element by element. */
  function InsertOp<T>(elements: seq<T>, pos: nat, value: T): (r: seq<T>)
    requires pos <= |elements|
    ensures |r| == |elements| + 1
    ensures r == elements[..pos] + [value] + elements[pos..]
  {
    var r := seq(|elements| + 1, i requires 0 <= i < |elements| + 1 =>
      if i < pos then elements[i] else if i == pos then value else elements[i - 1]);
    assert r == elements[..pos] + [value] + elements[pos..];
    r
  }

  /** The list `elements` with index pos reading `value`, read element by element. */
  function ReplaceOp<T>(elements: seq<T>, pos: nat, value: T): (r: seq<T>)
    requires pos < |elements|
    ensures |r| == |elements|
    ensures r == elements[pos := value]
  {
    seq(|elements|, i requires 0 <= i < |elements| => if i == pos then value else elements[i])
  }

  // ----- nodes -----

  datatype Node =
    | Leaf(keys: seq<Key>, refcount: int)
    | Internal(keys: seq<Key>, children: seq<Node>, refcount: int)

  /** The outcome of splitting a full node: two halves and the key between them. */
  datatype SplitRes = SplitRes(left: Node, key: Key, right: Node)

  /**
   * parts[lo] ++ [keys[lo]] ++ parts[lo+1] ++ ... ++ [keys[hi-2]] ++ parts[hi-1]:
   * the in-order keys of children lo..hi-1 with the separating keys between.
   */
  function Join(keys: seq<Key>, parts: seq<seq<Key>>, lo: nat, hi: nat): seq<Key>
    requires lo < hi <= |parts| && hi <= |keys| + 1
    decreases hi
  {
    if hi == lo + 1 then parts[lo]
    else Join(keys, parts, lo, hi - 1) + [keys[hi - 2]] + parts[hi - 1]
  }

  /** The in-order keys of a subtree. */
  function Elems(n: Node): seq<Key>
  {
    match n
    case Leaf(keys, _) => keys
    case Internal(keys, children, _) =>
      if |children| == |keys| + 1 then
        Join(keys, seq(|children|, i requires 0 <= i < |children| => Elems(children[i])), 0, |children|)
      else keys
  }

  /** The in-order keys of each child. */
  function Parts(children: seq<Node>): (r: seq<seq<Key>>)
    ensures |r| == |children|
    ensures forall i :: 0 <= i < |children| ==> r[i] == Elems(children[i])
  {
    seq(|children|, i requires 0 <= i < |children| => Elems(children[i]))
  }

  predicate WellFormed(n: Node)
  {
    n.Internal? ==> |n.children| == |n.keys| + 1
  }

  lemma ElemsInternal(n: Node)
    requires n.Internal? && WellFormed(n)
    ensures Elems(n) == Join(n.keys, Parts(n.children), 0, |n.children|)
  {
  }

  // ----- Join -----

  lemma Regroup(a: seq<Key>, b: seq<Key>, c: seq<Key>, d: seq<Key>)
    ensures a + b + (c + d) == (a + b) + c + d
  {
  }

  /** A run of children splits at any separator inside it. */
  lemma {:induction false} JoinSplit(keys: seq<Key>, parts: seq<seq<Key>>, lo: nat, m: nat, hi: nat)
    requires lo < m < hi <= |parts| && hi <= |keys| + 1
    ensures Join(keys, parts, lo, hi) == Join(keys, parts, lo, m) + [keys[m - 1]] + Join(keys, parts, m, hi)
    decreases hi
  {
    if hi > m + 1 {
      JoinSplit(keys, parts, lo, m, hi - 1);
      Regroup(Join(keys, parts, lo, m), [keys[m - 1]], Join(keys, parts, m, hi - 1),
              [keys[hi - 2]] + parts[hi - 1]);
    }
  }

  /** A run depends only on its own children and separators, wherever they sit. */
  lemma {:induction false} JoinFrame(keys: seq<Key>, parts: seq<seq<Key>>, lo: nat, hi: nat,
                                     keys': seq<Key>, parts': seq<seq<Key>>, lo': nat, hi': nat)
    requires lo < hi <= |parts| && hi <= |keys| + 1
    requires hi' - lo' == hi - lo && hi' <= |parts'| && hi' <= |keys'| + 1
    requires forall i :: lo <= i < hi ==> parts'[i - lo + lo'] == parts[i]
    requires forall i :: lo <= i < hi - 1 ==> keys'[i - lo + lo'] == keys[i]
    ensures Join(keys', parts', lo', hi') == Join(keys, parts, lo, hi)
    decreases hi
  {
    if hi > lo + 1 {
      JoinFrame(keys, parts, lo, hi - 1, keys', parts', lo', hi' - 1);
      assert parts'[hi - 1 - lo + lo'] == parts[hi - 1];
      assert keys'[hi - 2 - lo + lo'] == keys[hi - 2];
    } else {
      assert parts'[lo - lo + lo'] == parts[lo];
    }
  }

  /** Everything before part pos. */
  function Before(keys: seq<Key>, parts: seq<seq<Key>>, pos: nat): seq<Key>
    requires |parts| == |keys| + 1 && pos < |parts|
  {
    if pos == 0 then [] else Join(keys, parts, 0, pos) + [keys[pos - 1]]
  }

  /** Everything after part pos. */
  function After(keys: seq<Key>, parts: seq<seq<Key>>, pos: nat): seq<Key>
    requires |parts| == |keys| + 1 && pos < |parts|
  {
    if pos == |keys| then [] else [keys[pos]] + Join(keys, parts, pos + 1, |parts|)
  }

  /** The whole join seen from one of its parts. */
  lemma JoinAt(keys: seq<Key>, parts: seq<seq<Key>>, pos: nat)
    requires |parts| == |keys| + 1 && pos < |parts|
    ensures Join(keys, parts, 0, |parts|) == Before(keys, parts, pos) + parts[pos] + After(keys, parts, pos)
  {
    var n := |parts|;
    if pos + 1 < n {
      JoinSplit(keys, parts, pos, pos + 1, n);
    }
    if pos > 0 {
      JoinSplit(keys, parts, 0, pos, n);
      Regroup(Join(keys, parts, 0, pos), [keys[pos - 1]], parts[pos], After(keys, parts, pos));
    }
  }

  /** A run depends only on its own parts. */
  lemma {:induction false} JoinSame(keys: seq<Key>, parts: seq<seq<Key>>, parts': seq<seq<Key>>, lo: nat, hi: nat)
    requires lo < hi <= |parts| == |parts'| && hi <= |keys| + 1
    requires forall i :: lo <= i < hi ==> parts'[i] == parts[i]
    ensures Join(keys, parts', lo, hi) == Join(keys, parts, lo, hi)
    decreases hi
  {
    if hi > lo + 1 {
      JoinSame(keys, parts, parts', lo, hi - 1);
    }
  }

  /** Replacing part pos leaves what lies around it alone. */
  lemma AroundReplaced(keys: seq<Key>, parts: seq<seq<Key>>, pos: nat, x: seq<Key>)
    requires |parts| == |keys| + 1 && pos < |parts|
    ensures Before(keys, parts[pos := x], pos) == Before(keys, parts, pos)
    ensures After(keys, parts[pos := x], pos) == After(keys, parts, pos)
  {
    if pos > 0 {
      JoinSame(keys, parts, parts[pos := x], 0, pos);
    }
    if pos < |keys| {
      JoinSame(keys, parts, parts[pos := x], pos + 1, |parts|);
    }
  }

  // ----- building nodes -----

  /** A new leaf over the given keys, linked into one place. */
  function MakeLeaf(keys: seq<Key>): (r: Node)
    requires 0 < |keys| <= kLeafWidth
    ensures r.Leaf? && r.keys == keys && r.refcount == 1
  {
    Leaf(keys, 1)
  }

  /** A new internal node over the given keys and children, linked into one place. */
  function MakeInternal(keys: seq<Key>, children: seq<Node>): (r: Node)
    requires |children| == |keys| + 1 && 0 < |keys| <= kWidth
    ensures r.Internal? && WellFormed(r) && r.keys == keys && r.children == children && r.refcount == 1
  {
    Internal(keys, children, 1)
  }

  predicate CanInsertInLeaf(n: Node)
    requires n.Leaf?
  {
    |n.keys| < kLeafWidth
  }

  predicate CanInsertInInternal(n: Node)
    requires n.Internal?
  {
    |n.keys| < kWidth
  }

  /** A node with no room for one more key. */
  predicate Full(n: Node)
  {
    if n.Leaf? then !CanInsertInLeaf(n) else !CanInsertInInternal(n)
  }

  /** The index of the first key not below value (std::lower_bound over the node's keys). */
  function FindInsertPos(n: Node, value: Key): (pos: nat)
    requires Sorted(n.keys)
    ensures pos <= |n.keys|
    ensures forall i :: 0 <= i < pos ==> Less(n.keys[i], value)
    ensures forall i :: pos <= i < |n.keys| ==> LessEq(value, n.keys[i])
  {
    CountLessSplits(n.keys, value);
    CountLess(n.keys, value)
  }

  /** A full leaf cut around its middle key. */
  function SplitLeaf(n: Node): (r: SplitRes)
    requires n.Leaf? && |n.keys| == kLeafWidth
    ensures r.left.Leaf? && r.right.Leaf?
    ensures |r.left.keys| == |r.right.keys| == kLeafWidth / 2
    ensures r.left.keys + [r.key] + r.right.keys == n.keys
  {
    var mid := kLeafWidth / 2;
    var keys := n.keys;
    assert keys == keys[..mid] + [keys[mid]] + keys[mid + 1..];
    SplitRes(MakeLeaf(keys[..mid]), keys[mid], MakeLeaf(keys[mid + 1..]))
  }

  /** The internal node over keys[from..to) and children[from..to]. */
  function Slice(n: Node, from: nat, to: nat): (r: Node)
    requires n.Internal? && WellFormed(n) && from < to <= |n.keys| && to - from <= kWidth
    ensures r.Internal? && WellFormed(r)
  {
    MakeInternal(n.keys[from..to], n.children[from..to + 1])
  }

  /** A full internal node cut around its middle key, children following their keys. */
  function SplitInternal(n: Node): (r: SplitRes)
    requires n.Internal? && WellFormed(n) && |n.keys| == kWidth
    ensures r.left.Internal? && r.right.Internal? && WellFormed(r.left) && WellFormed(r.right)
    ensures |r.left.keys| == |r.right.keys| == kWidth / 2
    ensures r.left.keys + [r.key] + r.right.keys == n.keys
    ensures r.left.children + r.right.children == n.children
  {
    var mid := kWidth / 2;
    var keys := n.keys;
    assert keys == keys[..mid] + [keys[mid]] + keys[mid + 1..];
    assert n.children == n.children[..mid + 1] + n.children[mid + 1..];
    SplitRes(Slice(n, 0, mid), keys[mid], Slice(n, mid + 1, kWidth))
  }

  /** Splitting whichever kind of node is full. */
  function Split(n: Node): (r: SplitRes)
    requires WellFormed(n) && |n.keys| == (if n.Leaf? then kLeafWidth else kWidth)
  {
    if n.Leaf? then SplitLeaf(n) else SplitInternal(n)
  }

  /** A copy of n whose child childIndex is newChild. */
  function ReplaceChild(n: Node, childIndex: nat, newChild: Node): (r: Node)
    requires n.Internal? && WellFormed(n) && 0 < |n.keys| <= kWidth && childIndex <= |n.keys|
    ensures r.Internal? && WellFormed(r) && r.keys == n.keys && r.refcount == 1
    ensures r.children == n.children[childIndex := newChild]
  {
    MakeInternal(n.keys, ReplaceOp(n.children, childIndex, newChild))
  }

  /** A copy of leaf n with value placed at pos. */
  function InsertIntoLeaf(n: Node, pos: nat, value: Key): (r: Node)
    requires n.Leaf? && |n.keys| < kLeafWidth && pos <= |n.keys|
    ensures r.Leaf? && Elems(r) == OrderedSet.InsertAt(Elems(n), pos, value)
  {
    MakeLeaf(InsertOp(n.keys, pos, value))
  }

  /** A copy of n with child pos replaced by the two halves of split and its key between them. */
  function InsertIntoInternal(n: Node, pos: nat, split: SplitRes): (r: Node)
    requires n.Internal? && WellFormed(n) && |n.keys| < kWidth && pos <= |n.keys|
    ensures r.Internal? && WellFormed(r)
    ensures r.keys == n.keys[..pos] + [split.key] + n.keys[pos..]
    ensures r.children == n.children[..pos] + [split.left, split.right] + n.children[pos + 1..]
  {
    var children := InsertOp(ReplaceOp(n.children, pos, split.right), pos, split.left);
    assert children == n.children[..pos] + [split.left, split.right] + n.children[pos + 1..];
    MakeInternal(InsertOp(n.keys, pos, split.key), children)
  }

  /** A new root over the two halves of a split. */
  function MakeInternalFromSplit(split: SplitRes): (r: Node)
    ensures r.Internal? && WellFormed(r) && r.keys == [split.key]
    ensures r.children == [split.left, split.right]
  {
    MakeInternal([split.key], [split.left, split.right])
  }

  // ----- in-order keys of the built nodes -----

  /** The keys before child pos of n, in order. */
  function Lefts(n: Node, pos: nat): seq<Key>
    requires n.Internal? && WellFormed(n) && pos < |n.children|
  {
    Before(n.keys, Parts(n.children), pos)
  }

  /** The keys after child pos of n, in order. */
  function Rights(n: Node, pos: nat): seq<Key>
    requires n.Internal? && WellFormed(n) && pos < |n.children|
  {
    After(n.keys, Parts(n.children), pos)
  }

  lemma ElemsAround(n: Node, pos: nat)
    requires n.Internal? && WellFormed(n) && pos < |n.children|
    ensures Elems(n) == Lefts(n, pos) + Elems(n.children[pos]) + Rights(n, pos)
  {
    JoinAt(n.keys, Parts(n.children), pos);
  }

  /** Swapping child pos of an internal node swaps that child's run of keys and nothing else. */
  lemma ChildSwapped(n: Node, pos: nat, c: Node, refcount: int)
    requires n.Internal? && WellFormed(n) && pos < |n.children|
    ensures Elems(Internal(n.keys, n.children[pos := c], refcount)) == Lefts(n, pos) + Elems(c) + Rights(n, pos)
  {
    var parts := Parts(n.children);
    assert Parts(n.children[pos := c]) == parts[pos := Elems(c)];
    JoinAt(n.keys, parts[pos := Elems(c)], pos);
    AroundReplaced(n.keys, parts, pos, Elems(c));
  }

  /** A join cut at separator mid into the joins of the two sides. */
  lemma JoinCut(keys: seq<Key>, parts: seq<seq<Key>>, mid: nat)
    requires |parts| == |keys| + 1 && mid < |keys|
    ensures Join(keys, parts, 0, |parts|) ==
      Join(keys[..mid], parts[..mid + 1], 0, mid + 1) + [keys[mid]] +
      Join(keys[mid + 1..], parts[mid + 1..], 0, |parts| - mid - 1)
  {
    var m := |parts|;
    JoinSplit(keys, parts, 0, mid + 1, m);
    JoinFrame(keys, parts, 0, mid + 1, keys[..mid], parts[..mid + 1], 0, mid + 1);
    JoinFrame(keys, parts, mid + 1, m, keys[mid + 1..], parts[mid + 1..], 0, m - mid - 1);
  }

  lemma SplitInternalElems(n: Node)
    requires n.Internal? && WellFormed(n) && |n.keys| == kWidth
    ensures var r := SplitInternal(n); Elems(r.left) + [r.key] + Elems(r.right) == Elems(n)
  {
    var mid := kWidth / 2;
    var parts := Parts(n.children);
    var r := SplitInternal(n);
    assert Parts(r.left.children) == parts[..mid + 1];
    assert Parts(r.right.children) == parts[mid + 1..];
    JoinCut(n.keys, parts, mid);
  }

  /** The two halves of a split and the key between them hold the node's keys in order. */
  lemma SplitElems(n: Node)
    requires WellFormed(n) && |n.keys| == (if n.Leaf? then kLeafWidth else kWidth)
    ensures Elems(Split(n).left) + [Split(n).key] + Elems(Split(n).right) == Elems(n)
  {
    if n.Internal? {
      SplitInternalElems(n);
    }
  }

  /** The keys and parts of a node once part pos is replaced by pl, k, pr. */
  lemma {:induction false} JoinInstalled(keys: seq<Key>, parts: seq<seq<Key>>, pos: nat,
                                         k: Key, pl: seq<Key>, pr: seq<Key>)
    requires |parts| == |keys| + 1 && pos < |parts|
    ensures var keys', parts' := keys[..pos] + [k] + keys[pos..], parts[..pos] + [pl, pr] + parts[pos + 1..];
      |parts'| == |keys'| + 1 &&
      Join(keys', parts', 0, |parts'|) == Before(keys, parts, pos) + (pl + [k] + pr) + After(keys, parts, pos)
  {
    var keys', parts' := keys[..pos] + [k] + keys[pos..], parts[..pos] + [pl, pr] + parts[pos + 1..];
    var m := |parts|;
    JoinSplit(keys', parts', 0, pos + 1, m + 1);
    InstalledLeft(keys, parts, pos, k, pl, pr);
    InstalledRight(keys, parts, pos, k, pl, pr);
    Regroup(Before(keys, parts, pos), pl + [k], pr, After(keys, parts, pos));
  }

  lemma InstalledLeft(keys: seq<Key>, parts: seq<seq<Key>>, pos: nat, k: Key, pl: seq<Key>, pr: seq<Key>)
    requires |parts| == |keys| + 1 && pos < |parts|
    ensures var keys', parts' := keys[..pos] + [k] + keys[pos..], parts[..pos] + [pl, pr] + parts[pos + 1..];
      Join(keys', parts', 0, pos + 1) == Before(keys, parts, pos) + pl
  {
    var keys', parts' := keys[..pos] + [k] + keys[pos..], parts[..pos] + [pl, pr] + parts[pos + 1..];
    if pos > 0 {
      JoinFrame(keys, parts, 0, pos, keys', parts', 0, pos);
    }
  }

  /** The parts and keys after the replaced part only move one place on. */
  lemma JoinShifted(keys: seq<Key>, parts: seq<seq<Key>>, pos: nat, k: Key, pl: seq<Key>, pr: seq<Key>)
    requires |parts| == |keys| + 1 && pos + 1 < |parts|
    ensures var keys', parts' := keys[..pos] + [k] + keys[pos..], parts[..pos] + [pl, pr] + parts[pos + 1..];
      Join(keys', parts', pos + 2, |parts| + 1) == Join(keys, parts, pos + 1, |parts|)
  {
    var keys', parts' := keys[..pos] + [k] + keys[pos..], parts[..pos] + [pl, pr] + parts[pos + 1..];
    var m := |parts|;
    forall i | pos + 1 <= i < m
      ensures parts'[i - (pos + 1) + (pos + 2)] == parts[i]
    {
    }
    forall i | pos + 1 <= i < m - 1
      ensures keys'[i - (pos + 1) + (pos + 2)] == keys[i]
    {
    }
    JoinFrame(keys, parts, pos + 1, m, keys', parts', pos + 2, m + 1);
  }

  lemma InstalledRight(keys: seq<Key>, parts: seq<seq<Key>>, pos: nat, k: Key, pl: seq<Key>, pr: seq<Key>)
    requires |parts| == |keys| + 1 && pos < |parts|
    ensures var keys', parts' := keys[..pos] + [k] + keys[pos..], parts[..pos] + [pl, pr] + parts[pos + 1..];
      Join(keys', parts', pos + 1, |parts'|) == pr + After(keys, parts, pos)
  {
    var keys', parts' := keys[..pos] + [k] + keys[pos..], parts[..pos] + [pl, pr] + parts[pos + 1..];
    var m := |parts|;
    if pos + 1 < m {
      var tail := Join(keys, parts, pos + 1, m);
      JoinShifted(keys, parts, pos, k, pl, pr);
      JoinSplit(keys', parts', pos + 1, pos + 2, m + 1);
      assert keys'[pos + 1] == keys[pos];
      Associate(pr, [keys[pos]], tail);
    }
  }

  /** Installing a split of child pos in place of that child keeps the node's keys in order. */
  lemma InstalledSplit(n: Node, pos: nat, split: SplitRes)
    requires n.Internal? && WellFormed(n) && |n.keys| < kWidth && pos <= |n.keys|
    requires Elems(split.left) + [split.key] + Elems(split.right) == Elems(n.children[pos])
    ensures Elems(InsertIntoInternal(n, pos, split)) == Elems(n)
  {
    var r := InsertIntoInternal(n, pos, split);
    var parts := Parts(n.children);
    assert Parts(r.children) == parts[..pos] + [Elems(split.left), Elems(split.right)] + parts[pos + 1..];
    JoinInstalled(n.keys, parts, pos, split.key, Elems(split.left), Elems(split.right));
    JoinAt(n.keys, parts, pos);
  }

  // ----- node sizes and leaf depth -----

  /** Levels from n down to its leaves, along the first child. */
  function Height(n: Node): nat
  {
    if n.Leaf? || |n.children| == 0 then 1 else 1 + Height(n.children[0])
  }

  /** The fewest keys Validate accepts in a node. */
  function MinKeys(n: Node, isRoot: bool): int
  {
    if n.Leaf? then (if isRoot then 1 else (kLeafWidth - 1) / 2) / 2
    else if isRoot then 1 else (kWidth - 1) / 2
  }

  function MaxKeys(n: Node): int
  {
    if n.Leaf? then kLeafWidth else kWidth
  }

  predicate SizeOk(n: Node, isRoot: bool)
  {
    MinKeys(n, isRoot) <= |n.keys| <= MaxKeys(n)
  }

  /**
   * Every node within the size bounds, every internal node one child more
   * than keys, and all leaves at the same depth.
   */
  predicate Shaped(n: Node, isRoot: bool)
  {
    SizeOk(n, isRoot) && WellFormed(n) &&
    (n.Internal? ==>
      forall i :: 0 <= i < |n.children| ==>
        Shaped(n.children[i], false) && Height(n.children[i]) == Height(n.children[0]))
  }

  lemma ShapedChild(n: Node, isRoot: bool, i: nat)
    requires Shaped(n, isRoot) && n.Internal? && i < |n.children|
    ensures Shaped(n.children[i], false) && Height(n.children[i]) + 1 == Height(n)
  {
  }

  /** The halves of a full node are shaped, have room, and sit at the node's height. */
  lemma SplitShaped(n: Node, isRoot: bool)
    requires Shaped(n, isRoot) && |n.keys| == MaxKeys(n)
    ensures var r := Split(n);
      Shaped(r.left, false) && Shaped(r.right, false) && !Full(r.left) && !Full(r.right) &&
      Height(r.left) == Height(n) && Height(r.right) == Height(n)
  {
    if n.Internal? {
      var r := SplitInternal(n);
      var mid := kWidth / 2;
      assert r.left.children == n.children[..mid + 1];
      assert r.right.children == n.children[mid + 1..];
      assert r.right.children[0] == n.children[mid + 1];
    }
  }

  /** Swapping in a shaped child of the same height keeps a node shaped. */
  lemma SwappedShaped(n: Node, isRoot: bool, pos: nat, c: Node, refcount: int)
    requires Shaped(n, isRoot) && n.Internal? && pos < |n.children|
    requires Shaped(c, false) && Height(c) == Height(n.children[pos])
    ensures var r := Internal(n.keys, n.children[pos := c], refcount);
      Shaped(r, isRoot) && Height(r) == Height(n)
  {
    var r := Internal(n.keys, n.children[pos := c], refcount);
    assert Height(n.children[pos]) == Height(n.children[0]);
    assert forall i :: 0 <= i < |r.children| ==> r.children[i] == c || r.children[i] == n.children[i];
  }

  /** Installing shaped halves of child pos keeps a node with room shaped. */
  lemma InstalledShaped(n: Node, isRoot: bool, pos: nat, split: SplitRes)
    requires Shaped(n, isRoot) && n.Internal? && !Full(n) && pos < |n.children|
    requires Shaped(split.left, false) && Shaped(split.right, false)
    requires Height(split.left) == Height(n.children[pos]) && Height(split.right) == Height(n.children[pos])
    ensures var r := InsertIntoInternal(n, pos, split);
      Shaped(r, isRoot) && Height(r) == Height(n)
  {
    var r := InsertIntoInternal(n, pos, split);
    assert Height(n.children[pos]) == Height(n.children[0]);
    assert r.children[0] == if pos == 0 then split.left else n.children[0];
    forall i | 0 <= i < |r.children|
      ensures r.children[i] in {split.left, split.right} || r.children[i] in n.children
    {
    }
  }

  /** A new root over two shaped halves of equal height. */
  lemma FromSplitShaped(split: SplitRes)
    requires Shaped(split.left, false) && Shaped(split.right, false)
    requires Height(split.left) == Height(split.right)
    ensures var r := MakeInternalFromSplit(split);
      Shaped(r, true) && Height(r) == Height(split.left) + 1
  {
  }

  // ----- key order -----

  lemma {:induction false} JoinHasKey(keys: seq<Key>, parts: seq<seq<Key>>, lo: nat, hi: nat, i: nat)
    requires lo < hi <= |parts| && hi <= |keys| + 1 && lo <= i < hi - 1
    ensures keys[i] in Join(keys, parts, lo, hi)
    decreases hi
  {
    if i < hi - 2 {
      JoinHasKey(keys, parts, lo, hi - 1, i);
    }
  }

  /** A node's own keys are in order when its in-order keys are. */
  lemma KeysSorted(n: Node)
    requires WellFormed(n) && StrictlySorted(Elems(n))
    ensures StrictlySorted(n.keys)
  {
    if n.Internal? {
      var keys, parts := n.keys, Parts(n.children);
      forall i, j | 0 <= i < j < |keys| ensures Less(keys[i], keys[j]) {
        JoinAt(keys, parts, j);
        var b, a := Before(keys, parts, j), After(keys, parts, j);
        if i < j - 1 {
          JoinHasKey(keys, parts, 0, j, i);
        }
        assert keys[i] in b && keys[j] in a;
        StrictlySortedAround(b, parts[j], a);
      }
    }
  }

  /**
   * Going down at the insert position: the child's keys sit between everything
   * below value and everything above it.
   */
  lemma Descend(n: Node, value: Key)
    requires n.Internal? && WellFormed(n) && StrictlySorted(Elems(n))
    ensures var pos := CountLess(n.keys, value);
      pos < |n.children| &&
      Elems(n) == Lefts(n, pos) + Elems(n.children[pos]) + Rights(n, pos) &&
      AllLess(Lefts(n, pos), value) && AllGreaterEq(Rights(n, pos), value) &&
      StrictlySorted(Elems(n.children[pos])) &&
      (value !in Elems(n) ==> value !in Elems(n.children[pos]))
  {
    var pos := CountLess(n.keys, value);
    KeysSorted(n);
    CountLessSplits(n.keys, value);
    ElemsAround(n, pos);
    var b, m, a := Lefts(n, pos), Elems(n.children[pos]), Rights(n, pos);
    StrictlySortedAround(b, m, a);
    Bracketed(b, m, a, value);
  }

  /**
   * Replacing the child at the insert position by that child with value
   * inserted inserts value into the node.
   */
  lemma InsertBelow(n: Node, value: Key, c: Node, refcount: int)
    requires n.Internal? && WellFormed(n) && StrictlySorted(Elems(n)) && value !in Elems(n)
    requires var pos := CountLess(n.keys, value);
      pos < |n.children| &&
      Elems(c) == InsertAt(Elems(n.children[pos]), CountLess(Elems(n.children[pos]), value), value)
    ensures var pos := CountLess(n.keys, value);
      Elems(Internal(n.keys, n.children[pos := c], refcount)) ==
        InsertAt(Elems(n), CountLess(Elems(n), value), value)
  {
    var pos := CountLess(n.keys, value);
    var b, m, a := Lefts(n, pos), Elems(n.children[pos]), Rights(n, pos);
    Descend(n, value);
    ChildSwapped(n, pos, c, refcount);
    InsertWithin(Elems(n), b, m, a, value);
  }

  // ----- insertion -----

  /** Every node from n down to the leaf where value belongs is full. */
  predicate FullPath(n: Node, value: Key)
  {
    Full(n) &&
    (n.Internal? && WellFormed(n) ==> FullPath(n.children[CountLess(n.keys, value)], value))
  }

  /**
   * The first pass gives up at n: n is a full leaf, or every node below n
   * down to the leaf where value belongs is full.
   */
  predicate NeedsSplit(n: Node, value: Key)
  {
    if n.Leaf? then Full(n)
    else WellFormed(n) && FullPath(n.children[CountLess(n.keys, value)], value)
  }

  /** The second pass may start at n: n has room and the run below it is full. */
  predicate SplitReady(n: Node, value: Key)
  {
    !Full(n) && (n.Internal? ==> NeedsSplit(n, value))
  }

  /** Below the half of a full internal node that value goes into, the path stays full. */
  lemma HalfPath(n: Node, value: Key)
    requires n.Internal? && WellFormed(n) && |n.keys| == kWidth && StrictlySorted(n.keys)
    requires value != n.keys[kWidth / 2] && FullPath(n, value)
    ensures var r := SplitInternal(n);
      var half := if Less(value, r.key) then r.left else r.right;
      FullPath(half.children[CountLess(half.keys, value)], value)
  {
    var r := SplitInternal(n);
    CountAcross(r.left.keys, r.key, r.right.keys, value);
    var c := CountLess(n.keys, value);
    assert FullPath(n.children[c], value);
    assert n.children == r.left.children + r.right.children;
    if Less(value, r.key) {
      assert r.left.children[c] == n.children[c];
    } else {
      assert r.right.children[c - kWidth / 2 - 1] == n.children[c];
    }
  }

  /**
   * A full path splits into halves of which the one value goes into is
   * ready for the second pass.
   */
  lemma HalfReady(n: Node, isRoot: bool, value: Key)
    requires Shaped(n, isRoot) && StrictlySorted(Elems(n)) && value !in Elems(n) && FullPath(n, value)
    ensures |n.keys| == MaxKeys(n)
    ensures var r := Split(n);
      value != r.key && SplitReady(if Less(value, r.key) then r.left else r.right, value)
  {
    var r := Split(n);
    SplitElems(n);
    assert r.key in Elems(n);
    SplitShaped(n, isRoot);
    var half := if Less(value, r.key) then r.left else r.right;
    assert !Full(half);
    if n.Internal? {
      KeysSorted(n);
      HalfPath(n, value);
      assert NeedsSplit(half, value);
    }
  }

  /** Where value goes among keys once k has been put at value's own position. */
  lemma InsertedCount(keys: seq<Key>, pos: nat, k: Key, value: Key)
    requires pos == CountLess(keys, value) && value != k && Sorted(keys)
    requires StrictlySorted(keys[..pos] + [k] + keys[pos..])
    ensures CountLess(keys[..pos] + [k] + keys[pos..], value) == if Less(value, k) then pos else pos + 1
  {
    CountLessCut(keys, value);
    CountAcross(keys[..pos], k, keys[pos..], value);
  }

  /**
   * The first step of the second pass: splitting the full child on value's
   * path keeps n shaped and its keys, and leaves value's new child ready.
   */
  lemma SplitPath(n: Node, isRoot: bool, value: Key)
    requires Shaped(n, isRoot) && n.Internal? && StrictlySorted(Elems(n)) && value !in Elems(n)
    requires SplitReady(n, value)
    ensures var pos := CountLess(n.keys, value);
      pos < |n.children| && WellFormed(n.children[pos]) &&
      |n.children[pos].keys| == MaxKeys(n.children[pos])
    ensures var pos := CountLess(n.keys, value);
      var n2 := InsertIntoInternal(n, pos, Split(n.children[pos]));
      Shaped(n2, isRoot) && Height(n2) == Height(n) && Elems(n2) == Elems(n) &&
      Sorted(n2.keys) && SplitReady(n2.children[CountLess(n2.keys, value)], value)
  {
    var pos := CountLess(n.keys, value);
    var kid := n.children[pos];
    Descend(n, value);
    ShapedChild(n, isRoot, pos);
    HalfReady(kid, false, value);
    var split := Split(kid);
    SplitShaped(kid, false);
    SplitElems(kid);
    var n2 := InsertIntoInternal(n, pos, split);
    InstalledSplit(n, pos, split);
    InstalledShaped(n, isRoot, pos, split);
    KeysSorted(n2);
    StrictlySortedIsSorted(n2.keys);
    KeysSorted(n);
    StrictlySortedIsSorted(n.keys);
    InsertedCount(n.keys, pos, split.key, value);
    var pos2 := CountLess(n2.keys, value);
    assert pos2 == if Less(value, split.key) then pos else pos + 1;
    var half := if Less(value, split.key) then split.left else split.right;
    assert n2.children[pos2] == half;
    assert SplitReady(half, value);
  }

  /** The child value goes into, with what the recursion needs of it. */
  lemma ChildOnPath(n: Node, isRoot: bool, value: Key)
    requires Shaped(n, isRoot) && n.Internal? && StrictlySorted(Elems(n)) && value !in Elems(n)
    ensures 0 < |n.keys| <= kWidth
    ensures var pos := CountLess(n.keys, value);
      pos < |n.children| && Shaped(n.children[pos], false) &&
      Height(n.children[pos]) < Height(n) &&
      StrictlySorted(Elems(n.children[pos])) && value !in Elems(n.children[pos])
  {
    Descend(n, value);
    ShapedChild(n, isRoot, CountLess(n.keys, value));
  }

  /** Putting the child with value inserted back in place inserts value into n. */
  lemma Reattached(n: Node, isRoot: bool, value: Key, c: Node, refcount: int)
    requires Shaped(n, isRoot) && n.Internal? && StrictlySorted(Elems(n)) && value !in Elems(n)
    requires var pos := CountLess(n.keys, value);
      pos < |n.children| && Grown(n.children[pos], value, c, false)
    ensures Grown(n, value, Internal(n.keys, n.children[CountLess(n.keys, value) := c], refcount), isRoot)
  {
    var pos := CountLess(n.keys, value);
    InsertBelow(n, value, c, refcount);
    SwappedShaped(n, isRoot, pos, c, refcount);
  }

  /**
   * c is b with value inserted at its place in order, shaped as b would be
   * at the same height.
   */
  predicate Grown(b: Node, value: Key, c: Node, isRoot: bool)
  {
    Shaped(c, isRoot) && Height(c) == Height(b) &&
    Elems(c) == InsertAt(Elems(b), CountLess(Elems(b), value), value)
  }

  /** A leaf with room takes value at its insert position. */
  lemma LeafInserted(n: Node, isRoot: bool, value: Key)
    requires Shaped(n, isRoot) && n.Leaf? && !Full(n)
    ensures var r := InsertIntoLeaf(n, CountLess(n.keys, value), value);
      Shaped(r, isRoot) && Height(r) == Height(n) &&
      Elems(r) == InsertAt(Elems(n), CountLess(Elems(n), value), value)
  {
  }

  /**
   * Insertion of value below n: on the first pass (needSplit false) it
   * gives up with None exactly when a run of full nodes ends in a full leaf;
   * on the second pass it splits every node of that run on the way down and
   * always succeeds.
   */
  function Rec(n: Node, value: Key, needSplit: bool, ghost isRoot: bool): (r: Option<Node>)
    requires Shaped(n, isRoot) && StrictlySorted(Elems(n)) && value !in Elems(n)
    requires needSplit ==> SplitReady(n, value)
    ensures needSplit ==> r.Some?
    ensures !needSplit ==> (r.None? <==> NeedsSplit(n, value))
    ensures r.Some? ==> Shaped(r.value, isRoot) && Height(r.value) == Height(n)
    ensures r.Some? ==> Elems(r.value) == InsertAt(Elems(n), CountLess(Elems(n), value), value)
    decreases Height(n), 1
  {
    KeysSorted(n);
    StrictlySortedIsSorted(n.keys);
    var pos := FindInsertPos(n, value);
    if n.Leaf? then
      if !CanInsertInLeaf(n) then None
      else
        LeafInserted(n, isRoot, value);
        Some(InsertIntoLeaf(n, pos, value))
    else if needSplit then
      Some(RecSplitting(n, value, isRoot))
    else
      ChildOnPath(n, isRoot, value);
      var kid := n.children[pos];
      var newKid := Rec(kid, value, false, false);
      if newKid.None? && !(kid.Internal? && CanInsertInInternal(kid)) then None
      else
        var newKid := if newKid.Some? then newKid else Rec(kid, value, true, false);
        Reattached(n, isRoot, value, newKid.value, 1);
        Some(ReplaceChild(n, pos, newKid.value))
  }

  /**
   * The second pass at an internal node: split the full child on value's
   * path, then insert into the half value belongs to, splitting on down.
   */
  function RecSplitting(n: Node, value: Key, ghost isRoot: bool): (r: Node)
    requires Shaped(n, isRoot) && n.Internal? && StrictlySorted(Elems(n)) && value !in Elems(n)
    requires SplitReady(n, value)
    ensures Shaped(r, isRoot) && Height(r) == Height(n)
    ensures Elems(r) == InsertAt(Elems(n), CountLess(Elems(n), value), value)
    decreases Height(n), 0
  {
    SplitPath(n, isRoot, value);
    var pos := CountLess(n.keys, value);
    var n2 := InsertIntoInternal(n, pos, Split(n.children[pos]));
    ChildOnPath(n2, isRoot, value);
    var pos2 := FindInsertPos(n2, value);
    var kid := Rec(n2.children[pos2], value, true, false);
    Reattached(n2, isRoot, value, kid.value, 1);
    ReplaceChild(n2, pos2, kid.value)
  }

  // ----- lower bound -----

  /**
   * The smallest key of n not below str: the answer below the child str
   * belongs in, or failing that the key just after that child.
   */
  function LowerBoundRec(n: Node, str: Key, ghost isRoot: bool): (r: Option<Key>)
    requires Shaped(n, isRoot) && StrictlySorted(Elems(n))
    ensures Sorted(Elems(n)) && r == OrderedSet.LowerBound(Elems(n), str)
    decreases Height(n)
  {
    StrictlySortedIsSorted(Elems(n));
    KeysSorted(n);
    StrictlySortedIsSorted(n.keys);
    var pos := FindInsertPos(n, str);
    if n.Leaf? then
      if pos == |n.keys| then None else Some(n.keys[pos])
    else
      Descend(n, str);
      ShapedChild(n, isRoot, pos);
      StrictlySortedIsSorted(Elems(n.children[pos]));
      var childResult := LowerBoundRec(n.children[pos], str, false);
      LowerBoundAround(Lefts(n, pos), Elems(n.children[pos]), Rights(n, pos), str);
      if childResult.None? && pos < |n.keys| then Some(n.keys[pos]) else childResult
  }

  // ----- the refcount-1 fast path -----

  /**
   * The fast path applies below n: n and every internal node under it on
   * value's path have reference count 1, and the leaf at the end has room.
   */
  predicate FastPath(n: Node, value: Key)
  {
    n.Internal? && WellFormed(n) && n.refcount == 1 &&
    var child := n.children[CountLess(n.keys, value)];
    if child.Leaf? then !Full(child) else FastPath(child, value)
  }

  /**
   * The tree after the fast path's write: the leaf at the end of value's
   * path takes value and is linked into its parent in place, so every node
   * above it keeps its keys and its reference count. None when the fast
   * path does not apply.
   */
  function FastInsert(n: Node, value: Key, ghost isRoot: bool): (r: Option<Node>)
    requires n.Internal? && Shaped(n, isRoot) && StrictlySorted(Elems(n)) && value !in Elems(n)
    ensures r.Some? <==> FastPath(n, value)
    ensures r.Some? ==>
      Grown(n, value, r.value, isRoot) && r.value.keys == n.keys && r.value.refcount == n.refcount
    decreases Height(n)
  {
    ChildOnPath(n, isRoot, value);
    var pos := CountLess(n.keys, value);
    var child := n.children[pos];
    if n.refcount != 1 then None
    else if child.Leaf? then
      if !CanInsertInLeaf(child) then None
      else
        var leaf := InsertIntoLeaf(child, CountLess(child.keys, value), value);
        LeafInserted(child, false, value);
        Reattached(n, isRoot, value, leaf, n.refcount);
        Some(Internal(n.keys, n.children[pos := leaf], n.refcount))
    else
      match FastInsert(child, value, false)
      case None => None
      case Some(c) =>
        Reattached(n, isRoot, value, c, n.refcount);
        Some(Internal(n.keys, n.children[pos := c], n.refcount))
  }

  /**
   * Insertion without rewriting the path, when nothing on it is shared and
   * no split is needed: walks down while nodes have reference count 1 and,
   * at a leaf with room, links the leaf with value inserted into its parent.
   * Otherwise nothing changes.
   */
  method TryFastPath(n: Node, value: Key) returns (done: bool, r: Node)
    requires Shaped(n, true) && StrictlySorted(Elems(n)) && value !in Elems(n)
    ensures done <==> FastPath(n, value)
    ensures !done ==> r == n
    ensures done ==>
      r.keys == n.keys && r.refcount == n.refcount && Grown(n, value, r, true)
  {
    done, r := false, n;
    if n.Leaf? {
      return;
    }
    var cur := n;
    ghost var atRoot := true;
    while cur.refcount == 1
      invariant cur.Internal? && Shaped(cur, atRoot) && StrictlySorted(Elems(cur)) && value !in Elems(cur)
      invariant FastPath(n, value) <==> FastPath(cur, value)
      decreases Height(cur)
    {
      ChildOnPath(cur, atRoot, value);
      KeysSorted(cur);
      StrictlySortedIsSorted(cur.keys);
      var pos := FindInsertPos(cur, value);
      var child := cur.children[pos];
      if child.Leaf? {
        if !CanInsertInLeaf(child) {
          return;
        }
        done, r := true, FastInsert(n, value, true).value;
        return;
      }
      cur, atRoot := child, false;
    }
  }

  // ----- growing at the root -----

  /** The in-order keys of a new root over a split. */
  lemma NewRootElems(split: SplitRes)
    ensures Elems(MakeInternalFromSplit(split)) == Elems(split.left) + [split.key] + Elems(split.right)
  {
    var r := MakeInternalFromSplit(split);
    var parts := Parts(r.children);
    ElemsInternal(r);
    assert Join(r.keys, parts, 0, 2) == parts[0] + [split.key] + parts[1];
  }

  /**
   * A full path from a full root: the root splits into shaped halves, and
   * the half value goes into is ready for the second pass.
   */
  lemma RootSplit(n: Node, value: Key)
    requires Shaped(n, true) && StrictlySorted(Elems(n)) && value !in Elems(n) && FullPath(n, value)
    ensures |n.keys| == MaxKeys(n)
    ensures var s := Split(n);
      Elems(n) == Elems(s.left) + [s.key] + Elems(s.right) && value != s.key &&
      Shaped(s.left, false) && Shaped(s.right, false) &&
      Height(s.left) == Height(n) && Height(s.right) == Height(n) &&
      StrictlySorted(Elems(s.left)) && StrictlySorted(Elems(s.right)) &&
      AllLess(Elems(s.left), s.key) && AllGreater(Elems(s.right), s.key) &&
      value !in Elems(s.left) && value !in Elems(s.right) &&
      SplitReady(if Less(value, s.key) then s.left else s.right, value)
  {
    HalfReady(n, true, value);
    SplitShaped(n, true);
    SplitElems(n);
    var s := Split(n);
    StrictlySortedParts(Elems(s.left), s.key, Elems(s.right));
  }

  /**
   * The root is full and so is value's path below it: split the root,
   * insert into the half value belongs to, and put a new root over both.
   */
  function GrowRoot(n: Node, value: Key): (r: Node)
    requires Shaped(n, true) && StrictlySorted(Elems(n)) && value !in Elems(n)
    requires Full(n) && NeedsSplit(n, value)
    ensures Shaped(r, true) && Height(r) == Height(n) + 1
    ensures Elems(r) == InsertAt(Elems(n), CountLess(Elems(n), value), value)
  {
    assert FullPath(n, value);
    RootSplit(n, value);
    var split := Split(n);
    var split' :=
      if Less(value, split.key) then
        (InsertLeftOf(Elems(split.left), split.key, Elems(split.right), value);
         split.(left := Rec(split.left, value, true, false).value))
      else
        (Trichotomy(value, split.key);
         InsertRightOf(Elems(split.left), split.key, Elems(split.right), value);
         split.(right := Rec(split.right, value, true, false).value));
    FromSplitShaped(split');
    NewRootElems(split');
    MakeInternalFromSplit(split')
  }

  // ----- validation -----

  /**
   * Every internal node below n has one more child than keys: what the
   * node layout guarantees and Validate relies on.
   */
  predicate AllWellFormed(n: Node)
    decreases n
  {
    WellFormed(n) &&
    (n.Internal? ==> forall i :: 0 <= i < |n.children| ==> AllWellFormed(n.children[i]))
  }

  lemma {:induction false} ShapedWellFormed(n: Node, isRoot: bool)
    requires Shaped(n, isRoot)
    ensures AllWellFormed(n)
    decreases n
  {
    if n.Internal? {
      forall i | 0 <= i < |n.children| ensures AllWellFormed(n.children[i]) {
        ShapedWellFormed(n.children[i], false);
      }
    }
  }

  /** The keys a walk from before has seen once it has finished child i of n. */
  ghost function Walked(n: Node, before: seq<Key>, i: nat): seq<Key>
    requires n.Internal? && WellFormed(n) && i < |n.children|
  {
    before + Join(n.keys, Parts(n.children), 0, i + 1)
  }

  /**
   * The keys of n up to child i come first in Elems(n), so a walk that fails
   * on them fails on the whole node; at the last child they are all of it.
   */
  lemma WalkPrefix(n: Node, before: seq<Key>, i: nat)
    requires n.Internal? && WellFormed(n) && i < |n.children|
    ensures StrictlySorted(before + Elems(n)) ==> StrictlySorted(Walked(n, before, i))
    ensures i == |n.keys| ==> Walked(n, before, i) == before + Elems(n)
  {
    var parts := Parts(n.children);
    ElemsInternal(n);
    if i + 1 < |parts| {
      var head, rest := Join(n.keys, parts, 0, i + 1), [n.keys[i]] + Join(n.keys, parts, i + 1, |parts|);
      JoinSplit(n.keys, parts, 0, i + 1, |parts|);
      assert before + Elems(n) == (before + head) + rest;
      if StrictlySorted(before + Elems(n)) {
        StrictlySortedPrefix(before + head, rest);
      }
    }
  }

  /** Walking key i of n and then child i + 1 extends the walk by both. */
  lemma WalkStep(n: Node, before: seq<Key>, i: nat)
    requires n.Internal? && WellFormed(n) && i < |n.keys|
    ensures StrictlySorted(Walked(n, before, i + 1)) <==>
      StrictlySorted(Walked(n, before, i)) &&
      StrictlySorted(Seen(LastOf(Walked(n, before, i))) + [n.keys[i]]) &&
      StrictlySorted(Seen(Some(n.keys[i])) + Elems(n.children[i + 1]))
    ensures LastOf(Walked(n, before, i + 1)) == LastOf(Seen(Some(n.keys[i])) + Elems(n.children[i + 1]))
    ensures StrictlySorted(before + Elems(n)) ==> StrictlySorted(Walked(n, before, i + 1))
  {
    var parts := Parts(n.children);
    assert Walked(n, before, i + 1) == Walked(n, before, i) + [n.keys[i]] + parts[i + 1];
    StrictlySortedWalk(Walked(n, before, i), n.keys[i], parts[i + 1]);
    WalkPrefix(n, before, i + 1);
  }

  /** A walk that passed key i and child i + 1 of n in order has walked that far. */
  lemma WalkGrows(n: Node, before: seq<Key>, i: nat, last: Option<Key>)
    requires n.Internal? && WellFormed(n) && i < |n.keys|
    requires StrictlySorted(Walked(n, before, i))
    requires StrictlySorted(Seen(LastOf(Walked(n, before, i))) + [n.keys[i]])
    requires StrictlySorted(Seen(Some(n.keys[i])) + Elems(n.children[i + 1]))
    requires last == LastOf(Seen(Some(n.keys[i])) + Elems(n.children[i + 1]))
    ensures StrictlySorted(Walked(n, before, i + 1)) && last == LastOf(Walked(n, before, i + 1))
  {
    WalkStep(n, before, i);
  }

  /** The walk of n starts with its first child, and fails when that child fails. */
  lemma FirstChild(n: Node, isRoot: bool, before: seq<Key>)
    requires n.Internal? && WellFormed(n)
    ensures Walked(n, before, 0) == before + Elems(n.children[0])
    ensures Alike(n.children[..1], Height(n.children[0])) <==> Shaped(n.children[0], false)
    ensures !(Shaped(n.children[0], false) && StrictlySorted(before + Elems(n.children[0]))) ==>
      !(Shaped(n, isRoot) && StrictlySorted(before + Elems(n)))
  {
    assert n.children[..1][..0] == [];
    assert n.children[..1][0] == n.children[0];
    WalkPrefix(n, before, 0);
  }

  /** A walk that has passed every key and child of n in order has checked n. */
  lemma Finished(n: Node, isRoot: bool, before: seq<Key>, i: nat)
    requires n.Internal? && WellFormed(n) && SizeOk(n, isRoot) && i == |n.keys|
    requires Alike(n.children[..i + 1], Height(n.children[0]))
    requires StrictlySorted(Walked(n, before, i))
    ensures Shaped(n, isRoot) && Height(n) == Height(n.children[0]) + 1
    ensures StrictlySorted(before + Elems(n)) && Walked(n, before, i) == before + Elems(n)
  {
    assert n.children[..|n.keys| + 1] == n.children;
    ShapedInternal(n, isRoot);
    WalkPrefix(n, before, |n.keys|);
  }

  /** A key out of order at key i of n makes the whole walk out of order. */
  lemma KeyOutOfOrder(n: Node, before: seq<Key>, i: nat)
    requires n.Internal? && WellFormed(n) && i < |n.keys|
    requires !StrictlySorted(Seen(LastOf(Walked(n, before, i))) + [n.keys[i]])
    ensures !StrictlySorted(before + Elems(n))
  {
    WalkStep(n, before, i);
  }

  /** So does a key out of order inside child i + 1. */
  lemma ChildOutOfOrder(n: Node, before: seq<Key>, i: nat)
    requires n.Internal? && WellFormed(n) && i < |n.keys|
    requires !StrictlySorted(Seen(Some(n.keys[i])) + Elems(n.children[i + 1]))
    ensures !StrictlySorted(before + Elems(n))
  {
    WalkStep(n, before, i);
  }

  /** A misshapen child, or one of another height than the first, makes n misshapen. */
  lemma ChildMisfit(n: Node, isRoot: bool, j: nat, h: int)
    requires n.Internal? && j < |n.children| && h == Height(n.children[0])
    requires !(Shaped(n.children[j], false) && Height(n.children[j]) == h)
    ensures !Shaped(n, isRoot)
  {
  }

  /** The nodes cs are shaped non-root subtrees, all of height h. */
  ghost predicate Alike(cs: seq<Node>, h: int)
    decreases |cs|
  {
    |cs| == 0 || (Alike(cs[..|cs| - 1], h) && Shaped(cs[|cs| - 1], false) && Height(cs[|cs| - 1]) == h)
  }

  lemma AlikeGrow(cs: seq<Node>, i: nat, h: int)
    requires i + 1 < |cs| && Alike(cs[..i + 1], h)
    requires Shaped(cs[i + 1], false) && Height(cs[i + 1]) == h
    ensures Alike(cs[..i + 2], h)
  {
    assert cs[..i + 2][..i + 1] == cs[..i + 1];
  }

  lemma {:induction false} AlikeAll(cs: seq<Node>, h: int)
    ensures Alike(cs, h) <==> forall j :: 0 <= j < |cs| ==> Shaped(cs[j], false) && Height(cs[j]) == h
    decreases |cs|
  {
    if |cs| > 0 {
      var init := cs[..|cs| - 1];
      AlikeAll(init, h);
      assert forall j :: 0 <= j < |init| ==> init[j] == cs[j];
    }
  }

  /** An internal node within its size bounds is shaped when its children are, at one height. */
  lemma ShapedInternal(n: Node, isRoot: bool)
    requires n.Internal? && WellFormed(n) && SizeOk(n, isRoot)
    ensures Shaped(n, isRoot) <==> Alike(n.children, Height(n.children[0]))
    ensures Shaped(n, isRoot) ==> Height(n) == Height(n.children[0]) + 1
  {
    AlikeAll(n.children, Height(n.children[0]));
  }

  /** Validate's walk: the key seen last, and the checks of each node. */
  class Checker {
    var prevSeen: Option<Key>

    constructor()
      ensures prevSeen == None
    {
      prevSeen := None;
    }

    /** Keys must come in strictly increasing order; the source aborts otherwise. */
    method VisitKey(v: Key) returns (ok: bool)
      modifies this
      ensures ok <==> StrictlySorted(Seen(old(prevSeen)) + [v])
      ensures ok ==> prevSeen == Some(v)
    {
      SeenBelow(prevSeen, v);
      if prevSeen.Some? && !Less(prevSeen.value, v) {
        return false;
      }
      prevSeen := Some(v);
      return true;
    }

    /**
     * Checks the subtree n, whose root is the tree's root when isRoot, and
     * returns its height: sizes within bounds, keys strictly increasing
     * along the walk, and all children of a node at the same height.
     */
    method Rec(n: Node, isRoot: bool) returns (h: int, ok: bool)
      requires AllWellFormed(n)
      modifies this
      decreases n, 2
      ensures ok <==> Shaped(n, isRoot) && StrictlySorted(Seen(old(prevSeen)) + Elems(n))
      ensures ok ==> h == Height(n) && prevSeen == LastOf(Seen(old(prevSeen)) + Elems(n))
    {
      if !(MinKeys(n, isRoot) <= |n.keys| <= MaxKeys(n)) {
        return 0, false;
      }
      if n.Leaf? {
        ok := VisitKeys(n.keys);
        return 1, ok;
      }
      h, ok := Children(n, isRoot);
    }

    /** Rec on an internal node whose size is within bounds: its children and keys in order. */
    method Children(n: Node, isRoot: bool) returns (h: int, ok: bool)
      requires n.Internal? && AllWellFormed(n) && SizeOk(n, isRoot)
      modifies this
      decreases n, 1
      ensures ok <==> Shaped(n, isRoot) && StrictlySorted(Seen(old(prevSeen)) + Elems(n))
      ensures ok ==> h == Height(n) && prevSeen == LastOf(Seen(old(prevSeen)) + Elems(n))
    {
      ghost var before := Seen(prevSeen);
      FirstChild(n, isRoot, before);
      var childHeight;
      childHeight, ok := Rec(n.children[0], false);
      if !ok {
        return 0, false;
      }
      var i := 0;
      while i < |n.keys|
        invariant 0 <= i <= |n.keys|
        invariant Alike(n.children[..i + 1], childHeight) && childHeight == Height(n.children[0])
        invariant StrictlySorted(Walked(n, before, i)) && prevSeen == LastOf(Walked(n, before, i))
      {
        ok := KeyAndChild(n, isRoot, before, i, childHeight);
        if !ok {
          return 0, false;
        }
        AlikeGrow(n.children, i, childHeight);
        i := i + 1;
      }
      Finished(n, isRoot, before, i);
      return childHeight + 1, true;
    }

    /** One round of the loop over an internal node: key i, then child i + 1. */
    method KeyAndChild(n: Node, ghost isRoot: bool, ghost before: seq<Key>, i: nat, childHeight: int) returns (ok: bool)
      requires n.Internal? && AllWellFormed(n) && i < |n.keys| && childHeight == Height(n.children[0])
      requires StrictlySorted(Walked(n, before, i)) && prevSeen == LastOf(Walked(n, before, i))
      modifies this
      decreases n, 0
      ensures ok ==> Shaped(n.children[i + 1], false) && Height(n.children[i + 1]) == childHeight
      ensures ok ==> StrictlySorted(Walked(n, before, i + 1)) && prevSeen == LastOf(Walked(n, before, i + 1))
      ensures !ok ==> !(Shaped(n, isRoot) && StrictlySorted(before + Elems(n)))
    {
      var keyOk := VisitKey(n.keys[i]);
      if !keyOk {
        KeyOutOfOrder(n, before, i);
        return false;
      }
      var thisHeight, childOk := Rec(n.children[i + 1], false);
      if !childOk {
        if !Shaped(n.children[i + 1], false) {
          ChildMisfit(n, isRoot, i + 1, childHeight);
        } else {
          ChildOutOfOrder(n, before, i);
        }
        return false;
      }
      if childHeight != thisHeight {
        ChildMisfit(n, isRoot, i + 1, childHeight);
        return false;
      }
      WalkGrows(n, before, i, prevSeen);
      return true;
    }

    /** The keys of a leaf, visited in order. */
    method VisitKeys(keys: seq<Key>) returns (ok: bool)
      modifies this
      ensures ok <==> StrictlySorted(Seen(old(prevSeen)) + keys)
      ensures ok ==> prevSeen == LastOf(Seen(old(prevSeen)) + keys)
    {
      ghost var before := Seen(prevSeen);
      var i := 0;
      while i < |keys|
        invariant 0 <= i <= |keys|
        invariant StrictlySorted(before + keys[..i]) && prevSeen == LastOf(before + keys[..i])
      {
        StrictlySortedStep(before, keys, i);
        ok := VisitKey(keys[i]);
        if !ok {
          return false;
        }
        i := i + 1;
      }
      assert keys[..i] == keys;
      return true;
    }
  }

  /** A copy-on-write B-tree of byte strings; the root is the only mutable state. */
  class BTree {
    var root: Option<Node>

    /** The tree Validate accepts: sizes, equal leaf depth and strictly increasing keys. */
    ghost predicate Valid()
      reads this
    {
      root.Some? ==> Shaped(root.value, true) && StrictlySorted(Elems(root.value))
    }

    /** The keys of the tree, in order. */
    function Contents(): seq<Key>
      reads this
    {
      if root.Some? then Elems(root.value) else []
    }

    constructor ()
      ensures Valid() && Contents() == []
    {
      root := None;
    }

    /**
     * Inserts value: into an empty tree as a one-key leaf, else by the fast
     * path, else by the two passes, growing a new root when the old one is
     * full and the split reaches it.
     */
    method Insert(value: Key)
      requires Valid() && value !in Contents()
      modifies this
      ensures Valid()
      ensures Contents() == InsertAt(old(Contents()), CountLess(old(Contents()), value), value)
    {
      if root.None? {
        root := Some(MakeLeaf([value]));
        return;
      }
      var n := root.value;
      InsertStrictlySorted(Elems(n), value);
      var done, fast := TryFastPath(n, value);
      if done {
        root := Some(fast);
        return;
      }
      var r := Rec(n, value, false, true);
      if r.None? {
        if !Full(n) {
          r := Rec(n, value, true, true);
        } else {
          r := Some(GrowRoot(n, value));
        }
      }
      root := r;
    }

    /** The smallest key not below str, or None when every key is below it. */
    method LowerBound(str: Key) returns (r: Option<Key>)
      requires Valid()
      ensures Sorted(Contents()) && r == OrderedSet.LowerBound(Contents(), str)
    {
      if root.None? {
        return None;
      }
      r := LowerBoundRec(root.value, str, true);
    }

    /**
     * Checks the whole tree and returns its height, 0 when empty: accepts
     * exactly the trees Valid describes.
     */
    method Validate() returns (ok: bool, height: int)
      requires root.Some? ==> AllWellFormed(root.value)
      ensures ok <==> Valid()
      ensures ok ==> height == if root.Some? then Height(root.value) else 0
    {
      if root.None? {
        return true, 0;
      }
      var checker := new Checker();
      assert Seen(checker.prevSeen) + Elems(root.value) == Elems(root.value);
      height, ok := checker.Rec(root.value, true);
    }
  }
}
