/**
 * The compressed 256-way trie of suffix-trie.cc. An inner node tests the
 * byte at its depth; the child labelled c holds exactly the keys whose byte
 * at that depth is c; a leaf holds one whole key. Each node keeps the set of
 * its labels in an ArrayIndex bitmap and its children in label order.
 *
 * The tagged NodePtr word becomes the sum type Trie (a null NodePtr is
 * Empty); a node's children are values, and an assignment through a
 * NodePtr* place becomes rebuilding the path to it with Fill.
 */
module SuffixTrie {
  import opened Keys
  import opened OrderedSet
  import opened TrieIndex

  datatype Trie =
    | Empty
    | Leaf(data: Key)
    | Node(size: nat, depth: nat, idx: ArrayIndex, children: seq<Trie>)

  /** ReadString: the byte at depth, or 0 past the end of the key. */
  function ReadString(data: Key, depth: nat): (c: nat)
    ensures c < 256
  {
    if depth < |data| then data[depth] as int else 0
  }

  /** The keys of a trie, left to right. */
  function Elems(t: Trie): seq<Key>
    decreases t, 1
  {
    match t
    case Empty => []
    case Leaf(k) => [k]
    case Node(_, _, _, cs) => ElemsOf(cs)
  }

  function ElemsOf(cs: seq<Trie>): seq<Key>
    decreases cs, 0
  {
    if |cs| == 0 then [] else ElemsOf(cs[..|cs| - 1]) + Elems(cs[|cs| - 1])
  }

  /** The key reached by always stepping into the smallest child. */
  function FirstKey(t: Trie): Key
  {
    match t
    case Empty => []
    case Leaf(k) => k
    case Node(_, _, _, cs) => if |cs| == 0 then [] else FirstKey(cs[0])
  }

  /** Key k lies under a node of depth d whose keys start like w, in its child labelled c. */
  predicate Under(k: Key, w: Key, d: nat, c: nat)
  {
    d < |k| && d <= |w| && k[..d] == w[..d] && k[d] as int == c
  }

  predicate AllUnder(ks: seq<Key>, w: Key, d: nat, c: nat)
  {
    forall k :: k in ks ==> Under(k, w, d, c)
  }

  /**
   * A well-formed trie whose nodes all have depth at least minDepth.
   * The bitmap's start counts and the one-child-per-label layout are what
   * construction guarantees; the rest is what DoValidate checks: size in
   * 1..256, depths increasing downwards, and every key of a child agreeing
   * with the node's keys on the first depth bytes and carrying the child's
   * label at depth.
   */
  ghost predicate Valid(t: Trie, minDepth: nat)
    decreases t
  {
    match t
    case Empty => false
    case Leaf(_) => true
    case Node(size, depth, idx, cs) =>
      Initialized(idx) && |cs| == |Labels(idx)| &&
      0 < size <= 256 && size == |cs| && minDepth <= depth &&
      forall i :: 0 <= i < |cs| ==>
        Valid(cs[i], depth + 1) && AllUnder(Elems(cs[i]), FirstKey(t), depth, Labels(idx)[i])
  }

  // ----- keys of a sequence of children -----

  lemma {:induction false} ElemsOfConcat(a: seq<Trie>, b: seq<Trie>)
    ensures ElemsOf(a + b) == ElemsOf(a) + ElemsOf(b)
    decreases |b|
  {
    if |b| == 0 {
      assert a + b == a;
    } else {
      var b' := b[..|b| - 1];
      ElemsOfConcat(a, b');
      assert (a + b)[..|a + b| - 1] == a + b';
    }
  }

  lemma ElemsOfOne(c: Trie)
    ensures ElemsOf([c]) == Elems(c)
  {
    assert [c][..0] == [];
  }

  /** The keys of children before i, of child i, and of those after it. */
  lemma ElemsOfAround(cs: seq<Trie>, i: nat)
    requires i < |cs|
    ensures ElemsOf(cs) == ElemsOf(cs[..i]) + Elems(cs[i]) + ElemsOf(cs[i + 1..])
  {
    var front := cs[..i + 1];
    assert cs == front + cs[i + 1..];
    ElemsOfConcat(front, cs[i + 1..]);
    assert front[..i] == cs[..i];
  }

  lemma ElemsOfHas(cs: seq<Trie>, i: nat, k: Key)
    requires i < |cs| && k in Elems(cs[i])
    ensures k in ElemsOf(cs)
  {
    ElemsOfAround(cs, i);
  }

  lemma {:induction false} ElemsOfWhich(cs: seq<Trie>, k: Key) returns (i: nat)
    requires k in ElemsOf(cs)
    ensures i < |cs| && k in Elems(cs[i])
    decreases |cs|
  {
    if k in Elems(cs[|cs| - 1]) {
      i := |cs| - 1;
    } else {
      i := ElemsOfWhich(cs[..|cs| - 1], k);
    }
  }

  // ----- facts about valid tries -----

  lemma ChildValid(t: Trie, m: nat, i: nat)
    requires Valid(t, m) && t.Node? && i < |t.children|
    ensures Valid(t.children[i], t.depth + 1)
    ensures AllUnder(Elems(t.children[i]), FirstKey(t), t.depth, Labels(t.idx)[i])
  {
  }

  /** A valid trie is not empty and FirstKey is its first key. */
  lemma {:induction false} FirstKeyFirst(t: Trie, m: nat)
    requires Valid(t, m)
    ensures |Elems(t)| > 0 && Elems(t)[0] == FirstKey(t)
    decreases t
  {
    if t.Node? {
      var cs := t.children;
      ChildValid(t, m, 0);
      FirstKeyFirst(cs[0], t.depth + 1);
      ElemsOfConcat([cs[0]], cs[1..]);
      ElemsOfOne(cs[0]);
      assert cs == [cs[0]] + cs[1..];
    }
  }

  /** Every key of a valid node lies in the child labelled by its byte at the node's depth. */
  lemma KeyChild(t: Trie, m: nat, k: Key) returns (i: nat)
    requires Valid(t, m) && t.Node? && k in Elems(t)
    ensures i < |t.children| && k in Elems(t.children[i])
    ensures Under(k, FirstKey(t), t.depth, Labels(t.idx)[i])
  {
    i := ElemsOfWhich(t.children, k);
    ChildValid(t, m, i);
  }

  /** All keys of a valid node agree on its first depth bytes and are longer than that. */
  lemma SharedPrefix(t: Trie, m: nat, k: Key)
    requires Valid(t, m) && t.Node? && k in Elems(t)
    ensures t.depth < |k| && t.depth < |FirstKey(t)| && k[..t.depth] == FirstKey(t)[..t.depth]
  {
    var i := KeyChild(t, m, k);
    FirstKeyFirst(t, m);
    var j := KeyChild(t, m, FirstKey(t));
  }

  lemma LabelsIncreasing(idx: ArrayIndex)
    requires WellSized(idx)
    ensures StrictlyIncreasing(Labels(idx))
    ensures forall c: nat :: c in Labels(idx) <==> c < 256 && HasElement(idx, c)
  {
    LabelsBelowFacts(idx, 256);
  }

  lemma ByteOrder(a: Byte, b: Byte)
    ensures a < b <==> a as int < b as int
  {
  }

  /** Keys in an earlier child are smaller than keys in a later one. */
  lemma ChildrenOrdered(t: Trie, m: nat, i: nat, j: nat, k: Key, k2: Key)
    requires Valid(t, m) && t.Node? && i < j < |t.children|
    requires k in Elems(t.children[i]) && k2 in Elems(t.children[j])
    ensures Less(k, k2)
  {
    LabelsIncreasing(t.idx);
    ChildValid(t, m, i);
    ChildValid(t, m, j);
    var d := t.depth;
    assert k[..d] == k2[..d];
    assert forall p :: 0 <= p < d ==> k[p] == k[..d][p] == k2[..d][p] == k2[p];
    ByteOrder(k[d], k2[d]);
    LessAt(k, k2, d);
  }

  lemma StrictlySortedAppend(a: seq<Key>, b: seq<Key>)
    requires StrictlySorted(a) && StrictlySorted(b)
    requires forall x, y :: x in a && y in b ==> Less(x, y)
    ensures StrictlySorted(a + b)
  {
    forall i, j | 0 <= i < j < |a + b| ensures Less((a + b)[i], (a + b)[j]) {
      if j < |a| {
      } else if i >= |a| {
        assert (a + b)[i] == b[i - |a|] && (a + b)[j] == b[j - |a|];
      } else {
        assert (a + b)[i] in a && (a + b)[j] in b;
      }
    }
  }

  /** The keys of a valid trie are strictly increasing. */
  lemma {:induction false} ValidSorted(t: Trie, m: nat)
    requires Valid(t, m)
    ensures StrictlySorted(Elems(t))
    decreases t, 1
  {
    if t.Node? {
      SortedChildren(t, m, |t.children|);
      assert t.children[..|t.children|] == t.children;
    }
  }

  lemma {:induction false} SortedChildren(t: Trie, m: nat, n: nat)
    requires Valid(t, m) && t.Node? && n <= |t.children|
    ensures StrictlySorted(ElemsOf(t.children[..n]))
    decreases t, 0, n
  {
    if n > 0 {
      var cs := t.children;
      SortedChildren(t, m, n - 1);
      ChildValid(t, m, n - 1);
      ValidSorted(cs[n - 1], t.depth + 1);
      assert cs[..n][..n - 1] == cs[..n - 1];
      var a := ElemsOf(cs[..n - 1]);
      var b := Elems(cs[n - 1]);
      forall x, y | x in a && y in b ensures Less(x, y) {
        var i := ElemsOfWhich(cs[..n - 1], x);
        ChildrenOrdered(t, m, i, n - 1, x, y);
      }
      StrictlySortedAppend(a, b);
    }
  }

  /** A valid trie stays valid under a smaller depth bound. */
  lemma ValidBelow(t: Trie, m: nat, m2: nat)
    requires Valid(t, m) && m2 <= m
    ensures Valid(t, m2)
  {
  }

  /** The first key of a valid trie is its smallest. */
  lemma FirstKeyMin(t: Trie, m: nat)
    requires Valid(t, m)
    ensures FirstKey(t) in Elems(t) && AllGreaterEq(Elems(t), FirstKey(t))
  {
    FirstKeyFirst(t, m);
    ValidSorted(t, m);
    var s := Elems(t);
    forall k | k in s ensures LessEq(FirstKey(t), k) {
      var j :| 0 <= j < |s| && s[j] == k;
    }
  }

  // ----- looking up children -----

  /** FindChild: the position of the child labelled ch, if there is one, and the rank of ch. */
  function FindChild(t: Trie, ch: nat): (r: (Option<nat>, nat))
    requires t.Node? && Initialized(t.idx) && |t.children| == |Labels(t.idx)| && ch < 256
    ensures r.1 == |LabelsBelow(t.idx, ch)| <= |t.children|
    ensures r.0.Some? <==> ch in Labels(t.idx)
    ensures r.0.Some? ==> r.0.value == r.1 < |t.children| && Labels(t.idx)[r.1] == ch
  {
    NumElementsBeforeCounts(t.idx, ch);
    HasElementIsLabel(t.idx, ch);
    LabelsPrefix(t.idx, ch, 256);
    var pos := NumElementsBefore(t.idx, ch);
    if !HasElement(t.idx, ch) then (None, pos)
    else
      LabelAtRank(t.idx, ch);
      (Some(pos), pos)
  }

  /** The GetSmallestChild descent: step into child 0 until a leaf. */
  method Leftmost(t: Trie, ghost m: nat) returns (k: Key)
    requires Valid(t, m)
    ensures k == FirstKey(t)
    ensures k in Elems(t) && AllGreaterEq(Elems(t), k)
  {
    FirstKeyMin(t, m);
    var place := t;
    ghost var pm: nat := m;
    while place.Node?
      invariant Valid(place, pm) && FirstKey(place) == FirstKey(t)
      decreases place
    {
      ChildValid(place, pm, 0);
      pm := place.depth + 1;
      place := place.children[0];
    }
    k := place.data;
  }

  // ----- common prefixes -----

  /** Keys agreeing on their first n bytes share a prefix at least n long. */
  lemma LcpAtLeast(a: Key, b: Key, n: nat)
    requires n <= |a| && n <= |b| && a[..n] == b[..n]
    ensures Lcp(a, b) >= n
  {
    LcpFacts(a, b);
    assert forall i :: 0 <= i < n ==> a[i] == a[..n][i] == b[..n][i] == b[i];
  }

  /** A key that agrees with k2 on its first d bytes is no closer to data than k2 is, if it shares at most d bytes with data. */
  lemma LcpVia(data: Key, k: Key, k2: Key, d: nat)
    requires d <= |k| && d <= |k2| && k[..d] == k2[..d] && Lcp(data, k) <= d
    ensures Lcp(data, k) <= Lcp(data, k2)
  {
    var a := Lcp(data, k);
    LcpFacts(data, k);
    assert data[..a] == k[..a];
    assert k[..a] == k[..d][..a] == k2[..d][..a] == k2[..a];
    LcpAtLeast(data, k2, a);
  }

  /** Keys agreeing on d bytes whose common prefix is at most d differ at d. */
  lemma DifferAt(a: Key, b: Key, d: nat)
    requires d < |a| && d < |b| && a[..d] == b[..d] && Lcp(a, b) <= d
    ensures a[d] != b[d]
  {
    LcpAtLeast(a, b, d);
    LcpFacts(a, b);
  }

  /** A key whose byte at d is not the one data reads there shares at most d bytes with data. */
  lemma OffLabel(data: Key, k: Key, d: nat)
    requires d < |k| && k[d] as int != ReadString(data, d)
    ensures Lcp(data, k) <= d
  {
    LcpFacts(data, k);
  }

  /** The longest common prefix of data with any of ks. */
  function BestLcp(ks: seq<Key>, data: Key): nat
  {
    if |ks| == 0 then 0
    else
      var b := BestLcp(ks[..|ks| - 1], data);
      var c := Lcp(data, ks[|ks| - 1]);
      if b < c then c else b
  }

  lemma {:induction false} BestLcpAbove(ks: seq<Key>, data: Key, k: Key)
    requires k in ks
    ensures Lcp(data, k) <= BestLcp(ks, data)
    decreases |ks|
  {
    if k != ks[|ks| - 1] {
      var front := ks[..|ks| - 1];
      assert ks == front + [ks[|ks| - 1]];
      BestLcpAbove(front, data, k);
    }
  }

  lemma {:induction false} BestLcpBelow(ks: seq<Key>, data: Key, n: nat)
    requires forall k :: k in ks ==> Lcp(data, k) <= n
    ensures BestLcp(ks, data) <= n
    decreases |ks|
  {
    if |ks| > 0 {
      var front := ks[..|ks| - 1];
      assert forall k :: k in front ==> k in ks;
      BestLcpBelow(front, data, n);
    }
  }

  /** No key of a node is closer to data than the best key of the child data's byte selects. */
  lemma NoBetterThan(t: Trie, m: nat, data: Key, i: nat, k: Key)
    requires Valid(t, m) && t.Node? && i < |t.children|
    requires Labels(t.idx)[i] == ReadString(data, t.depth)
    requires k in Elems(t)
    ensures Lcp(data, k) <= BestLcp(Elems(t.children[i]), data)
  {
    var j := KeyChild(t, m, k);
    var c := t.children[i];
    if j == i {
      BestLcpAbove(Elems(c), data, k);
    } else {
      var d := t.depth;
      LabelsIncreasing(t.idx);
      assert Labels(t.idx)[j] != Labels(t.idx)[i];
      OffLabel(data, k, d);
      ChildValid(t, m, i);
      FirstKeyMin(c, d + 1);
      var k2 := FirstKey(c);
      assert Under(k2, FirstKey(t), d, Labels(t.idx)[i]);
      LcpVia(data, k, k2, d);
      BestLcpAbove(Elems(c), data, k2);
    }
  }

  lemma ChildHoldsBest(t: Trie, m: nat, data: Key, i: nat)
    requires Valid(t, m) && t.Node? && i < |t.children|
    requires Labels(t.idx)[i] == ReadString(data, t.depth)
    ensures BestLcp(Elems(t), data) <= BestLcp(Elems(t.children[i]), data)
    ensures forall k :: k in Elems(t.children[i]) ==> k in Elems(t)
  {
    forall k | k in Elems(t) ensures Lcp(data, k) <= BestLcp(Elems(t.children[i]), data) {
      NoBetterThan(t, m, data, i, k);
    }
    BestLcpBelow(Elems(t), data, BestLcp(Elems(t.children[i]), data));
    forall k | k in Elems(t.children[i]) ensures k in Elems(t) {
      ElemsOfHas(t.children, i, k);
    }
  }

  /** With no child for data's byte, every key of the node shares equally much with data. */
  lemma NoChildUniform(t: Trie, m: nat, data: Key)
    requires Valid(t, m) && t.Node? && ReadString(data, t.depth) !in Labels(t.idx)
    ensures forall k :: k in Elems(t) ==> Lcp(data, k) <= Lcp(data, FirstKey(t))
  {
    FirstKeyMin(t, m);
    forall k | k in Elems(t) ensures Lcp(data, k) <= Lcp(data, FirstKey(t)) {
      var j := KeyChild(t, m, k);
      assert Labels(t.idx)[j] in Labels(t.idx);
      OffLabel(data, k, t.depth);
      SharedPrefix(t, m, k);
      LcpVia(data, k, FirstKey(t), t.depth);
    }
  }

  /**
   * FindLCPLeaf: follow data's bytes down from the root; where no child
   * matches, every key below shares the same prefix with data, so the
   * smallest one will do. The leaf found shares a longest common prefix
   * with data among all keys.
   */
  method FindLCPLeaf(root: Trie, data: Key) returns (leaf: Key, lcp: nat)
    requires Valid(root, 0)
    ensures leaf in Elems(root) && lcp == Lcp(data, leaf)
    ensures forall k :: k in Elems(root) ==> Lcp(data, k) <= lcp
  {
    var place := root;
    ghost var m: nat := 0;
    forall k | k in Elems(root) ensures Lcp(data, k) <= BestLcp(Elems(root), data) {
      BestLcpAbove(Elems(root), data, k);
    }
    while true
      invariant Valid(place, m)
      invariant forall k :: k in Elems(place) ==> k in Elems(root)
      invariant forall k :: k in Elems(root) ==> Lcp(data, k) <= BestLcp(Elems(place), data)
      decreases place
    {
      if place.Leaf? {
        leaf := place.data;
        assert Elems(place) == [leaf] && [leaf][..0] == [];
        break;
      }
      var ch := ReadString(data, place.depth);
      var found := FindChild(place, ch).0;
      if found.None? {
        NoChildUniform(place, m, data);
        leaf := Leftmost(place, m);
        BestLcpBelow(Elems(place), data, Lcp(data, leaf));
        break;
      }
      ChildHoldsBest(place, m, data, found.value);
      ChildValid(place, m, found.value);
      m := place.depth + 1;
      place := place.children[found.value];
    }
    lcp := Lcp(data, leaf);
  }

  // ----- building nodes -----

  lemma ByteInt(a: Byte, b: Byte)
    ensures a == b <==> a as int == b as int
  {
  }

  /** MakeFrom2's result: a node at depth with two children ordered by their bytes. */
  function From2(depth: nat, ch1: nat, c1: Trie, ch2: nat, c2: Trie): Trie
    requires ch1 < 256 && ch2 < 256 && ch1 != ch2
  {
    var idx := TwoIndex(ch1, ch2);
    if ch1 < ch2 then Node(2, depth, idx, [c1, c2]) else Node(2, depth, idx, [c2, c1])
  }

  /** MakeFrom2: a two-child node whose bitmap holds exactly the two labels, in order. */
  method MakeFrom2(depth: nat, ch1: nat, child1: Trie, ch2: nat, child2: Trie) returns (n: Trie)
    requires ch1 < 256 && ch2 < 256 && ch1 != ch2
    ensures n == From2(depth, ch1, child1, ch2, child2)
    ensures n.Node? && Initialized(n.idx)
    ensures Labels(n.idx) == (if ch1 < ch2 then [ch1, ch2] else [ch2, ch1])
    ensures n.children == (if ch1 < ch2 then [child1, child2] else [child2, child1])
  {
    var c1, c2 := child1, child2;
    if ch1 > ch2 {
      c1, c2 := child2, child1;
    }
    var idx := InitInUse(Blank, ch1);
    idx := InitInUse(idx, ch2);
    idx := FinishInitialization(idx);
    n := Node(2, depth, idx, [c1, c2]);
    TwoIndexLabels(ch1, ch2);
  }

  /** MakeInserting's result: prev with leaf added as the child labelled ch, at rank pos. */
  function Inserting(prev: Trie, ch: nat, pos: nat, leaf: Trie): Trie
    requires prev.Node? && WellSized(prev.idx) && ch < 256 && pos <= |prev.children|
  {
    Node(prev.size + 1, prev.depth, Finished(InitInUse(prev.idx, ch)),
         prev.children[..pos] + [leaf] + prev.children[pos..])
  }

  /**
   * MakeInserting: a copy of prev, one child larger, with byte ch set in the
   * bitmap and leaf moved in at ch's rank; the other children keep their order.
   */
  method MakeInserting(prev: Trie, ch: nat, pos: nat, leaf: Trie) returns (n: Trie)
    requires prev.Node? && Initialized(prev.idx) && |prev.children| == |Labels(prev.idx)| == prev.size
    requires ch < 256 && !HasElement(prev.idx, ch) && pos == NumElementsBefore(prev.idx, ch)
    ensures pos <= |prev.children| && n == Inserting(prev, ch, pos, leaf)
    ensures Initialized(n.idx) && Labels(n.idx) == Labels(prev.idx)[..pos] + [ch] + Labels(prev.idx)[pos..]
  {
    NumElementsBeforeCounts(prev.idx, ch);
    LabelsInsert(prev.idx, ch);
    FinishedInitialized(InitInUse(prev.idx, ch));
    var size := prev.size + 1;
    var idx := InitInUse(prev.idx, ch);
    idx := FinishInitialization(idx);
    var childs := SpliceChild(prev.children, pos, leaf);
    n := Node(size, prev.depth, idx, childs);
  }

  /** The children array one slot longer: leaf at pos, the others shifted behind it in order. */
  method SpliceChild(prevChildren: seq<Trie>, pos: nat, leaf: Trie) returns (childs: seq<Trie>)
    requires pos <= |prevChildren|
    ensures childs == prevChildren[..pos] + [leaf] + prevChildren[pos..]
  {
    var size := |prevChildren| + 1;
    ghost var target := prevChildren[..pos] + [leaf] + prevChildren[pos..];
    assert forall j :: 0 <= j < pos ==> target[j] == prevChildren[j];
    assert forall j :: pos < j < size ==> target[j] == prevChildren[j - 1];
    childs := [];
    for i := 0 to size
      invariant |childs| == i
      invariant forall j :: 0 <= j < i ==> childs[j] == target[j]
    {
      if i == pos {
        childs := childs + [leaf];
      } else if i < pos {
        childs := childs + [prevChildren[i]];
      } else {
        childs := childs + [prevChildren[i - 1]];
      }
    }
  }

  /** A node assembled from valid children that all lie under w at depth is valid, and its keys start like w. */
  lemma BuildValid(size: nat, depth: nat, idx: ArrayIndex, cs: seq<Trie>, m: nat, w: Key)
    requires Initialized(idx) && |cs| == |Labels(idx)| && 0 < size <= 256 && size == |cs| && m <= depth
    requires depth <= |w|
    requires forall i :: 0 <= i < |cs| ==>
      Valid(cs[i], depth + 1) && AllUnder(Elems(cs[i]), w, depth, Labels(idx)[i])
    ensures Valid(Node(size, depth, idx, cs), m)
    ensures depth < |FirstKey(Node(size, depth, idx, cs))|
    ensures FirstKey(Node(size, depth, idx, cs))[..depth] == w[..depth]
  {
    var t := Node(size, depth, idx, cs);
    FirstKeyMin(cs[0], depth + 1);
    var f := FirstKey(t);
    assert Under(f, w, depth, Labels(idx)[0]);
    forall i, k | 0 <= i < |cs| && k in Elems(cs[i]) ensures Under(k, f, depth, Labels(idx)[i]) {
      assert Under(k, w, depth, Labels(idx)[i]);
    }
  }

  lemma ElemsOfTwo(a: Trie, b: Trie)
    ensures ElemsOf([a, b]) == Elems(a) + Elems(b)
  {
    assert [a, b][..1] == [a];
    ElemsOfOne(a);
  }

  /** The keys Insert may place: data and the key other sharing the most with it, neither a prefix of the other. */
  ghost predicate InsertPre(t: Trie, data: Key, lcp: nat, other: Key, m: nat)
  {
    Valid(t, m) && m <= lcp && other in Elems(t) && Lcp(data, other) == lcp &&
    (forall k :: k in Elems(t) ==> Lcp(data, k) <= lcp) &&
    lcp < |data| && lcp < |other|
  }

  /** The bytes data and other carry at lcp differ. */
  lemma ForkBytes(data: Key, lcp: nat, other: Key)
    requires Lcp(data, other) == lcp && lcp < |data| && lcp < |other|
    ensures ReadString(other, lcp) != ReadString(data, lcp)
    ensures data[..lcp] == other[..lcp]
  {
    LcpFacts(data, other);
    ByteInt(data[lcp], other[lcp]);
  }

  /** Below depth lcp, the child data's byte selects exists and holds other. */
  lemma DescendPre(t: Trie, data: Key, lcp: nat, other: Key, m: nat)
    requires InsertPre(t, data, lcp, other, m) && t.Node? && t.depth < lcp
    ensures FindChild(t, ReadString(data, t.depth)).0.Some?
    ensures InsertPre(t.children[FindChild(t, ReadString(data, t.depth)).0.value], data, lcp, other, t.depth + 1)
  {
    var d := t.depth;
    var i := KeyChild(t, m, other);
    LcpFacts(data, other);
    assert Labels(t.idx)[i] == ReadString(data, d);
    var r := FindChild(t, ReadString(data, d));
    LabelsIncreasing(t.idx);
    assert r.0.value == i;
    ChildValid(t, m, i);
    forall k | k in Elems(t.children[i]) ensures Lcp(data, k) <= lcp {
      ElemsOfHas(t.children, i, k);
    }
  }

  /** At depth lcp, no child carries data's byte: otherwise a key would share more than lcp bytes with data. */
  lemma AbsentAtLcp(t: Trie, data: Key, lcp: nat, other: Key, m: nat)
    requires InsertPre(t, data, lcp, other, m) && t.Node? && t.depth == lcp
    ensures ReadString(data, lcp) !in Labels(t.idx)
    ensures !HasElement(t.idx, ReadString(data, lcp))
  {
    ForkBytes(data, lcp, other);
    SharedPrefix(t, m, other);
    forall i | 0 <= i < |t.children| ensures Labels(t.idx)[i] != ReadString(data, lcp) {
      ChildValid(t, m, i);
      var c := t.children[i];
      FirstKeyMin(c, lcp + 1);
      var k2 := FirstKey(c);
      ElemsOfHas(t.children, i, k2);
      assert Under(k2, FirstKey(t), lcp, Labels(t.idx)[i]);
      DifferAt(data, k2, lcp);
      ByteInt(data[lcp], k2[lcp]);
    }
    LabelsIncreasing(t.idx);
  }

  /** The trie with data inserted, as Insert builds it below a subtree holding other. */
  ghost function Inserted(t: Trie, data: Key, lcp: nat, other: Key, m: nat): Trie
    requires InsertPre(t, data, lcp, other, m)
    decreases t
  {
    if t.Leaf? || t.depth > lcp then
      ForkBytes(data, lcp, other);
      From2(lcp, ReadString(other, lcp), t, ReadString(data, lcp), Leaf(data))
    else
      var ch := ReadString(data, t.depth);
      var r := FindChild(t, ch);
      if t.depth == lcp then
        Inserting(t, ch, r.1, Leaf(data))
      else
        DescendPre(t, data, lcp, other, m);
        var i := r.0.value;
        t.(children := t.children[i := Inserted(t.children[i], data, lcp, other, t.depth + 1)])
  }

  /** Keys agreeing on more than n bytes agree at n and before it. */
  lemma PrefixOfPrefix(k: Key, w: Key, n: nat, big: nat)
    requires n < big <= |k| && big <= |w| && k[..big] == w[..big]
    ensures k[..n] == w[..n] && k[n] == w[n]
  {
    assert k[..n] == k[..big][..n] && w[..n] == w[..big][..n];
    assert k[n] == k[..big][n] && w[n] == w[..big][n];
  }

  /** Every key below a leaf or a node deeper than lcp agrees with other up to and at lcp. */
  lemma DeepKeysFollow(t: Trie, data: Key, lcp: nat, other: Key, m: nat)
    requires InsertPre(t, data, lcp, other, m) && (t.Leaf? || t.depth > lcp)
    ensures AllUnder(Elems(t), other, lcp, ReadString(other, lcp))
  {
    forall k | k in Elems(t) ensures Under(k, other, lcp, ReadString(other, lcp)) {
      if t.Node? {
        SharedPrefix(t, m, k);
        SharedPrefix(t, m, other);
        PrefixOfPrefix(k, other, lcp, t.depth);
      }
    }
  }

  lemma From2Valid(t: Trie, data: Key, lcp: nat, other: Key, m: nat)
    requires InsertPre(t, data, lcp, other, m) && (t.Leaf? || t.depth > lcp)
    ensures var e, c := ReadString(other, lcp), ReadString(data, lcp);
      e != c && Valid(From2(lcp, e, t, c, Leaf(data)), m) &&
      multiset(Elems(From2(lcp, e, t, c, Leaf(data)))) == multiset(Elems(t)) + multiset{data}
  {
    var e, c := ReadString(other, lcp), ReadString(data, lcp);
    ForkBytes(data, lcp, other);
    DeepKeysFollow(t, data, lcp, other, m);
    assert Under(data, other, lcp, c);
    ValidAt(t, m, lcp + 1);
    assert AllUnder(Elems(Leaf(data)), other, lcp, c);
    PairValid(lcp, e, t, c, Leaf(data), m, other);
  }

  /** Two valid subtrees under w at depth, with distinct bytes there, make a valid two-child node. */
  lemma PairValid(depth: nat, e: nat, a: Trie, c: nat, b: Trie, m: nat, w: Key)
    requires e < 256 && c < 256 && e != c && m <= depth <= |w|
    requires Valid(a, depth + 1) && AllUnder(Elems(a), w, depth, e)
    requires Valid(b, depth + 1) && AllUnder(Elems(b), w, depth, c)
    ensures Valid(From2(depth, e, a, c, b), m)
    ensures multiset(Elems(From2(depth, e, a, c, b))) == multiset(Elems(a)) + multiset(Elems(b))
  {
    TwoIndexLabels(e, c);
    if e < c {
      OrderedPairValid(depth, TwoIndex(e, c), a, b, m, w);
      assert From2(depth, e, a, c, b) == Node(2, depth, TwoIndex(e, c), [a, b]);
    } else {
      OrderedPairValid(depth, TwoIndex(e, c), b, a, m, w);
      assert From2(depth, e, a, c, b) == Node(2, depth, TwoIndex(e, c), [b, a]);
    }
  }

  /** PairValid with the children already in label order. */
  lemma OrderedPairValid(depth: nat, idx: ArrayIndex, a: Trie, b: Trie, m: nat, w: Key)
    requires Initialized(idx) && |Labels(idx)| == 2 && m <= depth <= |w|
    requires Valid(a, depth + 1) && AllUnder(Elems(a), w, depth, Labels(idx)[0])
    requires Valid(b, depth + 1) && AllUnder(Elems(b), w, depth, Labels(idx)[1])
    ensures Valid(Node(2, depth, idx, [a, b]), m)
    ensures multiset(Elems(Node(2, depth, idx, [a, b]))) == multiset(Elems(a)) + multiset(Elems(b))
  {
    ElemsOfTwo(a, b);
    BuildValid(2, depth, idx, [a, b], m, w);
  }

  lemma ValidAt(t: Trie, m: nat, m2: nat)
    requires Valid(t, m) && (t.Node? ==> m2 <= t.depth)
    ensures Valid(t, m2)
  {
  }

  lemma InsertingValid(t: Trie, data: Key, lcp: nat, other: Key, m: nat)
    requires InsertPre(t, data, lcp, other, m) && t.Node? && t.depth == lcp
    ensures var ch := ReadString(data, lcp);
      var pos := FindChild(t, ch).1;
      Valid(Inserting(t, ch, pos, Leaf(data)), m) &&
      multiset(Elems(Inserting(t, ch, pos, Leaf(data)))) == multiset(Elems(t)) + multiset{data}
  {
    var ch := ReadString(data, lcp);
    var pos := FindChild(t, ch).1;
    AbsentAtLcp(t, data, lcp, other, m);
    LabelsInsert(t.idx, ch);
    var idx2 := InitInUse(t.idx, ch);
    FinishedInitialized(idx2);
    LabelsBelowLength(idx2, 256);
    var n := Inserting(t, ch, pos, Leaf(data));
    ForkBytes(data, lcp, other);
    SharedPrefix(t, m, other);
    assert Under(data, FirstKey(t), lcp, ch);
    InsertedChildrenOk(t, m, pos, ch, data, n.children, Labels(n.idx));
    BuildValid(n.size, lcp, n.idx, n.children, m, FirstKey(t));
    ElemsOfInsertedChild(t.children, pos, Leaf(data));
  }

  /** The children of a node with one leaf moved in at pos, labelled ch, still lie under the node's keys. */
  lemma InsertedChildrenOk(t: Trie, m: nat, pos: nat, ch: nat, x: Key, cs2: seq<Trie>, ls2: seq<nat>)
    requires Valid(t, m) && t.Node? && pos <= |t.children|
    requires cs2 == t.children[..pos] + [Leaf(x)] + t.children[pos..]
    requires ls2 == Labels(t.idx)[..pos] + [ch] + Labels(t.idx)[pos..]
    requires Under(x, FirstKey(t), t.depth, ch)
    ensures |cs2| == |ls2|
    ensures forall j :: 0 <= j < |cs2| ==>
      Valid(cs2[j], t.depth + 1) && AllUnder(Elems(cs2[j]), FirstKey(t), t.depth, ls2[j])
  {
    var cs, ls := t.children, Labels(t.idx);
    forall j | 0 <= j < |cs2|
      ensures Valid(cs2[j], t.depth + 1) && AllUnder(Elems(cs2[j]), FirstKey(t), t.depth, ls2[j])
    {
      if j < pos {
        assert cs2[j] == cs[j] && ls2[j] == ls[j];
        ChildValid(t, m, j);
      } else if j > pos {
        assert cs2[j] == cs[j - 1] && ls2[j] == ls[j - 1];
        ChildValid(t, m, j - 1);
      } else {
        assert cs2[j] == Leaf(x) && ls2[j] == ch;
      }
    }
  }

  lemma ElemsOfInsertedChild(cs: seq<Trie>, pos: nat, c: Trie)
    requires pos <= |cs|
    ensures multiset(ElemsOf(cs[..pos] + [c] + cs[pos..])) == multiset(ElemsOf(cs)) + multiset(Elems(c))
  {
    var front, back := cs[..pos], cs[pos..];
    ElemsOfConcat(front + [c], back);
    ElemsOfConcat(front, [c]);
    ElemsOfOne(c);
    assert ElemsOf(front + [c] + back) == ElemsOf(front) + Elems(c) + ElemsOf(back);
    assert cs == front + back;
    ElemsOfConcat(front, back);
    assert ElemsOf(cs) == ElemsOf(front) + ElemsOf(back);
  }

  /** Replacing one child by a valid subtree with one more key under the same label keeps the node valid. */
  lemma ReplaceChildValid(t: Trie, m: nat, i: nat, c2: Trie, x: Key)
    requires Valid(t, m) && t.Node? && i < |t.children| && Valid(c2, t.depth + 1)
    requires multiset(Elems(c2)) == multiset(Elems(t.children[i])) + multiset{x}
    requires Under(x, FirstKey(t), t.depth, Labels(t.idx)[i])
    ensures Valid(t.(children := t.children[i := c2]), m)
    ensures multiset(Elems(t.(children := t.children[i := c2]))) == multiset(Elems(t)) + multiset{x}
  {
    FirstKeyMin(t, m);
    SharedPrefix(t, m, FirstKey(t));
    ReplacedChildrenOk(t, m, i, c2, x);
    BuildValid(t.size, t.depth, t.idx, t.children[i := c2], m, FirstKey(t));
    ElemsOfReplaced(t.children, i, c2, x);
  }

  lemma ReplacedChildrenOk(t: Trie, m: nat, i: nat, c2: Trie, x: Key)
    requires Valid(t, m) && t.Node? && i < |t.children| && Valid(c2, t.depth + 1)
    requires multiset(Elems(c2)) == multiset(Elems(t.children[i])) + multiset{x}
    requires Under(x, FirstKey(t), t.depth, Labels(t.idx)[i])
    ensures forall j :: 0 <= j < |t.children| ==>
      Valid(t.children[i := c2][j], t.depth + 1) &&
      AllUnder(Elems(t.children[i := c2][j]), FirstKey(t), t.depth, Labels(t.idx)[j])
  {
    var cs := t.children;
    var cs2 := cs[i := c2];
    var w := FirstKey(t);
    forall k | k in Elems(c2) ensures Under(k, w, t.depth, Labels(t.idx)[i]) {
      assert k in multiset(Elems(c2));
      if k != x {
        assert k in multiset(Elems(cs[i]));
        ChildValid(t, m, i);
      }
    }
    forall j | 0 <= j < |cs2| ensures Valid(cs2[j], t.depth + 1) && AllUnder(Elems(cs2[j]), w, t.depth, Labels(t.idx)[j]) {
      if j != i {
        ChildValid(t, m, j);
      }
    }
  }

  lemma ElemsOfReplaced(cs: seq<Trie>, i: nat, c2: Trie, x: Key)
    requires i < |cs|
    requires multiset(Elems(c2)) == multiset(Elems(cs[i])) + multiset{x}
    ensures multiset(ElemsOf(cs[i := c2])) == multiset(ElemsOf(cs)) + multiset{x}
  {
    var cs2 := cs[i := c2];
    ElemsOfAround(cs, i);
    ElemsOfAround(cs2, i);
    assert cs2[..i] == cs[..i] && cs2[i + 1..] == cs[i + 1..];
    var p, q := ElemsOf(cs[..i]), ElemsOf(cs[i + 1..]);
    assert multiset(ElemsOf(cs2)) == multiset(p) + multiset(Elems(c2)) + multiset(q);
    assert multiset(ElemsOf(cs)) == multiset(p) + multiset(Elems(cs[i])) + multiset(q);
  }

  /** Inserted is valid and holds the keys of t plus data. */
  lemma {:induction false} InsertedValid(t: Trie, data: Key, lcp: nat, other: Key, m: nat)
    requires InsertPre(t, data, lcp, other, m)
    ensures Valid(Inserted(t, data, lcp, other, m), m)
    ensures multiset(Elems(Inserted(t, data, lcp, other, m))) == multiset(Elems(t)) + multiset{data}
    decreases t
  {
    if t.Leaf? || t.depth > lcp {
      From2Valid(t, data, lcp, other, m);
    } else if t.depth == lcp {
      InsertingValid(t, data, lcp, other, m);
    } else {
      DescendPre(t, data, lcp, other, m);
      var i := FindChild(t, ReadString(data, t.depth)).0.value;
      InsertedValid(t.children[i], data, lcp, other, t.depth + 1);
      InsertedChildValid(t, data, lcp, other, m, i);
    }
  }

  /** Above depth lcp: the child data's byte selects, valid with data added, leaves the node valid with data added. */
  lemma InsertedChildValid(t: Trie, data: Key, lcp: nat, other: Key, m: nat, i: nat)
    requires InsertPre(t, data, lcp, other, m) && t.Node? && t.depth < lcp
    requires FindChild(t, ReadString(data, t.depth)).0 == Some(i) && i < |t.children|
    requires InsertPre(t.children[i], data, lcp, other, t.depth + 1)
    requires var c2 := Inserted(t.children[i], data, lcp, other, t.depth + 1);
      Valid(c2, t.depth + 1) && multiset(Elems(c2)) == multiset(Elems(t.children[i])) + multiset{data}
    ensures Valid(Inserted(t, data, lcp, other, m), m)
    ensures multiset(Elems(Inserted(t, data, lcp, other, m))) == multiset(Elems(t)) + multiset{data}
  {
    ForkBytes(data, lcp, other);
    SharedPrefix(t, m, other);
    var k := KeyChild(t, m, other);
    LabelsIncreasing(t.idx);
    PrefixOfPrefix(data, other, t.depth, lcp);
    assert Under(data, FirstKey(t), t.depth, Labels(t.idx)[i]);
    ReplaceChildValid(t, m, i, Inserted(t.children[i], data, lcp, other, t.depth + 1), data);
  }

  // ----- Insert -----

  /** The way down from the root to a NodePtr place: each step names a node and the child taken. */
  datatype Path = Top | Down(up: Path, node: Trie, index: nat)

  /** Storing t at the place the path leads to, and rebuilding the nodes above it. */
  function Fill(path: Path, t: Trie): Trie
  {
    match path
    case Top => t
    case Down(up, node, i) =>
      Fill(up, if node.Node? && i < |node.children| then node.(children := node.children[i := t]) else t)
  }

  /**
   * Insert: an empty trie becomes a leaf. Otherwise data's byte at the
   * depth of its longest common prefix with the stored keys, lcp, is new at
   * that depth: walking down data's bytes, the first leaf or node deeper
   * than lcp is replaced by a two-child node at depth lcp, or a node at
   * depth lcp gains a leaf child.
   */
  method Insert(root: Trie, data: Key) returns (r: Trie)
    requires root.Empty? || Valid(root, 0)
    requires forall k :: k in Elems(root) ==> Lcp(data, k) < |data| && Lcp(data, k) < |k|
    ensures Valid(r, 0)
    ensures Elems(r) == InsertAt(Elems(root), CountLess(Elems(root), data), data)
  {
    if root.Empty? {
      r := Leaf(data);
      assert InsertAt([], 0, data) == [data];
      return;
    }
    var other, lcp := FindLCPLeaf(root, data);
    r := InsertWalk(root, data, lcp, other);
    InsertedInOrder(root, data, lcp, other);
  }

  /**
   * Insert's walk down data's bytes from the root to the place where the
   * new leaf goes, and the rebuilding of the path above it.
   */
  method InsertWalk(root: Trie, data: Key, lcp: nat, other: Key) returns (r: Trie)
    requires InsertPre(root, data, lcp, other, 0)
    ensures r == Inserted(root, data, lcp, other, 0)
  {
    var path := Top;
    var place := root;
    ghost var m: nat := 0;
    while true
      invariant InsertPre(place, data, lcp, other, m)
      invariant Fill(path, Inserted(place, data, lcp, other, m)) == Inserted(root, data, lcp, other, 0)
      decreases place
    {
      if place.Leaf? || place.depth > lcp {
        var n := ForkAt(place, data, lcp, other, m);
        r := Fill(path, n);
        break;
      }
      if place.depth == lcp {
        var n := AddAt(place, data, lcp, other, m);
        r := Fill(path, n);
        break;
      }
      var found := FindChild(place, ReadString(data, place.depth)).0;
      DescendFill(path, place, data, lcp, other, m);
      path := Down(path, place, found.value);
      m := place.depth + 1;
      place := place.children[found.value];
    }
  }

  /** Above depth lcp, Insert steps into the child data's byte selects; the insertion there, put back along the path, is the whole insertion. */
  lemma DescendFill(path: Path, place: Trie, data: Key, lcp: nat, other: Key, m: nat)
    requires InsertPre(place, data, lcp, other, m) && place.Node? && place.depth < lcp
    ensures var found := FindChild(place, ReadString(data, place.depth)).0;
      found.Some? && found.value < |place.children| &&
      InsertPre(place.children[found.value], data, lcp, other, place.depth + 1) &&
      Fill(Down(path, place, found.value), Inserted(place.children[found.value], data, lcp, other, place.depth + 1)) ==
      Fill(path, Inserted(place, data, lcp, other, m))
  {
    DescendPre(place, data, lcp, other, m);
  }

  /** Insert below a leaf or a node deeper than lcp: a new node at depth lcp over it and data's leaf. */
  method ForkAt(place: Trie, data: Key, lcp: nat, other: Key, ghost m: nat) returns (n: Trie)
    requires InsertPre(place, data, lcp, other, m) && (place.Leaf? || place.depth > lcp)
    ensures n == Inserted(place, data, lcp, other, m)
  {
    var exampleChar := ReadString(other, lcp);
    var thisChar := ReadString(data, lcp);
    ForkBytes(data, lcp, other);
    n := MakeFrom2(lcp, exampleChar, place, thisChar, Leaf(data));
  }

  /** Insert at a node of depth lcp: data's leaf joins it at the rank of its byte. */
  method AddAt(place: Trie, data: Key, lcp: nat, ghost other: Key, ghost m: nat) returns (n: Trie)
    requires InsertPre(place, data, lcp, other, m) && place.Node? && place.depth == lcp
    ensures n == Inserted(place, data, lcp, other, m)
  {
    var ch := ReadString(data, place.depth);
    var pos := FindChild(place, ch).1;
    AbsentAtLcp(place, data, lcp, other, m);
    NumElementsBeforeCounts(place.idx, ch);
    n := MakeInserting(place, ch, pos, Leaf(data));
  }

  /** The whole trie with data inserted is valid and lists the old keys with data at its rank. */
  lemma InsertedInOrder(root: Trie, data: Key, lcp: nat, other: Key)
    requires InsertPre(root, data, lcp, other, 0)
    ensures Valid(Inserted(root, data, lcp, other, 0), 0)
    ensures var s := Elems(root);
      Elems(Inserted(root, data, lcp, other, 0)) == InsertAt(s, CountLess(s, data), data)
  {
    InsertedValid(root, data, lcp, other, 0);
    var r := Inserted(root, data, lcp, other, 0);
    var s := Elems(root);
    LcpSelf(data);
    assert data !in s;
    ValidSorted(root, 0);
    ValidSorted(r, 0);
    InsertStrictlySorted(s, data);
    InsertAtMultiset(s, CountLess(s, data), data);
    StrictlySortedUnique(Elems(r), InsertAt(s, CountLess(s, data), data));
  }

  // ----- LowerBound -----

  /** What R::Rec relies on at a subtree: other shares lcp bytes with q, no key shares more, and other lies in every node not deeper than lcp. */
  ghost predicate BoundPre(t: Trie, q: Key, lcp: nat, other: Key, m: nat)
  {
    Valid(t, m) && Lcp(q, other) == lcp &&
    (forall k :: k in Elems(t) ==> Lcp(q, k) <= lcp) &&
    (t.Node? && t.depth <= lcp ==> other in Elems(t))
  }

  /** The byte R::Rec follows at a node: q's byte while the node is not deeper than lcp, else 0. */
  function RecByte(t: Trie, q: Key, lcp: nat): (c: nat)
    requires t.Node?
    ensures c < 256
  {
    if t.depth > lcp then 0 else ReadString(q, t.depth)
  }

  /** Two keys agreeing on d bytes, each sharing fewer than d bytes with q, lie on the same side of q. */
  lemma SameSide(q: Key, k: Key, k2: Key, d: nat)
    requires d <= |k| && d <= |k2| && k[..d] == k2[..d] && Lcp(q, k) < d && Lcp(q, k2) < d
    ensures Less(q, k) <==> Less(q, k2)
  {
    LcpVia(q, k, k2, d);
    LcpVia(q, k2, k, d);
    var a := Lcp(q, k);
    assert k[a] == k[..d][a] == k2[..d][a] == k2[a];
    LessByLcp(q, k);
    LessByLcp(q, k2);
  }

  /** A key agreeing with q on its first d bytes lies below q if its byte at d is smaller than q's, above if larger. */
  lemma NearKey(q: Key, k: Key, d: nat)
    requires d < |k| && d <= |q| && k[..d] == q[..d]
    ensures (k[d] as int) < ReadString(q, d) ==> Less(k, q)
    ensures (k[d] as int) > ReadString(q, d) ==> Less(q, k)
  {
    assert forall p :: 0 <= p < d ==> k[p] == k[..d][p] == q[..d][p] == q[p];
    if d < |q| {
      ByteOrder(k[d], q[d]);
      if k[d] != q[d] {
        LessAt(k, q, d);
        LessAt(q, k, d);
      }
    } else {
      assert q == k[..d];
      PrefixLess(q, k);
    }
  }

  /**
   * How the keys of a node lie around q, by their byte at the node's depth
   * compared with the byte R::Rec follows: smaller bytes are below q, and
   * keys with larger bytes are all above q or all on the same side.
   */
  lemma NodeSides(t: Trie, q: Key, lcp: nat, other: Key, m: nat)
    requires BoundPre(t, q, lcp, other, m) && t.Node?
    ensures forall k :: k in Elems(t) ==> t.depth < |k|
    ensures forall k :: k in Elems(t) && (k[t.depth] as int) < RecByte(t, q, lcp) ==> Less(k, q)
    ensures forall k, k2 :: (k in Elems(t) && k2 in Elems(t) &&
      (k[t.depth] as int) > RecByte(t, q, lcp) && (k2[t.depth] as int) > RecByte(t, q, lcp)) ==>
      (Less(q, k) <==> Less(q, k2))
  {
    forall k | k in Elems(t) ensures t.depth < |k| {
      SharedPrefix(t, m, k);
    }
    if t.depth <= lcp {
      SidesNear(t, q, lcp, other, m);
    } else {
      SidesFar(t, q, lcp, other, m);
    }
  }

  lemma SidesNear(t: Trie, q: Key, lcp: nat, other: Key, m: nat)
    requires BoundPre(t, q, lcp, other, m) && t.Node? && t.depth <= lcp
    ensures forall k :: k in Elems(t) ==> (t.depth < |k| &&
      ((k[t.depth] as int) < ReadString(q, t.depth) ==> Less(k, q)) &&
      ((k[t.depth] as int) > ReadString(q, t.depth) ==> Less(q, k)))
  {
    var d := t.depth;
    SharedPrefix(t, m, other);
    LcpFacts(q, other);
    assert q[..d] == other[..d];
    forall k | k in Elems(t) ensures d < |k| &&
      ((k[d] as int) < ReadString(q, d) ==> Less(k, q)) && ((k[d] as int) > ReadString(q, d) ==> Less(q, k))
    {
      SharedPrefix(t, m, k);
      NearKey(q, k, d);
    }
  }

  lemma SidesFar(t: Trie, q: Key, lcp: nat, other: Key, m: nat)
    requires BoundPre(t, q, lcp, other, m) && t.Node? && t.depth > lcp
    ensures forall k, k2 :: k in Elems(t) && k2 in Elems(t) ==> (Less(q, k) <==> Less(q, k2))
  {
    forall k, k2 | k in Elems(t) && k2 in Elems(t) ensures Less(q, k) <==> Less(q, k2) {
      SharedPrefix(t, m, k);
      SharedPrefix(t, m, k2);
      SameSide(q, k, k2, t.depth);
    }
  }

  /** The child R::Rec descends into meets BoundPre one level down. */
  lemma ChildBoundPre(t: Trie, q: Key, lcp: nat, other: Key, m: nat, j: nat)
    requires BoundPre(t, q, lcp, other, m) && t.Node? && j < |t.children|
    requires Labels(t.idx)[j] == RecByte(t, q, lcp)
    ensures BoundPre(t.children[j], q, lcp, other, t.depth + 1)
    ensures forall k :: k in Elems(t.children[j]) ==> k in Elems(t)
  {
    ChildValid(t, m, j);
    forall k | k in Elems(t.children[j]) ensures k in Elems(t) {
      ElemsOfHas(t.children, j, k);
    }
    if t.depth < lcp {
      var j2 := KeyChild(t, m, other);
      LcpFacts(q, other);
      LabelsIncreasing(t.idx);
    }
  }

  /** The keys with the byte of child j are exactly the keys of child j. */
  lemma LabelledKey(t: Trie, m: nat, j: nat, k: Key)
    requires Valid(t, m) && t.Node? && j < |t.children| && k in Elems(t)
    requires t.depth < |k| && k[t.depth] as int == Labels(t.idx)[j]
    ensures k in Elems(t.children[j])
  {
    var j2 := KeyChild(t, m, k);
    LabelsIncreasing(t.idx);
  }

  /** The answer of the followed child is the answer of the node. */
  lemma MidAnswer(t: Trie, q: Key, lcp: nat, other: Key, m: nat, j: nat, x: Key)
    requires BoundPre(t, q, lcp, other, m) && t.Node? && j < |t.children|
    requires Labels(t.idx)[j] == RecByte(t, q, lcp)
    requires IsUpperBound(Elems(t.children[j]), q, Some(x))
    ensures IsUpperBound(Elems(t), q, Some(x))
  {
    NodeSides(t, q, lcp, other, m);
    ElemsOfHas(t.children, j, x);
    LabelsIncreasing(t.idx);
    forall k | k in Elems(t) && Less(q, k) ensures LessEq(x, k) {
      var j2 := KeyChild(t, m, k);
      Trichotomy(k, q);
      if j2 != j {
        ChildrenOrdered(t, m, j, j2, x, k);
      }
    }
  }

  /**
   * With every key above q in child j or later, and the keys all at or
   * below q whenever the first key of child j is: that first key is the answer
   * when it is above q, and there is none otherwise.
   */
  lemma NextAnswer(t: Trie, q: Key, m: nat, j: nat)
    requires Valid(t, m) && t.Node? && j < |t.children|
    requires forall k :: k in Elems(t) ==> t.depth < |k|
    requires forall k :: k in Elems(t) && t.depth < |k| && (k[t.depth] as int) < Labels(t.idx)[j] ==> LessEq(k, q)
    requires forall k :: k in Elems(t) ==> (!Less(q, FirstKey(t.children[j])) ==> !Less(q, k))
    ensures var y := FirstKey(t.children[j]);
      IsUpperBound(Elems(t), q, if Less(q, y) then Some(y) else None)
  {
    var c := t.children[j];
    var y := FirstKey(c);
    ChildValid(t, m, j);
    FirstKeyMin(c, t.depth + 1);
    ElemsOfHas(t.children, j, y);
    LabelsIncreasing(t.idx);
    forall k | k in Elems(t) && Less(q, k) ensures LessEq(y, k) {
      var j2 := KeyChild(t, m, k);
      Trichotomy(k, q);
      if j2 != j {
        ChildrenOrdered(t, m, j, j2, y, k);
      }
    }
    forall k | k in Elems(t) ensures !Less(q, k) ==> LessEq(k, q) {
      NotLess(q, k);
    }
  }

  /**
   * The scan of R::Rec for the first child labelled above ch. With ch = 255
   * nothing is scanned and the place found for ch is kept.
   */
  method ScanAbove(t: Trie, ch: nat, found: Option<nat>) returns (childPlace: Option<nat>, i: nat)
    requires t.Node? && Initialized(t.idx) && |t.children| == |Labels(t.idx)| && ch < 256
    ensures ch < i <= 256
    ensures forall c :: ch < c < i ==> c !in Labels(t.idx)
    ensures i < 256 ==> childPlace.Some? && childPlace == FindChild(t, i).0
    ensures i == 256 ==> childPlace == (if ch == 255 then found else None)
  {
    childPlace := found;
    i := ch + 1;
    while i < 256
      invariant ch + 1 <= i <= 256
      invariant i == ch + 1 ==> childPlace == found
      invariant i > ch + 1 ==> childPlace.None?
      invariant forall c :: ch < c < i ==> c !in Labels(t.idx)
    {
      childPlace := FindChild(t, i).0;
      if childPlace.Some? {
        break;
      }
      i := i + 1;
    }
  }

  /**
   * R::Rec: at a leaf, the leaf if it is above q; at a node, the answer of
   * the child R::Rec follows, else the smallest key of the next child
   * if that is above q.
   */
  method LowerBoundRec(t: Trie, q: Key, lcp: nat, ghost other: Key, ghost m: nat) returns (r: Option<Key>)
    requires BoundPre(t, q, lcp, other, m)
    ensures IsUpperBound(Elems(t), q, r)
    decreases t
  {
    if t.Leaf? {
      NotLess(q, t.data);
      if Less(q, t.data) {
        r := Some(t.data);
      } else {
        r := None;
      }
      return;
    }
    var ch := if t.depth > lcp then 0 else ReadString(q, t.depth);
    assert ch == RecByte(t, q, lcp);
    var found := FindChild(t, ch).0;
    if found.Some? {
      ChildBoundPre(t, q, lcp, other, m, found.value);
      var mid := LowerBoundRec(t.children[found.value], q, lcp, other, t.depth + 1);
      if mid.Some? {
        MidAnswer(t, q, lcp, other, m, found.value, mid.value);
        return mid;
      }
    }
    // every key with byte ch, if any, is at or below q
    assert found.Some? ==> forall k :: k in Elems(t.children[found.value]) ==> LessEq(k, q);
    r := NextAbove(t, q, lcp, other, m, found);
  }

  /**
   * The end of R::Rec at a node whose followed child, if any, holds
   * nothing above q: the smallest key of the next child, if above q.
   */
  method NextAbove(t: Trie, q: Key, lcp: nat, ghost other: Key, ghost m: nat, found: Option<nat>) returns (r: Option<Key>)
    requires BoundPre(t, q, lcp, other, m) && t.Node?
    requires found == FindChild(t, RecByte(t, q, lcp)).0
    requires found.Some? ==> forall k :: k in Elems(t.children[found.value]) ==> LessEq(k, q)
    ensures IsUpperBound(Elems(t), q, r)
  {
    var ch := if t.depth > lcp then 0 else ReadString(q, t.depth);
    assert ch == RecByte(t, q, lcp);
    var childPlace, i := ScanAbove(t, ch, found);
    if childPlace.None? {
      NoneAbove(t, q, lcp, other, m, found);
      return None;
    }
    var j := childPlace.value;
    ChildValid(t, m, j);
    var leaf := Leftmost(t.children[j], t.depth + 1);
    if i < 256 {
      NextAfterGap(t, q, lcp, other, m, found, j);
    } else {
      NextIsFollowed(t, q, lcp, other, m, j);
    }
    NextAnswer(t, q, m, j);
    if Less(q, leaf) {
      r := Some(leaf);
    } else {
      r := None;
    }
  }

  /** No label above the followed byte, and nothing above q under it: nothing in the node is above q. */
  lemma NoneAbove(t: Trie, q: Key, lcp: nat, other: Key, m: nat, found: Option<nat>)
    requires BoundPre(t, q, lcp, other, m) && t.Node?
    requires found == FindChild(t, RecByte(t, q, lcp)).0
    requires found.Some? ==> forall k :: k in Elems(t.children[found.value]) ==> LessEq(k, q)
    requires forall c :: RecByte(t, q, lcp) < c < 256 ==> c !in Labels(t.idx)
    ensures IsUpperBound(Elems(t), q, None)
  {
    var ch := RecByte(t, q, lcp);
    NodeSides(t, q, lcp, other, m);
    LabelsIncreasing(t.idx);
    forall k | k in Elems(t) ensures LessEq(k, q) {
      var j2 := KeyChild(t, m, k);
      assert Labels(t.idx)[j2] in Labels(t.idx);
      if Labels(t.idx)[j2] == ch {
        assert j2 == found.value;
      }
    }
  }

  /** Child j is the first after a gap above the followed byte: every key before it is at or below q, and keys from it on lie on one side of q. */
  lemma NextAfterGap(t: Trie, q: Key, lcp: nat, other: Key, m: nat, found: Option<nat>, j: nat)
    requires BoundPre(t, q, lcp, other, m) && t.Node? && j < |t.children|
    requires found == FindChild(t, RecByte(t, q, lcp)).0
    requires found.Some? ==> forall k :: k in Elems(t.children[found.value]) ==> LessEq(k, q)
    requires RecByte(t, q, lcp) < Labels(t.idx)[j]
    requires forall c :: RecByte(t, q, lcp) < c < Labels(t.idx)[j] ==> c !in Labels(t.idx)
    ensures forall k :: k in Elems(t) ==> t.depth < |k|
    ensures forall k :: k in Elems(t) && t.depth < |k| && (k[t.depth] as int) < Labels(t.idx)[j] ==> LessEq(k, q)
    ensures forall k :: k in Elems(t) ==> (!Less(q, FirstKey(t.children[j])) ==> !Less(q, k))
  {
    var ch := RecByte(t, q, lcp);
    var d := t.depth;
    NodeSides(t, q, lcp, other, m);
    LabelsIncreasing(t.idx);
    forall k | k in Elems(t) && (k[d] as int) < Labels(t.idx)[j] ensures LessEq(k, q) {
      var j2 := KeyChild(t, m, k);
      assert Labels(t.idx)[j2] in Labels(t.idx);
      if Labels(t.idx)[j2] == ch {
        assert j2 == found.value;
      }
    }
    ChildValid(t, m, j);
    var y := FirstKey(t.children[j]);
    FirstKeyMin(t.children[j], d + 1);
    ElemsOfHas(t.children, j, y);
    forall k | k in Elems(t) ensures !Less(q, y) ==> !Less(q, k) {
      if (k[d] as int) < Labels(t.idx)[j] {
        Trichotomy(k, q);
      }
    }
  }

  /** The followed byte is 255 and nothing under it is above q: nothing in the node is. */
  lemma NextIsFollowed(t: Trie, q: Key, lcp: nat, other: Key, m: nat, j: nat)
    requires BoundPre(t, q, lcp, other, m) && t.Node? && j < |t.children|
    requires RecByte(t, q, lcp) == 255 && Labels(t.idx)[j] == 255
    requires forall k :: k in Elems(t.children[j]) ==> LessEq(k, q)
    ensures forall k :: k in Elems(t) ==> t.depth < |k|
    ensures forall k :: k in Elems(t) && t.depth < |k| && (k[t.depth] as int) < Labels(t.idx)[j] ==> LessEq(k, q)
    ensures forall k :: k in Elems(t) ==> (!Less(q, FirstKey(t.children[j])) ==> !Less(q, k))
  {
    NodeSides(t, q, lcp, other, m);
    LabelsIncreasing(t.idx);
    forall k | k in Elems(t) ensures LessEq(k, q) {
      var j2 := KeyChild(t, m, k);
      assert Labels(t.idx)[j2] in Labels(t.idx);
      if Labels(t.idx)[j2] == 255 {
        assert j2 == j;
      }
    }
    forall k | k in Elems(t) ensures !Less(q, k) {
      Trichotomy(k, q);
    }
  }

  /** LowerBound: the smallest key strictly above q, or None when no key is above q. */
  method LowerBound(root: Trie, q: Key) returns (r: Option<Key>)
    requires root.Empty? || Valid(root, 0)
    ensures IsUpperBound(Elems(root), q, r)
  {
    if root.Empty? {
      return None;
    }
    var other, lcp := FindLCPLeaf(root, q);
    r := LowerBoundRec(root, q, lcp, other, 0);
  }

  /** What LowerBound as written does: answer, or dereference a null node. */
  datatype Outcome = Returned(result: Option<Key>) | NullDereference

  /**
   * LowerBound as written: only a null root_place answers "nothing"; an
   * empty trie (a non-null place holding the empty pointer) goes on to
   * FindLCPLeaf, which unpacks the empty pointer as a node and reads its depth.
   */
  method LowerBoundAsWritten(rootPlace: Option<Trie>, q: Key) returns (r: Outcome)
    requires rootPlace.None? || rootPlace.value.Empty? || Valid(rootPlace.value, 0)
    ensures r.NullDereference? <==> rootPlace == Some(Empty)
    ensures rootPlace.None? ==> r == Returned(None)
    ensures rootPlace.Some? && r.Returned? ==> IsUpperBound(Elems(rootPlace.value), q, r.result)
  {
    if rootPlace.None? {
      return Returned(None);
    }
    var root := rootPlace.value;
    if root.Empty? {
      return NullDereference;
    }
    var other, lcp := FindLCPLeaf(root, q);
    var res := LowerBoundRec(root, q, lcp, other, 0);
    return Returned(res);
  }

  // ----- the 8-bit size parameter -----

  /** The size a node records as written: its constructor takes the count as an 8-bit value. */
  function StoredSize(count: nat): (stored: nat)
    ensures stored < 256
    ensures count < 256 ==> stored == count
    ensures count == 256 ==> stored == 0
  {
    count % 256
  }

  /** MakeInserting as written: the new count reaches the node through the 8-bit constructor parameter. */
  function InsertingAsWritten(prev: Trie, ch: nat, pos: nat, leaf: Trie): Trie
    requires prev.Node? && WellSized(prev.idx) && ch < 256 && pos <= |prev.children|
  {
    Node(StoredSize(prev.size + 1), prev.depth, Finished(InitInUse(prev.idx, ch)),
         prev.children[..pos] + [leaf] + prev.children[pos..])
  }

  /**
   * Adding a 256th child: the node MakeInserting builds as written records
   * size 0 with 256 children, which validation rejects, while the node with
   * the count kept whole is valid and holds the new key.
   */
  lemma {:induction false} FullNodeSizeLost(t: Trie, data: Key, lcp: nat, other: Key, m: nat)
    requires InsertPre(t, data, lcp, other, m) && t.Node? && t.depth == lcp && t.size == 255
    ensures var ch := ReadString(data, lcp);
      var pos := FindChild(t, ch).1;
      InsertingAsWritten(t, ch, pos, Leaf(data)).size == 0 &&
      |InsertingAsWritten(t, ch, pos, Leaf(data)).children| == 256 &&
      !Valid(InsertingAsWritten(t, ch, pos, Leaf(data)), m) &&
      Valid(Inserting(t, ch, pos, Leaf(data)), m) &&
      data in Elems(Inserting(t, ch, pos, Leaf(data)))
  {
    var ch := ReadString(data, lcp);
    var pos := FindChild(t, ch).1;
    InsertingValid(t, data, lcp, other, m);
    assert data in multiset(Elems(Inserting(t, ch, pos, Leaf(data))));
  }

  // ----- DoValidate -----

  /** The layout construction maintains and DoValidate takes for granted: filled-in start counts and one child per label. */
  ghost predicate Indexed(t: Trie)
    decreases t
  {
    t.Node? ==>
      Initialized(t.idx) && |t.children| == |Labels(t.idx)| &&
      forall i :: 0 <= i < |t.children| ==> Indexed(t.children[i])
  }

  /** p starts every key of ks. */
  predicate PrefixOfAll(p: Key, ks: seq<Key>)
  {
    forall k :: k in ks ==> |p| <= |k| && k[..|p|] == p
  }

  /** The children of t before position i pass DoValidate's checks. */
  ghost predicate ChildrenChecked(t: Trie, i: nat)
    requires t.Node? && Initialized(t.idx) && |t.children| == |Labels(t.idx)| && i <= |t.children|
  {
    forall j :: 0 <= j < i ==>
      Valid(t.children[j], t.depth + 1) && AllUnder(Elems(t.children[j]), FirstKey(t), t.depth, Labels(t.idx)[j])
  }

  /** What DoValidate's my_lcp is after i children: the first child's prefix, then cut to the node's depth. */
  ghost predicate MyLcpOk(t: Trie, i: nat, myLcp: Key)
    requires t.Node? && Initialized(t.idx) && |t.children| == |Labels(t.idx)| && 0 < i <= |t.children|
  {
    var d := t.depth;
    d <= |myLcp| && d <= |FirstKey(t)| && myLcp[..d] == FirstKey(t)[..d] &&
    (i == 1 ==> d < |myLcp| && myLcp[d] as int == Labels(t.idx)[0]) &&
    (i > 1 ==> |myLcp| == d) &&
    forall j :: 0 <= j < i ==> PrefixOfAll(myLcp, Elems(t.children[j]))
  }

  /** What DoValidate returns for a subtree it accepts. */
  ghost predicate ValidatedPrefix(t: Trie, p: Key)
  {
    PrefixOfAll(p, Elems(t)) && (t.Leaf? ==> p == t.data) && (t.Node? ==> t.depth <= |p|)
  }

  /** In a valid node, a child's returned prefix passes both per-child checks. */
  lemma StepComplete(t: Trie, m: nat, i: nat, lcp: Key, myLcp: Key)
    requires t.Node? && Initialized(t.idx) && |t.children| == |Labels(t.idx)| && i < |t.children|
    requires ValidatedPrefix(t.children[i], lcp)
    requires i > 0 ==> MyLcpOk(t, i, myLcp)
    ensures Valid(t, m) ==> t.depth < |lcp| && lcp[t.depth] as int == Labels(t.idx)[i]
    ensures Valid(t, m) && i > 0 ==> Lcp(myLcp, lcp) == t.depth
  {
    if Valid(t, m) {
      var d := t.depth;
      var c := t.children[i];
      ChildValid(t, m, i);
      FirstKeyMin(c, d + 1);
      var f := FirstKey(c);
      assert Under(f, FirstKey(t), d, Labels(t.idx)[i]);
      assert d < |lcp| && f[..|lcp|] == lcp;
      assert lcp[d] == f[..|lcp|][d] == f[d];
      assert lcp[..d] == f[..|lcp|][..d] == f[..d];
      if i > 0 {
        LabelsIncreasing(t.idx);
        assert myLcp[..d] == lcp[..d];
        LcpAtLeast(myLcp, lcp, d);
        LcpFacts(myLcp, lcp);
        if i == 1 {
          assert myLcp[d] != lcp[d];
        }
      }
    }
  }

  /** Keys starting with a prefix that carries byte ch at depth d and agrees with w before it are under (w, d, ch). */
  lemma UnderFromPrefix(ks: seq<Key>, lcp: Key, w: Key, d: nat, ch: int)
    requires PrefixOfAll(lcp, ks) && d < |lcp| && lcp[d] as int == ch && d <= |w| && lcp[..d] == w[..d]
    ensures AllUnder(ks, w, d, ch)
  {
    forall k | k in ks ensures Under(k, w, d, ch) {
      assert k[..|lcp|] == lcp;
      assert k[..d] == k[..|lcp|][..d];
      assert k[d] == k[..|lcp|][d];
    }
  }

  /** A prefix of every key is cut to a prefix of every key. */
  lemma PrefixOfAllCut(p: Key, ks: seq<Key>, d: nat)
    requires PrefixOfAll(p, ks) && d <= |p|
    ensures PrefixOfAll(p[..d], ks)
  {
    forall k | k in ks ensures d <= |k| && k[..d] == p[..d] {
      assert k[..|p|] == p;
      assert k[..d] == k[..|p|][..d];
    }
  }

  /** The prefix a checked child returns agrees with the node's first key on the first depth bytes. */
  lemma StepAgrees(t: Trie, i: nat, lcp: Key, myLcp: Key)
    requires t.Node? && Initialized(t.idx) && |t.children| == |Labels(t.idx)| && i < |t.children|
    requires i > 0 ==> MyLcpOk(t, i, myLcp)
    requires Valid(t.children[i], t.depth + 1) && ValidatedPrefix(t.children[i], lcp)
    requires t.depth < |lcp|
    requires i > 0 ==> Lcp(myLcp, lcp) == t.depth
    ensures t.depth <= |FirstKey(t)| && lcp[..t.depth] == FirstKey(t)[..t.depth]
  {
    var d := t.depth;
    var w := FirstKey(t);
    if i == 0 {
      FirstKeyMin(t.children[0], d + 1);
      assert w[..|lcp|] == lcp;
      assert w[..d] == w[..|lcp|][..d];
    } else {
      LcpFacts(myLcp, lcp);
    }
  }

  /** A child passing both checks extends what has been checked. */
  lemma StepChecked(t: Trie, i: nat, lcp: Key, myLcp: Key)
    requires t.Node? && Initialized(t.idx) && |t.children| == |Labels(t.idx)| && i < |t.children|
    requires ChildrenChecked(t, i) && (i > 0 ==> MyLcpOk(t, i, myLcp))
    requires Valid(t.children[i], t.depth + 1) && ValidatedPrefix(t.children[i], lcp)
    requires t.depth < |lcp| && lcp[t.depth] as int == Labels(t.idx)[i]
    requires i > 0 ==> Lcp(myLcp, lcp) == t.depth
    ensures ChildrenChecked(t, i + 1)
  {
    StepAgrees(t, i, lcp, myLcp);
    UnderFromPrefix(Elems(t.children[i]), lcp, FirstKey(t), t.depth, Labels(t.idx)[i]);
  }

  /** A child passing both checks leaves my_lcp with its meaning for one more child. */
  lemma StepLcp(t: Trie, i: nat, lcp: Key, myLcp: Key)
    requires t.Node? && Initialized(t.idx) && |t.children| == |Labels(t.idx)| && i < |t.children|
    requires i > 0 ==> MyLcpOk(t, i, myLcp)
    requires Valid(t.children[i], t.depth + 1) && ValidatedPrefix(t.children[i], lcp)
    requires t.depth < |lcp| && lcp[t.depth] as int == Labels(t.idx)[i]
    requires i > 0 ==> Lcp(myLcp, lcp) == t.depth
    ensures MyLcpOk(t, i + 1, if i == 0 then lcp else myLcp[..t.depth])
  {
    var d := t.depth;
    StepAgrees(t, i, lcp, myLcp);
    if i > 0 {
      var p := myLcp[..d];
      LcpFacts(myLcp, lcp);
      forall j | 0 <= j <= i ensures PrefixOfAll(p, Elems(t.children[j])) {
        if j < i {
          PrefixOfAllCut(myLcp, Elems(t.children[j]), d);
        } else {
          PrefixOfAllCut(lcp, Elems(t.children[j]), d);
        }
      }
    }
  }

  /** The checked children of a node of the right size make it valid, and my_lcp starts all its keys. */
  lemma AllChecked(t: Trie, m: nat, myLcp: Key)
    requires t.Node? && Initialized(t.idx) && |t.children| == |Labels(t.idx)| && 0 < |t.children|
    requires t.size == |t.children| && t.size <= 256 && m <= t.depth
    requires ChildrenChecked(t, |t.children|) && MyLcpOk(t, |t.children|, myLcp)
    ensures Valid(t, m) && ValidatedPrefix(t, myLcp)
  {
    forall k | k in Elems(t) ensures |myLcp| <= |k| && k[..|myLcp|] == myLcp {
      var j := ElemsOfWhich(t.children, k);
    }
  }

  lemma IndexedChild(t: Trie, i: nat)
    requires Indexed(t) && t.Node? && i < |t.children|
    ensures Indexed(t.children[i])
  {
  }

  /**
   * The body DoValidate runs for the child at rank i, labelled ch: the child
   * is non-empty and valid, its common prefix is longer than the node's depth
   * and carries ch there, and, after the first child, it shares exactly the
   * first depth bytes with my_lcp. The answer is the new my_lcp; None models
   * a failed validation_assert.
   */
  method CheckChild(t: Trie, minDepth: nat, i: nat, ch: int, myLcp: Key) returns (next: Option<Key>)
    requires Indexed(t) && t.Node? && i < |t.children| && ch == Labels(t.idx)[i]
    requires ChildrenChecked(t, i) && (i > 0 ==> MyLcpOk(t, i, myLcp))
    ensures next.None? ==> !Valid(t, minDepth)
    ensures next.Some? ==> ChildrenChecked(t, i + 1) && MyLcpOk(t, i + 1, next.value)
    decreases t, 0
  {
    var c := t.children[i];
    assert Valid(t, minDepth) ==> Valid(c, t.depth + 1);
    if c.Empty? {
      return None;
    }
    IndexedChild(t, i);
    var lcp := DoValidate(c, t.depth + 1);
    if lcp.None? {
      return None;
    }
    StepComplete(t, minDepth, i, lcp.value, myLcp);
    if !(|lcp.value| > t.depth && lcp.value[t.depth] as int == ch) {
      return None;
    }
    if i == 0 {
      StepChecked(t, i, lcp.value, myLcp);
      StepLcp(t, i, lcp.value, myLcp);
      return Some(lcp.value);
    }
    var len := Lcp(myLcp, lcp.value);
    if len != t.depth {
      return None;
    }
    StepChecked(t, i, lcp.value, myLcp);
    StepLcp(t, i, lcp.value, myLcp);
    return Some(myLcp[..len]);
  }

  /**
   * DoValidate: a leaf returns its key; a node must have 1 to 256 children
   * and depth at least minDepth, every child, enumerated in increasing label
   * order, must pass CheckChild, and the count must match. It returns the
   * prefix common to the subtree's keys; None models a failed
   * validation_assert. (The source's check that labels come in increasing
   * order always holds, since the enumeration is by increasing byte.)
   */
  method DoValidate(t: Trie, minDepth: nat) returns (r: Option<Key>)
    requires Indexed(t)
    ensures r.Some? <==> Valid(t, minDepth)
    ensures r.Some? ==> ValidatedPrefix(t, r.value)
    decreases t, 1
  {
    if t.Leaf? {
      return Some(t.data);
    }
    if t.Empty? {
      return None;
    }
    var size := t.size;
    if !(size <= 256 && size > 0 && t.depth >= minDepth) {
      return None;
    }
    var myLcp: Key := [];
    var seen := 0;
    var ch := 0;
    while ch < 256
      invariant 0 <= ch <= 256 && seen == |LabelsBelow(t.idx, ch)| <= |t.children|
      invariant ChildrenChecked(t, seen) && (seen > 0 ==> MyLcpOk(t, seen, myLcp))
    {
      if HasElement(t.idx, ch) {
        LabelAtRank(t.idx, ch);
        var next := CheckChild(t, minDepth, seen, ch, myLcp);
        if next.None? {
          return None;
        }
        myLcp := next.value;
        seen := seen + 1;
      }
      ch := ch + 1;
    }
    LabelsBelowLength(t.idx, 256);
    if seen != size {
      return None;
    }
    AllChecked(t, minDepth, myLcp);
    return Some(myLcp);
  }
}
