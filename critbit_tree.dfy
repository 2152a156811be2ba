// The crit-bit tree of critbit-tree.h: a binary radix tree over the bits of
// the keys, most significant bit of the first byte first, a missing byte
// reading as zero. Internal nodes hold the index of the first bit at which
// the keys of their two subtrees differ; leaves hold the keys.

module CritBit {
  import opened Keys
  import opened OrderedSet

  // ----- bits of bytes and strings -----

  /** The mask selecting bit k of a byte, bit 0 being the most significant. */
  function Mask(k: nat): Byte
    requires k < 8
  {
    if k == 0 then 0x80 else if k == 1 then 0x40 else if k == 2 then 0x20 else if k == 3 then 0x10
    else if k == 4 then 0x08 else if k == 5 then 0x04 else if k == 6 then 0x02 else 0x01
  }

  /** Bit k of a byte, counting from the most significant bit. */
  function BitOf(x: Byte, k: nat): (b: nat)
    requires k < 8
    ensures b <= 1
  {
    if x & Mask(k) != 0 then 1 else 0
  }

  /** std::countl_zero on a byte: the leading zero bits, 8 for a zero byte. */
  function Clz(x: Byte): (n: nat)
    ensures n <= 8
    ensures n == 8 <==> x == 0
  {
    if x >= 0x80 then 0 else if x >= 0x40 then 1 else if x >= 0x20 then 2 else if x >= 0x10 then 3
    else if x >= 0x08 then 4 else if x >= 0x04 then 5 else if x >= 0x02 then 6 else if x >= 0x01 then 7 else 8
  }

  /** The leading zeros of a non-zero byte end at its highest set bit. */
  lemma ClzFacts(x: Byte)
    requires x != 0
    ensures Clz(x) < 8 && BitOf(x, Clz(x)) == 1
    ensures forall k :: 0 <= k < Clz(x) ==> BitOf(x, k) == 0
  {
  }

  /** A bit of x ^ y is set exactly where x and y differ. */
  lemma XorBit(x: Byte, y: Byte, k: nat)
    requires k < 8
    ensures BitOf(x ^ y, k) == 1 <==> BitOf(x, k) != BitOf(y, k)
  {
    var m := Mask(k);
    assert (x ^ y) & m == (x & m) ^ (y & m);
    assert m == 0x80 || m == 0x40 || m == 0x20 || m == 0x10 || m == 0x08 || m == 0x04 || m == 0x02 || m == 0x01;
  }

  /** Two different bytes compare as their first differing bit does. */
  lemma ByteOrder(x: Byte, y: Byte)
    requires x != y
    ensures Clz(x ^ y) < 8
    ensures x < y <==> BitOf(y, Clz(x ^ y)) == 1
  {
  }

  /** get_bit: bit i of s, or 0 past its end. */
  function GetBit(s: Key, i: nat): (b: nat)
    ensures b <= 1
  {
    var byteIndex := i / 8;
    if byteIndex >= |s| then 0 else BitOf(s[byteIndex], i % 8)
  }

  /** Keys of a crit-bit tree must not contain zero bytes. */
  predicate NoNul(s: Key)
  {
    forall i :: 0 <= i < |s| ==> s[i] != 0
  }

  /** a and b have the same bits below bit c. */
  predicate Agree(a: Key, b: Key, c: nat)
  {
    forall j :: 0 <= j < c ==> GetBit(a, j) == GetBit(b, j)
  }

  /** Bit i is the first bit at which a and b differ. */
  predicate FirstDiff(a: Key, b: Key, i: nat)
  {
    Agree(a, b, i) && GetBit(a, i) != GetBit(b, i)
  }

  /** The byte of s at n, a zero byte past its end. */
  function Pad(s: Key, n: nat): Byte
  {
    if n < |s| then s[n] else 0
  }

  /**
   * find_crit_bit: the first bit at which s1 and s2 differ, or None when
   * they are equal. A proper prefix is compared with a zero byte after it.
   */
  function FindCritBit(s1: Key, s2: Key): (r: Option<nat>)
    ensures r.None? <==> s1 == s2
  {
    LcpFacts(s1, s2);
    var len1, len2 := |s1|, |s2|;
    var minLen := if len1 < len2 then len1 else len2;
    var p := Lcp(s1, s2);
    if p == minLen then
      if len1 == len2 then
        assert s1 == s2;
        None
      else
        var c1: Byte, c2: Byte := if len1 > len2 then s1[p] else 0, if len1 > len2 then 0 else s2[p];
        Some(BitIndex(p, c1, c2))
    else
      Some(BitIndex(p, s1[p], s2[p]))
  }

  /** The index of the first differing bit of two bytes found at byte p. */
  function BitIndex(p: nat, c1: Byte, c2: Byte): nat
  {
    p * 8 + Clz(c1 ^ c2)
  }

  /** Bit k of byte n of s, as get_bit addresses it. */
  lemma BitAt(s: Key, n: nat, k: nat)
    requires k < 8
    ensures GetBit(s, n * 8 + k) == BitOf(Pad(s, n), k)
  {
    var i := n * 8 + k;
    assert i / 8 == n && i % 8 == k;
  }

  /** BitAt, for an index already known to be n * 8 + k. */
  lemma BitAtIndex(s: Key, n: nat, k: nat, i: nat)
    requires k < 8 && i == n * 8 + k
    ensures GetBit(s, i) == BitOf(Pad(s, n), k)
  {
    BitAt(s, n, k);
  }

  /** Every bit index splits into a byte index and a bit within the byte. */
  lemma BitSplit(j: nat) returns (n: nat, k: nat)
    ensures k < 8 && j == n * 8 + k
  {
    n, k := j / 8, j % 8;
  }

  /** A bit index below byte n, bit k lies in an earlier byte or earlier in byte n. */
  lemma BitBefore(q: nat, r: nat, n: nat, k: nat)
    requires r < 8 && k < 8 && q * 8 + r < n * 8 + k
    ensures q < n || (q == n && r < k)
  {
  }

  /** Strings agree on every bit before the first bit in which their bytes n differ. */
  lemma AgreeBelow(a: Key, b: Key, n: nat, k: nat)
    requires forall j :: 0 <= j < n ==> Pad(a, j) == Pad(b, j)
    requires k < 8 && forall r :: 0 <= r < k ==> BitOf(Pad(a, n), r) == BitOf(Pad(b, n), r)
    ensures Agree(a, b, n * 8 + k)
  {
    forall j | 0 <= j < n * 8 + k ensures GetBit(a, j) == GetBit(b, j) {
      var q, r := BitSplit(j);
      BitAt(a, q, r);
      BitAt(b, q, r);
      BitBefore(q, r, n, k);
      if q < n {
        assert Pad(a, q) == Pad(b, q);
      }
    }
  }

  /** Bytes that agree before n and differ at n first differ at the bit Clz finds. */
  lemma FirstDiffAtByte(a: Key, b: Key, n: nat)
    requires forall j :: 0 <= j < n ==> Pad(a, j) == Pad(b, j)
    requires Pad(a, n) != Pad(b, n)
    ensures FirstDiff(a, b, n * 8 + Clz(Pad(a, n) ^ Pad(b, n)))
  {
    var x, y := Pad(a, n), Pad(b, n);
    var k := Clz(x ^ y);
    ClzFacts(x ^ y);
    XorBit(x, y, k);
    BitAt(a, n, k);
    BitAt(b, n, k);
    forall r | 0 <= r < k ensures BitOf(x, r) == BitOf(y, r) {
      XorBit(x, y, r);
    }
    AgreeBelow(a, b, n, k);
  }

  /** For keys without zero bytes find_crit_bit finds the first differing bit. */
  lemma CritBitIsFirstDiff(s1: Key, s2: Key)
    requires NoNul(s1) && NoNul(s2) && s1 != s2
    ensures FindCritBit(s1, s2).Some? && FirstDiff(s1, s2, FindCritBit(s1, s2).value)
  {
    LcpFacts(s1, s2);
    var p := Lcp(s1, s2);
    forall j | 0 <= j < p ensures Pad(s1, j) == Pad(s2, j) {
    }
    if p < |s1| && p < |s2| {
      assert Pad(s1, p) == s1[p] && Pad(s2, p) == s2[p];
    } else if p < |s1| {
      assert Pad(s1, p) == s1[p] != 0;
    } else {
      assert p < |s2| && Pad(s2, p) == s2[p] != 0;
    }
    FirstDiffAtByte(s1, s2, p);
  }

  /** Two keys have at most one first differing bit. */
  lemma FirstDiffUnique(a: Key, b: Key, i: nat, j: nat)
    requires FirstDiff(a, b, i) && FirstDiff(a, b, j)
    ensures i == j
  {
  }

  /** find_crit_bit compares the bytes at the common prefix's end, padded with zero. */
  lemma CritBitByPad(s1: Key, s2: Key)
    requires s1 != s2
    ensures var p := Lcp(s1, s2);
      FindCritBit(s1, s2) == Some(BitIndex(p, Pad(s1, p), Pad(s2, p)))
  {
    LcpFacts(s1, s2);
    var p := Lcp(s1, s2);
    if p < |s1| && p < |s2| {
      assert Pad(s1, p) == s1[p] && Pad(s2, p) == s2[p];
    } else if p < |s1| {
      assert Pad(s1, p) == s1[p] && Pad(s2, p) == 0;
    } else if p < |s2| {
      assert Pad(s1, p) == 0 && Pad(s2, p) == s2[p];
    }
  }

  /** For keys without zero bytes, the order is the order of the padded bytes at the Lcp. */
  lemma LessByPad(a: Key, b: Key)
    requires NoNul(a) && NoNul(b)
    ensures var p := Lcp(a, b); Less(a, b) <==> Pad(a, p) < Pad(b, p)
  {
    LessByLcp(a, b);
    var p := Lcp(a, b);
    if p < |b| {
      assert b[p] != 0;
    }
  }

  /**
   * Bit order is string order: for keys without zero bytes, a sorts before b
   * exactly when b has the 1 at their first differing bit.
   */
  lemma BitOrder(a: Key, b: Key, i: nat)
    requires NoNul(a) && NoNul(b) && FirstDiff(a, b, i)
    ensures Less(a, b) <==> GetBit(b, i) == 1
    ensures Less(a, b) <==> GetBit(a, i) == 0
  {
    CritBitIsFirstDiff(a, b);
    FirstDiffUnique(a, b, i, FindCritBit(a, b).value);
    CritBitByPad(a, b);
    LessByPad(a, b);
    var p := Lcp(a, b);
    var x, y := Pad(a, p), Pad(b, p);
    assert x != y by {
      LcpFacts(a, b);
    }
    var k := Clz(x ^ y);
    ByteOrder(x, y);
    assert i == p * 8 + k;
    BitAtIndex(b, p, k, i);
    assert Less(a, b) <==> BitOf(y, k) == 1;
  }

  // ----- the tree as a value -----

  /**
   * A node: an ExternalNode holding a key, or an InternalNode holding the
   * critical bit index and its two children (bit 0 to the left).
   */
  datatype Node = Leaf(key: Key) | Branch(crit: nat, left: Node, right: Node)

  /** The keys of a subtree, left to right. */
  function Elems(n: Node): (r: seq<Key>)
    ensures |r| > 0
  {
    match n
    case Leaf(k) => [k]
    case Branch(_, l, r) => Elems(l) + Elems(r)
  }

  /** The key of the leftmost leaf. */
  function Rep(n: Node): Key
  {
    Elems(n)[0]
  }

  /** Every key of ks agrees with w below bit c and has the given bit at c. */
  predicate Side(ks: seq<Key>, w: Key, c: nat, bit: nat)
  {
    forall x :: x in ks ==> Agree(x, w, c) && GetBit(x, c) == bit
  }

  /**
   * The crit-bit invariant: keys have no zero bytes, and below an internal
   * node with index c all keys share their first c bits, the keys on the
   * left having bit c clear and those on the right having it set.
   */
  predicate ValidNode(n: Node)
  {
    match n
    case Leaf(k) => NoNul(k)
    case Branch(c, l, r) =>
      ValidNode(l) && ValidNode(r) && Side(Elems(l), Rep(l), c, 0) && Side(Elems(r), Rep(l), c, 1)
  }

  /** Agreement is an equivalence on each prefix length. */
  lemma AgreeTrans(a: Key, b: Key, d: Key, c: nat)
    requires Agree(a, b, c) && Agree(b, d, c)
    ensures Agree(a, d, c) && Agree(d, a, c)
  {
  }

  /** Every key of a valid tree is free of zero bytes. */
  lemma {:induction false} ValidNoNul(n: Node)
    requires ValidNode(n)
    ensures forall k :: k in Elems(n) ==> NoNul(k)
  {
    if n.Branch? {
      ValidNoNul(n.left);
      ValidNoNul(n.right);
    }
  }

  /** All keys below an internal node agree below its critical bit. */
  lemma Cohesive(n: Node, x: Key, y: Key)
    requires ValidNode(n) && n.Branch? && x in Elems(n) && y in Elems(n)
    ensures Agree(x, y, n.crit)
  {
    AgreeTrans(x, Rep(n.left), y, n.crit);
  }

  /** All strictly increasing pieces whose keys are ordered across make a strictly increasing whole. */
  lemma StrictlySortedConcat(a: seq<Key>, b: seq<Key>)
    requires StrictlySorted(a) && StrictlySorted(b)
    requires forall x, y :: x in a && y in b ==> Less(x, y)
    ensures StrictlySorted(a + b)
  {
    var s := a + b;
    forall i, j | 0 <= i < j < |s| ensures Less(s[i], s[j]) {
      if i < |a| && j >= |a| {
        assert s[i] in a && s[j] in b;
      } else if i >= |a| {
        assert s[i] == b[i - |a|] && s[j] == b[j - |a|];
      }
    }
  }

  /** Keys on the left of an internal node sort before keys on its right. */
  lemma LeftBeforeRight(n: Node, x: Key, y: Key)
    requires ValidNode(n) && n.Branch? && x in Elems(n.left) && y in Elems(n.right)
    ensures Less(x, y)
  {
    ValidNoNul(n);
    AgreeTrans(x, Rep(n.left), y, n.crit);
    BitOrder(x, y, n.crit);
  }

  /** In-order the keys of a valid tree are strictly increasing. */
  lemma {:induction false} ValidSorted(n: Node)
    requires ValidNode(n)
    ensures StrictlySorted(Elems(n))
  {
    if n.Branch? {
      ValidSorted(n.left);
      ValidSorted(n.right);
      forall x, y | x in Elems(n.left) && y in Elems(n.right) ensures Less(x, y) {
        LeftBeforeRight(n, x, y);
      }
      StrictlySortedConcat(Elems(n.left), Elems(n.right));
    }
  }

  /** Critical bit indices strictly increase from a node to an internal child. */
  lemma CritsIncrease(n: Node, child: Node)
    requires ValidNode(n) && n.Branch? && (child == n.left || child == n.right) && child.Branch?
    ensures n.crit < child.crit
  {
    var x, y := Rep(child.left), Rep(child.right);
    assert x in Elems(child) && y in Elems(child);
    assert GetBit(x, child.crit) != GetBit(y, child.crit);
    Cohesive(n, x, y);
  }

  // ----- the path a key takes -----

  /** The child an internal node sends key to. */
  function Child(n: Node, key: Key): (c: Node)
    requires n.Branch?
    ensures c < n
  {
    if GetBit(key, n.crit) == 0 then n.left else n.right
  }

  /** The number of internal nodes on key's path from n. */
  function PathLen(n: Node, key: Key): nat
  {
    if n.Leaf? then 0 else 1 + PathLen(Child(n, key), key)
  }

  /** The node reached from n after d steps along key's path. */
  function Sub(n: Node, key: Key, d: nat): Node
    requires d <= PathLen(n, key)
  {
    if d == 0 then n else Sub(Child(n, key), key, d - 1)
  }

  /** The key of the leaf at the end of key's path. */
  function Descend(n: Node, key: Key): Key
  {
    if n.Leaf? then n.key else Descend(Child(n, key), key)
  }

  /** Walking one step further along the path; the walk ends exactly at a leaf. */
  lemma {:induction false} SubStep(n: Node, key: Key, d: nat)
    requires d <= PathLen(n, key)
    ensures Sub(n, key, d).Leaf? <==> d == PathLen(n, key)
    ensures d < PathLen(n, key) ==> Sub(n, key, d + 1) == Child(Sub(n, key, d), key)
    ensures Descend(Sub(n, key, d), key) == Descend(n, key)
    ensures Sub(n, key, d).Leaf? ==> Sub(n, key, d).key == Descend(n, key)
    decreases d
  {
    if d > 0 {
      SubStep(Child(n, key), key, d - 1);
    }
  }

  /** The subtrees along the path of a valid tree are valid. */
  lemma {:induction false} SubValid(n: Node, key: Key, d: nat)
    requires ValidNode(n) && d <= PathLen(n, key)
    ensures ValidNode(Sub(n, key, d))
    decreases d
  {
    if d > 0 {
      SubValid(Child(n, key), key, d - 1);
    }
  }

  /** The leaf key's path leads to belongs to the subtree. */
  lemma {:induction false} DescendIn(n: Node, key: Key)
    ensures Descend(n, key) in Elems(n)
  {
    if n.Branch? {
      DescendIn(Child(n, key), key);
    }
  }

  /** In a valid tree a key is stored exactly when its path leads to it. */
  lemma {:induction false} DescendFinds(n: Node, key: Key)
    requires ValidNode(n)
    ensures key in Elems(n) <==> Descend(n, key) == key
  {
    DescendIn(n, key);
    if n.Branch? {
      DescendFinds(Child(n, key), key);
    }
  }

  /** key agrees with the leaf its path ends at on every bit the path tested. */
  lemma {:induction false} PathAgrees(n: Node, key: Key, d: nat)
    requires ValidNode(n) && d < PathLen(n, key)
    ensures Sub(n, key, d).Branch?
    ensures GetBit(Descend(n, key), Sub(n, key, d).crit) == GetBit(key, Sub(n, key, d).crit)
    decreases d
  {
    if d > 0 {
      PathAgrees(Child(n, key), key, d - 1);
    } else {
      DescendIn(Child(n, key), key);
      SubStep(Child(n, key), key, 0);
    }
  }

  /** Along a path of a valid tree the critical bits strictly increase. */
  lemma {:induction false} CritGrows(n: Node, key: Key, j: nat)
    requires ValidNode(n) && 0 < j < PathLen(n, key)
    ensures n.Branch? && Sub(n, key, j).Branch? && n.crit < Sub(n, key, j).crit
    decreases j
  {
    var child := Child(n, key);
    CritsIncrease(n, child);
    if j > 1 {
      CritGrows(child, key, j - 1);
    }
  }

  /** The critical index lim, None standing for the largest size_t, exceeds c. */
  predicate CritBelow(c: nat, lim: Option<nat>)
  {
    lim.None? || c < lim.value
  }

  /** The first d nodes on key's path all have critical bits below lim. */
  predicate PathBelow(n: Node, key: Key, d: nat, lim: Option<nat>)
    requires d <= PathLen(n, key)
  {
    d == 0 || (CritBelow(n.crit, lim) && PathBelow(Child(n, key), key, d - 1, lim))
  }

  /** Since critical bits increase, the deepest node decides PathBelow. */
  lemma {:induction false} PathBelowFromTop(n: Node, key: Key, d: nat, lim: Option<nat>)
    requires ValidNode(n) && 0 < d <= PathLen(n, key)
    requires Sub(n, key, d - 1).Branch? && CritBelow(Sub(n, key, d - 1).crit, lim)
    ensures PathBelow(n, key, d, lim)
    decreases d
  {
    if d > 1 {
      CritGrows(n, key, d - 1);
      PathBelowFromTop(Child(n, key), key, d - 1, lim);
    }
  }

  // ----- insertion as a value -----

  /** The internal node Insert creates: the new leaf on the side of its bit at c. */
  function NewBranch(c: nat, key: Key, existing: Node): Node
  {
    if GetBit(key, c) == 0 then Branch(c, Leaf(key), existing) else Branch(c, existing, Leaf(key))
  }

  /** The tree with NewBranch put in place of the node d steps along key's path. */
  function GraftAt(n: Node, key: Key, d: nat, c: nat): Node
    requires d <= PathLen(n, key)
  {
    if d == 0 then NewBranch(c, key, n)
    else if GetBit(key, n.crit) == 0 then Branch(n.crit, GraftAt(n.left, key, d - 1, c), n.right)
    else Branch(n.crit, n.left, GraftAt(n.right, key, d - 1, c))
  }

  /** Grafting adds exactly the new key. */
  lemma {:induction false} GraftElems(n: Node, key: Key, d: nat, c: nat)
    requires d <= PathLen(n, key)
    ensures multiset(Elems(GraftAt(n, key, d, c))) == multiset(Elems(n)) + multiset{key}
    decreases d
  {
    if d == 0 {
      NewBranchElems(c, key, n);
    } else {
      GraftElems(Child(n, key), key, d - 1, c);
      GraftStep(n, key, d, c);
    }
  }

  /** The new internal node holds the existing keys and the new one. */
  lemma NewBranchElems(c: nat, key: Key, n: Node)
    ensures multiset(Elems(NewBranch(c, key, n))) == multiset(Elems(n)) + multiset{key}
  {
    if GetBit(key, c) == 0 {
      assert Elems(NewBranch(c, key, n)) == [key] + Elems(n);
    } else {
      assert Elems(NewBranch(c, key, n)) == Elems(n) + [key];
    }
  }

  /** One level of GraftElems: what holds of the child holds of the node. */
  lemma GraftStep(n: Node, key: Key, d: nat, c: nat)
    requires 0 < d <= PathLen(n, key)
    requires multiset(Elems(GraftAt(Child(n, key), key, d - 1, c))) == multiset(Elems(Child(n, key))) + multiset{key}
    ensures multiset(Elems(GraftAt(n, key, d, c))) == multiset(Elems(n)) + multiset{key}
  {
    var g' := GraftAt(Child(n, key), key, d - 1, c);
    if GetBit(key, n.crit) == 0 {
      AddOne(Elems(n.left), Elems(g'), Elems(n.right), key);
    } else {
      AddOne(Elems(n.right), Elems(g'), Elems(n.left), key);
    }
  }

  /** Multiset bookkeeping for GraftElems. */
  lemma AddOne(a: seq<Key>, a': seq<Key>, b: seq<Key>, key: Key)
    requires multiset(a') == multiset(a) + multiset{key}
    ensures multiset(a' + b) == multiset(a + b) + multiset{key}
    ensures multiset(b + a') == multiset(b + a) + multiset{key}
  {
  }

  /** The keys after grafting are the old keys and the new one. */
  lemma GraftMembers(n: Node, key: Key, d: nat, c: nat)
    requires d <= PathLen(n, key)
    ensures forall x :: x in Elems(GraftAt(n, key, d, c)) <==> x in Elems(n) || x == key
  {
    GraftElems(n, key, d, c);
    var g := GraftAt(n, key, d, c);
    forall x ensures x in Elems(g) <==> x in Elems(n) || x == key {
      assert x in Elems(g) <==> x in multiset(Elems(g));
      assert x in Elems(n) <==> x in multiset(Elems(n));
    }
  }

  /** Every key of a subtree whose top index exceeds c agrees with any of its keys through bit c. */
  lemma Near(n: Node, leaf: Key, c: nat)
    requires ValidNode(n) && leaf in Elems(n) && (n.Branch? ==> c < n.crit)
    ensures forall x :: x in Elems(n) ==> Agree(x, leaf, c + 1)
  {
    forall x | x in Elems(n) ensures Agree(x, leaf, c + 1) {
      if n.Branch? {
        Cohesive(n, x, leaf);
      }
    }
  }

  /**
   * The new internal node is valid when key first differs from the leaf
   * of the existing subtree at c and the subtree's own index exceeds c.
   */
  lemma NewBranchValid(n: Node, key: Key, c: nat)
    requires ValidNode(n) && NoNul(key) && (n.Branch? ==> c < n.crit)
    requires exists leaf :: leaf in Elems(n) && FirstDiff(key, leaf, c)
    ensures ValidNode(NewBranch(c, key, n))
  {
    var leaf :| leaf in Elems(n) && FirstDiff(key, leaf, c);
    Near(n, leaf, c);
    if GetBit(key, c) == 0 {
      forall x | x in Elems(n) ensures Agree(x, key, c) && GetBit(x, c) == 1 {
        AgreeTrans(x, leaf, key, c);
      }
    } else {
      assert Rep(n) in Elems(n);
      forall x | x in Elems(n) ensures Agree(x, Rep(n), c) && GetBit(x, c) == 0 {
        AgreeTrans(x, leaf, Rep(n), c);
      }
      AgreeTrans(key, leaf, Rep(n), c);
    }
  }

  /**
   * Grafting at the first node on key's path whose index exceeds c, where
   * c is the first bit at which key differs from the leaf its path ends at,
   * keeps the tree valid.
   */
  lemma {:induction false} GraftValid(n: Node, key: Key, d: nat, c: nat)
    requires ValidNode(n) && NoNul(key) && d <= PathLen(n, key)
    requires FirstDiff(key, Descend(n, key), c)
    requires PathBelow(n, key, d, Some(c))
    requires Sub(n, key, d).Branch? ==> c < Sub(n, key, d).crit
    ensures ValidNode(GraftAt(n, key, d, c))
    decreases d
  {
    if d == 0 {
      DescendIn(n, key);
      NewBranchValid(n, key, c);
    } else {
      GraftValid(Child(n, key), key, d - 1, c);
      GraftKeySide(n, key, c);
      GraftMembers(Child(n, key), key, d - 1, c);
      if GetBit(key, n.crit) == 0 {
        GraftLeftValid(n, GraftAt(n.left, key, d - 1, c), key);
      } else {
        GraftRightValid(n, GraftAt(n.right, key, d - 1, c), key);
      }
    }
  }

  /** The new key belongs on the side of an ancestor its path takes. */
  lemma GraftKeySide(n: Node, key: Key, c: nat)
    requires ValidNode(n) && n.Branch? && n.crit < c
    requires FirstDiff(key, Descend(Child(n, key), key), c)
    ensures Agree(key, Rep(n.left), n.crit)
    ensures GetBit(key, n.crit) == 0 ==> Side([key], Rep(n.left), n.crit, 0)
    ensures GetBit(key, n.crit) == 1 ==> Side([key], Rep(n.left), n.crit, 1)
  {
    var leaf := Descend(Child(n, key), key);
    DescendIn(Child(n, key), key);
    Cohesive(n, leaf, Rep(n.left));
    assert Rep(n.left) in Elems(n);
    AgreeTrans(key, leaf, Rep(n.left), n.crit);
  }

  /** Replacing the left child by one with the new key keeps the node valid. */
  lemma GraftLeftValid(n: Node, l': Node, key: Key)
    requires ValidNode(n) && n.Branch? && ValidNode(l')
    requires forall x :: x in Elems(l') <==> x in Elems(n.left) || x == key
    requires Side([key], Rep(n.left), n.crit, 0)
    ensures ValidNode(Branch(n.crit, l', n.right))
  {
    var c, w := n.crit, Rep(n.left);
    assert key in [key];
    assert Agree(Rep(l'), w, c) by {
      assert Rep(l') in Elems(l');
    }
    forall x | x in Elems(l') ensures Agree(x, Rep(l'), c) && GetBit(x, c) == 0 {
      AgreeTrans(x, w, Rep(l'), c);
    }
    forall x | x in Elems(n.right) ensures Agree(x, Rep(l'), c) && GetBit(x, c) == 1 {
      AgreeTrans(x, w, Rep(l'), c);
    }
  }

  /** Replacing the right child by one with the new key keeps the node valid. */
  lemma GraftRightValid(n: Node, r': Node, key: Key)
    requires ValidNode(n) && n.Branch? && ValidNode(r')
    requires forall x :: x in Elems(r') <==> x in Elems(n.right) || x == key
    requires Side([key], Rep(n.left), n.crit, 1)
    ensures ValidNode(Branch(n.crit, n.left, r'))
  {
    assert key in [key];
  }

  // ----- what lies either side of key's path -----

  /** The keys left of the node d steps along key's path, in order. */
  function Before(n: Node, key: Key, d: nat): seq<Key>
    requires d <= PathLen(n, key)
  {
    if d == 0 then []
    else if GetBit(key, n.crit) == 0 then Before(n.left, key, d - 1)
    else Elems(n.left) + Before(n.right, key, d - 1)
  }

  /** The keys right of the node d steps along key's path, in order. */
  function After(n: Node, key: Key, d: nat): seq<Key>
    requires d <= PathLen(n, key)
  {
    if d == 0 then []
    else if GetBit(key, n.crit) == 0 then After(n.left, key, d - 1) + Elems(n.right)
    else After(n.right, key, d - 1)
  }

  /** A tree's keys are those left of a node on the path, the node's, and those right of it. */
  lemma {:induction false} Decompose(n: Node, key: Key, d: nat)
    requires d <= PathLen(n, key)
    ensures Elems(n) == Before(n, key, d) + Elems(Sub(n, key, d)) + After(n, key, d)
    decreases d
  {
    if d > 0 {
      var child := Child(n, key);
      Decompose(child, key, d - 1);
      if GetBit(key, n.crit) == 0 {
        Associate(Before(child, key, d - 1) + Elems(Sub(child, key, d - 1)), After(child, key, d - 1), Elems(n.right));
      } else {
        Associate(Elems(n.left), Before(child, key, d - 1) + Elems(Sub(child, key, d - 1)), After(child, key, d - 1));
        Associate(Elems(n.left), Before(child, key, d - 1), Elems(Sub(child, key, d - 1)));
      }
    }
  }

  /** One step further down, the keys to the right gain the sibling subtree when the step goes left. */
  lemma {:induction false} AfterStep(n: Node, key: Key, d: nat)
    requires d < PathLen(n, key)
    ensures Sub(n, key, d).Branch?
    ensures After(n, key, d + 1) ==
      (if GetBit(key, Sub(n, key, d).crit) == 0 then Elems(Sub(n, key, d).right) else []) + After(n, key, d)
    decreases d
  {
    SubStep(n, key, d);
    if d > 0 {
      var child := Child(n, key);
      AfterStep(child, key, d - 1);
      if GetBit(key, n.crit) == 0 {
        var x := if GetBit(key, Sub(child, key, d - 1).crit) == 0 then Elems(Sub(child, key, d - 1).right) else [];
        Associate(x, After(child, key, d - 1), Elems(n.right));
      }
    }
  }

  /** key equals b (lim None) or agrees with it below bit lim. */
  predicate AgreeTo(a: Key, b: Key, lim: Option<nat>)
  {
    match lim
    case None => a == b
    case Some(c) => Agree(a, b, c)
  }

  /**
   * The subtree an ancestor's path does not take is wholly below key when
   * the path goes right and wholly above it when it goes left.
   */
  lemma OtherSide(n: Node, key: Key, lim: Option<nat>)
    requires ValidNode(n) && n.Branch? && NoNul(key) && CritBelow(n.crit, lim)
    requires AgreeTo(key, Descend(Child(n, key), key), lim)
    ensures GetBit(key, n.crit) == 1 ==> AllLess(Elems(n.left), key)
    ensures GetBit(key, n.crit) == 0 ==> AllGreater(Elems(n.right), key)
  {
    var c := n.crit;
    var leaf := Descend(Child(n, key), key);
    DescendIn(Child(n, key), key);
    ValidNoNul(n);
    assert Agree(key, leaf, c) && GetBit(key, c) == GetBit(leaf, c);
    var other := if GetBit(key, c) == 1 then n.left else n.right;
    forall x | x in Elems(other) ensures GetBit(key, c) == 1 ==> Less(x, key)
      ensures GetBit(key, c) == 0 ==> Less(key, x)
    {
      Cohesive(n, x, leaf);
      AgreeTrans(x, leaf, key, c);
      BitOrder(x, key, c);
      BitOrder(key, x, c);
    }
  }

  /** Everything left of the path is below key and everything right of it above. */
  lemma {:induction false} PathSides(n: Node, key: Key, d: nat, lim: Option<nat>)
    requires ValidNode(n) && NoNul(key) && d <= PathLen(n, key)
    requires PathBelow(n, key, d, lim) && AgreeTo(key, Descend(n, key), lim)
    ensures AllLess(Before(n, key, d), key) && AllGreater(After(n, key, d), key)
    decreases d
  {
    if d > 0 {
      PathSides(Child(n, key), key, d - 1, lim);
      OtherSide(n, key, lim);
    }
  }

  /**
   * Below the first node on key's path whose index exceeds c, the first
   * bit at which key differs from its path's leaf, all keys are on one side
   * of key, decided by key's bit c.
   */
  lemma SlotSide(s: Node, key: Key, c: nat)
    requires ValidNode(s) && NoNul(key) && FirstDiff(key, Descend(s, key), c)
    requires s.Branch? ==> c < s.crit
    ensures GetBit(key, c) == 1 ==> AllLess(Elems(s), key)
    ensures GetBit(key, c) == 0 ==> AllGreater(Elems(s), key)
  {
    var leaf := Descend(s, key);
    DescendIn(s, key);
    Near(s, leaf, c);
    ValidNoNul(s);
    forall x | x in Elems(s) ensures GetBit(key, c) == 1 ==> Less(x, key)
      ensures GetBit(key, c) == 0 ==> Less(key, x)
    {
      AgreeTrans(x, leaf, key, c);
      BitOrder(x, key, c);
      BitOrder(key, x, c);
    }
  }

  // ----- answers of LowerBound -----

  /** k is skipped by the query: below q, or at most q when upper. */
  predicate Skipped(k: Key, q: Key, upper: bool)
  {
    if upper then LessEq(k, q) else Less(k, q)
  }

  /** r answers LowerBound(q, upper): the upper bound when upper, else the lower bound. */
  predicate Answers(s: seq<Key>, q: Key, upper: bool, r: Option<Key>)
  {
    if upper then IsUpperBound(s, q, r) else IsLowerBound(s, q, r)
  }

  /**
   * When a strictly increasing sequence splits into skipped keys followed
   * by kept ones, the first kept key is the answer.
   */
  lemma AnswerAtSplit(b: seq<Key>, a: seq<Key>, q: Key, upper: bool)
    requires StrictlySorted(b + a)
    requires forall k :: k in b ==> Skipped(k, q, upper)
    requires forall k :: k in a ==> !Skipped(k, q, upper)
    ensures Answers(b + a, q, upper, if |a| > 0 then Some(a[0]) else None)
  {
    var s := b + a;
    forall k | k in s ensures Skipped(k, q, upper) <==> k in b {
      if k in b && k in a {
        assert false;
      }
    }
    forall k | k in s ensures !Skipped(k, q, upper) ==> |a| > 0 && LessEq(a[0], k) {
      if !Skipped(k, q, upper) {
        var j :| 0 <= j < |a| && a[j] == k;
        assert s[|b|] == a[0] && s[|b| + j] == k;
      }
    }
    if |a| > 0 {
      assert a[0] in a && a[0] in s;
      Trichotomy(a[0], q);
    }
    forall k | k in s ensures Less(q, k) ==> !Skipped(k, q, upper) {
      Trichotomy(k, q);
    }
    forall k | k in s ensures LessEq(q, k) && !upper ==> !Skipped(k, q, upper) {
      Trichotomy(k, q);
    }
    forall k | k in s ensures Skipped(k, q, upper) ==> if upper then LessEq(k, q) else Less(k, q) {
    }
  }

  // ----- the tree object -----

  /** One step of a recorded path: the internal node and the side taken. */
  datatype PathElement = PathElement(parent: Node, direction: nat)

  /** path records the first |path| steps of key's path from t. */
  predicate OnPath(t: Node, key: Key, path: seq<PathElement>)
  {
    |path| <= PathLen(t, key) &&
    forall j :: 0 <= j < |path| ==>
      path[j].parent == Sub(t, key, j) && path[j].parent.Branch? &&
      path[j].direction == GetBit(key, path[j].parent.crit)
  }

  /**
   * Grafting at depth d is an insertion when d is where Insert's upward
   * walk stops: the nodes above have indices below c, the node at d (if
   * internal) an index of at least c.
   */
  lemma InsertCorrect(t: Node, key: Key, d: nat, c: nat)
    requires ValidNode(t) && NoNul(key) && d <= PathLen(t, key)
    requires FindCritBit(key, Descend(t, key)) == Some(c)
    requires d > 0 ==> Sub(t, key, d - 1).Branch? && Sub(t, key, d - 1).crit < c
    requires d < PathLen(t, key) ==> Sub(t, key, d).Branch? && Sub(t, key, d).crit >= c
    ensures key !in Elems(t)
    ensures ValidNode(GraftAt(t, key, d, c))
    ensures Elems(GraftAt(t, key, d, c)) == InsertAt(Elems(t), CountLess(Elems(t), key), key)
  {
    var leaf := Descend(t, key);
    DescendIn(t, key);
    DescendFinds(t, key);
    ValidNoNul(t);
    CritBitIsFirstDiff(key, leaf);
    if d > 0 {
      PathBelowFromTop(t, key, d, Some(c));
    }
    SubStep(t, key, d);
    if d < PathLen(t, key) {
      PathAgrees(t, key, d);
    }
    GraftValid(t, key, d, c);
    GraftElems(t, key, d, c);
    var g := GraftAt(t, key, d, c);
    ValidSorted(g);
    ValidSorted(t);
    var p := CountLess(Elems(t), key);
    InsertStrictlySorted(Elems(t), key);
    InsertAtMultiset(Elems(t), p, key);
    StrictlySortedUnique(Elems(g), InsertAt(Elems(t), p, key));
  }

  /** The leftmost key of a valid subtree is its smallest. */
  lemma RepIsMin(n: Node)
    requires ValidNode(n)
    ensures forall x :: x in Elems(n) ==> LessEq(Rep(n), x)
  {
    ValidSorted(n);
    forall x | x in Elems(n) ensures LessEq(Rep(n), x) {
      var j :| 0 <= j < |Elems(n)| && Elems(n)[j] == x;
    }
  }

  /** The critical index c lies above lim (never, when lim is the largest size_t). */
  predicate CritAbove(c: nat, lim: Option<nat>)
  {
    lim.Some? && c > lim.value
  }

  /** Keys below q are skipped, keys above q are not. */
  lemma SkipFacts(s: seq<Key>, q: Key, upper: bool)
    ensures AllLess(s, q) ==> forall k :: k in s ==> Skipped(k, q, upper)
    ensures AllGreater(s, q) ==> forall k :: k in s ==> !Skipped(k, q, upper)
  {
    forall k | k in s ensures Less(q, k) ==> !Skipped(k, q, upper) {
      Trichotomy(k, q);
    }
  }

  /**
   * The first d nodes of key's path have indices not above lim and the
   * next one, if internal, an index above it.
   */
  predicate StoppedAt(t: Node, key: Key, d: nat, lim: Option<nat>)
  {
    d <= PathLen(t, key) &&
    (d > 0 ==> Sub(t, key, d - 1).Branch? && !CritAbove(Sub(t, key, d - 1).crit, lim)) &&
    (d < PathLen(t, key) ==> Sub(t, key, d).Branch? && CritAbove(Sub(t, key, d).crit, lim))
  }

  /**
   * Where LowerBound's first upward walk stops: the tree splits into the
   * keys left of the path, the slot subtree and the keys right of it, and
   * the slot lies wholly on one side of key (or is key's own leaf).
   */
  lemma SlotFacts(t: Node, key: Key, d: nat, lim: Option<nat>)
    requires ValidNode(t) && NoNul(key) && d <= PathLen(t, key)
    requires lim == FindCritBit(key, Descend(t, key))
    requires StoppedAt(t, key, d, lim)
    ensures Elems(t) == Before(t, key, d) + Elems(Sub(t, key, d)) + After(t, key, d)
    ensures StrictlySorted(Elems(t))
    ensures AllLess(Before(t, key, d), key) && AllGreater(After(t, key, d), key)
    ensures lim.None? ==> Elems(Sub(t, key, d)) == [key]
    ensures lim.Some? && GetBit(key, lim.value) == 1 ==> AllLess(Elems(Sub(t, key, d)), key)
    ensures lim.Some? && GetBit(key, lim.value) == 0 ==> AllGreater(Elems(Sub(t, key, d)), key)
  {
    var leaf := Descend(t, key);
    DescendIn(t, key);
    ValidNoNul(t);
    ValidSorted(t);
    Decompose(t, key, d);
    SubStep(t, key, d);
    SubValid(t, key, d);
    if lim.Some? {
      CritBitIsFirstDiff(key, leaf);
      if d > 0 {
        StopBelow(t, key, d, lim.value);
      }
      SlotSide(Sub(t, key, d), key, lim.value);
    } else if d > 0 {
      PathBelowFromTop(t, key, d, lim);
    }
    PathSides(t, key, d, lim);
  }

  /**
   * A node on key's path whose index is at most the first bit c at which
   * key differs from its path's leaf has an index below c, and so do all
   * nodes above it.
   */
  lemma StopBelow(t: Node, key: Key, d: nat, c: nat)
    requires ValidNode(t) && 0 < d <= PathLen(t, key)
    requires FirstDiff(key, Descend(t, key), c)
    requires Sub(t, key, d - 1).Branch? && Sub(t, key, d - 1).crit <= c
    ensures PathBelow(t, key, d, Some(c))
  {
    PathAgrees(t, key, d - 1);
    var i := Sub(t, key, d - 1).crit;
    assert i != c;
    PathBelowFromTop(t, key, d, Some(c));
  }

  /** When key's bit at c is 0, the answer is the leftmost key of the slot. */
  lemma AnswerInSlot(t: Node, key: Key, d: nat, upper: bool)
    requires d <= PathLen(t, key) && StrictlySorted(Elems(t))
    requires Elems(t) == Before(t, key, d) + Elems(Sub(t, key, d)) + After(t, key, d)
    requires AllLess(Before(t, key, d), key) && AllGreater(After(t, key, d), key)
    requires AllGreater(Elems(Sub(t, key, d)), key)
    ensures Answers(Elems(t), key, upper, Some(Rep(Sub(t, key, d))))
  {
    var b, m, a := Before(t, key, d), Elems(Sub(t, key, d)), After(t, key, d);
    SkipFacts(b, key, upper);
    SkipFacts(m, key, upper);
    SkipFacts(a, key, upper);
    Associate(b, m, a);
    assert (m + a)[0] == m[0];
    AnswerAtSplit(b, m + a, key, upper);
  }

  /**
   * When key's bit at c is 1 and the second upward walk stops at depth e,
   * the answer is the leftmost key right of the node at e - 1, or none.
   */
  lemma AnswerRightOf(t: Node, key: Key, d: nat, e: nat, upper: bool)
    requires e <= d <= PathLen(t, key) && StrictlySorted(Elems(t))
    requires Elems(t) == Before(t, key, d) + Elems(Sub(t, key, d)) + After(t, key, d)
    requires AllLess(Before(t, key, d), key) && AllGreater(After(t, key, d), key)
    requires forall k :: k in Elems(Sub(t, key, d)) ==> Skipped(k, key, upper)
    requires After(t, key, e) == After(t, key, d)
    requires e > 0 ==> Sub(t, key, e - 1).Branch? && GetBit(key, Sub(t, key, e - 1).crit) == 0
    ensures e == 0 ==> Answers(Elems(t), key, upper, None)
    ensures e > 0 ==> Answers(Elems(t), key, upper, Some(Rep(Sub(t, key, e - 1).right)))
  {
    var b, m, a := Before(t, key, d), Elems(Sub(t, key, d)), After(t, key, d);
    SkipFacts(b, key, upper);
    SkipFacts(a, key, upper);
    if e == 0 {
      assert Elems(t) == (b + m) + [];
    } else {
      AfterStep(t, key, e - 1);
      assert a[0] == Rep(Sub(t, key, e - 1).right);
    }
    AnswerAtSplit(b + m, a, key, upper);
  }

  /** LowerBound's answer when key's bit at the critical index is 0. */
  lemma AnswerLeft(t: Node, key: Key, d: nat, lim: Option<nat>, upper: bool)
    requires ValidNode(t) && NoNul(key) && d <= PathLen(t, key)
    requires lim == FindCritBit(key, Descend(t, key))
    requires StoppedAt(t, key, d, lim)
    requires lim.Some? && GetBit(key, lim.value) == 0
    ensures Answers(Elems(t), key, upper, Some(Rep(Sub(t, key, d))))
  {
    SlotFacts(t, key, d, lim);
    AnswerInSlot(t, key, d, upper);
  }

  /**
   * LowerBound's answer when key's bit at the critical index is 1 (or key
   * is stored and the query is strict), the second walk stopping at e.
   */
  lemma AnswerRight(t: Node, key: Key, d: nat, e: nat, lim: Option<nat>, upper: bool)
    requires ValidNode(t) && NoNul(key) && e <= d <= PathLen(t, key)
    requires lim == FindCritBit(key, Descend(t, key))
    requires StoppedAt(t, key, d, lim)
    requires if lim.Some? then GetBit(key, lim.value) == 1 else upper
    requires After(t, key, e) == After(t, key, d)
    requires e > 0 ==> Sub(t, key, e - 1).Branch? && GetBit(key, Sub(t, key, e - 1).crit) == 0
    ensures e == 0 ==> Answers(Elems(t), key, upper, None)
    ensures e > 0 ==> Answers(Elems(t), key, upper, Some(Rep(Sub(t, key, e - 1).right)))
  {
    SlotFacts(t, key, d, lim);
    forall k | k in Elems(Sub(t, key, d)) ensures Skipped(k, key, upper) {
    }
    AnswerRightOf(t, key, d, e, upper);
  }

  /** slot is the subtree LowerBound's (possibly rewritten) path points to. */
  predicate SlotIs(t: Node, path: seq<PathElement>, slot: Node)
  {
    if |path| == 0 then slot == t
    else
      var e := path[|path| - 1];
      e.parent.Branch? && slot == if e.direction == 0 then e.parent.left else e.parent.right
  }

  /** An unchanged recorded path points at the next node of key's path. */
  lemma SlotOnPath(t: Node, key: Key, path: seq<PathElement>)
    requires OnPath(t, key, path)
    ensures SlotIs(t, path, Sub(t, key, |path|))
  {
    if |path| > 0 {
      SubStep(t, key, |path| - 1);
    }
  }

  /** When the path ends at key itself, key is its own lower bound. */
  lemma ExactMatch(t: Node, key: Key)
    requires ValidNode(t) && Descend(t, key) == key
    ensures IsLowerBound(Elems(t), key, Some(key))
  {
    DescendFinds(t, key);
    forall k | k in Elems(t) && LessEq(key, k) ensures LessEq(key, k) {
    }
  }

  // ----- ValidateNodeRecursive -----

  /** Every key stored below n is free of zero bytes. */
  predicate KeysNoNul(n: Node)
  {
    forall k :: k in Elems(n) ==> NoNul(k)
  }

  /**
   * ValidateNodeRecursive as written: None where the source aborts,
   * otherwise the subtree's representative key (its leftmost leaf) and the
   * bit length the source reports for its common prefix. Each internal
   * node is checked against its children's representatives only.
   */
  function CheckRepsOnly(n: Node): (r: Option<(Key, nat)>)
    ensures r.Some? ==> r.value.0 == Rep(n)
    ensures r.Some? ==> r.value.1 == if n.Leaf? then |n.key| * 8 else n.crit
  {
    match n
    case Leaf(k) => Some((k, |k| * 8))
    case Branch(c, l, r) =>
      var left := CheckRepsOnly(l);
      var right := CheckRepsOnly(r);
      if left.None? || right.None? then None
      else if GetBit(left.value.0, c) != 0 || GetBit(right.value.0, c) != 1 then None
      else if FindCritBit(left.value.0, right.value.0) != Some(c) then None
      else Some((left.value.0, c))
  }

  /** The check as written accepts every valid tree. */
  lemma {:induction false} ValidPassesRepsOnly(n: Node)
    requires ValidNode(n)
    ensures CheckRepsOnly(n).Some?
  {
    if n.Branch? {
      ValidPassesRepsOnly(n.left);
      ValidPassesRepsOnly(n.right);
      RepsDivergeAt(n);
    }
  }

  /** In a valid internal node the two representatives first differ at its index. */
  lemma RepsDivergeAt(n: Node)
    requires ValidNode(n) && n.Branch?
    ensures GetBit(Rep(n.left), n.crit) == 0 && GetBit(Rep(n.right), n.crit) == 1
    ensures FindCritBit(Rep(n.left), Rep(n.right)) == Some(n.crit)
  {
    var L, R := Rep(n.left), Rep(n.right);
    assert L in Elems(n.left) && R in Elems(n.right);
    ValidNoNul(n);
    assert L in Elems(n) && R in Elems(n);
    assert FirstDiff(L, R, n.crit);
    CritBitIsFirstDiff(L, R);
    FirstDiffUnique(L, R, n.crit, FindCritBit(L, R).value);
  }

  /** The tree the check as written lets through: keys 01, 81 and 01 80 (hex). */
  function UnsortedTree(): Node
  {
    Branch(8, Branch(0, Leaf([0x01]), Leaf([0x81])), Leaf([0x01, 0x80]))
  }

  /**
   * The check as written passes a tree whose inner index 0 does not exceed
   * its parent's index 8, so its keys are out of order.
   */
  lemma RepsOnlyAcceptsUnsorted()
    ensures KeysNoNul(UnsortedTree())
    ensures CheckRepsOnly(UnsortedTree()).Some?
    ensures !StrictlySorted(Elems(UnsortedTree())) && !ValidNode(UnsortedTree())
  {
    var a: Key, b: Key, c: Key := [0x01], [0x81], [0x01, 0x80];
    assert Elems(UnsortedTree()) == [a, b, c];
    assert GetBit(a, 0) == 0 && GetBit(b, 0) == 1;
    assert Lcp(a, b) == 0 by { LcpFacts(a, b); }
    CritBitByPad(a, b);
    assert FindCritBit(a, b) == Some(0);
    assert GetBit(a, 8) == 0 && GetBit(c, 8) == 1;
    assert Lcp(a, c) == 1 by { LcpFacts(a, c); }
    CritBitByPad(a, c);
    assert FindCritBit(a, c) == Some(8);
    var s := Elems(UnsortedTree());
    assert !Less(s[1], s[2]);
    assert !StrictlySorted(s);
    if ValidNode(UnsortedTree()) {
      ValidSorted(UnsortedTree());
    }
  }

  /**
   * ValidateNodeRecursive corrected: besides the checks above, an internal
   * child's index must exceed its parent's.
   */
  function CheckNode(n: Node): (r: Option<Key>)
    ensures r.Some? ==> r.value == Rep(n)
  {
    match n
    case Leaf(k) => Some(k)
    case Branch(c, l, r) =>
      var left := CheckNode(l);
      var right := CheckNode(r);
      if left.None? || right.None? then None
      else if (l.Branch? && l.crit <= c) || (r.Branch? && r.crit <= c) then None
      else if GetBit(left.value, c) != 0 || GetBit(right.value, c) != 1 then None
      else if FindCritBit(left.value, right.value) != Some(c) then None
      else left
  }

  /** On keys without zero bytes the corrected check passes exactly the valid trees. */
  lemma {:induction false} CheckNodeExact(n: Node)
    requires KeysNoNul(n)
    ensures CheckNode(n).Some? <==> ValidNode(n)
  {
    if n.Branch? {
      var c, l, r := n.crit, n.left, n.right;
      assert KeysNoNul(l) && KeysNoNul(r);
      CheckNodeExact(l);
      CheckNodeExact(r);
      if ValidNode(n) {
        RepsDivergeAt(n);
        if l.Branch? { CritsIncrease(n, l); }
        if r.Branch? { CritsIncrease(n, r); }
      } else if CheckNode(n).Some? {
        CheckedBranchValid(n);
      }
    }
  }

  /** An internal node with valid children that passes the corrected checks is valid. */
  lemma CheckedBranchValid(n: Node)
    requires n.Branch? && ValidNode(n.left) && ValidNode(n.right)
    requires n.left.Branch? ==> n.crit < n.left.crit
    requires n.right.Branch? ==> n.crit < n.right.crit
    requires GetBit(Rep(n.left), n.crit) == 0 && GetBit(Rep(n.right), n.crit) == 1
    requires FindCritBit(Rep(n.left), Rep(n.right)) == Some(n.crit)
    ensures ValidNode(n)
  {
    var c, L, R := n.crit, Rep(n.left), Rep(n.right);
    assert L in Elems(n.left) && R in Elems(n.right);
    ValidNoNul(n.left);
    ValidNoNul(n.right);
    CritBitIsFirstDiff(L, R);
    Near(n.left, L, c);
    Near(n.right, R, c);
    forall x | x in Elems(n.left) ensures Agree(x, L, c) && GetBit(x, c) == 0 {
      assert Agree(x, L, c + 1);
    }
    forall y | y in Elems(n.right) ensures Agree(y, L, c) && GetBit(y, c) == 1 {
      assert Agree(y, R, c + 1);
      AgreeTrans(y, R, L, c);
    }
  }

  /** CritBitTree: the root is absent for an empty tree. */
  class CritBitTree {
    var root: Option<Node>

    /** The crit-bit invariant of the whole tree. */
    ghost predicate Valid()
      reads this
    {
      root.Some? ==> ValidNode(root.value)
    }

    /** The keys of the tree, in order. */
    function Contents(): seq<Key>
      reads this
    {
      if root.Some? then Elems(root.value) else []
    }

    /** An empty tree. */
    constructor ()
      ensures root.None? && Valid() && Contents() == []
    {
      root := None;
    }

    /**
     * Inserts key, which must contain no zero byte; inserting a key that is
     * already present changes nothing.
     */
    method Insert(key: Key)
      requires Valid() && NoNul(key)
      modifies this
      ensures Valid()
      ensures Contents() ==
        if key in old(Contents()) then old(Contents())
        else InsertAt(old(Contents()), CountLess(old(Contents()), key), key)
    {
      if root.None? {
        assert ValidNode(Leaf(key));
        assert InsertAt([], 0, key) == [key];
        root := Some(Leaf(key));
        return;
      }
      var t := root.value;
      var path, existingKey := WalkDown(t, key);
      var critbitOpt := FindCritBit(key, existingKey);
      if critbitOpt.None? {
        DescendFinds(t, key);
        return;
      }
      var newCritbit := critbitOpt.value;
      // Walk up to the deepest ancestor whose index is below the new one.
      var depth := 0;
      var i := |path| - 1;
      while i >= 0
        invariant -1 <= i < |path| && depth == 0
        invariant forall j :: i < j < |path| ==> path[j].parent.crit >= newCritbit
        invariant root == Some(t)
      {
        if path[i].parent.crit < newCritbit {
          depth := i + 1;
          break;
        }
        i := i - 1;
      }
      assert depth < |path| ==> path[depth].parent.crit >= newCritbit;
      InsertCorrect(t, key, depth, newCritbit);
      root := Some(GraftAt(t, key, depth, newCritbit));
    }
  

    /**
     * ValidateInvariants with the corrected node check: ok is false where
     * the source would abort. The keys must be free of zero bytes, as
     * Insert demands.
     */
    method ValidateInvariants() returns (ok: bool)
      requires root.Some? ==> KeysNoNul(root.value)
      ensures ok <==> Valid()
    {
      ok := true;
      if root.Some? {
        var info := CheckNode(root.value);
        CheckNodeExact(root.value);
        ok := info.Some?;
      }
    }
    /** The key of the leftmost leaf below n, which is its smallest key. */
    method FindMinLeaf(n: Node) returns (k: Key)
      ensures k == Rep(n)
      ensures ValidNode(n) ==> forall x :: x in Elems(n) ==> LessEq(k, x)
    {
      var current := n;
      while current.Branch?
        invariant Rep(current) == Rep(n)
        decreases current
      {
        current := current.left;
      }
      k := current.key;
      if ValidNode(n) {
        RepIsMin(n);
      }
    }

    /**
     * The smallest stored key not below key, or with reallyUpper the
     * smallest stored key above key; None when there is none.
     */
    method LowerBound(key: Key, reallyUpper: bool) returns (r: Option<Key>)
      requires Valid() && NoNul(key)
      ensures !reallyUpper ==> IsLowerBound(Contents(), key, r)
      ensures reallyUpper ==> IsUpperBound(Contents(), key, r)
    {
      if root.None? {
        return None;
      }
      var t := root.value;
      var path, foundKey := WalkDown(t, key);
      var critbitOpt := FindCritBit(key, foundKey);
      // critbit None stands for ~size_t{0}, above every index.
      var critbit: Option<nat>;
      var keyBit: nat;
      if critbitOpt.None? {
        if !reallyUpper {
          ExactMatch(t, key);
          return Some(foundKey);
        }
        critbit, keyBit := None, 1;
      } else {
        critbit, keyBit := critbitOpt, GetBit(key, critbitOpt.value);
      }
      path := PopAbove(t, key, path, critbit);
      if keyBit == 1 {
        r := RightAnswer(t, key, path, critbit, reallyUpper);
      } else {
        r := LeftAnswer(t, key, path, critbit, reallyUpper);
      }
    }

    /**
     * The answer when key's bit at the critical index is 1 (or key was found
     * and the bound is strict): the slot and everything left of it are
     * skipped, so climb to the deepest ancestor whose path went left and
     * take the smallest key on its right side.
     */
    method RightAnswer(t: Node, key: Key, path: seq<PathElement>, critbit: Option<nat>, reallyUpper: bool)
      returns (r: Option<Key>)
      requires ValidNode(t) && NoNul(key) && critbit == FindCritBit(key, Descend(t, key))
      requires OnPath(t, key, path) && StoppedAt(t, key, |path|, critbit)
      requires if critbit.Some? then GetBit(key, critbit.value) == 1 else reallyUpper
      ensures Answers(Elems(t), key, reallyUpper, r)
    {
      ghost var d := |path|;
      var p := PopRightTurns(t, key, path);
      AnswerRight(t, key, d, |p|, critbit, reallyUpper);
      if |p| == 0 {
        return None;
      }
      var top := p[|p| - 1];
      ghost var expected := top.parent.right;
      p := p[..|p| - 1] + [PathElement(top.parent, 1)];
      assert p[|p| - 1] == PathElement(top.parent, 1);
      assert SlotIs(t, p, expected);
      var slot := SlotOf(t, p);
      var m := FindMinLeaf(slot);
      r := Some(m);
    }

    /** The answer when key's bit at the critical index is 0: the smallest key of the slot the path stopped at. */
    method LeftAnswer(t: Node, key: Key, path: seq<PathElement>, critbit: Option<nat>, reallyUpper: bool)
      returns (r: Option<Key>)
      requires ValidNode(t) && NoNul(key) && critbit == FindCritBit(key, Descend(t, key))
      requires OnPath(t, key, path) && StoppedAt(t, key, |path|, critbit)
      requires critbit.Some? && GetBit(key, critbit.value) == 0
      ensures Answers(Elems(t), key, reallyUpper, r)
    {
      AnswerLeft(t, key, |path|, critbit, reallyUpper);
      SlotOnPath(t, key, path);
      var slot := SlotOf(t, path);
      var m := FindMinLeaf(slot);
      r := Some(m);
    }

    /** Pops the recorded path's nodes whose critical index exceeds critbit. */
    method PopAbove(t: Node, key: Key, path: seq<PathElement>, critbit: Option<nat>) returns (p: seq<PathElement>)
      requires OnPath(t, key, path) && |path| == PathLen(t, key)
      ensures OnPath(t, key, p) && StoppedAt(t, key, |p|, critbit)
    {
      p := path;
      while |p| > 0 && CritAbove(p[|p| - 1].parent.crit, critbit)
        invariant OnPath(t, key, p)
        invariant |p| < PathLen(t, key) ==> Sub(t, key, |p|).Branch? && CritAbove(Sub(t, key, |p|).crit, critbit)
      {
        p := p[..|p| - 1];
      }
    }

    /** Pops the recorded path's trailing steps to the right. */
    method PopRightTurns(t: Node, key: Key, path: seq<PathElement>) returns (p: seq<PathElement>)
      requires OnPath(t, key, path)
      ensures OnPath(t, key, p) && |p| <= |path|
      ensures After(t, key, |p|) == After(t, key, |path|)
      ensures |p| > 0 ==> p[|p| - 1].direction == 0
    {
      p := path;
      while |p| > 0 && p[|p| - 1].direction == 1
        invariant OnPath(t, key, p) && |p| <= |path|
        invariant After(t, key, |p|) == After(t, key, |path|)
      {
        AfterStep(t, key, |p| - 1);
        p := p[..|p| - 1];
      }
    }

    /** The subtree the path's last step points to, the root for an empty path. */
    method SlotOf(t: Node, path: seq<PathElement>) returns (slot: Node)
      requires |path| > 0 ==> path[|path| - 1].parent.Branch?
      ensures forall s :: SlotIs(t, path, s) ==> slot == s
    {
      if |path| == 0 {
        slot := t;
      } else {
        var e := path[|path| - 1];
        slot := if e.direction == 0 then e.parent.left else e.parent.right;
      }
    }

    /** Descends from t along key's bits to a leaf, recording the path. */
    method WalkDown(t: Node, key: Key) returns (path: seq<PathElement>, leafKey: Key)
      ensures OnPath(t, key, path) && |path| == PathLen(t, key)
      ensures leafKey == Descend(t, key)
    {
      path := [];
      var current := t;
      while current.Branch?
        invariant OnPath(t, key, path) && current == Sub(t, key, |path|)
        decreases PathLen(t, key) - |path|
      {
        SubStep(t, key, |path|);
        var direction := GetBit(key, current.crit);
        path := path + [PathElement(current, direction)];
        current := if direction == 0 then current.left else current.right;
      }
      SubStep(t, key, |path|);
      leafKey := current.key;
    }
  }
}
