// The abstract contract every suffix-index variant refines: a finite
// collection of byte strings kept in lexicographic order, grown by Insert and
// queried by LowerBound (the smallest stored key not below the query).

module OrderedSet {
  import opened Keys

  /** r is the answer of a lower-bound query for q over the keys of s. */
  predicate IsLowerBound(s: seq<Key>, q: Key, r: Option<Key>)
  {
    match r
    case None => forall k :: k in s ==> Less(k, q)
    case Some(m) =>
      m in s && LessEq(q, m) &&
      forall k :: k in s && LessEq(q, k) ==> LessEq(m, k)
  }

  /** r is the answer of an upper-bound query: the smallest key strictly above q. */
  predicate IsUpperBound(s: seq<Key>, q: Key, r: Option<Key>)
  {
    match r
    case None => forall k :: k in s ==> LessEq(k, q)
    case Some(m) =>
      m in s && Less(q, m) &&
      forall k :: k in s && Less(q, k) ==> LessEq(m, k)
  }

  /** The answer to a lower-bound query is unique. */
  lemma LowerBoundUnique(s: seq<Key>, q: Key, r1: Option<Key>, r2: Option<Key>)
    requires IsLowerBound(s, q, r1) && IsLowerBound(s, q, r2)
    ensures r1 == r2
  {
    match r1
    case None =>
      if r2.Some? {
        Trichotomy(r2.value, q);
      }
    case Some(k1) =>
      match r2
      case None =>
        Trichotomy(k1, q);
      case Some(k2) =>
        assert LessEq(k1, k2) && LessEq(k2, k1);
        Trichotomy(k1, k2);
  }

  /** The reference answer on a sorted sequence: the first key not below q. */
  function LowerBound(s: seq<Key>, q: Key): (r: Option<Key>)
    requires Sorted(s)
    ensures IsLowerBound(s, q, r)
  {
    LowerBoundAtCount(s, q);
    var n := CountLess(s, q);
    if n < |s| then Some(s[n]) else None
  }

  lemma LowerBoundAtCount(s: seq<Key>, q: Key)
    requires Sorted(s)
    ensures var n := CountLess(s, q);
      IsLowerBound(s, q, if n < |s| then Some(s[n]) else None)
  {
    CountLessSplits(s, q);
    var n := CountLess(s, q);
    if n < |s| {
      forall k | k in s && LessEq(q, k)
        ensures LessEq(s[n], k)
      {
        var i :| 0 <= i < |s| && s[i] == k;
        if i < n {
          NotLess(s[i], q);
        }
      }
    }
  }

  /** The reference answer of the strict variant: the first key above q. */
  function UpperBound(s: seq<Key>, q: Key): (r: Option<Key>)
    requires Sorted(s)
    ensures IsUpperBound(s, q, r)
  {
    UpperBoundAtCount(s, q);
    var n := CountLessEq(s, q);
    if n < |s| then Some(s[n]) else None
  }

  lemma UpperBoundAtCount(s: seq<Key>, q: Key)
    requires Sorted(s)
    ensures var n := CountLessEq(s, q);
      IsUpperBound(s, q, if n < |s| then Some(s[n]) else None)
  {
    CountLessEqSplits(s, q);
    var n := CountLessEq(s, q);
    if n < |s| {
      forall k | k in s && Less(q, k)
        ensures LessEq(s[n], k)
      {
        var i :| 0 <= i < |s| && s[i] == k;
        if i < n {
          NotLess(q, s[i]);
        }
      }
    }
  }

  /** The first present answer, else the fallback. */
  function Combine(a: Option<Key>, b: Option<Key>): Option<Key>
  {
    if a.Some? then a else b
  }

  /** When the pivot is below q, l + [x] + r answers like r. */
  lemma LowerBoundPastPivot(l: seq<Key>, x: Key, r: seq<Key>, q: Key, m: Option<Key>)
    requires AllLessEq(l, x) && Less(x, q) && IsLowerBound(r, q, m)
    ensures IsLowerBound(l + [x] + r, q, m)
  {
    var s := l + [x] + r;
    forall k | k in l ensures Less(k, q) {
      LessEqLessTransitive(k, x, q);
    }
    Trichotomy(x, q);
    if m.Some? {
      forall k | k in s && LessEq(q, k)
        ensures LessEq(m.value, k)
      {
        if k !in r {
          Trichotomy(k, q);
        }
      }
    }
  }

  /** When the pivot is not below q, l + [x] + r answers like l, else with the pivot. */
  lemma LowerBoundAtPivot(l: seq<Key>, x: Key, r: seq<Key>, q: Key, m: Option<Key>)
    requires AllLessEq(l, x) && AllGreaterEq(r, x) && LessEq(q, x) && IsLowerBound(l, q, m)
    ensures IsLowerBound(l + [x] + r, q, Combine(m, Some(x)))
  {
    var s := l + [x] + r;
    if m.None? {
      forall k | k in s && LessEq(q, k)
        ensures LessEq(x, k)
      {
        if k in l {
          Trichotomy(k, q);
        }
      }
    } else {
      assert LessEq(m.value, x);
      forall k | k in s && LessEq(q, k)
        ensures LessEq(m.value, k)
      {
        if k in r {
          LessEqTransitive(m.value, x, k);
        }
      }
    }
  }

  /** s with x placed before index p. */
  function InsertAt(s: seq<Key>, p: nat, x: Key): (r: seq<Key>)
    requires p <= |s|
    ensures |r| == |s| + 1 && r[p] == x
    ensures forall i :: 0 <= i < p ==> r[i] == s[i]
    ensures forall i :: p < i < |r| ==> r[i] == s[i - 1]
  {
    assert s == s[..p] + s[p..];
    s[..p] + [x] + s[p..]
  }

  /** s without the key at index p. */
  function RemoveAt(s: seq<Key>, p: nat): (r: seq<Key>)
    requires p < |s|
    ensures |r| == |s| - 1
  {
    s[..p] + s[p + 1..]
  }

  /** Insertion adds exactly one occurrence of x. */
  lemma InsertAtMultiset(s: seq<Key>, p: nat, x: Key)
    requires p <= |s|
    ensures multiset(InsertAt(s, p, x)) == multiset(s) + multiset{x}
  {
    assert s == s[..p] + s[p..];
  }

  /** Removing the key just inserted gives the sequence back. */
  lemma RemoveInsertAt(s: seq<Key>, p: nat, x: Key)
    requires p <= |s|
    ensures RemoveAt(InsertAt(s, p, x), p) == s
  {
    var r := InsertAt(s, p, x);
    assert r[..p] == s[..p] && r[p + 1..] == s[p..];
    assert s == s[..p] + s[p..];
  }

  /** Removal takes away exactly one occurrence of the key at p. */
  lemma RemoveAtMultiset(s: seq<Key>, p: nat)
    requires p < |s|
    ensures multiset(RemoveAt(s, p)) == multiset(s) - multiset{s[p]}
  {
    assert s == s[..p] + [s[p]] + s[p + 1..];
  }

  /** Inserting at the seam of two parts puts x between them. */
  lemma InsertAtSeam(l: seq<Key>, r: seq<Key>, x: Key)
    ensures InsertAt(l + r, |l|, x) == l + [x] + r
  {
    assert (l + r)[..|l|] == l && (l + r)[|l|..] == r;
  }

  /** Inserting at the first key not below x keeps a sequence sorted. */
  lemma InsertBeforeEqualSorted(s: seq<Key>, x: Key)
    requires Sorted(s)
    ensures Sorted(InsertAt(s, CountLess(s, x), x))
  {
    CountLessSplits(s, x);
    var p := CountLess(s, x);
    assert InsertAt(s, p, x) == s[..p] + [x] + s[p..];
    SortedJoin(s[..p], x, s[p..]);
  }

  /** Inserting after every key not above x keeps a sequence sorted. */
  lemma InsertAfterEqualSorted(s: seq<Key>, x: Key)
    requires Sorted(s)
    ensures Sorted(InsertAt(s, CountLessEq(s, x), x))
  {
    CountLessEqSplits(s, x);
    var p := CountLessEq(s, x);
    assert InsertAt(s, p, x) == s[..p] + [x] + s[p..];
    SortedJoin(s[..p], x, s[p..]);
  }

  /** In a strictly sorted sequence without x, the insertion point is unique and the result strictly sorted. */
  lemma InsertStrictlySorted(s: seq<Key>, x: Key)
    requires StrictlySorted(s) && x !in s
    ensures StrictlySorted(InsertAt(s, CountLess(s, x), x))
    ensures CountLess(s, x) == CountLessEq(s, x)
  {
    CountLessSplits(s, x);
    CountLessEqSplits(s, x);
    var p := CountLess(s, x);
    var q := CountLessEq(s, x);
    if p < q {
      assert LessEq(s[p], x) && LessEq(x, s[p]);
      Trichotomy(x, s[p]);
    } else if q < p {
      assert Less(s[q], x) && Less(x, s[q]);
      Trichotomy(x, s[q]);
    }
    forall i | p <= i < |s| ensures Less(x, s[i]) {
      assert s[i] != x;
    }
    assert InsertAt(s, p, x) == s[..p] + [x] + s[p..];
    StrictlySortedJoin(s[..p], x, s[p..]);
  }

  // ----- a run inside a sorted sequence -----

  /** Facts about the middle run m of a strictly sorted b + m + a. */
  lemma StrictlySortedAround(b: seq<Key>, m: seq<Key>, a: seq<Key>)
    requires StrictlySorted(b + m + a)
    ensures StrictlySorted(m)
    ensures forall x, y :: x in b && y in a ==> Less(x, y)
  {
    var s := b + m + a;
    forall i, j | 0 <= i < j < |m| ensures Less(m[i], m[j]) {
      assert m[i] == s[|b| + i] && m[j] == s[|b| + j];
    }
    forall x, y | x in b && y in a ensures Less(x, y) {
      var i :| 0 <= i < |b| && b[i] == x;
      var j :| 0 <= j < |a| && a[j] == y;
      assert s[i] == x && s[|b| + |m| + j] == y;
    }
  }

  /** A query bracketed by the last key before a run and the first key after it. */
  lemma Bracketed(b: seq<Key>, m: seq<Key>, a: seq<Key>, q: Key)
    requires StrictlySorted(b + m + a)
    requires |b| > 0 ==> Less(b[|b| - 1], q)
    requires |a| > 0 ==> LessEq(q, a[0])
    ensures AllLess(b, q) && AllGreaterEq(a, q)
  {
    var s := b + m + a;
    forall x | x in b ensures Less(x, q) {
      var i :| 0 <= i < |b| && b[i] == x;
      if i < |b| - 1 {
        assert s[i] == x && s[|b| - 1] == b[|b| - 1];
        LessTransitive(x, b[|b| - 1], q);
      }
    }
    forall y | y in a ensures LessEq(q, y) {
      var j :| 0 <= j < |a| && a[j] == y;
      if j > 0 {
        assert s[|b| + |m|] == a[0] && s[|b| + |m| + j] == y;
        LessEqTransitive(q, a[0], y);
      }
    }
  }

  /** Below-q keys come first, so the count happens inside the middle run. */
  lemma CountAround(b: seq<Key>, m: seq<Key>, a: seq<Key>, q: Key)
    requires AllLess(b, q) && AllGreaterEq(a, q)
    ensures CountLess(b + m + a, q) == |b| + CountLess(m, q)
  {
    CountLessConcat(b + m, a, q);
    CountLessConcat(b, m, q);
    CountLessAll(b, q);
    CountLessNone(a, q);
  }

  /** Inserting inside the middle run of b + m + a. */
  lemma InsertInside(b: seq<Key>, m: seq<Key>, a: seq<Key>, c: nat, x: Key)
    requires c <= |m|
    ensures InsertAt(b + m + a, |b| + c, x) == b + InsertAt(m, c, x) + a
  {
    var s := b + m + a;
    assert s[..|b| + c] == b + m[..c];
    assert s[|b| + c..] == m[c..] + a;
  }

  /** Below-q keys come first, so the count and the insertion happen inside the middle run. */
  lemma InsertAround(b: seq<Key>, m: seq<Key>, a: seq<Key>, q: Key)
    requires AllLess(b, q) && AllGreaterEq(a, q)
    ensures CountLess(b + m + a, q) == |b| + CountLess(m, q)
    ensures InsertAt(b + m + a, |b| + CountLess(m, q), q) == b + InsertAt(m, CountLess(m, q), q) + a
  {
    CountAround(b, m, a, q);
    InsertInside(b, m, a, CountLess(m, q), q);
  }

  /** The lower bound over b + m + a when the query falls after b and not after the start of a. */
  lemma LowerBoundAround(b: seq<Key>, m: seq<Key>, a: seq<Key>, q: Key)
    requires Sorted(b + m + a) && Sorted(m)
    requires AllLess(b, q) && AllGreaterEq(a, q)
    ensures LowerBound(b + m + a, q) ==
      if LowerBound(m, q).Some? then LowerBound(m, q)
      else if |a| > 0 then Some(a[0]) else None
  {
    CountAround(b, m, a, q);
  }

  /** Inserting into a sequence made of b, m and a when q belongs inside m. */
  lemma InsertWithin(s: seq<Key>, b: seq<Key>, m: seq<Key>, a: seq<Key>, q: Key)
    requires s == b + m + a && AllLess(b, q) && AllGreaterEq(a, q)
    ensures CountLess(s, q) == |b| + CountLess(m, q)
    ensures InsertAt(s, CountLess(s, q), q) == b + InsertAt(m, CountLess(m, q), q) + a
  {
    InsertAround(b, m, a, q);
  }

  /** Inserting within the front part m of m + a. */
  lemma InsertFront(m: seq<Key>, a: seq<Key>, c: nat, x: Key)
    requires c <= |m|
    ensures InsertAt(m + a, c, x) == InsertAt(m, c, x) + a
  {
    assert (m + a)[..c] == m[..c];
    assert (m + a)[c..] == m[c..] + a;
  }

  /** Inserting within the back part m of b + m. */
  lemma InsertBack(b: seq<Key>, m: seq<Key>, c: nat, x: Key)
    requires c <= |m|
    ensures InsertAt(b + m, |b| + c, x) == b + InsertAt(m, c, x)
  {
    assert (b + m)[..|b| + c] == b + m[..c];
    assert (b + m)[|b| + c..] == m[c..];
  }

  /** Inserting a value below k into l + [k] + r inserts it into l. */
  lemma InsertLeftOf(l: seq<Key>, k: Key, r: seq<Key>, value: Key)
    requires AllGreater(r, k) && Less(value, k)
    ensures InsertAt(l + [k] + r, CountLess(l + [k] + r, value), value) ==
      InsertAt(l, CountLess(l, value), value) + [k] + r
  {
    AboveKey(k, r, value);
    CountLessConcat(l, [k] + r, value);
    CountLessNone([k] + r, value);
    Associate(l, [k], r);
    InsertFront(l, [k] + r, CountLess(l, value), value);
    Associate(InsertAt(l, CountLess(l, value), value), [k], r);
  }

  /** Inserting a value above k into l + [k] + r inserts it into r. */
  lemma InsertRightOf(l: seq<Key>, k: Key, r: seq<Key>, value: Key)
    requires AllLess(l, k) && Less(k, value)
    ensures InsertAt(l + [k] + r, CountLess(l + [k] + r, value), value) ==
      l + [k] + InsertAt(r, CountLess(r, value), value)
  {
    BelowKey(l, k, value);
    CountLessConcat(l + [k], r, value);
    CountLessAll(l + [k], value);
    InsertBack(l + [k], r, CountLess(r, value), value);
  }
}
