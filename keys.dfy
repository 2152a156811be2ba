// Byte-string keys and their lexicographic order.
//
// Every ordered-set variant stores views into one text, i.e. byte strings,
// and compares them the way std::string_view does: byte by byte as unsigned
// values, a proper prefix sorting before the longer string.

module Keys {

  type Byte = bv8
  type Key = seq<Byte>

  datatype Option<T> = None | Some(value: T)

  /** Length of the longest common prefix of a and b. */
  function Lcp(a: Key, b: Key): (n: nat)
    ensures n <= |a| && n <= |b|
    decreases |a|
  {
    if |a| == 0 || |b| == 0 || a[0] != b[0] then 0 else 1 + Lcp(a[1..], b[1..])
  }

  /** The strings agree below Lcp and differ at it (when both are that long). */
  lemma {:induction false} LcpFacts(a: Key, b: Key)
    ensures forall i :: 0 <= i < Lcp(a, b) ==> a[i] == b[i]
    ensures Lcp(a, b) < |a| && Lcp(a, b) < |b| ==> a[Lcp(a, b)] != b[Lcp(a, b)]
    decreases |a|
  {
    if !(|a| == 0 || |b| == 0 || a[0] != b[0]) {
      LcpFacts(a[1..], b[1..]);
      var n := Lcp(a, b);
      forall i | 0 <= i < n ensures a[i] == b[i] {
        if i > 0 { assert a[i] == a[1..][i - 1] && b[i] == b[1..][i - 1]; }
      }
    }
  }

  /** Any index where two strings stop agreeing is their Lcp. */
  lemma LcpIs(a: Key, b: Key, n: nat)
    requires n <= |a| && n <= |b|
    requires forall i :: 0 <= i < n ==> a[i] == b[i]
    requires n == |a| || n == |b| || a[n] != b[n]
    ensures Lcp(a, b) == n
  {
    LcpFacts(a, b);
  }

  lemma LcpSymmetric(a: Key, b: Key)
    ensures Lcp(a, b) == Lcp(b, a)
  {
    LcpFacts(a, b);
    LcpIs(b, a, Lcp(a, b));
  }

  /** Strict lexicographic order: a sorts before b. */
  predicate Less(a: Key, b: Key)
    decreases |a|
  {
    |b| > 0 && (|a| == 0 || a[0] < b[0] || (a[0] == b[0] && Less(a[1..], b[1..])))
  }

  /** Less decided at the first difference: a is a proper prefix of b, or has the smaller byte there. */
  lemma {:induction false} LessByLcp(a: Key, b: Key)
    ensures var n := Lcp(a, b);
      Less(a, b) <==> if n == |a| then n < |b| else n < |b| && a[n] < b[n]
    decreases |a|
  {
    if |a| > 0 && |b| > 0 && a[0] == b[0] {
      LessByLcp(a[1..], b[1..]);
    }
  }

  predicate LessEq(a: Key, b: Key)
  {
    a == b || Less(a, b)
  }

  lemma LcpSelf(a: Key)
    ensures Lcp(a, a) == |a|
  {
    LcpIs(a, a, |a|);
  }

  lemma LessIrreflexive(a: Key)
    ensures !Less(a, a)
  {
    LcpSelf(a);
    LessByLcp(a, a);
  }

  /** Exactly one of a < b, a == b, b < a holds. */
  lemma Trichotomy(a: Key, b: Key)
    ensures Less(a, b) || a == b || Less(b, a)
    ensures !(Less(a, b) && Less(b, a))
    ensures Less(a, b) ==> a != b
  {
    LcpSymmetric(a, b);
    LcpFacts(a, b);
    LessByLcp(a, b);
    LessByLcp(b, a);
    LessIrreflexive(a);
    var n := Lcp(a, b);
    if n == |a| && n == |b| {
      assert a == b;
    }
  }

  lemma {:induction false} LessTransitive(a: Key, b: Key, c: Key)
    requires Less(a, b) && Less(b, c)
    ensures Less(a, c)
    decreases |a|
  {
    if |a| > 0 && a[0] == b[0] && b[0] == c[0] {
      LessTransitive(a[1..], b[1..], c[1..]);
    }
  }

  lemma LessEqTransitive(a: Key, b: Key, c: Key)
    requires LessEq(a, b) && LessEq(b, c)
    ensures LessEq(a, c)
  {
    if Less(a, b) && Less(b, c) {
      LessTransitive(a, b, c);
    }
  }

  lemma LessLessEqTransitive(a: Key, b: Key, c: Key)
    requires Less(a, b) && LessEq(b, c)
    ensures Less(a, c)
  {
    if b != c {
      LessTransitive(a, b, c);
    }
  }

  lemma LessEqLessTransitive(a: Key, b: Key, c: Key)
    requires LessEq(a, b) && Less(b, c)
    ensures Less(a, c)
  {
    if a != b {
      LessTransitive(a, b, c);
    }
  }

  /** LessEq is the complement of Less with its arguments swapped. */
  lemma NotLess(a: Key, b: Key)
    ensures !Less(a, b) <==> LessEq(b, a)
  {
    Trichotomy(a, b);
  }

  /** A proper prefix sorts first. */
  lemma PrefixLess(a: Key, b: Key)
    requires |a| < |b| && a == b[..|a|]
    ensures Less(a, b)
  {
    LcpIs(a, b, |a|);
    LessByLcp(a, b);
  }

  /** Strings that agree up to n and then differ compare by that byte. */
  lemma LessAt(a: Key, b: Key, n: nat)
    requires n < |a| && n < |b|
    requires forall i :: 0 <= i < n ==> a[i] == b[i]
    requires a[n] != b[n]
    ensures Less(a, b) <==> a[n] < b[n]
  {
    LcpIs(a, b, n);
    LessByLcp(a, b);
  }

  // ----- sequences of keys -----

  /** Nondecreasing in-order sequence (duplicates allowed). */
  predicate Sorted(s: seq<Key>)
  {
    forall i, j :: 0 <= i < j < |s| ==> LessEq(s[i], s[j])
  }

  /** Strictly increasing in-order sequence (a set). */
  predicate StrictlySorted(s: seq<Key>)
  {
    forall i, j :: 0 <= i < j < |s| ==> Less(s[i], s[j])
  }

  predicate AllLess(s: seq<Key>, x: Key)
  {
    forall k :: k in s ==> Less(k, x)
  }

  predicate AllLessEq(s: seq<Key>, x: Key)
  {
    forall k :: k in s ==> LessEq(k, x)
  }

  predicate AllGreater(s: seq<Key>, x: Key)
  {
    forall k :: k in s ==> Less(x, k)
  }

  predicate AllGreaterEq(s: seq<Key>, x: Key)
  {
    forall k :: k in s ==> LessEq(x, k)
  }

  lemma StrictlySortedIsSorted(s: seq<Key>)
    requires StrictlySorted(s)
    ensures Sorted(s)
  {
  }

  /** Sorted concatenation around a pivot. */
  lemma SortedJoin(l: seq<Key>, x: Key, r: seq<Key>)
    requires Sorted(l) && Sorted(r) && AllLessEq(l, x) && AllGreaterEq(r, x)
    ensures Sorted(l + [x] + r)
  {
    var s := l + [x] + r;
    forall i, j | 0 <= i < j < |s|
      ensures LessEq(s[i], s[j])
    {
      if i < |l| && j > |l| {
        LessEqTransitive(s[i], x, s[j]);
      }
    }
  }

  lemma StrictlySortedJoin(l: seq<Key>, x: Key, r: seq<Key>)
    requires StrictlySorted(l) && StrictlySorted(r) && AllLess(l, x) && AllGreater(r, x)
    ensures StrictlySorted(l + [x] + r)
  {
    var s := l + [x] + r;
    forall i, j | 0 <= i < j < |s|
      ensures Less(s[i], s[j])
    {
      if i < |l| && j > |l| {
        LessTransitive(s[i], x, s[j]);
      }
    }
  }

  /** The pieces of a sorted concatenation around a pivot. */
  lemma SortedParts(l: seq<Key>, x: Key, r: seq<Key>)
    requires Sorted(l + [x] + r)
    ensures Sorted(l) && Sorted(r) && AllLessEq(l, x) && AllGreaterEq(r, x)
  {
    var s := l + [x] + r;
    forall i, j | 0 <= i < j < |l| ensures LessEq(l[i], l[j]) {
      assert l[i] == s[i] && l[j] == s[j];
    }
    forall i, j | 0 <= i < j < |r| ensures LessEq(r[i], r[j]) {
      assert r[i] == s[|l| + 1 + i] && r[j] == s[|l| + 1 + j];
    }
    forall k | k in l ensures LessEq(k, x) {
      var i :| 0 <= i < |l| && l[i] == k;
      assert s[i] == k && s[|l|] == x;
    }
    forall k | k in r ensures LessEq(x, k) {
      var i :| 0 <= i < |r| && r[i] == k;
      assert s[|l| + 1 + i] == k && s[|l|] == x;
    }
  }

  /** Concatenation regroups. */
  lemma Associate(a: seq<Key>, b: seq<Key>, c: seq<Key>)
    ensures a + b + c == a + (b + c)
  {
  }

  /** x below k, and k below all of r, puts x at or below all of [k] + r. */
  lemma AboveKey(k: Key, r: seq<Key>, x: Key)
    requires AllGreater(r, k) && Less(x, k)
    ensures AllGreaterEq([k] + r, x)
  {
    forall y | y in [k] + r ensures LessEq(x, y) {
      if y != k {
        LessTransitive(x, k, y);
      }
    }
  }

  /** All of l below k, and k below x, puts all of l + [k] below x. */
  lemma BelowKey(l: seq<Key>, k: Key, x: Key)
    requires AllLess(l, k) && Less(k, x)
    ensures AllLess(l + [k], x)
  {
    forall y | y in l + [k] ensures Less(y, x) {
      if y != k {
        LessTransitive(y, k, x);
      }
    }
  }

  lemma StrictlySortedParts(l: seq<Key>, x: Key, r: seq<Key>)
    requires StrictlySorted(l + [x] + r)
    ensures StrictlySorted(l) && StrictlySorted(r) && AllLess(l, x) && AllGreater(r, x)
  {
    var s := l + [x] + r;
    forall i, j | 0 <= i < j < |l| ensures Less(l[i], l[j]) {
      assert l[i] == s[i] && l[j] == s[j];
    }
    forall i, j | 0 <= i < j < |r| ensures Less(r[i], r[j]) {
      assert r[i] == s[|l| + 1 + i] && r[j] == s[|l| + 1 + j];
    }
    forall k | k in l ensures Less(k, x) {
      var i :| 0 <= i < |l| && l[i] == k;
      assert s[i] == k && s[|l|] == x;
    }
    forall k | k in r ensures Less(x, k) {
      var i :| 0 <= i < |r| && r[i] == k;
      assert s[|l| + 1 + i] == k && s[|l|] == x;
    }
  }

  /** Number of elements strictly below x. */
  function CountLess(s: seq<Key>, x: Key): (n: nat)
    ensures n <= |s|
  {
    if |s| == 0 then 0
    else CountLess(s[..|s| - 1], x) + (if Less(s[|s| - 1], x) then 1 else 0)
  }

  /** Number of elements not above x. */
  function CountLessEq(s: seq<Key>, x: Key): (n: nat)
    ensures n <= |s|
  {
    if |s| == 0 then 0
    else CountLessEq(s[..|s| - 1], x) + (if LessEq(s[|s| - 1], x) then 1 else 0)
  }

  /** Below x everywhere: every element counts. */
  lemma {:induction false} CountLessAll(s: seq<Key>, x: Key)
    requires AllLess(s, x)
    ensures CountLess(s, x) == |s|
  {
    if |s| > 0 {
      assert s[|s| - 1] in s;
      assert AllLess(s[..|s| - 1], x) by {
        forall k | k in s[..|s| - 1] ensures Less(k, x) {
          assert k in s;
        }
      }
      CountLessAll(s[..|s| - 1], x);
    }
  }

  /** Keys below x followed by keys not below x: the count is the length of the first part. */
  lemma {:induction false} CountLessAt(l: seq<Key>, r: seq<Key>, x: Key)
    requires AllLess(l, x) && AllGreaterEq(r, x)
    ensures CountLess(l + r, x) == |l|
    decreases |r|
  {
    if |r| == 0 {
      assert l + r == l;
      CountLessAll(l, x);
    } else {
      var r' := r[..|r| - 1];
      assert (l + r)[..|l + r| - 1] == l + r';
      assert (l + r)[|l + r| - 1] == r[|r| - 1] && r[|r| - 1] in r;
      NotLess(r[|r| - 1], x);
      assert AllGreaterEq(r', x) by {
        forall k | k in r' ensures LessEq(x, k) {
          assert k in r;
        }
      }
      CountLessAt(l, r', x);
    }
  }

  /** Counting below x distributes over concatenation. */
  lemma {:induction false} CountLessConcat(a: seq<Key>, b: seq<Key>, x: Key)
    ensures CountLess(a + b, x) == CountLess(a, x) + CountLess(b, x)
    decreases |b|
  {
    if |b| == 0 {
      assert a + b == a;
    } else {
      var b' := b[..|b| - 1];
      assert (a + b)[..|a + b| - 1] == a + b';
      CountLessConcat(a, b', x);
    }
  }

  /** Nothing below x: the count is zero. */
  lemma {:induction false} CountLessNone(s: seq<Key>, x: Key)
    requires AllGreaterEq(s, x)
    ensures CountLess(s, x) == 0
  {
    if |s| > 0 {
      assert s[|s| - 1] in s;
      NotLess(s[|s| - 1], x);
      assert AllGreaterEq(s[..|s| - 1], x) by {
        forall k | k in s[..|s| - 1] ensures LessEq(x, k) {
          assert k in s;
        }
      }
      CountLessNone(s[..|s| - 1], x);
    }
  }

  /** A sorted sequence cut where x belongs: everything before counts, nothing after. */
  lemma CountLessCut(s: seq<Key>, x: Key)
    requires Sorted(s)
    ensures var p := CountLess(s, x);
      CountLess(s[..p], x) == p && CountLess(s[p..], x) == 0
  {
    var p := CountLess(s, x);
    CountLessSplits(s, x);
    forall k | k in s[..p] ensures Less(k, x) {
      var i :| 0 <= i < p && s[..p][i] == k;
    }
    forall k | k in s[p..] ensures LessEq(x, k) {
      var i :| 0 <= i < |s| - p && s[p..][i] == k;
      assert k == s[p + i];
    }
    CountLessAll(s[..p], x);
    CountLessNone(s[p..], x);
  }

  /** Counting below x across a strictly sorted run cut at a pivot other than x. */
  lemma CountAcross(l: seq<Key>, k: Key, r: seq<Key>, x: Key)
    requires StrictlySorted(l + [k] + r) && x != k
    ensures CountLess(l + [k] + r, x) ==
      if Less(x, k) then CountLess(l, x) else |l| + 1 + CountLess(r, x)
  {
    StrictlySortedParts(l, k, r);
    CountLessConcat(l + [k], r, x);
    CountLessConcat(l, [k], x);
    assert [k][..0] == [];
    Trichotomy(x, k);
    if Less(x, k) {
      forall y | y in r ensures LessEq(x, y) {
        LessTransitive(x, k, y);
      }
      CountLessNone(r, x);
    } else {
      forall y | y in l ensures Less(y, x) {
        LessTransitive(y, k, x);
      }
      CountLessAll(l, x);
    }
  }

  /** Dropping the last element keeps a sequence sorted. */
  lemma SortedPrefix(s: seq<Key>)
    requires |s| > 0 && Sorted(s)
    ensures Sorted(s[..|s| - 1])
  {
    var t := s[..|s| - 1];
    forall i, j | 0 <= i < j < |t|
      ensures LessEq(t[i], t[j])
    {
      assert t[i] == s[i] && t[j] == s[j];
    }
  }

  /** In a sorted sequence the keys below x form a prefix of length CountLess. */
  lemma {:induction false} CountLessSplits(s: seq<Key>, x: Key)
    requires Sorted(s)
    ensures forall i :: 0 <= i < CountLess(s, x) ==> Less(s[i], x)
    ensures forall i :: CountLess(s, x) <= i < |s| ==> LessEq(x, s[i])
  {
    if |s| > 0 {
      var t, last := s[..|s| - 1], s[|s| - 1];
      SortedPrefix(s);
      CountLessSplits(t, x);
      var n := CountLess(t, x);
      if Less(last, x) {
        if n < |t| {
          assert LessEq(x, t[n]);
          assert LessEq(t[n], last) by { assert t[n] == s[n]; }
          LessEqTransitive(x, t[n], last);
          Trichotomy(x, last);
          assert false;
        }
        forall i | 0 <= i < n + 1
          ensures Less(s[i], x)
        {
          if i < n { assert s[i] == t[i]; }
        }
      } else {
        NotLess(last, x);
        forall i | 0 <= i < n
          ensures Less(s[i], x)
        {
          assert s[i] == t[i];
        }
        forall i | n <= i < |s|
          ensures LessEq(x, s[i])
        {
          if i < |t| { assert s[i] == t[i]; }
        }
      }
    }
  }

  /** In a sorted sequence the keys not above x form a prefix of length CountLessEq. */
  lemma {:induction false} CountLessEqSplits(s: seq<Key>, x: Key)
    requires Sorted(s)
    ensures forall i :: 0 <= i < CountLessEq(s, x) ==> LessEq(s[i], x)
    ensures forall i :: CountLessEq(s, x) <= i < |s| ==> Less(x, s[i])
  {
    if |s| > 0 {
      var t, last := s[..|s| - 1], s[|s| - 1];
      SortedPrefix(s);
      CountLessEqSplits(t, x);
      var n := CountLessEq(t, x);
      if LessEq(last, x) {
        if n < |t| {
          assert Less(x, t[n]);
          assert LessEq(t[n], last) by { assert t[n] == s[n]; }
          LessLessEqTransitive(x, t[n], last);
          Trichotomy(x, last);
          assert false;
        }
        forall i | 0 <= i < n + 1
          ensures LessEq(s[i], x)
        {
          if i < n { assert s[i] == t[i]; }
        }
      } else {
        NotLess(x, last);
        forall i | 0 <= i < n
          ensures LessEq(s[i], x)
        {
          assert s[i] == t[i];
        }
        forall i | n <= i < |s|
          ensures Less(x, s[i])
        {
          if i < |t| { assert s[i] == t[i]; }
        }
      }
    }
  }

  /** Membership of x in a strictly sorted sequence is decided at index CountLess. */
  lemma MemberAtCountLess(s: seq<Key>, x: Key)
    requires StrictlySorted(s)
    ensures x in s <==> (CountLess(s, x) < |s| && s[CountLess(s, x)] == x)
  {
    CountLessSplits(s, x);
    if x in s {
      var i :| 0 <= i < |s| && s[i] == x;
      LessIrreflexive(x);
      var n := CountLess(s, x);
      if i > n {
        assert Less(s[n], s[i]);
        Trichotomy(x, s[n]);
      }
    }
  }

  /** Dropping the first element keeps a sequence strictly sorted. */
  lemma StrictlySortedTail(s: seq<Key>)
    requires |s| > 0 && StrictlySorted(s)
    ensures StrictlySorted(s[1..])
  {
    var t := s[1..];
    forall i, j | 0 <= i < j < |t|
      ensures Less(t[i], t[j])
    {
      assert t[i] == s[i + 1] && t[j] == s[j + 1];
    }
  }

  lemma MultisetTail(s: seq<Key>)
    requires |s| > 0
    ensures multiset(s[1..]) == multiset(s) - multiset{s[0]}
  {
    assert s == [s[0]] + s[1..];
  }

  /** Strictly sorted sequences with the same elements start with the same key. */
  lemma SameFirst(a: seq<Key>, b: seq<Key>)
    requires StrictlySorted(a) && StrictlySorted(b) && multiset(a) == multiset(b) && |a| > 0
    ensures |b| > 0 && a[0] == b[0]
  {
    assert a[0] in multiset(b);
    assert |b| > 0;
    assert b[0] in multiset(a);
    var j :| 0 <= j < |b| && b[j] == a[0];
    var i :| 0 <= i < |a| && a[i] == b[0];
    if i > 0 && j > 0 {
      assert Less(a[0], b[0]) && Less(b[0], a[0]);
      Trichotomy(a[0], b[0]);
    }
  }

  /** A strictly sorted sequence is determined by its elements. */
  lemma {:induction false} StrictlySortedUnique(a: seq<Key>, b: seq<Key>)
    requires StrictlySorted(a) && StrictlySorted(b) && multiset(a) == multiset(b)
    ensures a == b
    decreases |a|
  {
    if |a| == 0 {
      assert |multiset(b)| == 0;
    } else {
      SameFirst(a, b);
      MultisetTail(a);
      MultisetTail(b);
      StrictlySortedTail(a);
      StrictlySortedTail(b);
      StrictlySortedUnique(a[1..], b[1..]);
      assert a == [a[0]] + a[1..] && b == [b[0]] + b[1..];
    }
  }

  /** The last element of a sequence, if any. */
  function LastOf(s: seq<Key>): Option<Key>
  {
    if |s| == 0 then None else Some(s[|s| - 1])
  }

  /** A remembered key as a sequence of zero or one keys. */
  function Seen(p: Option<Key>): seq<Key>
  {
    if p.Some? then [p.value] else []
  }

  /**
   * An in-order walk that only compares each key with the previous one sees
   * a sorted sequence exactly when the whole sequence is sorted.
   */
  lemma SortedSplit(a: seq<Key>, x: Key, r: seq<Key>)
    ensures Sorted(a + [x] + r) <==>
      Sorted(a) && Sorted(Seen(LastOf(a)) + [x]) && Sorted([x] + r)
  {
    if Sorted(a + [x] + r) {
      SortedParts(a, x, r);
      if |a| > 0 {
        assert a[|a| - 1] in a;
      }
      SortedJoin([], x, r);
    }
    if Sorted(a) && Sorted(Seen(LastOf(a)) + [x]) && Sorted([x] + r) {
      forall k | k in a ensures LessEq(k, x) {
        var i :| 0 <= i < |a| && a[i] == k;
        var w := Seen(LastOf(a)) + [x];
        assert w[0] == a[|a| - 1] && w[1] == x;
        if i < |a| - 1 {
          LessEqTransitive(k, a[|a| - 1], x);
        }
      }
      assert [x] + r == [] + [x] + r;
      SortedParts([], x, r);
      SortedJoin(a, x, r);
    }
  }

  /** One comparison with the remembered key decides whether x may follow it. */
  lemma SeenNext(p: Option<Key>, x: Key)
    ensures Sorted(Seen(p) + [x]) <==> !(p.Some? && Less(x, p.value))
  {
    if p.Some? {
      NotLess(x, p.value);
      var w := Seen(p) + [x];
      assert w[0] == p.value && w[1] == x;
    }
  }

  /**
   * An in-order walk of l, then x, then r after the keys before: sorted
   * exactly when each stage is, and the last key seen is the last of [x] + r.
   */
  lemma SortedWalk(before: seq<Key>, l: seq<Key>, x: Key, r: seq<Key>)
    ensures Sorted(before + (l + [x] + r)) <==>
      Sorted(before + l) && Sorted(Seen(LastOf(before + l)) + [x]) && Sorted(Seen(Some(x)) + r)
    ensures LastOf(before + (l + [x] + r)) == LastOf(Seen(Some(x)) + r)
  {
    assert before + (l + [x] + r) == (before + l) + [x] + r;
    SortedSplit(before + l, x, r);
    assert Seen(Some(x)) == [x];
  }

  /** The strict counterpart of SortedSplit. */
  lemma StrictlySortedSplit(a: seq<Key>, x: Key, r: seq<Key>)
    ensures StrictlySorted(a + [x] + r) <==>
      StrictlySorted(a) && StrictlySorted(Seen(LastOf(a)) + [x]) && StrictlySorted([x] + r)
  {
    if StrictlySorted(a + [x] + r) {
      StrictlySortedParts(a, x, r);
      if |a| > 0 {
        assert a[|a| - 1] in a;
      }
      StrictlySortedJoin([], x, r);
    }
    if StrictlySorted(a) && StrictlySorted(Seen(LastOf(a)) + [x]) && StrictlySorted([x] + r) {
      forall k | k in a ensures Less(k, x) {
        var i :| 0 <= i < |a| && a[i] == k;
        var w := Seen(LastOf(a)) + [x];
        assert w[0] == a[|a| - 1] && w[1] == x;
        if i < |a| - 1 {
          LessTransitive(k, a[|a| - 1], x);
        }
      }
      assert [x] + r == [] + [x] + r;
      StrictlySortedParts([], x, r);
      StrictlySortedJoin(a, x, r);
    }
  }

  /** A walk that demands each key be above the previous one: the strict SeenNext. */
  lemma SeenBelow(p: Option<Key>, x: Key)
    ensures StrictlySorted(Seen(p) + [x]) <==> !(p.Some? && !Less(p.value, x))
  {
    if p.Some? {
      var w := Seen(p) + [x];
      assert w[0] == p.value && w[1] == x;
    }
  }

  /** The strict counterpart of SortedWalk, for a walk that continues with x then r. */
  lemma StrictlySortedWalk(before: seq<Key>, x: Key, r: seq<Key>)
    ensures StrictlySorted(before + [x] + r) <==>
      StrictlySorted(before) && StrictlySorted(Seen(LastOf(before)) + [x]) && StrictlySorted(Seen(Some(x)) + r)
    ensures LastOf(before + [x] + r) == LastOf(Seen(Some(x)) + r)
  {
    StrictlySortedSplit(before, x, r);
    assert Seen(Some(x)) == [x];
  }

  /** A prefix of a strictly sorted sequence is strictly sorted. */
  lemma StrictlySortedPrefix(a: seq<Key>, b: seq<Key>)
    requires StrictlySorted(a + b)
    ensures StrictlySorted(a)
  {
    forall i, j | 0 <= i < j < |a| ensures Less(a[i], a[j]) {
      assert a[i] == (a + b)[i] && a[j] == (a + b)[j];
    }
  }

  /** One step of a walk over keys: the next key joins the walked prefix. */
  lemma StrictlySortedStep(before: seq<Key>, keys: seq<Key>, i: nat)
    requires i < |keys|
    ensures StrictlySorted(before + keys[..i + 1]) <==>
      StrictlySorted(before + keys[..i]) && StrictlySorted(Seen(LastOf(before + keys[..i])) + [keys[i]])
    ensures LastOf(before + keys[..i + 1]) == Some(keys[i])
    ensures StrictlySorted(before + keys) ==> StrictlySorted(before + keys[..i + 1])
  {
    assert before + keys[..i + 1] == before + keys[..i] + [keys[i]] + [];
    StrictlySortedWalk(before + keys[..i], keys[i], []);
    assert before + keys == (before + keys[..i + 1]) + keys[i + 1..];
    if StrictlySorted(before + keys) {
      StrictlySortedPrefix(before + keys[..i + 1], keys[i + 1..]);
    }
  }
}
