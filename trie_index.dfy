// detail::ArrayIndex of suffix-trie.cc: which of the 256 byte values a trie
// node has a child for, as four 64-bit words, and the rank of each byte among
// the present ones (its slot in the node's child array), from a per-word
// running start count plus a popcount of the word's lower bits.
//
// Words are naturals below 2^64 and the bit operations the source uses are
// written out by halving: bit i of x, the low n bits of x (x & ~(~0 << n)),
// x with bit b set (x | 1 << b), and popcount. Bytes are naturals below 256.

module TrieIndex {

  function Pow2(n: nat): (r: nat)
    ensures r > 0
  {
    if n == 0 then 1 else 2 * Pow2(n - 1)
  }

  /** A uint64_t; only its bits 0 to 63 are ever set (InitInUseKeepsWidth). */
  type Word = nat

  /** (x >> i) & 1. */
  function Bit(x: nat, i: nat): bool
  {
    if i == 0 then x % 2 == 1 else Bit(x / 2, i - 1)
  }

  /** x & ~(~uint64_t{} << n): the lowest n bits of x. */
  function LowBits(x: nat, n: nat): nat
  {
    if n == 0 then 0 else x % 2 + 2 * LowBits(x / 2, n - 1)
  }

  /** The number of set bits among the lowest n bits of x. */
  function PopcountLow(x: nat, n: nat): (c: nat)
    ensures c <= n
  {
    if n == 0 then 0 else x % 2 + PopcountLow(x / 2, n - 1)
  }

  /** std::popcount on a uint64_t. */
  function Popcount(x: nat): (c: nat)
    ensures c <= 64
  {
    PopcountLow(x, 64)
  }

  /** x | uint64_t{1} << b. */
  function SetBit(x: nat, b: nat): nat
  {
    if Bit(x, b) then x else x + Pow2(b)
  }

  /** The bitmap words and the uint8_t start count of each. */
  datatype ArrayIndex = ArrayIndex(inUseBits: seq<Word>, startIndexes: seq<nat>)

  predicate WellSized(idx: ArrayIndex)
  {
    |idx.inUseBits| == 4 && |idx.startIndexes| == 4 &&
    forall w :: 0 <= w < 4 ==> idx.startIndexes[w] < 256
  }

  /** A zero-initialised index: no byte present. */
  const Blank := ArrayIndex([0, 0, 0, 0], [0, 0, 0, 0])

  /** HasElement: the bit of byte pos. */
  function HasElement(idx: ArrayIndex, pos: nat): bool
    requires WellSized(idx) && pos < 256
  {
    Bit(idx.inUseBits[pos / 64], pos % 64)
  }

  /**
   * NumElementsBefore: the word's start count plus the set bits below pos
   * in its word, summed into a uint8_t.
   */
  function NumElementsBefore(idx: ArrayIndex, pos: nat): (r: nat)
    requires WellSized(idx) && pos < 256
    ensures r < 256
  {
    (idx.startIndexes[pos / 64] + Popcount(LowBits(idx.inUseBits[pos / 64], pos % 64))) % 256
  }

  /** InitInUse: sets the bit of byte pos. */
  function InitInUse(idx: ArrayIndex, pos: nat): (r: ArrayIndex)
    requires WellSized(idx) && pos < 256
    ensures WellSized(r) && r.startIndexes == idx.startIndexes
  {
    var w := pos / 64;
    idx.(inUseBits := idx.inUseBits[w := SetBit(idx.inUseBits[w], pos % 64)])
  }

  // ----- facts about the bit functions -----

  /** No bit of zero is set. */
  lemma {:induction false} ZeroBits(i: nat)
    ensures !Bit(0, i)
  {
    if i > 0 {
      ZeroBits(i - 1);
    }
  }

  /** Setting a bit below n keeps a value below 2^n. */
  lemma {:induction false} SetBitBelow(x: nat, b: nat, n: nat)
    requires x < Pow2(n) && b < n
    ensures SetBit(x, b) < Pow2(n)
  {
    if !Bit(x, b) {
      assert Pow2(n) == 2 * Pow2(n - 1);
      assert x == 2 * (x / 2) + x % 2;
      if b == 0 {
        assert x % 2 == 0;
      } else {
        assert !Bit(x / 2, b - 1);
        SetBitBelow(x / 2, b - 1, n - 1);
        assert x / 2 + Pow2(b - 1) < Pow2(n - 1);
        assert Pow2(b) == 2 * Pow2(b - 1);
      }
    }
  }

  /** InitInUse keeps every word a uint64_t. */
  lemma InitInUseKeepsWidth(idx: ArrayIndex, pos: nat)
    requires WellSized(idx) && pos < 256
    requires forall w :: 0 <= w < 4 ==> idx.inUseBits[w] < Pow2(64)
    ensures forall w :: 0 <= w < 4 ==> InitInUse(idx, pos).inUseBits[w] < Pow2(64)
  {
    SetBitBelow(idx.inUseBits[pos / 64], pos % 64, 64);
  }

  /** Bit i of x with bit b set. */
  lemma {:induction false} SetBitHas(x: nat, b: nat, i: nat)
    ensures Bit(SetBit(x, b), i) <==> i == b || Bit(x, i)
  {
    if !Bit(x, b) {
      if b == 0 {
        if i > 0 {
          assert (x + 1) / 2 == x / 2;
        }
      } else {
        assert (x + Pow2(b)) / 2 == x / 2 + Pow2(b - 1);
        assert (x + Pow2(b)) % 2 == x % 2;
        if i > 0 {
          SetBitHas(x / 2, b - 1, i - 1);
          assert SetBit(x / 2, b - 1) == x / 2 + Pow2(b - 1);
        }
      }
    }
  }

  /** The low n bits of x are the bits of x below n. */
  lemma {:induction false} LowBitsBit(x: nat, n: nat, i: nat)
    ensures Bit(LowBits(x, n), i) <==> i < n && Bit(x, i)
  {
    if n == 0 {
      ZeroBits(i);
    } else if i > 0 {
      LowBitsBit(x / 2, n - 1, i - 1);
    }
  }

  /** Counting bits from the top: the count below n + 1 adds bit n. */
  lemma {:induction false} PopcountLowStep(x: nat, n: nat)
    ensures PopcountLow(x, n + 1) == PopcountLow(x, n) + (if Bit(x, n) then 1 else 0)
  {
    if n > 0 {
      PopcountLowStep(x / 2, n - 1);
    }
  }

  /** Counts over n bits depend only on those bits. */
  lemma {:induction false} PopcountLowSame(x: nat, y: nat, n: nat)
    requires forall i :: 0 <= i < n ==> (Bit(x, i) <==> Bit(y, i))
    ensures PopcountLow(x, n) == PopcountLow(y, n)
  {
    if n > 0 {
      PopcountLowSame(x, y, n - 1);
      PopcountLowStep(x, n - 1);
      PopcountLowStep(y, n - 1);
    }
  }

  /** std::popcount(x & mask): the set bits of x below n. */
  lemma MaskedPopcount(x: nat, n: nat)
    requires n <= 64
    ensures Popcount(LowBits(x, n)) == PopcountLow(x, n)
  {
    forall i | 0 <= i < 64 ensures Bit(LowBits(x, n), i) <==> i < n && Bit(x, i) {
      LowBitsBit(x, n, i);
    }
    PopcountLowSplit(LowBits(x, n), n, 64);
    forall i | 0 <= i < n ensures Bit(LowBits(x, n), i) <==> Bit(x, i) {
      LowBitsBit(x, n, i);
    }
    PopcountLowSame(LowBits(x, n), x, n);
  }

  /** No bit set from n up to m: the count below m is the count below n. */
  lemma {:induction false} PopcountLowSplit(x: nat, n: nat, m: nat)
    requires n <= m
    requires forall i :: n <= i < m ==> !Bit(x, i)
    ensures PopcountLow(x, m) == PopcountLow(x, n)
  {
    if n < m {
      PopcountLowSplit(x, n, m - 1);
      PopcountLowStep(x, m - 1);
    }
  }

  // ----- the bytes present, in increasing order -----

  /** The present bytes below n, in increasing order. */
  function LabelsBelow(idx: ArrayIndex, n: nat): seq<nat>
    requires WellSized(idx) && n <= 256
  {
    if n == 0 then []
    else LabelsBelow(idx, n - 1) + (if HasElement(idx, n - 1) then [n - 1] else [])
  }

  /** All present bytes, in increasing order: the byte under each child slot. */
  function Labels(idx: ArrayIndex): seq<nat>
    requires WellSized(idx)
  {
    LabelsBelow(idx, 256)
  }

  /** Every start count is the number of present bytes in the words before it. */
  ghost predicate Initialized(idx: ArrayIndex)
  {
    WellSized(idx) &&
    forall w :: 0 <= w < 4 ==> idx.startIndexes[w] == |LabelsBelow(idx, 64 * w)|
  }

  predicate StrictlyIncreasing(s: seq<nat>)
  {
    forall i, j :: 0 <= i < j < |s| ==> s[i] < s[j]
  }

  /** The labels below n are strictly increasing, all below n, and are exactly the present bytes. */
  lemma {:induction false} LabelsBelowFacts(idx: ArrayIndex, n: nat)
    requires WellSized(idx) && n <= 256
    ensures StrictlyIncreasing(LabelsBelow(idx, n)) && |LabelsBelow(idx, n)| <= n
    ensures forall c: nat :: c in LabelsBelow(idx, n) <==> c < n && HasElement(idx, c)
  {
    if n > 0 {
      LabelsBelowFacts(idx, n - 1);
      var s := LabelsBelow(idx, n - 1);
      assert forall i :: 0 <= i < |s| ==> s[i] in s;
    }
  }

  /** Indexes that agree on the bitmap have the same labels. */
  lemma {:induction false} SameBitsSameLabels(a: ArrayIndex, b: ArrayIndex, n: nat)
    requires WellSized(a) && WellSized(b) && a.inUseBits == b.inUseBits && n <= 256
    ensures LabelsBelow(a, n) == LabelsBelow(b, n)
  {
    if n > 0 {
      SameBitsSameLabels(a, b, n - 1);
    }
  }

  /** A word's bits line up with the bytes 64 w .. 64 w + 63. */
  lemma {:induction false} WordCount(idx: ArrayIndex, w: nat, b: nat)
    requires WellSized(idx) && w < 4 && b <= 64
    ensures |LabelsBelow(idx, 64 * w + b)| == |LabelsBelow(idx, 64 * w)| + PopcountLow(idx.inUseBits[w], b)
  {
    if b > 0 {
      WordCount(idx, w, b - 1);
      PopcountLowStep(idx.inUseBits[w], b - 1);
      var pos := 64 * w + b - 1;
      assert pos / 64 == w && pos % 64 == b - 1;
    }
  }

  /**
   * After FinishInitialization, NumElementsBefore(pos) is the number of
   * present bytes below pos, i.e. the slot of pos's child.
   */
  lemma NumElementsBeforeCounts(idx: ArrayIndex, pos: nat)
    requires Initialized(idx) && pos < 256
    ensures NumElementsBefore(idx, pos) == |LabelsBelow(idx, pos)|
  {
    var w := pos / 64;
    var bit := pos % 64;
    assert 64 * w + bit == pos;
    WordCount(idx, w, bit);
    LabelsBelowFacts(idx, pos);
    var before := |LabelsBelow(idx, 64 * w)|;
    var upTo := |LabelsBelow(idx, pos)|;
    assert idx.startIndexes[w] == before;
    NumElementsBeforeIs(idx, pos, w, bit, before, PopcountLow(idx.inUseBits[w], bit));
  }

  /** NumElementsBefore as the start count plus the popcount of the bits below. */
  lemma NumElementsBeforeIs(idx: ArrayIndex, pos: nat, w: nat, bit: nat, start: nat, count: nat)
    requires WellSized(idx) && pos < 256 && w == pos / 64 && bit == pos % 64
    requires idx.startIndexes[w] == start && PopcountLow(idx.inUseBits[w], bit) == count
    requires start + count < 256
    ensures NumElementsBefore(idx, pos) == start + count
  {
    MaskedPopcount(idx.inUseBits[w], bit);
  }

  /** HasElement(pos) holds exactly when pos is among the labels. */
  lemma HasElementIsLabel(idx: ArrayIndex, pos: nat)
    requires WellSized(idx) && pos < 256
    ensures HasElement(idx, pos) <==> pos in Labels(idx)
  {
    LabelsBelowFacts(idx, 256);
  }

  /** The index with every start count set to the number of present bytes before its word. */
  function Finished(idx: ArrayIndex): ArrayIndex
    requires WellSized(idx)
  {
    idx.(startIndexes := [0, |LabelsBelow(idx, 64)|, |LabelsBelow(idx, 128)|, |LabelsBelow(idx, 192)|])
  }

  /** Finished keeps the bitmap, and its counts are the ranks NumElementsBefore needs. */
  lemma FinishedInitialized(idx: ArrayIndex)
    requires WellSized(idx)
    ensures Finished(idx).inUseBits == idx.inUseBits && Initialized(Finished(idx))
    ensures Labels(Finished(idx)) == Labels(idx)
  {
    LabelsBelowLength(idx, 64);
    LabelsBelowLength(idx, 128);
    LabelsBelowLength(idx, 192);
    var r := Finished(idx);
    assert WellSized(r);
    SameBitsSameLabels(r, idx, 0);
    SameBitsSameLabels(r, idx, 64);
    SameBitsSameLabels(r, idx, 128);
    SameBitsSameLabels(r, idx, 192);
    SameBitsSameLabels(r, idx, 256);
  }

  lemma LabelsBelowLength(idx: ArrayIndex, n: nat)
    requires WellSized(idx) && n <= 256
    ensures |LabelsBelow(idx, n)| <= n
  {
    LabelsBelowFacts(idx, n);
  }

  /**
   * FinishInitialization: the start count of each word is the running
   * total of the popcounts before it, accumulated in a uint8_t.
   */
  method FinishInitialization(idx: ArrayIndex) returns (r: ArrayIndex)
    requires WellSized(idx)
    ensures r == Finished(idx) && Initialized(r)
  {
    var acc: nat := 0;
    var starts := idx.startIndexes;
    for i := 0 to 4
      invariant |starts| == 4 && forall w :: 0 <= w < 4 ==> starts[w] < 256
      invariant acc == |LabelsBelow(idx, 64 * i)| % 256
      invariant forall w :: 0 <= w < i ==> starts[w] == |LabelsBelow(idx, 64 * w)|
    {
      CountExact(idx, i, acc);
      CountAdvance(idx, i, acc);
      starts := starts[i := acc];
      acc := (acc + Popcount(idx.inUseBits[i])) % 256;
      assert 64 * (i + 1) == 64 * i + 64;
    }
    r := idx.(startIndexes := starts);
    FinishedInitialized(idx);
    assert starts == Finished(idx).startIndexes;
  }

  /** The running count before word i has not yet wrapped: it is the exact number of bytes below. */
  lemma CountExact(idx: ArrayIndex, i: nat, acc: nat)
    requires WellSized(idx) && i < 4 && acc == |LabelsBelow(idx, 64 * i)| % 256
    ensures acc == |LabelsBelow(idx, 64 * i)|
  {
    LabelsBelowLength(idx, 64 * i);
  }

  /** Adding word i's popcount to the count before it gives the count before the next word. */
  lemma CountAdvance(idx: ArrayIndex, i: nat, acc: nat)
    requires WellSized(idx) && i < 4 && acc == |LabelsBelow(idx, 64 * i)|
    ensures (acc + Popcount(idx.inUseBits[i])) % 256 == |LabelsBelow(idx, 64 * i + 64)| % 256
  {
    WordPopcount(idx, i);
  }

  /** The bytes present below the end of word w: those below its start plus its set bits. */
  lemma WordPopcount(idx: ArrayIndex, w: nat)
    requires WellSized(idx) && w < 4
    ensures |LabelsBelow(idx, 64 * w + 64)| == |LabelsBelow(idx, 64 * w)| + Popcount(idx.inUseBits[w])
  {
    WordCount(idx, w, 64);
  }

  // ----- setting one more bit -----

  /** InitInUse adds exactly byte ch to the present set. */
  lemma InitInUseHas(idx: ArrayIndex, ch: nat, c: nat)
    requires WellSized(idx) && ch < 256 && c < 256
    ensures HasElement(InitInUse(idx, ch), c) <==> c == ch || HasElement(idx, c)
  {
    if ch / 64 == c / 64 {
      SetBitHas(idx.inUseBits[ch / 64], ch % 64, c % 64);
    }
  }

  /** The labels of the index with byte ch added, below n: ch joins at its rank. */
  lemma {:induction false} LabelsInserted(idx: ArrayIndex, ch: nat, n: nat)
    requires WellSized(idx) && ch < 256 && !HasElement(idx, ch) && n <= 256
    ensures n <= ch ==> LabelsBelow(InitInUse(idx, ch), n) == LabelsBelow(idx, n)
    ensures var k := |LabelsBelow(idx, ch)|;
      n > ch ==> (k <= |LabelsBelow(idx, n)| &&
        LabelsBelow(InitInUse(idx, ch), n) == LabelsBelow(idx, n)[..k] + [ch] + LabelsBelow(idx, n)[k..])
  {
    if n > 0 {
      LabelsInserted(idx, ch, n - 1);
      InitInUseHas(idx, ch, n - 1);
      var k := |LabelsBelow(idx, ch)|;
      if n - 1 == ch {
        assert LabelsBelow(idx, n) == LabelsBelow(idx, n - 1);
        assert LabelsBelow(idx, n)[k..] == [];
      } else if n > ch {
        var a := LabelsBelow(idx, n - 1);
        var e := if HasElement(idx, n - 1) then [n - 1] else [];
        assert LabelsBelow(idx, n) == a + e;
        assert (a + e)[..k] == a[..k];
        assert (a + e)[k..] == a[k..] + e;
      }
    }
  }

  /** Labels after InitInUse(ch) when ch was absent: ch inserted at its rank. */
  lemma LabelsInsert(idx: ArrayIndex, ch: nat)
    requires WellSized(idx) && ch < 256 && !HasElement(idx, ch)
    ensures var k := |LabelsBelow(idx, ch)|;
      k <= |Labels(idx)| && Labels(InitInUse(idx, ch)) == Labels(idx)[..k] + [ch] + Labels(idx)[k..]
  {
    LabelsInserted(idx, ch, 256);
  }

  /** The labels below m start the labels below n. */
  lemma {:induction false} LabelsPrefix(idx: ArrayIndex, m: nat, n: nat)
    requires WellSized(idx) && m <= n <= 256
    ensures |LabelsBelow(idx, m)| <= |LabelsBelow(idx, n)|
    ensures LabelsBelow(idx, n)[..|LabelsBelow(idx, m)|] == LabelsBelow(idx, m)
  {
    if m < n {
      LabelsPrefix(idx, m, n - 1);
    }
  }

  /** A present byte sits in the labels at its rank. */
  lemma LabelAtRank(idx: ArrayIndex, ch: nat)
    requires WellSized(idx) && ch < 256 && HasElement(idx, ch)
    ensures |LabelsBelow(idx, ch)| < |Labels(idx)|
    ensures Labels(idx)[|LabelsBelow(idx, ch)|] == ch
  {
    LabelsPrefix(idx, ch + 1, 256);
    assert LabelsBelow(idx, ch + 1) == LabelsBelow(idx, ch) + [ch];
  }

  // ----- the indexes MakeFrom2 builds -----

  /** A blank index has no byte. */
  lemma BlankEmpty(c: nat)
    requires c < 256
    ensures !HasElement(Blank, c)
  {
    ZeroBits(c % 64);
  }

  /** Exactly bytes a < b present: the labels are [a, b]. */
  lemma {:induction false} LabelsOfTwo(idx: ArrayIndex, a: nat, b: nat, n: nat)
    requires WellSized(idx) && a < b < 256 && n <= 256
    requires forall c :: 0 <= c < 256 ==> (HasElement(idx, c) <==> c == a || c == b)
    ensures LabelsBelow(idx, n) == (if a < n then [a] else []) + (if b < n then [b] else [])
  {
    if n > 0 {
      LabelsOfTwo(idx, a, b, n - 1);
    }
  }

  /** The index MakeFrom2 builds: bytes ch1 and ch2 set on a blank index. */
  function TwoIndex(ch1: nat, ch2: nat): ArrayIndex
    requires ch1 < 256 && ch2 < 256
  {
    Finished(InitInUse(InitInUse(Blank, ch1), ch2))
  }

  /** Its labels are the two bytes in increasing order. */
  lemma TwoIndexLabels(ch1: nat, ch2: nat)
    requires ch1 < 256 && ch2 < 256 && ch1 != ch2
    ensures Initialized(TwoIndex(ch1, ch2))
    ensures Labels(TwoIndex(ch1, ch2)) == if ch1 < ch2 then [ch1, ch2] else [ch2, ch1]
  {
    var idx := InitInUse(InitInUse(Blank, ch1), ch2);
    forall c | 0 <= c < 256 ensures HasElement(idx, c) <==> c == ch1 || c == ch2 {
      InitInUseHas(InitInUse(Blank, ch1), ch2, c);
      InitInUseHas(Blank, ch1, c);
      BlankEmpty(c);
    }
    FinishedInitialized(idx);
    if ch1 < ch2 {
      LabelsOfTwo(idx, ch1, ch2, 256);
    } else {
      LabelsOfTwo(idx, ch2, ch1, 256);
    }
  }
}
