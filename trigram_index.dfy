// Positional trigram index and conjunctive substring search.
//
// The text is indexed by every three adjacent bytes (tabs and newlines
// folded to spaces); a posting list holds the positions of one trigram in
// increasing order. A substring query becomes a conjunction of trigram
// terms at fixed offsets, a case-insensitive one a conjunction of
// disjunctions over the case forms of each trigram, and both are answered
// by advancing a minimum position over the posting lists.

module TrigramIndex {
  import opened Keys

  type Text = seq<Byte>

  const Tab: Byte := 9
  const Newline: Byte := 10
  const Space: Byte := 32

  /** Three adjacent bytes. */
  datatype Trigram = Trigram(c0: Byte, c1: Byte, c2: Byte)

  /** The bytes of a trigram, in order. */
  function Bytes(g: Trigram): seq<Byte>
  {
    [g.c0, g.c1, g.c2]
  }

  /** FromStringAt: the trigram made of s[pos], s[pos + 1], s[pos + 2]. */
  function FromStringAt(s: Text, pos: nat): (g: Trigram)
    requires pos + 3 <= |s|
    ensures Bytes(g) == s[pos..pos + 3]
  {
    Trigram(s[pos], s[pos + 1], s[pos + 2])
  }

  /** Trigram equality (a three-byte memcmp) is equality of the underlying bytes. */
  lemma TrigramEquality(s: Text, p: nat, u: Text, q: nat)
    requires p + 3 <= |s| && q + 3 <= |u|
    ensures FromStringAt(s, p) == FromStringAt(u, q) <==> s[p..p + 3] == u[q..q + 3]
  {
    if s[p..p + 3] == u[q..q + 3] {
      assert s[p] == s[p..p + 3][0] && u[q] == u[q..q + 3][0];
      assert s[p + 1] == s[p..p + 3][1] && u[q + 1] == u[q..q + 3][1];
      assert s[p + 2] == s[p..p + 3][2] && u[q + 2] == u[q..q + 3][2];
    }
  }

  /** The byte Spacify stores for ch: tab and newline become a space. */
  function ToSpace(ch: Byte): (r: Byte)
    ensures r != Tab && r != Newline
    ensures ch != Tab && ch != Newline ==> r == ch
  {
    if ch == Tab || ch == Newline then Space else ch
  }

  /** Spacify: each of the three bytes goes through ToSpace. */
  function Spacify(g: Trigram): (r: Trigram)
    ensures Bytes(r) == [ToSpace(g.c0), ToSpace(g.c1), ToSpace(g.c2)]
  {
    Trigram(ToSpace(g.c0), ToSpace(g.c1), ToSpace(g.c2))
  }

  /** The text as the index sees it: every byte through ToSpace. */
  function Spaced(s: Text): (r: Text)
    ensures |r| == |s|
    ensures forall i :: 0 <= i < |s| ==> r[i] == ToSpace(s[i])
  {
    seq(|s|, i requires 0 <= i < |s| => ToSpace(s[i]))
  }

  /** Spacify leaves no tab or newline, and a spacified trigram is its own spacified form. */
  lemma SpacifyIdempotent(g: Trigram)
    ensures Spacify(Spacify(g)) == Spacify(g)
    ensures forall c :: c in Bytes(Spacify(g)) ==> c != Tab && c != Newline
  {
  }

  /** The spacified trigram at p is the trigram of the spacified text at p. */
  lemma SpacifyAt(s: Text, p: nat)
    requires p + 3 <= |s|
    ensures Spacify(FromStringAt(s, p)) == FromStringAt(Spaced(s), p)
  {
  }

  // ----- the index -----

  type Index = map<Trigram, seq<nat>>

  predicate Increasing(xs: seq<nat>)
  {
    forall i, j :: 0 <= i < j < |xs| ==> xs[i] < xs[j]
  }

  /** A position is listed under g only if the spacified trigram starting there is g. */
  ghost predicate ListedSoundly(idx: Index, s: Text)
  {
    (forall g, p :: g in idx && p in idx[g] ==> p + 3 <= |s|) &&
    (forall g, p :: g in idx && p in idx[g] && p + 3 <= |s| ==> Spacify(FromStringAt(s, p)) == g)
  }

  /**
   * idx indexes s: every posting list is non-empty and increasing, p is
   * listed under g only if the spacified trigram at p is g, and every
   * position with a whole trigram is listed under its spacified trigram.
   */
  ghost predicate IsIndexOf(idx: Index, s: Text)
  {
    (forall g :: g in idx ==> Increasing(idx[g]) && |idx[g]| > 0) &&
    ListedSoundly(idx, s) &&
    (forall p: nat :: p + 3 <= |s| ==> Spacify(FromStringAt(s, p)) in idx && p in idx[Spacify(FromStringAt(s, p))])
  }

  /** The loop's index after the positions below pos. */
  ghost predicate IndexedBelow(idx: Index, s: Text, pos: nat)
  {
    (forall g :: g in idx ==> Increasing(idx[g]) && |idx[g]| > 0 && idx[g][|idx[g]| - 1] < pos) &&
    ListedSoundly(idx, s) &&
    (forall p: nat :: p < pos && p + 3 <= |s| ==>
      Spacify(FromStringAt(s, p)) in idx && p in idx[Spacify(FromStringAt(s, p))])
  }

  /** The index after appending p to g's posting list, creating it when absent. */
  function Append(idx: Index, g: Trigram, p: nat): Index
  {
    idx[g := (if g in idx then idx[g] else []) + [p]]
  }

  lemma AppendLists(idx: Index, g: Trigram, pos: nat)
    requires forall h :: h in idx ==> Increasing(idx[h]) && |idx[h]| > 0 && idx[h][|idx[h]| - 1] < pos
    ensures forall h :: h in Append(idx, g, pos) ==>
      Increasing(Append(idx, g, pos)[h]) && |Append(idx, g, pos)[h]| > 0 &&
      Append(idx, g, pos)[h][|Append(idx, g, pos)[h]| - 1] < pos + 1
  {
    var list := if g in idx then idx[g] else [];
    assert Increasing(list + [pos]);
  }

  lemma AppendSound(idx: Index, s: Text, pos: nat)
    requires ListedSoundly(idx, s)
    requires pos + 3 <= |s|
    ensures ListedSoundly(Append(idx, Spacify(FromStringAt(s, pos)), pos), s)
  {
  }

  lemma AppendComplete(idx: Index, s: Text, pos: nat)
    requires forall p: nat :: p < pos && p + 3 <= |s| ==>
      Spacify(FromStringAt(s, p)) in idx && p in idx[Spacify(FromStringAt(s, p))]
    requires pos + 3 <= |s|
    ensures var idx2 := Append(idx, Spacify(FromStringAt(s, pos)), pos);
      forall p: nat :: p < pos + 1 && p + 3 <= |s| ==>
        Spacify(FromStringAt(s, p)) in idx2 && p in idx2[Spacify(FromStringAt(s, p))]
  {
  }

  /** Appending pos to its trigram's posting list indexes one more position. */
  lemma IndexStep(idx: Index, s: Text, pos: nat)
    requires IndexedBelow(idx, s, pos) && pos + 3 <= |s|
    ensures IndexedBelow(Append(idx, Spacify(FromStringAt(s, pos)), pos), s, pos + 1)
  {
    AppendLists(idx, Spacify(FromStringAt(s, pos)), pos);
    AppendSound(idx, s, pos);
    AppendComplete(idx, s, pos);
  }

  /** Once every position that starts a trigram is below pos, the loop's index is the full index. */
  lemma IndexedAll(idx: Index, s: Text, pos: nat)
    requires IndexedBelow(idx, s, pos) && |s| < pos + 3
    ensures IsIndexOf(idx, s)
  {
    forall g | g in idx
      ensures Increasing(idx[g]) && |idx[g]| > 0
    {
      assert Increasing(idx[g]) && |idx[g]| > 0 && idx[g][|idx[g]| - 1] < pos;
    }
    forall p: nat | p + 3 <= |s|
      ensures Spacify(FromStringAt(s, p)) in idx && p in idx[Spacify(FromStringAt(s, p))]
    {
      assert p < pos;
    }
  }

  /** The index-building loop: each position's spacified trigram gets the position appended. */
  method BuildIndex(s: Text) returns (idx: Index)
    ensures IsIndexOf(idx, s)
  {
    idx := map[];
    var pos := 0;
    while pos + 3 <= |s|
      invariant IndexedBelow(idx, s, pos)
    {
      IndexStep(idx, s, pos);
      var g := Spacify(FromStringAt(s, pos));
      var list := if g in idx then idx[g] else [];
      idx := idx[g := list + [pos]];
      pos := pos + 1;
    }
    IndexedAll(idx, s, pos);
  }

  // ----- space runs -----

  /** isspace in the C locale: space, tab, newline, vertical tab, form feed, carriage return. */
  predicate IsSpace(c: Byte)
  {
    c == Space || (9 <= c <= 13)
  }

  /** A whitespace run: its first position and its length. */
  datatype Run = Run(start: nat, len: nat)

  /** (start, length) is a maximal non-empty run of whitespace in s. */
  predicate IsRun(r: Run, s: Text)
  {
    0 < r.len && r.start + r.len <= |s| &&
    (forall p :: r.start <= p < r.start + r.len ==> IsSpace(s[p])) &&
    (r.start == 0 || !IsSpace(s[r.start - 1])) &&
    (r.start + r.len == |s| || !IsSpace(s[r.start + r.len]))
  }

  /** Position p lies inside one of the runs. */
  ghost predicate Covered(runs: seq<Run>, p: nat)
  {
    exists i :: 0 <= i < |runs| && runs[i].start <= p < runs[i].start + runs[i].len
  }

  /** runs lists every maximal whitespace run of s, left to right, with text between consecutive runs. */
  ghost predicate IsSpaceRuns(runs: seq<Run>, s: Text)
  {
    (forall i :: 0 <= i < |runs| ==> IsRun(runs[i], s)) &&
    (forall i :: 0 < i < |runs| ==> runs[i - 1].start + runs[i - 1].len < runs[i].start) &&
    (forall p :: 0 <= p < |s| && IsSpace(s[p]) ==> Covered(runs, p))
  }

  lemma CoveredExtend(runs: seq<Run>, r: Run, p: nat)
    requires Covered(runs, p)
    ensures Covered(runs + [r], p)
  {
    var i :| 0 <= i < |runs| && runs[i].start <= p < runs[i].start + runs[i].len;
    assert (runs + [r])[i] == runs[i];
  }

  lemma CoveredLast(runs: seq<Run>, r: Run, p: nat)
    requires r.start <= p < r.start + r.len
    ensures Covered(runs + [r], p)
  {
    assert (runs + [r])[|runs|] == r;
  }

  /** The runs found in the text below b: each maximal, in order, ending by b, and covering its whitespace. */
  ghost predicate RunsUpTo(runs: seq<Run>, s: Text, b: nat)
  {
    b <= |s| &&
    (forall i :: 0 <= i < |runs| ==> IsRun(runs[i], s)) &&
    (forall i :: 0 < i < |runs| ==> runs[i - 1].start + runs[i - 1].len < runs[i].start) &&
    (|runs| > 0 ==> runs[|runs| - 1].start + runs[|runs| - 1].len <= b) &&
    (forall p :: 0 <= p < b && IsSpace(s[p]) ==> Covered(runs, p))
  }

  /** [f, e) is whitespace after a non-whitespace byte or the start. */
  predicate OpenRun(s: Text, f: nat, e: nat)
  {
    f < e <= |s| && (forall p :: f <= p < e ==> IsSpace(s[p])) && (f == 0 || !IsSpace(s[f - 1]))
  }

  /** A non-whitespace byte at b extends what the runs account for. */
  lemma RunsPastText(runs: seq<Run>, s: Text, b: nat)
    requires RunsUpTo(runs, s, b) && b < |s| && !IsSpace(s[b])
    ensures RunsUpTo(runs, s, b + 1)
  {
  }

  /** The runs before an open run end before it starts. */
  lemma LastGap(runs: seq<Run>, s: Text, f: nat)
    requires RunsUpTo(runs, s, f) && f < |s| && IsSpace(s[f])
    ensures |runs| > 0 ==> runs[|runs| - 1].start + runs[|runs| - 1].len < f
  {
    if |runs| > 0 {
      assert IsRun(runs[|runs| - 1], s);
    }
  }

  /** Appending a maximal run after the others keeps the list maximal and in order. */
  lemma RunsAppend(runs: seq<Run>, r: Run, s: Text)
    requires forall i :: 0 <= i < |runs| ==> IsRun(runs[i], s)
    requires forall i :: 0 < i < |runs| ==> runs[i - 1].start + runs[i - 1].len < runs[i].start
    requires IsRun(r, s) && (|runs| > 0 ==> runs[|runs| - 1].start + runs[|runs| - 1].len < r.start)
    ensures forall i :: 0 <= i < |runs + [r]| ==> IsRun((runs + [r])[i], s)
    ensures forall i :: 0 < i < |runs + [r]| ==> (runs + [r])[i - 1].start + (runs + [r])[i - 1].len < (runs + [r])[i].start
  {
  }

  /** Appending run r covers its own positions and keeps the earlier ones covered. */
  lemma CoverAppend(runs: seq<Run>, r: Run, s: Text)
    requires forall p :: 0 <= p < r.start && p < |s| && IsSpace(s[p]) ==> Covered(runs, p)
    ensures forall p :: 0 <= p < r.start + r.len && p < |s| && IsSpace(s[p]) ==> Covered(runs + [r], p)
  {
    forall p | 0 <= p < r.start + r.len && p < |s| && IsSpace(s[p]) ensures Covered(runs + [r], p) {
      if p < r.start {
        CoveredExtend(runs, r, p);
      } else {
        CoveredLast(runs, r, p);
      }
    }
  }

  /** Closing the whitespace run [f, e) appends a maximal run after the others. */
  lemma CloseRun(runs: seq<Run>, s: Text, f: nat, e: nat)
    requires RunsUpTo(runs, s, f) && OpenRun(s, f, e)
    requires e == |s| || !IsSpace(s[e])
    ensures RunsUpTo(runs + [Run(f, e - f)], s, e)
  {
    var r := Run(f, e - f);
    assert IsRun(r, s);
    LastGap(runs, s, f);
    RunsAppend(runs, r, s);
    CoverAppend(runs, r, s);
  }

  /** The space-run loop: a run opens at a whitespace byte after text and closes at the next non-whitespace byte or at the end. */
  method SpaceRuns(s: Text) returns (runs: seq<Run>)
    ensures IsSpaceRuns(runs, s)
  {
    runs := [];
    var inRun := false;
    var firstSpace := 0;
    var pos := 0;
    while pos < |s|
      invariant pos <= |s|
      invariant inRun ==> OpenRun(s, firstSpace, pos)
      invariant !inRun ==> pos == 0 || !IsSpace(s[pos - 1])
      invariant RunsUpTo(runs, s, if inRun then firstSpace else pos)
    {
      if IsSpace(s[pos]) {
        if !inRun {
          firstSpace := pos;
          inRun := true;
        }
      } else {
        if inRun {
          CloseRun(runs, s, firstSpace, pos);
          runs := runs + [Run(firstSpace, pos - firstSpace)];
          inRun := false;
        }
        RunsPastText(runs, s, pos);
      }
      pos := pos + 1;
    }
    if inRun {
      CloseRun(runs, s, firstSpace, pos);
      runs := runs + [Run(firstSpace, pos - firstSpace)];
    }
  }

  // ----- conjunctive search -----

  /** A trigram at a fixed offset from the match position, with its posting list. */
  datatype SearchTerm = SearchTerm(tgram: Trigram, offset: nat, hits: seq<nat>)

  /** Term t matches at p when its trigram occurs at p plus its offset. */
  predicate TermMatch(t: SearchTerm, p: nat)
  {
    p + t.offset in t.hits
  }

  /** All terms match at p. */
  predicate ConjMatch(terms: seq<SearchTerm>, p: nat)
  {
    forall t :: t in terms ==> TermMatch(t, p)
  }

  /** r is the first position at or after from where all terms match, or None when there is none. */
  ghost predicate FirstConj(terms: seq<SearchTerm>, from: nat, r: Option<nat>)
  {
    match r
    case None => forall p :: from <= p ==> !ConjMatch(terms, p)
    case Some(p) => from <= p && ConjMatch(terms, p) && forall q :: from <= q < p ==> !ConjMatch(terms, q)
  }

  predicate PostingsIncreasing(terms: seq<SearchTerm>)
  {
    forall t :: t in terms ==> Increasing(t.hits)
  }

  /** std::lower_bound on a posting list: its first element not below x. */
  function NextHit(xs: seq<nat>, x: nat): (r: Option<nat>)
    requires Increasing(xs)
    ensures r.None? ==> forall y :: y in xs ==> y < x
    ensures r.Some? ==> x <= r.value && r.value in xs && forall y :: y in xs && x <= y ==> r.value <= y
  {
    if |xs| == 0 then None
    else if x <= xs[0] then Some(xs[0])
    else
      assert forall y :: y in xs ==> y == xs[0] || y in xs[1..];
      NextHit(xs[1..], x)
  }

  /** An upper bound on every posting. */
  function MaxHit(terms: seq<SearchTerm>): (b: nat)
    ensures forall t, y :: t in terms && y in t.hits ==> y <= b
  {
    if |terms| == 0 then 0
    else
      var rest := MaxHit(terms[1..]);
      var here := MaxOf(terms[0].hits);
      assert forall t :: t in terms ==> t == terms[0] || t in terms[1..];
      if here < rest then rest else here
  }

  function MaxOf(xs: seq<nat>): (b: nat)
    ensures forall y :: y in xs ==> y <= b
  {
    if |xs| == 0 then 0
    else
      var rest := MaxOf(xs[1..]);
      assert forall y :: y in xs ==> y == xs[0] || y in xs[1..];
      if xs[0] < rest then rest else xs[0]
  }

  /** No term matches anywhere in [from, to) when some term has no posting in the corresponding range. */
  lemma TermGap(terms: seq<SearchTerm>, t: SearchTerm, from: nat, to: nat)
    requires t in terms
    requires forall y :: y in t.hits ==> y < from + t.offset || to + t.offset <= y
    ensures forall q :: from <= q < to ==> !ConjMatch(terms, q)
  {
  }

  /**
   * FindConjunction: walk the terms at the current minimum; a term whose
   * next posting lies beyond it moves the minimum there and, unless it is
   * the first term, restarts the walk. The answer is the first position at
   * or after minPos where every term matches.
   */
  method FindConjunction(terms: seq<SearchTerm>, minPos: nat) returns (r: Option<nat>)
    requires PostingsIncreasing(terms)
    ensures FirstConj(terms, minPos, r)
  {
    ghost var bound := MaxHit(terms);
    var cur := minPos;
    var i := 0;
    while i < |terms|
      invariant i <= |terms| && minPos <= cur
      invariant forall j :: 0 <= j < i ==> TermMatch(terms[j], cur)
      invariant forall q :: minPos <= q < cur ==> !ConjMatch(terms, q)
      decreases if cur <= bound then bound - cur else 0, |terms| - i
    {
      var t := terms[i];
      var thisPos := cur + t.offset;
      var hit := NextHit(t.hits, thisPos);
      if hit.None? {
        TermGap(terms, t, cur, bound + 1);
        assert forall q :: cur <= q ==> !TermMatch(t, q);
        return None;
      }
      var pos := hit.value;
      if pos != thisPos {
        TermGap(terms, t, cur, pos - t.offset);
        cur := pos - t.offset;
        if i != 0 {
          i := 0;
          continue;
        }
      }
      i := i + 1;
    }
    assert forall t :: t in terms ==> exists j :: 0 <= j < |terms| && terms[j] == t;
    return Some(cur);
  }

  // ----- conjunction of disjunctions -----

  /** Some term of the disjunction matches at p. */
  predicate DisjMatch(disj: seq<SearchTerm>, p: nat)
  {
    exists t :: t in disj && TermMatch(t, p)
  }

  /** Every disjunction has a matching term at p. */
  predicate ConjDisjMatch(terms: seq<seq<SearchTerm>>, p: nat)
  {
    forall d :: d in terms ==> DisjMatch(d, p)
  }

  /** r is the first position at or after from where every disjunction matches, or None. */
  ghost predicate FirstConjDisj(terms: seq<seq<SearchTerm>>, from: nat, r: Option<nat>)
  {
    match r
    case None => forall p :: from <= p ==> !ConjDisjMatch(terms, p)
    case Some(p) => from <= p && ConjDisjMatch(terms, p) && forall q :: from <= q < p ==> !ConjDisjMatch(terms, q)
  }

  /** r is the first position at or after from where the disjunction matches, or None. */
  ghost predicate FirstDisj(disj: seq<SearchTerm>, from: nat, r: Option<nat>)
  {
    match r
    case None => forall p :: from <= p ==> !DisjMatch(disj, p)
    case Some(p) => from <= p && DisjMatch(disj, p) && forall q :: from <= q < p ==> !DisjMatch(disj, q)
  }

  predicate DisjPostingsIncreasing(terms: seq<seq<SearchTerm>>)
  {
    forall d :: d in terms ==> PostingsIncreasing(d)
  }

  /** The bound on every posting of every disjunction. */
  function MaxDisjHit(terms: seq<seq<SearchTerm>>): (b: nat)
    ensures forall d, t, y :: d in terms && t in d && y in t.hits ==> y <= b
  {
    if |terms| == 0 then 0
    else
      var rest := MaxDisjHit(terms[1..]);
      var here := MaxHit(terms[0]);
      assert forall d :: d in terms ==> d == terms[0] || d in terms[1..];
      if here < rest then rest else here
  }

  /** The inner loop of FindConjunctionOfDisjunctions: the least next match over the disjunction's terms. */
  method BestPos(disj: seq<SearchTerm>, minPos: nat) returns (best: Option<nat>)
    requires PostingsIncreasing(disj)
    ensures FirstDisj(disj, minPos, best)
    ensures best.Some? ==> best.value <= MaxHit(disj)
  {
    best := None;
    for j := 0 to |disj|
      invariant BestAmong(disj, minPos, j, best)
    {
      ghost var prev := best;
      var t := disj[j];
      var hit := NextHit(t.hits, minPos + t.offset);
      if hit.Some? {
        var cand := hit.value - t.offset;
        if best.None? || cand < best.value {
          best := Some(cand);
        }
      }
      BestStep(disj, minPos, j, prev, best);
    }
    BestAll(disj, minPos, best);
  }

  /** BestPos's loop invariant: best is the first match at or after minPos of the terms before j. */
  ghost predicate BestAmong(disj: seq<SearchTerm>, minPos: nat, j: nat, best: Option<nat>)
    requires j <= |disj|
  {
    (best.None? ==> forall k, q :: 0 <= k < j && minPos <= q ==> !TermMatch(disj[k], q)) &&
    (best.Some? ==>
      minPos <= best.value <= MaxHit(disj) && DisjMatch(disj, best.value) &&
      forall k, q :: 0 <= k < j && minPos <= q < best.value ==> !TermMatch(disj[k], q))
  }

  /** The first match at or after minPos of term t, kept when it comes before best. */
  function Earlier(best: Option<nat>, t: SearchTerm, minPos: nat): Option<nat>
    requires Increasing(t.hits)
  {
    var hit := NextHit(t.hits, minPos + t.offset);
    if hit.Some? && (best.None? || hit.value - t.offset < best.value) then Some(hit.value - t.offset)
    else best
  }

  /** One round of BestPos's loop keeps its invariant. */
  lemma BestStep(disj: seq<SearchTerm>, minPos: nat, j: nat, prev: Option<nat>, best: Option<nat>)
    requires PostingsIncreasing(disj) && j < |disj|
    requires BestAmong(disj, minPos, j, prev)
    requires best == Earlier(prev, disj[j], minPos)
    ensures BestAmong(disj, minPos, j + 1, best)
  {
    var t := disj[j];
    assert t in disj;
    var hit := NextHit(t.hits, minPos + t.offset);
    if hit.Some? {
      assert TermMatch(t, hit.value - t.offset);
    }
  }

  /** After the last term, the invariant is the first match of the whole disjunction. */
  lemma BestAll(disj: seq<SearchTerm>, minPos: nat, best: Option<nat>)
    requires BestAmong(disj, minPos, |disj|, best)
    ensures FirstDisj(disj, minPos, best)
    ensures best.Some? ==> best.value <= MaxHit(disj)
  {
    assert forall t :: t in disj ==> exists k :: 0 <= k < |disj| && disj[k] == t;
  }

  /** A disjunction with no match in [from, to) leaves no match of the conjunction there. */
  lemma DisjGap(terms: seq<seq<SearchTerm>>, i: nat, from: nat, to: nat)
    requires i < |terms| && forall q :: from <= q < to ==> !DisjMatch(terms[i], q)
    ensures forall q :: from <= q < to ==> !ConjDisjMatch(terms, q)
  {
    assert terms[i] in terms;
  }

  /** Above every posting nothing matches. */
  lemma DisjNoneAbove(terms: seq<seq<SearchTerm>>, i: nat, from: nat)
    requires i < |terms| && MaxDisjHit(terms) < from
    ensures forall q :: from <= q ==> !ConjDisjMatch(terms, q)
  {
    assert terms[i] in terms;
    forall q | from <= q ensures !DisjMatch(terms[i], q) {
      forall t | t in terms[i] ensures !TermMatch(t, q) {
        assert terms[i] in terms;
        assert MaxDisjHit(terms) < q + t.offset;
      }
    }
  }

  /**
   * FindConjunctionOfDisjunctions: like FindConjunction, with each step
   * moving the minimum to the least next match over a disjunction's terms.
   * The answer is the first position at or after minPos where every
   * disjunction matches.
   */
  method FindConjunctionOfDisjunctions(terms: seq<seq<SearchTerm>>, minPos: nat) returns (r: Option<nat>)
    requires DisjPostingsIncreasing(terms)
    ensures FirstConjDisj(terms, minPos, r)
  {
    ghost var bound := MaxDisjHit(terms);
    var cur := minPos;
    var i := 0;
    while i < |terms|
      invariant i <= |terms| && minPos <= cur
      invariant forall j :: 0 <= j < i ==> DisjMatch(terms[j], cur)
      invariant forall q :: minPos <= q < cur ==> !ConjDisjMatch(terms, q)
      decreases if cur <= bound then bound - cur else 0, |terms| - i
    {
      var best := BestPos(terms[i], cur);
      if best == Some(cur) {
        i := i + 1;
        continue;
      }
      if best.None? {
        DisjGap(terms, i, cur, MaxDisjHit(terms) + 1);
        DisjNoneAbove(terms, i, MaxDisjHit(terms) + 1);
        return None;
      }
      DisjGap(terms, i, cur, best.value);
      cur := best.value;
      if i != 0 {
        i := 0;
        continue;
      }
      i := i + 1;
    }
    assert forall d :: d in terms ==> exists j :: 0 <= j < |terms| && terms[j] == d;
    return Some(cur);
  }

  // ----- sorting search terms -----

  /** xs is ordered by nondecreasing key. */
  predicate SortedBy<T>(xs: seq<T>, key: T -> nat)
  {
    forall i, j :: 0 <= i < j < |xs| ==> key(xs[i]) <= key(xs[j])
  }

  function InsertBy<T>(x: T, xs: seq<T>, key: T -> nat): (r: seq<T>)
    ensures multiset(r) == multiset(xs) + multiset{x}
    ensures |r| == |xs| + 1 && (r[0] == x || (|xs| > 0 && r[0] == xs[0]))
  {
    if |xs| == 0 || key(x) <= key(xs[0]) then
      [x] + xs
    else
      assert xs == [xs[0]] + xs[1..];
      [xs[0]] + InsertBy(x, xs[1..], key)
  }

  /** Inserting into a sorted sequence keeps it sorted. */
  lemma {:induction false} InsertBySorted<T>(x: T, xs: seq<T>, key: T -> nat)
    requires SortedBy(xs, key)
    ensures SortedBy(InsertBy(x, xs, key), key)
  {
    if |xs| == 0 || key(x) <= key(xs[0]) {
    } else {
      var rest := InsertBy(x, xs[1..], key);
      InsertBySorted(x, xs[1..], key);
      assert key(xs[0]) <= key(rest[0]);
      var r := [xs[0]] + rest;
      forall i, j | 0 <= i < j < |r| ensures key(r[i]) <= key(r[j]) {
        if i > 0 {
          assert r[i] == rest[i - 1] && r[j] == rest[j - 1];
        } else {
          assert r[j] == rest[j - 1];
        }
      }
    }
  }

  /** The order std::sort leaves terms in: a permutation, nondecreasing by key. */
  function SortBy<T>(xs: seq<T>, key: T -> nat): (r: seq<T>)
    ensures multiset(r) == multiset(xs)
    ensures SortedBy(r, key)
  {
    if |xs| == 0 then []
    else
      assert xs == [xs[0]] + xs[1..];
      var rest := SortBy(xs[1..], key);
      InsertBySorted(xs[0], rest, key);
      InsertBy(xs[0], rest, key)
  }

  /** How selective a term is: the length of its posting list. */
  function HitCount(t: SearchTerm): nat
  {
    |t.hits|
  }

  // ----- PrepareSubstringSearch -----

  /** The offsets the query's trigrams are taken at, from i on: i, i + 3, ..., the last one moved back to n - 3. */
  function OffsetsFrom(n: nat, i: nat): (os: seq<nat>)
    requires n == 0 || 3 <= n
    ensures forall j :: 0 <= j < |os| ==> os[j] + 3 <= n
    decreases n - i
  {
    if i >= n then [] else [if i + 3 <= n then i else n - 3] + OffsetsFrom(n, i + 3)
  }

  /** Every byte of the query at or after i lies in a trigram taken at one of the offsets. */
  lemma {:induction false} CoveringOffset(n: nat, i: nat, k: nat) returns (j: nat)
    requires 3 <= n && i <= k < n
    ensures j < |OffsetsFrom(n, i)| && OffsetsFrom(n, i)[j] <= k < OffsetsFrom(n, i)[j] + 3
    decreases n - i
  {
    var os := OffsetsFrom(n, i);
    if k < i + 3 {
      j := 0;
    } else {
      var j' := CoveringOffset(n, i + 3, k);
      assert os[1..] == OffsetsFrom(n, i + 3);
      j := j' + 1;
    }
  }

  /** The term for the query's trigram at offset o. */
  function TermAt(str: Text, idx: Index, o: nat): SearchTerm
    requires o + 3 <= |str| && FromStringAt(str, o) in idx
  {
    SearchTerm(FromStringAt(str, o), o, idx[FromStringAt(str, o)])
  }

  /** The terms for the query's trigrams at the offsets os, or None when one of those trigrams is not indexed. */
  function TermsAt(str: Text, idx: Index, os: seq<nat>): (r: Option<seq<SearchTerm>>)
    requires forall j :: 0 <= j < |os| ==> os[j] + 3 <= |str|
    ensures r.None? <==> exists j :: 0 <= j < |os| && FromStringAt(str, os[j]) !in idx
    ensures r.Some? ==>
      |r.value| == |os| &&
      forall j :: 0 <= j < |os| ==> FromStringAt(str, os[j]) in idx && r.value[j] == TermAt(str, idx, os[j])
  {
    if |os| == 0 then Some([])
    else if FromStringAt(str, os[0]) !in idx then None
    else
      var rest := TermsAt(str, idx, os[1..]);
      assert forall j :: 0 < j < |os| ==> os[j] == os[1..][j - 1];
      if rest.None? then None else Some([TermAt(str, idx, os[0])] + rest.value)
  }

  /** head followed by the elements of r, if r has any. */
  function Prepend<T>(head: seq<T>, r: Option<seq<T>>): Option<seq<T>>
  {
    if r.None? then None else Some(head + r.value)
  }

  /** Prepending nothing leaves the terms as they are. */
  lemma PrependNothing<T>(r: Option<seq<T>>)
    ensures Prepend([], r) == r
  {
    if r.Some? {
      assert [] + r.value == r.value;
    }
  }

  /** Prepending twice is prepending the concatenation. */
  lemma PrependTwice<T>(a: seq<T>, b: seq<T>, r: Option<seq<T>>)
    ensures Prepend(a, Prepend(b, r)) == Prepend(a + b, r)
  {
    if r.Some? {
      assert a + (b + r.value) == (a + b) + r.value;
    }
  }

  /** One step of the offsets: the term at the next offset goes in front of the rest, unless its trigram is missing. */
  lemma TermsAtStep(str: Text, idx: Index, i: nat)
    requires 3 <= |str| && i < |str|
    ensures var pos := if |str| - 3 < i then |str| - 3 else i;
      OffsetsFrom(|str|, i) == [pos] + OffsetsFrom(|str|, i + 3) &&
      TermsAt(str, idx, OffsetsFrom(|str|, i)) ==
        if FromStringAt(str, pos) !in idx then None
        else Prepend([TermAt(str, idx, pos)], TermsAt(str, idx, OffsetsFrom(|str|, i + 3)))
  {
    var os := OffsetsFrom(|str|, i);
    assert os[1..] == OffsetsFrom(|str|, i + 3);
  }

  /**
   * PrepareSubstringSearch: one term per trigram of the query at offsets
   * 0, 3, 6, ..., the last moved back to end the query; EmptyAdvance (None)
   * as soon as a trigram is not indexed; the terms then go smallest posting
   * list first.
   */
  method PrepareSubstringSearch(str: Text, idx: Index) returns (r: Option<seq<SearchTerm>>)
    requires |str| == 0 || 3 <= |str|
    ensures r.None? <==> TermsAt(str, idx, OffsetsFrom(|str|, 0)).None?
    ensures r.Some? ==>
      multiset(r.value) == multiset(TermsAt(str, idx, OffsetsFrom(|str|, 0)).value) && SortedBy(r.value, HitCount)
  {
    var terms := [];
    var sz := |str|;
    var i := 0;
    PrependNothing(TermsAt(str, idx, OffsetsFrom(sz, 0)));
    while i < sz
      invariant TermsAt(str, idx, OffsetsFrom(sz, 0)) == Prepend(terms, TermsAt(str, idx, OffsetsFrom(sz, i)))
      decreases sz - i
    {
      var pos := if sz - 3 < i then sz - 3 else i;
      TermsAtStep(str, idx, i);
      var t := FromStringAt(str, pos);
      if t !in idx {
        return None;
      }
      PrependTwice(terms, [TermAt(str, idx, pos)], TermsAt(str, idx, OffsetsFrom(sz, i + 3)));
      terms := terms + [SearchTerm(t, pos, idx[t])];
      i := i + 3;
    }
    assert terms + [] == terms;
    return Some(SortBy(terms, HitCount));
  }

  /** The query occurs at p in the text as indexed, i.e. with tabs and newlines read as spaces. */
  ghost predicate OccursAt(str: Text, s: Text, p: nat)
  {
    p + |str| <= |s| && Spaced(s)[p..p + |str|] == str
  }

  /** p is the first occurrence at or after from, or there is none and r is None. */
  ghost predicate FirstOccurrence(str: Text, s: Text, from: nat, r: Option<nat>)
  {
    match r
    case None => forall p :: from <= p ==> !OccursAt(str, s, p)
    case Some(p) => from <= p && OccursAt(str, s, p) && forall q :: from <= q < p ==> !OccursAt(str, s, q)
  }

  /** The spacified text agrees with str on the len bytes from q and o. */
  ghost predicate AgreeAt(s: Text, q: nat, str: Text, o: nat, len: nat)
    requires q + len <= |s| && o + len <= |str|
  {
    forall k :: o <= k < o + len ==> Spaced(s)[q + k - o] == str[k]
  }

  /** A posting of the query's trigram at o is exactly a place where the text agrees with those three bytes. */
  lemma TermHit(str: Text, s: Text, idx: Index, o: nat, q: nat)
    requires IsIndexOf(idx, s) && o + 3 <= |str|
    ensures (FromStringAt(str, o) in idx && q in idx[FromStringAt(str, o)]) <==>
      (q + 3 <= |s| && AgreeAt(s, q, str, o, 3))
  {
    var g := FromStringAt(str, o);
    if q + 3 <= |s| {
      var h := Spacify(FromStringAt(s, q));
      assert h == Trigram(Spaced(s)[q], Spaced(s)[q + 1], Spaced(s)[q + 2]);
      assert g == Trigram(str[o], str[o + 1], str[o + 2]);
      assert AgreeAt(s, q, str, o, 3) <==>
        Spaced(s)[q] == str[o] && Spaced(s)[q + 1] == str[o + 1] && Spaced(s)[q + 2] == str[o + 2];
    }
  }

  /** The query occurs at p exactly when the text agrees with it byte by byte. */
  lemma OccursAtBytes(str: Text, s: Text, p: nat)
    ensures OccursAt(str, s, p) <==> p + |str| <= |s| && AgreeAt(s, p, str, 0, |str|)
  {
    if p + |str| <= |s| {
      var w := Spaced(s)[p..p + |str|];
      assert forall k :: 0 <= k < |str| ==> w[k] == Spaced(s)[p + k];
    }
  }

  /** Agreeing with the whole query means agreeing with each of its trigrams. */
  lemma AgreeWithin(str: Text, s: Text, p: nat, o: nat)
    requires o + 3 <= |str|
    ensures (p + |str| <= |s| && AgreeAt(s, p, str, 0, |str|)) ==>
      p + o + 3 <= |s| && AgreeAt(s, p + o, str, o, 3)
  {
    if p + |str| <= |s| && AgreeAt(s, p, str, 0, |str|) {
      forall k | o <= k < o + 3 ensures Spaced(s)[p + o + k - o] == str[k] {
        assert Spaced(s)[p + k - 0] == str[k];
      }
    }
  }

  /** a and b hold the same elements. */
  ghost predicate SameMembers<T(!new)>(a: seq<T>, b: seq<T>)
  {
    forall t :: t in a <==> t in b
  }

  /** Permutations hold the same elements. */
  lemma PermutationSameMembers<T(!new)>(a: seq<T>, b: seq<T>)
    requires multiset(a) == multiset(b)
    ensures SameMembers(a, b)
  {
    forall t ensures t in a <==> t in b {
      assert t in a <==> t in multiset(a);
    }
  }

  /** A prepared term is the term for one of the offsets. */
  lemma PreparedMember(str: Text, idx: Index, ts: seq<SearchTerm>, terms: seq<SearchTerm>, t: SearchTerm) returns (j: nat)
    requires 3 <= |str| && TermsAt(str, idx, OffsetsFrom(|str|, 0)) == Some(ts) && SameMembers(terms, ts)
    requires t in terms
    ensures j < |OffsetsFrom(|str|, 0)|
    ensures var o := OffsetsFrom(|str|, 0)[j]; FromStringAt(str, o) in idx && t == TermAt(str, idx, o)
  {
    j :| 0 <= j < |ts| && ts[j] == t;
  }

  /** When all prepared terms match at p, the trigram at each offset has a posting at p plus the offset. */
  lemma PreparedMatch(str: Text, idx: Index, ts: seq<SearchTerm>, terms: seq<SearchTerm>, p: nat, j: nat)
    requires 3 <= |str| && TermsAt(str, idx, OffsetsFrom(|str|, 0)) == Some(ts) && SameMembers(terms, ts)
    requires ConjMatch(terms, p) && j < |OffsetsFrom(|str|, 0)|
    ensures var o := OffsetsFrom(|str|, 0)[j];
      FromStringAt(str, o) in idx && p + o in idx[FromStringAt(str, o)]
  {
    TermsAtHit(str, idx, OffsetsFrom(|str|, 0), ts, terms, p, j);
  }

  /** The same for any offsets: the term taken at offset j matches at p, so its trigram has a posting at p plus the offset. */
  lemma TermsAtHit(str: Text, idx: Index, os: seq<nat>, ts: seq<SearchTerm>, terms: seq<SearchTerm>, p: nat, j: nat)
    requires forall i :: 0 <= i < |os| ==> os[i] + 3 <= |str|
    requires TermsAt(str, idx, os) == Some(ts) && SameMembers(terms, ts)
    requires ConjMatch(terms, p) && j < |os|
    ensures FromStringAt(str, os[j]) in idx && p + os[j] in idx[FromStringAt(str, os[j])]
  {
    assert ts[j] == TermAt(str, idx, os[j]);
    assert ts[j] in terms;
    assert TermMatch(ts[j], p);
  }

  /** A posting of the query's trigram at o makes the text agree with those three bytes. */
  lemma HitAgrees(str: Text, s: Text, idx: Index, o: nat, q: nat)
    requires IsIndexOf(idx, s) && o + 3 <= |str|
    requires FromStringAt(str, o) in idx && q in idx[FromStringAt(str, o)]
    ensures q + 3 <= |s| && AgreeAt(s, q, str, o, 3)
  {
    TermHit(str, s, idx, o, q);
  }

  /** One byte of an agreement of three. */
  lemma AgreeByte(s: Text, p: nat, str: Text, o: nat, k: nat)
    requires p + o + 3 <= |s| && o + 3 <= |str| && AgreeAt(s, p + o, str, o, 3) && o <= k < o + 3
    ensures p + k < |s| && Spaced(s)[p + k] == str[k]
  {
  }

  /** When all prepared terms match at p, some offset o covering byte k has a posting at p + o. */
  lemma CoveringHit(str: Text, idx: Index, ts: seq<SearchTerm>, terms: seq<SearchTerm>, p: nat, k: nat) returns (o: nat)
    requires 3 <= |str| && k < |str|
    requires TermsAt(str, idx, OffsetsFrom(|str|, 0)) == Some(ts) && SameMembers(terms, ts)
    requires ConjMatch(terms, p)
    ensures o <= k < o + 3 && o + 3 <= |str|
    ensures FromStringAt(str, o) in idx && p + o in idx[FromStringAt(str, o)]
  {
    var os := OffsetsFrom(|str|, 0);
    var j := CoveringOffset(|str|, 0, k);
    PreparedMatch(str, idx, ts, terms, p, j);
    o := os[j];
  }

  /** A posting at p + o of the query's trigram at o makes the text agree with the query's byte k at p + k. */
  lemma HitByte(str: Text, s: Text, idx: Index, o: nat, p: nat, k: nat)
    requires IsIndexOf(idx, s) && o <= k < o + 3 && o + 3 <= |str|
    requires FromStringAt(str, o) in idx && p + o in idx[FromStringAt(str, o)]
    ensures p + k < |s| && Spaced(s)[p + k] == str[k]
  {
    HitAgrees(str, s, idx, o, p + o);
    AgreeByte(s, p, str, o, k);
  }

  /** All prepared terms matching at p means the query occurs at p. */
  lemma TermsMatchOccurs(str: Text, s: Text, idx: Index, ts: seq<SearchTerm>, terms: seq<SearchTerm>, p: nat)
    requires IsIndexOf(idx, s) && 3 <= |str|
    requires TermsAt(str, idx, OffsetsFrom(|str|, 0)) == Some(ts) && SameMembers(terms, ts)
    requires ConjMatch(terms, p)
    ensures OccursAt(str, s, p)
  {
    var last := CoveringHit(str, idx, ts, terms, p, |str| - 1);
    HitByte(str, s, idx, last, p, |str| - 1);
    forall k | 0 <= k < |str| ensures Spaced(s)[p + k] == str[k] {
      var o := CoveringHit(str, idx, ts, terms, p, k);
      HitByte(str, s, idx, o, p, k);
    }
    assert AgreeAt(s, p, str, 0, |str|);
    OccursAtBytes(str, s, p);
  }

  /** The query occurring at p means every prepared term matches at p. */
  lemma OccursTermsMatch(str: Text, s: Text, idx: Index, ts: seq<SearchTerm>, terms: seq<SearchTerm>, p: nat)
    requires IsIndexOf(idx, s) && 3 <= |str|
    requires TermsAt(str, idx, OffsetsFrom(|str|, 0)) == Some(ts) && SameMembers(terms, ts)
    requires OccursAt(str, s, p)
    ensures ConjMatch(terms, p)
  {
    forall t | t in terms ensures TermMatch(t, p) {
      var j := PreparedMember(str, idx, ts, terms, t);
      OccursTermAt(str, s, idx, OffsetsFrom(|str|, 0)[j], p);
    }
  }

  /** The query occurring at p makes the term for its indexed trigram at o match at p. */
  lemma OccursTermAt(str: Text, s: Text, idx: Index, o: nat, p: nat)
    requires IsIndexOf(idx, s) && o + 3 <= |str| && FromStringAt(str, o) in idx
    requires OccursAt(str, s, p)
    ensures TermMatch(TermAt(str, idx, o), p)
  {
    OccursAtBytes(str, s, p);
    AgreeWithin(str, s, p, o);
    TermHit(str, s, idx, o, p + o);
  }

  /** All prepared terms match at p exactly when the query occurs at p. */
  lemma SubstringTermsExact(str: Text, s: Text, idx: Index, ts: seq<SearchTerm>, terms: seq<SearchTerm>, p: nat)
    requires IsIndexOf(idx, s) && 3 <= |str|
    requires TermsAt(str, idx, OffsetsFrom(|str|, 0)) == Some(ts) && SameMembers(terms, ts)
    ensures ConjMatch(terms, p) <==> OccursAt(str, s, p)
  {
    if ConjMatch(terms, p) {
      TermsMatchOccurs(str, s, idx, ts, terms, p);
    }
    if OccursAt(str, s, p) {
      OccursTermsMatch(str, s, idx, ts, terms, p);
    }
  }

  /** A query trigram missing from the index means the query occurs nowhere. */
  lemma AbsentTrigram(str: Text, s: Text, idx: Index, o: nat, p: nat)
    requires IsIndexOf(idx, s) && o + 3 <= |str| && FromStringAt(str, o) !in idx
    ensures !OccursAt(str, s, p)
  {
    OccursAtBytes(str, s, p);
    TermHit(str, s, idx, o, p + o);
    AgreeWithin(str, s, p, o);
  }

  /** The postings of an index are increasing, so the prepared terms can be searched. */
  lemma TermsIncreasing(str: Text, s: Text, idx: Index, ts: seq<SearchTerm>, terms: seq<SearchTerm>)
    requires IsIndexOf(idx, s) && 3 <= |str|
    requires TermsAt(str, idx, OffsetsFrom(|str|, 0)) == Some(ts) && SameMembers(terms, ts)
    ensures PostingsIncreasing(terms)
  {
    forall t | t in terms ensures Increasing(t.hits) {
      var j := PreparedMember(str, idx, ts, terms, t);
    }
  }

  /**
   * The advance function PrepareSubstringSearch builds, applied to from:
   * EmptyAdvance answers None, otherwise FindConjunction over the terms.
   * The answer is the first occurrence of the query at or after from.
   */
  method SubstringSearch(s: Text, idx: Index, str: Text, from: nat) returns (r: Option<nat>)
    requires IsIndexOf(idx, s) && 3 <= |str|
    ensures FirstOccurrence(str, s, from, r)
  {
    var prepared := PrepareSubstringSearch(str, idx);
    if prepared.None? {
      var os := OffsetsFrom(|str|, 0);
      var j :| 0 <= j < |os| && FromStringAt(str, os[j]) !in idx;
      forall p | from <= p ensures !OccursAt(str, s, p) {
        AbsentTrigram(str, s, idx, os[j], p);
      }
      return None;
    }
    var ts := TermsAt(str, idx, OffsetsFrom(|str|, 0)).value;
    PermutationSameMembers(prepared.value, ts);
    TermsIncreasing(str, s, idx, ts, prepared.value);
    r := FindConjunction(prepared.value, from);
    forall p: nat ensures ConjMatch(prepared.value, p) <==> OccursAt(str, s, p) {
      SubstringTermsExact(str, s, idx, ts, prepared.value, p);
    }
  }
}
