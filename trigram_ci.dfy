// Case-insensitive substring search over the trigram index.
//
// Each trigram of the query is replaced by the disjunction of all its
// ASCII upper/lower-case forms that occur in the index; the query then
// matches wherever every disjunction has a matching term, which is
// exactly where the text agrees with the query up to ASCII case.

module TrigramCaseInsensitive {
  import opened Keys
  import opened TrigramIndex

  predicate IsUpper(c: Byte)
  {
    65 <= c <= 90
  }

  predicate IsLower(c: Byte)
  {
    97 <= c <= 122
  }

  /** ASCII lower-casing: 'A'..'Z' gain bit 0x20, every other byte is kept. */
  function ToLower(c: Byte): (r: Byte)
    ensures IsUpper(c) ==> IsLower(r) && r - 32 == c
    ensures !IsUpper(c) ==> r == c
  {
    if IsUpper(c) then c | 0x20 else c
  }

  predicate IsLetter(c: Byte)
  {
    IsUpper(c) || IsLower(c)
  }

  /** The other case of an ASCII letter: upper case gains bit 0x20, lower case loses it. */
  function Flip(c: Byte): (r: Byte)
    ensures IsUpper(c) ==> r == c | 0x20
    ensures IsLower(c) ==> r == c & 0xDF
    ensures IsLetter(c) ==> IsLetter(r) && r != c && ToLower(r) == ToLower(c)
  {
    if IsUpper(c) then c | 0x20 else c & 0xDF
  }

  /** Two bytes agree up to case exactly when one is the other or, for a letter, its other case. */
  lemma SameLetter(x: Byte, ch: Byte)
    ensures ToLower(x) == ToLower(ch) <==> x == ch || (IsLetter(ch) && x == Flip(ch))
  {
  }

  /** Byte b of a trigram (Trigram::data[b]). */
  function At(g: Trigram, b: nat): Byte
    requires b < 3
  {
    if b == 0 then g.c0 else if b == 1 then g.c1 else g.c2
  }

  /** g with byte b replaced by v. */
  function With(g: Trigram, b: nat, v: Byte): Trigram
    requires b < 3
  {
    if b == 0 then Trigram(v, g.c1, g.c2)
    else if b == 1 then Trigram(g.c0, v, g.c2)
    else Trigram(g.c0, g.c1, v)
  }

  /** With changes byte b to v and keeps the other two. */
  lemma WithAt(g: Trigram, b: nat, v: Byte)
    requires b < 3
    ensures At(With(g, b, v), b) == v
    ensures forall b' :: 0 <= b' < 3 && b' != b ==> At(With(g, b, v), b') == At(g, b')
  {
  }

  /** Trigrams with the same three bytes are equal. */
  lemma SameBytes(g: Trigram, h: Trigram)
    requires forall b :: 0 <= b < 3 ==> At(g, b) == At(h, b)
    ensures g == h
  {
    assert At(g, 0) == At(h, 0) && At(g, 1) == At(h, 1) && At(g, 2) == At(h, 2);
  }

  /**
   * The terms Adder::Rec(depth) appends for trigram t: at depth 3 the
   * term for t if t is indexed; below, first the forms keeping byte depth,
   * then, when that byte is a letter, the forms with its case flipped.
   * Each depth is written out so that the flipped trigram is a plain
   * constructor term.
   */
  function Collected(idx: Index, o: nat, t: Trigram, depth: nat): seq<SearchTerm>
    requires depth <= 3
    decreases 3 - depth
  {
    if depth == 3 then
      if t in idx then [SearchTerm(t, o, idx[t])] else []
    else if depth == 2 then
      Collected(idx, o, t, 3) + if IsLetter(t.c2) then Collected(idx, o, Trigram(t.c0, t.c1, Flip(t.c2)), 3) else []
    else if depth == 1 then
      Collected(idx, o, t, 2) + if IsLetter(t.c1) then Collected(idx, o, Trigram(t.c0, Flip(t.c1), t.c2), 2) else []
    else
      Collected(idx, o, t, 1) + if IsLetter(t.c0) then Collected(idx, o, Trigram(Flip(t.c0), t.c1, t.c2), 1) else []
  }

  /** t with byte depth flipped to its other case. */
  function Flipped(t: Trigram, depth: nat): (r: Trigram)
    requires depth < 3
  {
    if depth == 0 then Trigram(Flip(t.c0), t.c1, t.c2)
    else if depth == 1 then Trigram(t.c0, Flip(t.c1), t.c2)
    else Trigram(t.c0, t.c1, Flip(t.c2))
  }

  /** One level of Collected: the forms keeping byte depth, then those with it flipped. */
  lemma CollectedStep(idx: Index, o: nat, t: Trigram, depth: nat)
    requires depth < 3
    ensures Collected(idx, o, t, depth) ==
      Collected(idx, o, t, depth + 1) + if IsLetter(At(t, depth)) then Collected(idx, o, Flipped(t, depth), depth + 1) else []
  {
  }

  /** g keeps t's bytes before depth and agrees with t up to case from depth on. */
  predicate SameCaseFrom(g: Trigram, t: Trigram, depth: nat)
  {
    forall b :: 0 <= b < 3 ==> if b < depth then At(g, b) == At(t, b) else ToLower(At(g, b)) == ToLower(At(t, b))
  }

  /** The term the index holds for g at offset o. */
  predicate IndexTerm(idx: Index, o: nat, u: SearchTerm)
  {
    u.tgram in idx && u == SearchTerm(u.tgram, o, idx[u.tgram])
  }

  /**
   * The terms collected from depth on are exactly the indexed trigrams
   * that keep t's bytes before depth and agree with t up to case after it.
   */
  lemma {:induction false} CollectedExact(idx: Index, o: nat, t: Trigram, depth: nat, u: SearchTerm)
    requires depth <= 3
    ensures u in Collected(idx, o, t, depth) <==> IndexTerm(idx, o, u) && SameCaseFrom(u.tgram, t, depth)
    decreases 3 - depth
  {
    var g := u.tgram;
    if depth == 3 {
      if SameCaseFrom(g, t, depth) {
        SameBytes(g, t);
      }
    } else {
      CollectedStep(idx, o, t, depth);
      CollectedExact(idx, o, t, depth + 1, u);
      if IsLetter(At(t, depth)) {
        CollectedExact(idx, o, Flipped(t, depth), depth + 1, u);
      }
      SameCaseSplit(g, t, depth);
    }
  }

  /**
   * Agreeing up to case from depth on means agreeing from depth + 1 on
   * and either keeping byte depth or, for a letter, flipping it.
   */
  lemma SameCaseSplit(g: Trigram, t: Trigram, depth: nat)
    requires depth < 3
    ensures SameCaseFrom(g, t, depth) <==>
      SameCaseFrom(g, t, depth + 1) || (IsLetter(At(t, depth)) && SameCaseFrom(g, Flipped(t, depth), depth + 1))
  {
    var ch := At(t, depth);
    SameLetter(At(g, depth), ch);
    var t' := Flipped(t, depth);
    assert At(t', depth) == Flip(ch);
    assert forall b :: 0 <= b < 3 && b != depth ==> At(t', b) == At(t, b);
    if IsLetter(ch) {
      SameLetter(Flip(ch), ch);
    }
  }

  /**
   * Adder: the recursive generator of the case forms of one query
   * trigram. t is the trigram being varied in place, disj the terms found
   * so far, all at the trigram's offset in the query.
   */
  class Adder {
    const idx: Index
    const offset: nat
    var t: Trigram
    var disj: seq<SearchTerm>

    constructor (idx: Index, offset: nat)
      ensures this.idx == idx && this.offset == offset && disj == []
    {
      this.idx := idx;
      this.offset := offset;
      t := Trigram(0, 0, 0);
      disj := [];
    }

    /** Appends the forms of t from byte depth on, leaving t as it found it. */
    method Rec(depth: nat)
      requires depth <= 3
      modifies this
      ensures t == old(t)
      ensures disj == old(disj) + Collected(idx, offset, old(t), depth)
      decreases 3 - depth
    {
      if depth == 3 {
        if t !in idx {
          return;
        }
        disj := disj + [SearchTerm(t, offset, idx[t])];
        return;
      }
      var t0 := t;
      ghost var d0 := disj;
      Rec(depth + 1);
      ghost var kept := Collected(idx, offset, t0, depth + 1);
      assert disj == d0 + kept;
      var ch := At(t, depth);
      CollectedStep(idx, offset, t0, depth);
      if IsUpper(ch) || IsLower(ch) {
        var flipped := if IsUpper(ch) then ch | 0x20 else ch & 0xDF;
        WithAt(t, depth, flipped);
        t := With(t, depth, flipped);
        assert t == Flipped(t0, depth);
        ghost var other := Collected(idx, offset, t, depth + 1);
        ghost var d1 := disj;
        Rec(depth + 1);
        assert disj == d1 + other;
        WithAt(t, depth, ch);
        t := With(t, depth, ch);
        SameBytes(t, t0);
        assert Collected(idx, offset, t0, depth) == kept + other;
        ConcatAssoc(d0, kept, other);
      } else {
        assert Collected(idx, offset, t0, depth) == kept + [];
      }
    }
  }

  lemma ConcatAssoc(a: seq<SearchTerm>, b: seq<SearchTerm>, c: seq<SearchTerm>)
    ensures (a + b) + c == a + (b + c)
  {
  }

  /** The disjunction for the query's trigram at offset o. */
  function DisjAt(str: Text, idx: Index, o: nat): seq<SearchTerm>
    requires o + 3 <= |str|
  {
    Collected(idx, o, FromStringAt(str, o), 0)
  }

  /** The disjunctions for the offsets os, or None when one of them is empty. */
  function DisjsAt(str: Text, idx: Index, os: seq<nat>): (r: Option<seq<seq<SearchTerm>>>)
    requires forall j :: 0 <= j < |os| ==> os[j] + 3 <= |str|
    ensures r.None? <==> exists j :: 0 <= j < |os| && DisjAt(str, idx, os[j]) == []
    ensures r.Some? ==> |r.value| == |os| && forall j :: 0 <= j < |os| ==> r.value[j] == DisjAt(str, idx, os[j])
  {
    if |os| == 0 then Some([])
    else if DisjAt(str, idx, os[0]) == [] then None
    else
      var rest := DisjsAt(str, idx, os[1..]);
      if rest.None? then
        MissingLater(str, idx, os);
        None
      else
        var ds := [DisjAt(str, idx, os[0])] + rest.value;
        ListedAll(str, idx, os, ds);
        Some(ds)
  }

  /** An offset after the first with an empty disjunction is an offset of os with one. */
  lemma MissingLater(str: Text, idx: Index, os: seq<nat>)
    requires |os| > 0 && forall j :: 0 <= j < |os| ==> os[j] + 3 <= |str|
    requires exists j :: 0 <= j < |os[1..]| && DisjAt(str, idx, os[1..][j]) == []
    ensures exists j :: 0 <= j < |os| && DisjAt(str, idx, os[j]) == []
  {
    var j :| 0 <= j < |os[1..]| && DisjAt(str, idx, os[1..][j]) == [];
    assert os[1..][j] == os[j + 1];
  }

  /** The first offset's disjunction followed by those of the rest: one per offset, none empty. */
  lemma ListedAll(str: Text, idx: Index, os: seq<nat>, ds: seq<seq<SearchTerm>>)
    requires |os| > 0 && forall j :: 0 <= j < |os| ==> os[j] + 3 <= |str|
    requires DisjAt(str, idx, os[0]) != [] && |ds| == |os| && ds[0] == DisjAt(str, idx, os[0])
    requires forall j :: 0 <= j < |os[1..]| ==> ds[1..][j] == DisjAt(str, idx, os[1..][j])
    requires !exists j :: 0 <= j < |os[1..]| && DisjAt(str, idx, os[1..][j]) == []
    ensures forall j :: 0 <= j < |os| ==> ds[j] == DisjAt(str, idx, os[j])
    ensures !exists j :: 0 <= j < |os| && DisjAt(str, idx, os[j]) == []
  {
    forall j | 0 < j < |os| ensures ds[j] == DisjAt(str, idx, os[j]) && DisjAt(str, idx, os[j]) != [] {
      assert ds[1..][j - 1] == ds[j] && os[1..][j - 1] == os[j];
    }
  }

  /** One step of the offsets for the disjunctions. */
  lemma DisjsAtStep(str: Text, idx: Index, i: nat)
    requires 3 <= |str| && i < |str|
    ensures var pos := if |str| - 3 < i then |str| - 3 else i;
      OffsetsFrom(|str|, i) == [pos] + OffsetsFrom(|str|, i + 3) &&
      DisjsAt(str, idx, OffsetsFrom(|str|, i)) ==
        if DisjAt(str, idx, pos) == [] then None
        else Prepend([DisjAt(str, idx, pos)], DisjsAt(str, idx, OffsetsFrom(|str|, i + 3)))
  {
    var os := OffsetsFrom(|str|, i);
    assert os[1..] == OffsetsFrom(|str|, i + 3);
  }

  /** The number of hits over all terms of a disjunction (std::reduce of the list sizes). */
  function TotalHits(disj: seq<SearchTerm>): (n: nat)
    ensures forall j :: 0 <= j < |disj| ==> |disj[j].hits| <= n
  {
    if |disj| == 0 then 0 else |disj[0].hits| + TotalHits(disj[1..])
  }

  /** The Adder run for the query's trigram at offset pos: its disjunction once Rec(0) returns. */
  method CaseForms(str: Text, idx: Index, pos: nat) returns (disj: seq<SearchTerm>)
    requires pos + 3 <= |str|
    ensures disj == DisjAt(str, idx, pos)
  {
    var adder := new Adder(idx, pos);
    adder.t := FromStringAt(str, pos);
    adder.Rec(0);
    disj := adder.disj;
  }

  /**
   * PrepareCISubstringSearch: at each offset of the query (as for the
   * case-sensitive search) an Adder collects the indexed case forms of
   * the trigram; EmptyAdvance (None) when it collects none; the
   * disjunctions then go smallest total hit count first.
   */
  method PrepareCISubstringSearch(str: Text, idx: Index) returns (r: Option<seq<seq<SearchTerm>>>)
    requires |str| == 0 || 3 <= |str|
    ensures r.None? <==> DisjsAt(str, idx, OffsetsFrom(|str|, 0)).None?
    ensures r.Some? ==>
      multiset(r.value) == multiset(DisjsAt(str, idx, OffsetsFrom(|str|, 0)).value) && SortedBy(r.value, TotalHits)
  {
    var terms := [];
    var sz := |str|;
    var i := 0;
    PrependNothing(DisjsAt(str, idx, OffsetsFrom(sz, 0)));
    while i < sz
      invariant DisjsAt(str, idx, OffsetsFrom(sz, 0)) == Prepend(terms, DisjsAt(str, idx, OffsetsFrom(sz, i)))
      decreases sz - i
    {
      var pos := if sz - 3 < i then sz - 3 else i;
      DisjsAtStep(str, idx, i);
      var disj := CaseForms(str, idx, pos);
      if disj == [] {
        return None;
      }
      PrependTwice(terms, [disj], DisjsAt(str, idx, OffsetsFrom(sz, i + 3)));
      terms := terms + [disj];
      i := i + 3;
    }
    assert terms + [] == terms;
    return Some(SortBy(terms, TotalHits));
  }

  // ----- correctness of the case-insensitive search -----

  /** The query occurs at p up to ASCII case, in the text as indexed. */
  ghost predicate OccursCIAt(str: Text, s: Text, p: nat)
  {
    p + |str| <= |s| && forall k :: 0 <= k < |str| ==> ToLower(Spaced(s)[p + k]) == ToLower(str[k])
  }

  /** p is the first case-insensitive occurrence at or after from, or there is none and r is None. */
  ghost predicate FirstCIOccurrence(str: Text, s: Text, from: nat, r: Option<nat>)
  {
    match r
    case None => forall p :: from <= p ==> !OccursCIAt(str, s, p)
    case Some(p) => from <= p && OccursCIAt(str, s, p) && forall q :: from <= q < p ==> !OccursCIAt(str, s, q)
  }

  /** The text agrees up to case with the query's three bytes from o, placed at p + o. */
  ghost predicate AgreeCI(str: Text, s: Text, p: nat, o: nat)
    requires o + 3 <= |str|
  {
    p + o + 3 <= |s| && forall k :: o <= k < o + 3 ==> ToLower(Spaced(s)[p + k]) == ToLower(str[k])
  }

  /** The bytes of the trigram at q, as taken and as spacified. */
  lemma TrigramBytes(s: Text, q: nat, b: nat)
    requires q + 3 <= |s| && b < 3
    ensures At(FromStringAt(s, q), b) == s[q + b]
    ensures At(Spacify(FromStringAt(s, q)), b) == Spaced(s)[q + b]
  {
  }

  /** A matching case form of the query's trigram at o makes the text agree with it up to case. */
  lemma DisjHitSound(str: Text, s: Text, idx: Index, o: nat, p: nat)
    requires IsIndexOf(idx, s) && o + 3 <= |str| && DisjMatch(DisjAt(str, idx, o), p)
    ensures AgreeCI(str, s, p, o)
  {
    var g := MatchingForm(str, idx, o, p);
    FormAgrees(str, s, idx, o, p, g);
  }

  /** A matching term of the disjunction at o is an indexed case form g with a posting at p + o. */
  lemma MatchingForm(str: Text, idx: Index, o: nat, p: nat) returns (g: Trigram)
    requires o + 3 <= |str| && DisjMatch(DisjAt(str, idx, o), p)
    ensures g in idx && p + o in idx[g] && SameCaseFrom(g, FromStringAt(str, o), 0)
  {
    var t :| t in DisjAt(str, idx, o) && TermMatch(t, p);
    CollectedExact(idx, o, FromStringAt(str, o), 0, t);
    g := t.tgram;
    assert t == SearchTerm(g, o, idx[g]);
    assert p + t.offset in t.hits;
  }

  /** A posting at p + o of a case form of the query's trigram at o makes the text agree with it up to case. */
  lemma FormAgrees(str: Text, s: Text, idx: Index, o: nat, p: nat, g: Trigram)
    requires IsIndexOf(idx, s) && o + 3 <= |str|
    requires g in idx && p + o in idx[g] && SameCaseFrom(g, FromStringAt(str, o), 0)
    ensures AgreeCI(str, s, p, o)
  {
    var q := FromStringAt(str, o);
    assert p + o + 3 <= |s| && Spacify(FromStringAt(s, p + o)) == g;
    forall k | o <= k < o + 3 ensures ToLower(Spaced(s)[p + k]) == ToLower(str[k]) {
      TrigramBytes(s, p + o, k - o);
      TrigramBytes(str, o, k - o);
      assert ToLower(At(g, k - o)) == ToLower(At(q, k - o));
    }
  }

  /** Agreement up to case with the query's trigram at o means one of its indexed case forms matches. */
  lemma DisjHitComplete(str: Text, s: Text, idx: Index, o: nat, p: nat)
    requires IsIndexOf(idx, s) && o + 3 <= |str|
    ensures AgreeCI(str, s, p, o) ==> DisjMatch(DisjAt(str, idx, o), p)
  {
    if AgreeCI(str, s, p, o) {
      var q := FromStringAt(str, o);
      var g := Spacify(FromStringAt(s, p + o));
      assert g in idx && p + o in idx[g];
      forall b | 0 <= b < 3 ensures ToLower(At(g, b)) == ToLower(At(q, b)) {
        TrigramBytes(s, p + o, b);
        TrigramBytes(str, o, b);
        assert ToLower(Spaced(s)[p + (o + b)]) == ToLower(str[o + b]);
      }
      var u := SearchTerm(g, o, idx[g]);
      CollectedExact(idx, o, q, 0, u);
      assert TermMatch(u, p);
    }
  }

  /** An occurrence up to case agrees with every trigram of the query. */
  lemma CIWithin(str: Text, s: Text, p: nat, o: nat)
    requires o + 3 <= |str|
    ensures OccursCIAt(str, s, p) ==> AgreeCI(str, s, p, o)
  {
  }

  /** When every disjunction matches at p, the one at an offset covering byte k does. */
  lemma CoveringDisj(str: Text, idx: Index, ds: seq<seq<SearchTerm>>, terms: seq<seq<SearchTerm>>, p: nat, k: nat)
    returns (o: nat)
    requires 3 <= |str| && k < |str|
    requires DisjsAt(str, idx, OffsetsFrom(|str|, 0)) == Some(ds) && SameMembers(terms, ds)
    requires ConjDisjMatch(terms, p)
    ensures o <= k < o + 3 && o + 3 <= |str| && DisjMatch(DisjAt(str, idx, o), p)
  {
    var os := OffsetsFrom(|str|, 0);
    var j := CoveringOffset(|str|, 0, k);
    o := os[j];
    assert ds[j] == DisjAt(str, idx, o);
    assert ds[j] in terms;
  }

  /** A matching disjunction at o gives byte k of the query up to case. */
  lemma DisjByte(str: Text, s: Text, idx: Index, o: nat, p: nat, k: nat)
    requires IsIndexOf(idx, s) && o <= k < o + 3 && o + 3 <= |str| && DisjMatch(DisjAt(str, idx, o), p)
    ensures p + k < |s| && ToLower(Spaced(s)[p + k]) == ToLower(str[k])
  {
    DisjHitSound(str, s, idx, o, p);
  }

  /** All disjunctions matching at p means the query occurs at p up to case. */
  lemma CIMatchOccurs(str: Text, s: Text, idx: Index, ds: seq<seq<SearchTerm>>, terms: seq<seq<SearchTerm>>, p: nat)
    requires IsIndexOf(idx, s) && 3 <= |str|
    requires DisjsAt(str, idx, OffsetsFrom(|str|, 0)) == Some(ds) && SameMembers(terms, ds)
    requires ConjDisjMatch(terms, p)
    ensures OccursCIAt(str, s, p)
  {
    var last := CoveringDisj(str, idx, ds, terms, p, |str| - 1);
    DisjByte(str, s, idx, last, p, |str| - 1);
    forall k | 0 <= k < |str| ensures ToLower(Spaced(s)[p + k]) == ToLower(str[k]) {
      var o := CoveringDisj(str, idx, ds, terms, p, k);
      DisjByte(str, s, idx, o, p, k);
    }
  }

  /** The query occurring at p up to case means every disjunction matches at p. */
  lemma CIOccursMatch(str: Text, s: Text, idx: Index, ds: seq<seq<SearchTerm>>, terms: seq<seq<SearchTerm>>, p: nat)
    requires IsIndexOf(idx, s) && 3 <= |str|
    requires DisjsAt(str, idx, OffsetsFrom(|str|, 0)) == Some(ds) && SameMembers(terms, ds)
    requires OccursCIAt(str, s, p)
    ensures ConjDisjMatch(terms, p)
  {
    var os := OffsetsFrom(|str|, 0);
    forall d | d in terms ensures DisjMatch(d, p) {
      var j :| 0 <= j < |ds| && ds[j] == d;
      CIWithin(str, s, p, os[j]);
      DisjHitComplete(str, s, idx, os[j], p);
    }
  }

  /** All disjunctions match at p exactly when the query occurs at p up to case. */
  lemma CITermsExact(str: Text, s: Text, idx: Index, ds: seq<seq<SearchTerm>>, terms: seq<seq<SearchTerm>>, p: nat)
    requires IsIndexOf(idx, s) && 3 <= |str|
    requires DisjsAt(str, idx, OffsetsFrom(|str|, 0)) == Some(ds) && SameMembers(terms, ds)
    ensures ConjDisjMatch(terms, p) <==> OccursCIAt(str, s, p)
  {
    if ConjDisjMatch(terms, p) {
      CIMatchOccurs(str, s, idx, ds, terms, p);
    }
    if OccursCIAt(str, s, p) {
      CIOccursMatch(str, s, idx, ds, terms, p);
    }
  }

  /** A trigram of the query with no indexed case form means the query occurs nowhere, up to case. */
  lemma NoCaseForm(str: Text, s: Text, idx: Index, o: nat, p: nat)
    requires IsIndexOf(idx, s) && o + 3 <= |str| && DisjAt(str, idx, o) == []
    ensures !OccursCIAt(str, s, p)
  {
    CIWithin(str, s, p, o);
    DisjHitComplete(str, s, idx, o, p);
  }

  /** The postings of every case form are increasing, so the disjunctions can be searched. */
  lemma DisjsIncreasing(str: Text, s: Text, idx: Index, ds: seq<seq<SearchTerm>>, terms: seq<seq<SearchTerm>>)
    requires IsIndexOf(idx, s) && 3 <= |str|
    requires DisjsAt(str, idx, OffsetsFrom(|str|, 0)) == Some(ds) && SameMembers(terms, ds)
    ensures DisjPostingsIncreasing(terms)
  {
    var os := OffsetsFrom(|str|, 0);
    forall d | d in terms ensures PostingsIncreasing(d) {
      var j :| 0 <= j < |ds| && ds[j] == d;
      forall t | t in d ensures Increasing(t.hits) {
        CollectedExact(idx, os[j], FromStringAt(str, os[j]), 0, t);
      }
    }
  }

  /**
   * The advance function PrepareCISubstringSearch builds, applied to from:
   * EmptyAdvance answers None, otherwise FindConjunctionOfDisjunctions over
   * the disjunctions. The answer is the first occurrence of the query up to
   * ASCII case at or after from.
   */
  method CISubstringSearch(s: Text, idx: Index, str: Text, from: nat) returns (r: Option<nat>)
    requires IsIndexOf(idx, s) && 3 <= |str|
    ensures FirstCIOccurrence(str, s, from, r)
  {
    var prepared := PrepareCISubstringSearch(str, idx);
    if prepared.None? {
      var os := OffsetsFrom(|str|, 0);
      var j :| 0 <= j < |os| && DisjAt(str, idx, os[j]) == [];
      forall p | from <= p ensures !OccursCIAt(str, s, p) {
        NoCaseForm(str, s, idx, os[j], p);
      }
      return None;
    }
    var ds := DisjsAt(str, idx, OffsetsFrom(|str|, 0)).value;
    PermutationSameMembers(prepared.value, ds);
    DisjsIncreasing(str, s, idx, ds, prepared.value);
    r := FindConjunctionOfDisjunctions(prepared.value, from);
    forall p: nat ensures ConjDisjMatch(prepared.value, p) <==> OccursCIAt(str, s, p) {
      CITermsExact(str, s, idx, ds, prepared.value, p);
    }
  }
}
