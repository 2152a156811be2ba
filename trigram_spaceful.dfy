// Query splitting for the "spaceful" search, in which each space of the
// query stands for a whole run of whitespace in the text. The query is cut
// into words: the first is its non-space bytes up to and including the
// first space; every later word starts with the space that ended the
// previous one and again runs up to and including its own first space.

module TrigramSpaceful {
  import opened Keys
  import opened TrigramIndex

  /** The query put back together: the first word, then every later word without its leading space. */
  function Join(words: seq<Text>): Text
  {
    if |words| == 0 then []
    else if |words| == 1 then words[0]
    else if |words[|words| - 1]| == 0 then Join(words[..|words| - 1])
    else Join(words[..|words| - 1]) + words[|words| - 1][1..]
  }

  /**
   * The shape of a word: apart from the leading space of a later word,
   * it is non-empty, has no space before its last byte, and its last
   * byte is a space exactly when it is not the final word.
   */
  predicate WordShape(w: Text, first: bool, final: bool)
  {
    var body := if first || |w| == 0 then w else w[1..];
    (first || (|w| > 0 && IsSpace(w[0]))) &&
    |body| > 0 &&
    (forall k :: 0 <= k < |body| - 1 ==> !IsSpace(body[k])) &&
    (IsSpace(body[|body| - 1]) <==> !final)
  }

  /** Every word has its shape; when done, the last one is final. */
  predicate ShapedSoFar(words: seq<Text>, done: bool)
  {
    forall i :: 0 <= i < |words| ==> WordShape(words[i], i == 0, done && i == |words| - 1)
  }

  /** Every word has its shape, the last one being final. */
  predicate WordsShaped(words: seq<Text>)
  {
    ShapedSoFar(words, true)
  }

  /** A word of the right shape extends the shaped words. */
  lemma ShapedAppend(words: seq<Text>, w: Text, done: bool)
    requires ShapedSoFar(words, false) && WordShape(w, |words| == 0, done)
    ensures ShapedSoFar(words + [w], done)
  {
    assert forall i :: 0 <= i < |words| ==> (words + [w])[i] == words[i];
  }

  /** Appending a word extends the joined query by that word without its leading space. */
  lemma JoinAppend(words: seq<Text>, w: Text)
    requires |words| > 0 && |w| > 0
    ensures Join(words + [w]) == Join(words) + w[1..]
  {
    assert (words + [w])[..|words|] == words;
  }

  /** The byte scan of one word: the count of bytes up to and including the first space from pos, or to the end. */
  method WordEnd(query: Text, pos: nat) returns (s: nat)
    requires pos < |query|
    ensures 0 < s <= |query| - pos
    ensures forall k :: pos <= k < pos + s - 1 ==> !IsSpace(query[k])
    ensures pos + s < |query| ==> IsSpace(query[pos + s - 1])
  {
    var qs := |query| - pos;
    s := 0;
    while s < qs
      invariant s <= qs
      invariant forall k :: pos <= k < pos + s ==> !IsSpace(query[k])
      decreases qs - s
    {
      if IsSpace(query[pos + s]) {
        s := s + 1;
        break;
      }
      s := s + 1;
    }
  }

  /** The word cut at pos has its shape. */
  lemma ShapeOfWord(query: Text, pos: nat, s: nat, first: bool)
    requires 0 < s && pos + s <= |query| && (first <==> pos == 0) && (!first ==> IsSpace(query[pos - 1]))
    requires forall k :: pos <= k < pos + s - 1 ==> !IsSpace(query[k])
    requires pos + s < |query| ==> IsSpace(query[pos + s - 1])
    requires !IsSpace(query[|query| - 1])
    ensures WordShape(query[(if first then pos else pos - 1)..pos + s], first, pos + s == |query|)
  {
    var word := query[(if first then pos else pos - 1)..pos + s];
    var body := if first then word else word[1..];
    assert body == query[pos..pos + s];
    assert forall k :: 0 <= k < |body| ==> body[k] == query[pos + k];
  }

  /** The words cut from query[..pos]: they join to it, have their shapes, and pos follows a space. */
  predicate SplitSoFar(query: Text, words: seq<Text>, pos: nat)
  {
    pos <= |query| &&
    (pos == 0 <==> words == []) &&
    (pos > 0 ==> Join(words) == query[..pos]) &&
    (0 < pos < |query| ==> IsSpace(query[pos - 1])) &&
    ShapedSoFar(words, pos == |query|)
  }

  /** One pass of the splitting loop keeps SplitSoFar. */
  lemma SplitStep(query: Text, words: seq<Text>, pos: nat, s: nat)
    requires SplitSoFar(query, words, pos) && pos < |query|
    requires !IsSpace(query[|query| - 1])
    requires 0 < s <= |query| - pos
    requires forall k :: pos <= k < pos + s - 1 ==> !IsSpace(query[k])
    requires pos + s < |query| ==> IsSpace(query[pos + s - 1])
    ensures SplitSoFar(query, words + [query[(if pos == 0 then pos else pos - 1)..pos + s]], pos + s)
  {
    var first := pos == 0;
    var word := query[(if first then pos else pos - 1)..pos + s];
    ShapeOfWord(query, pos, s, first);
    ShapedAppend(words, word, pos + s == |query|);
    if first {
      assert words + [word] == [word];
    } else {
      JoinAppend(words, word);
      assert word[1..] == query[pos..pos + s];
      assert query[..pos] + query[pos..pos + s] == query[..pos + s];
    }
  }

  /**
   * The word-splitting loop of PrepareSpacefulSearch. The query must be
   * non-empty with no space at either end.
   */
  method SplitWords(query: Text) returns (words: seq<Text>)
    requires |query| > 0 && !IsSpace(query[0]) && !IsSpace(query[|query| - 1])
    ensures |words| > 0
    ensures Join(words) == query
    ensures WordsShaped(words)
  {
    words := [];
    var pos := 0;
    var first := true;
    while pos < |query|
      invariant SplitSoFar(query, words, pos)
      invariant first <==> pos == 0
      decreases |query| - pos
    {
      var s := WordEnd(query, pos);
      SplitStep(query, words, pos, s);
      var start := if first then pos else pos - 1;
      words := words + [query[start..pos + s]];
      pos := pos + s;
      first := false;
    }
    assert query[..pos] == query;
  }
}
