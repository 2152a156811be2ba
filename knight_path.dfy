// The knight's-tour solver: Warnsdorff's ordering of the next moves, the
// backtracking search over the board, and the checking of the command line.

module KnightPath {
  import opened KnightPosSet

  datatype Option<T> = None | Some(value: T)

  /** kMoves_: the eight knight moves, as (row change, column change). */
  const Moves: seq<(int, int)> := [(-2, -1), (-2, 1), (-1, -2), (-1, 2), (1, -2), (1, 2), (2, -1), (2, 1)]

  /** The square move k leads to from p. */
  function Step(p: Pos, k: nat): Pos
    requires k < 8
  {
    Pos(p.row + Moves[k].0, p.col + Moves[k].1)
  }

  /** b is one knight move away from a. */
  ghost predicate KnightMove(a: Pos, b: Pos)
  {
    exists k :: 0 <= k < 8 && Step(a, k) == b
  }

  function Abs(x: int): nat
  {
    if x < 0 then -x else x
  }

  /** The eight moves are exactly the steps of one row and two columns, or two rows and one column. */
  lemma KnightMoveShape(a: Pos, b: Pos)
    ensures KnightMove(a, b) <==>
      (Abs(b.row - a.row) == 1 && Abs(b.col - a.col) == 2) ||
      (Abs(b.row - a.row) == 2 && Abs(b.col - a.col) == 1)
  {
    var dr, dc := b.row - a.row, b.col - a.col;
    if (Abs(dr) == 1 && Abs(dc) == 2) || (Abs(dr) == 2 && Abs(dc) == 1) {
      var k :=
        if dr == -2 then (if dc == -1 then 0 else 1)
        else if dr == -1 then (if dc == -2 then 2 else 3)
        else if dr == 1 then (if dc == -2 then 4 else 5)
        else (if dc == -1 then 6 else 7);
      assert Step(a, k) == b;
    }
  }

  /** A knight move can be made backwards: the move list is closed under negation. */
  lemma KnightMoveSymmetric(a: Pos, b: Pos)
    requires KnightMove(a, b)
    ensures KnightMove(b, a)
  {
    var k :| 0 <= k < 8 && Step(a, k) == b;
    assert Step(b, 7 - k) == a;
  }

  /** A sequence in the opposite order (std::reverse). */
  function Reverse<T>(s: seq<T>): (r: seq<T>)
    ensures |r| == |s| && forall i :: 0 <= i < |s| ==> r[i] == s[|s| - 1 - i]
  {
    if s == [] then [] else Reverse(s[1..]) + [s[0]]
  }

  /** One entry of the span get_sorted_next_moves returns: the degree of a square, and the square. */
  datatype Move = Move(degree: int, pos: Pos)

  /** Some entry of moves is for square q. */
  ghost predicate Listed(moves: seq<Move>, q: Pos)
  {
    exists i :: 0 <= i < |moves| && moves[i].pos == q
  }

  /** Appending an entry keeps every square listed and lists the new one. */
  lemma ListedGrows(s: seq<Move>, m: Move)
    ensures Listed(s + [m], m.pos)
    ensures forall q :: Listed(s, q) ==> Listed(s + [m], q)
  {
    assert (s + [m])[|s|] == m;
    forall q | Listed(s, q)
      ensures Listed(s + [m], q)
    {
      var i :| 0 <= i < |s| && s[i].pos == q;
      assert (s + [m])[i] == s[i];
    }
  }

  /** The same entries, so the same squares listed. */
  lemma ListedPermuted(s: seq<Move>, t: seq<Move>, q: Pos)
    requires multiset(s) == multiset(t) && Listed(s, q)
    ensures Listed(t, q)
  {
    var i :| 0 <= i < |s| && s[i].pos == q;
    assert s[i] in multiset(t);
    var j :| 0 <= j < |t| && t[j] == s[i];
  }

  /** The solver over a rows by cols board. */
  class KnightTourSolver {
    const rows: int
    const cols: int
    /** total_squares_. */
    const totalSquares: int

    /** The board sides are positive and within the bitset's capacity. */
    ghost predicate Sized()
    {
      0 < rows <= kSize && 0 < cols <= kSize && totalSquares == rows * cols
    }

    constructor(rows: int, cols: int)
      requires 0 < rows <= kSize && 0 < cols <= kSize
      ensures this.rows == rows && this.cols == cols && Sized()
    {
      this.rows := rows;
      this.cols := cols;
      totalSquares := rows * cols;
    }

    /** is_valid: p lies on the board. */
    predicate IsValid(p: Pos)
    {
      0 <= p.row < rows && 0 <= p.col < cols
    }

    /** Every square of the board. */
    ghost function Board(): set<Pos>
    {
      set r, c | 0 <= r < rows && 0 <= c < cols :: Pos(r, c)
    }

    /** q is a square of the board not yet visited. */
    ghost predicate Free(q: Pos, visited: set<Pos>)
    {
      IsValid(q) && q !in visited
    }

    /** How many of the first k moves from p land on a free square. */
    ghost function FreeCount(p: Pos, visited: set<Pos>, k: nat): (r: nat)
      requires k <= 8
      ensures r <= k
    {
      if k == 0 then 0
      else FreeCount(p, visited, k - 1) + (if Free(Step(p, k - 1), visited) then 1 else 0)
    }

    /** The degree of p: the free squares one knight move away, at most 8. */
    ghost function Degree(p: Pos, visited: set<Pos>): (r: nat)
      ensures r <= 8
    {
      FreeCount(p, visited, 8)
    }

    /** calculate_degree: counts the on-board, unvisited squares among the eight moves. */
    method CalculateDegree(p: Pos, visited: PosSet) returns (degree: int)
      requires Sized() && visited.Valid()
      ensures degree == Degree(p, visited.elems) && 0 <= degree <= 8
    {
      degree := 0;
      var k := 0;
      while k < 8
        invariant 0 <= k <= 8 && degree == FreeCount(p, visited.elems, k)
      {
        var next := Step(p, k);
        if IsValid(next) {
          var seen := visited.Contains(next);
          if !seen {
            degree := degree + 1;
          }
        }
        k := k + 1;
      }
    }

    /**
     * Four times dist_sq_from_center: (2r - (rows - 1))^2 + (2c - (cols - 1))^2,
     * an integer that orders squares as the distance from the centre does.
     */
    function DistKey(p: Pos): int
    {
      var dr, dc := 2 * p.row - (rows - 1), 2 * p.col - (cols - 1);
      dr * dr + dc * dc
    }

    /** The comparator of get_sorted_next_moves: lower degree first, then farther from the centre first. */
    predicate Before(a: Move, b: Move)
    {
      a.degree < b.degree || (a.degree == b.degree && DistKey(a.pos) > DistKey(b.pos))
    }

    /** No entry is ordered before the one in front of it. */
    predicate SortedMoves(s: seq<Move>)
    {
      forall k :: 0 < k < |s| ==> !Before(s[k], s[k - 1])
    }

    /** In a sorted span no later entry goes before an earlier one. */
    lemma {:induction false} SortedOrder(s: seq<Move>, i: int, j: int)
      requires SortedMoves(s) && 0 <= i < j < |s|
      ensures s[i].degree <= s[j].degree
      ensures s[i].degree == s[j].degree ==> DistKey(s[i].pos) >= DistKey(s[j].pos)
      decreases j - i
    {
      if i + 1 < j {
        SortedOrder(s, i + 1, j);
      }
    }

    /** x put into its place in a sorted span. */
    function InsertMove(x: Move, s: seq<Move>): (r: seq<Move>)
      requires SortedMoves(s)
      ensures |r| == |s| + 1 && multiset(r) == multiset(s) + multiset{x}
      ensures SortedMoves(r) && (r[0] == x || (|s| > 0 && r[0] == s[0]))
    {
      if s == [] then [x]
      else if !Before(s[0], x) then [x] + s
      else
        assert s == [s[0]] + s[1..];
        [s[0]] + InsertMove(x, s[1..])
    }

    /** std::sort with the comparator: the same entries, sorted. */
    function SortMoves(s: seq<Move>): (r: seq<Move>)
      ensures SortedMoves(r) && multiset(r) == multiset(s)
    {
      if s == [] then []
      else
        assert s == s[..|s| - 1] + [s[|s| - 1]];
        InsertMove(s[|s| - 1], SortMoves(s[..|s| - 1]))
    }

    /** q is a free square one knight move from cur. */
    ghost predicate Neighbour(cur: Pos, visited: set<Pos>, q: Pos)
    {
      Free(q, visited) && KnightMove(cur, q)
    }

    /** m is a free knight neighbour of cur, with its degree. */
    ghost predicate Candidate(cur: Pos, visited: set<Pos>, m: Move)
    {
      Neighbour(cur, visited, m.pos) && m.degree == Degree(m.pos, visited)
    }

    /**
     * get_sorted_next_moves: every free square one knight move from cur,
     * with its degree, once each (as many entries as cur's degree), by
     * increasing degree and, for equal degrees, farther from the centre first.
     */
    method GetSortedNextMoves(cur: Pos, visited: PosSet) returns (moves: seq<Move>)
      requires Sized() && visited.Valid()
      ensures |moves| == Degree(cur, visited.elems)
      ensures forall i :: 0 <= i < |moves| ==> Candidate(cur, visited.elems, moves[i])
      ensures forall q :: Free(q, visited.elems) && KnightMove(cur, q) ==> Listed(moves, q)
      ensures SortedMoves(moves)
    {
      var found := CollectMoves(cur, visited);
      moves := SortMoves(found);
      SortedCandidates(cur, visited.elems, found, moves);
    }

    /** The loop that fills the storage: the free knight neighbours of cur with their degrees, in move order. */
    method CollectMoves(cur: Pos, visited: PosSet) returns (found: seq<Move>)
      requires Sized() && visited.Valid()
      ensures |found| == Degree(cur, visited.elems)
      ensures forall i :: 0 <= i < |found| ==> Candidate(cur, visited.elems, found[i])
      ensures forall j :: 0 <= j < 8 && Free(Step(cur, j), visited.elems) ==> Listed(found, Step(cur, j))
    {
      found := [];
      var k := 0;
      while k < 8
        invariant 0 <= k <= 8 && |found| == FreeCount(cur, visited.elems, k)
        invariant forall i :: 0 <= i < |found| ==> Candidate(cur, visited.elems, found[i])
        invariant forall j :: 0 <= j < k && Free(Step(cur, j), visited.elems) ==> Listed(found, Step(cur, j))
      {
        var next := Step(cur, k);
        assert FreeCount(cur, visited.elems, k + 1) == |found| + if Free(next, visited.elems) then 1 else 0;
        if IsValid(next) {
          var seen := visited.Contains(next);
          if !seen {
            var degree := CalculateDegree(next, visited);
            ListedGrows(found, Move(degree, next));
            found := found + [Move(degree, next)];
          }
        }
        k := k + 1;
      }
    }

    /** Sorting the collected entries keeps exactly the same candidates. */
    lemma SortedCandidates(cur: Pos, visited: set<Pos>, found: seq<Move>, moves: seq<Move>)
      requires multiset(moves) == multiset(found)
      requires forall i :: 0 <= i < |found| ==> Candidate(cur, visited, found[i])
      requires forall j :: 0 <= j < 8 && Free(Step(cur, j), visited) ==> Listed(found, Step(cur, j))
      ensures |moves| == |found|
      ensures forall i :: 0 <= i < |moves| ==> Candidate(cur, visited, moves[i])
      ensures forall q :: Free(q, visited) && KnightMove(cur, q) ==> Listed(moves, q)
    {
      assert |moves| == |multiset(moves)| == |multiset(found)| == |found|;
      forall i | 0 <= i < |moves|
        ensures Candidate(cur, visited, moves[i])
      {
        assert moves[i] in multiset(found);
      }
      forall q | Free(q, visited) && KnightMove(cur, q)
        ensures Listed(moves, q)
      {
        var j :| 0 <= j < 8 && Step(cur, j) == q;
        ListedPermuted(found, moves, q);
      }
    }

    /** A path of distinct board squares, each a knight move from the one before. */
    ghost predicate Walk(path: seq<Pos>)
    {
      (forall i :: 0 <= i < |path| ==> IsValid(path[i])) &&
      (forall i, j :: 0 <= i < j < |path| ==> path[i] != path[j]) &&
      (forall i :: 0 < i < |path| ==> KnightMove(path[i - 1], path[i]))
    }

    /**
     * The path solve_recursive hands back from cur over the visited set:
     * a walk, in reverse, that ends at cur, avoids the visited squares and
     * with them makes up as many squares as the board has.
     */
    ghost predicate Completion(visited: set<Pos>, cur: Pos, path: seq<Pos>)
    {
      |path| > 0 && path[|path| - 1] == cur && Walk(path) &&
      (forall i :: 0 <= i < |path| ==> path[i] !in visited) &&
      |path| + |visited| == totalSquares
    }

    /** No completion from cur over the visited set exists. */
    ghost predicate Hopeless(visited: set<Pos>, cur: Pos)
    {
      forall p :: !Completion(visited, cur, p)
    }

    /** A knight's tour: rows * cols distinct board squares from start, each a knight move from the last. */
    ghost predicate IsTour(start: Pos, tour: seq<Pos>)
    {
      |tour| == totalSquares && |tour| > 0 && tour[0] == start && Walk(tour)
    }

    /** Walking back to cur from a free neighbour's completion completes the walk from cur. */
    lemma CompletionExtend(visited: set<Pos>, cur: Pos, next: Pos, path: seq<Pos>)
      requires IsValid(cur) && cur !in visited && KnightMove(cur, next)
      requires Completion(visited + {cur}, next, path)
      ensures Completion(visited, cur, path + [cur])
    {
      KnightMoveSymmetric(cur, next);
      var p := path + [cur];
      assert p[|p| - 2] == next;
    }

    /** A completion longer than one square passes through a free neighbour of cur, completed from there. */
    lemma CompletionShrink(visited: set<Pos>, cur: Pos, path: seq<Pos>)
      requires Completion(visited, cur, path) && |path| > 1
      ensures Free(path[|path| - 2], visited + {cur}) && KnightMove(cur, path[|path| - 2])
      ensures Completion(visited + {cur}, path[|path| - 2], path[..|path| - 1])
    {
      KnightMoveSymmetric(path[|path| - 2], cur);
      assert path[|path| - 2] != path[|path| - 1];
      assert forall i :: 0 <= i < |path| - 1 ==> path[i] != path[|path| - 1];
    }

    /**
     * With cur just visited and the board not yet full, every completion
     * from cur goes on through one of the listed free neighbours.
     */
    lemma CompletionThrough(visited: set<Pos>, cur: Pos, moves: seq<Move>, p: seq<Pos>)
      requires cur !in visited && |visited| + 1 != totalSquares
      requires forall q :: Free(q, visited + {cur}) && KnightMove(cur, q) ==> Listed(moves, q)
      requires Completion(visited, cur, p)
      ensures exists k :: 0 <= k < |moves| && Completion(visited + {cur}, moves[k].pos, p[..|p| - 1])
    {
      CompletionShrink(visited, cur, p);
      var q := p[|p| - 2];
      var k :| 0 <= k < |moves| && moves[k].pos == q;
      assert Completion(visited + {cur}, moves[k].pos, p[..|p| - 1]);
    }

    /**
     * solve_recursive: marks cur visited and either completes the walk
     * (the path comes back reversed, ending at cur) or unmarks cur and
     * reports that no completion exists, leaving the visited set as it was.
     */
    method SolveRecursive(cur: Pos, visited: PosSet, ghost held: set<Pos>) returns (r: Option<seq<Pos>>)
      requires Sized() && visited.Valid() && visited.elems == held && IsValid(cur) && cur !in held
      modifies visited, visited.bits
      decreases Board() - held - {cur}, 1
      ensures visited.Valid()
      ensures r.None? ==> visited.elems == held
      ensures r.Some? ==> Completion(held, cur, r.value)
      ensures r.None? ==> Hopeless(held, cur)
    {
      ghost var start := held;
      var _ := visited.Insert(cur);
      var size := visited.Size();
      if size == totalSquares {
        return Some([cur]);
      }
      var moves := GetSortedNextMoves(cur, visited);
      assert forall i :: 0 <= i < |moves| ==> Neighbour(cur, start + {cur}, moves[i].pos);
      r := TryMoves(cur, moves, visited, start);
      if r.Some? {
        return;
      }
      var _ := visited.Erase(cur);
      forall p | Completion(start, cur, p)
        ensures exists k :: 0 <= k < |moves| && Completion(start + {cur}, moves[k].pos, p[..|p| - 1])
      {
        CompletionThrough(start, cur, moves, p);
      }
      assert Hopeless(start, cur);
      return None;
    }

    /**
     * The loop over the sorted moves: the first free neighbour whose walk
     * can be completed gives the completion from cur; when none can, the
     * visited set is as on entry and every listed neighbour is hopeless.
     */
    method TryMoves(cur: Pos, moves: seq<Move>, visited: PosSet, ghost start: set<Pos>) returns (r: Option<seq<Pos>>)
      requires Sized() && visited.Valid() && visited.elems == start + {cur}
      requires IsValid(cur) && cur !in start
      requires forall i :: 0 <= i < |moves| ==> Neighbour(cur, start + {cur}, moves[i].pos)
      modifies visited, visited.bits
      decreases Board() - start - {cur}, 0
      ensures visited.Valid()
      ensures r.Some? ==> Completion(start, cur, r.value)
      ensures r.None? ==> visited.elems == start + {cur}
      ensures r.None? ==> forall k :: 0 <= k < |moves| ==> Hopeless(start + {cur}, moves[k].pos)
    {
      var i := 0;
      while i < |moves|
        invariant 0 <= i <= |moves|
        invariant visited.Valid() && visited.elems == start + {cur}
        invariant forall k :: 0 <= k < i ==> Hopeless(start + {cur}, moves[k].pos)
      {
        var next := moves[i].pos;
        assert Neighbour(cur, start + {cur}, next);
        assert Pos(next.row, next.col) in Board();
        var segment := SolveRecursive(next, visited, start + {cur});
        if segment.Some? {
          CompletionExtend(start, cur, next, segment.value);
          return Some(segment.value + [cur]);
        }
        HopelessUpTo(start + {cur}, moves, i);
        i := i + 1;
      }
      return None;
    }

    /** The first i + 1 listed squares are hopeless when the first i are and the next one is. */
    lemma HopelessUpTo(visited: set<Pos>, moves: seq<Move>, i: int)
      requires 0 <= i < |moves|
      requires forall k :: 0 <= k < i ==> Hopeless(visited, moves[k].pos)
      requires Hopeless(visited, moves[i].pos)
      ensures forall k :: 0 <= k < i + 1 ==> Hopeless(visited, moves[k].pos)
    {
    }

    /** A walk read backwards is a walk. */
    lemma ReverseWalk(path: seq<Pos>)
      requires Walk(path)
      ensures Walk(Reverse(path))
    {
      var r := Reverse(path);
      forall i | 0 < i < |r|
        ensures KnightMove(r[i - 1], r[i])
      {
        KnightMoveSymmetric(r[i], r[i - 1]);
      }
    }

    /** Reversed completions of the empty visited set from start are exactly the tours from start. */
    lemma TourReversed(start: Pos, path: seq<Pos>)
      ensures Completion({}, start, path) <==> IsTour(start, Reverse(path))
    {
      if Completion({}, start, path) {
        ReverseWalk(path);
      }
      if IsTour(start, Reverse(path)) {
        var t := Reverse(path);
        ReverseWalk(t);
        assert Reverse(t) == path;
      }
    }

    /**
     * find_tour_recursive: searches from start with nothing visited; the
     * path found, put in order, is a knight's tour from start, and when
     * none is found no tour from start exists.
     */
    method FindTourRecursive(start: Pos) returns (tour: Option<seq<Pos>>)
      requires Sized() && IsValid(start)
      ensures tour.Some? ==> IsTour(start, tour.value)
      ensures tour.None? ==> forall t :: !IsTour(start, t)
    {
      forall t | IsTour(start, t)
        ensures Completion({}, start, Reverse(t))
      {
        TourReversed(start, Reverse(t));
        assert Reverse(Reverse(t)) == t;
      }
      var visited := new PosSet();
      var path := SolveRecursive(start, visited, {});
      if path.None? {
        return None;
      }
      TourReversed(start, path.value);
      return Some(Reverse(path.value));
    }
  }

  /** isspace in the C locale: space, tab, newline, vertical tab, form feed, carriage return. */
  predicate IsSpace(c: char)
  {
    c == ' ' || '\t' <= c <= '\r'
  }

  predicate IsDigit(c: char)
  {
    '0' as int <= c as int <= '9' as int
  }

  /** s without its leading white space. */
  function SkipSpace(s: string): (r: string)
    ensures |r| <= |s| && r == s[|s| - |r|..]
    ensures r == [] || !IsSpace(r[0])
  {
    if s != [] && IsSpace(s[0]) then SkipSpace(s[1..]) else s
  }

  /** The number of digits s starts with. */
  function DigitRun(s: string): (n: nat)
    ensures n <= |s| && forall i :: 0 <= i < n ==> IsDigit(s[i])
    ensures n < |s| ==> !IsDigit(s[n])
  {
    if s != [] && IsDigit(s[0]) then 1 + DigitRun(s[1..]) else 0
  }

  /** The value of a string of decimal digits. */
  function DigitsValue(d: string): nat
    requires forall i :: 0 <= i < |d| ==> IsDigit(d[i])
  {
    if d == [] then 0
    else
      assert IsDigit(d[|d| - 1]);
      DigitsValue(d[..|d| - 1]) * 10 + (d[|d| - 1] as int - '0' as int)
  }

  /**
   * atoi: leading white space, an optional sign and the digits that
   * follow; 0 when there are none. Values past int's range are not modelled.
   */
  function Atoi(s: string): int
  {
    var t := SkipSpace(s);
    if |t| > 0 && (t[0] == '-' || t[0] == '+') then
      var v := DigitsValue(LeadingDigits(t[1..]));
      if t[0] == '-' then -(v as int) else v
    else DigitsValue(LeadingDigits(t))
  }

  /** The digits s starts with. */
  function LeadingDigits(s: string): (d: string)
    ensures d == s[..DigitRun(s)] && forall i :: 0 <= i < |d| ==> IsDigit(d[i])
  {
    s[..DigitRun(s)]
  }

  /** n written in decimal, without leading zeros. */
  function Decimal(n: nat): (r: string)
    ensures |r| > 0 && forall i :: 0 <= i < |r| ==> IsDigit(r[i])
  {
    if n < 10 then [('0' as int + n) as char]
    else Decimal(n / 10) + [('0' as int + n % 10) as char]
  }

  lemma {:induction false} DecimalValue(n: nat)
    ensures DigitsValue(Decimal(n)) == n
  {
    if n >= 10 {
      DecimalValue(n / 10);
      var d := Decimal(n);
      assert d[..|d| - 1] == Decimal(n / 10);
    }
  }

  /** A string of digits is one whole digit run. */
  lemma DigitRunAll(d: string)
    requires forall i :: 0 <= i < |d| ==> IsDigit(d[i])
    ensures LeadingDigits(d) == d
  {
    assert DigitRun(d) == |d|;
  }

  /** A non-empty run of digits is read whole. */
  lemma AtoiPlain(d: string)
    requires |d| > 0 && forall i :: 0 <= i < |d| ==> IsDigit(d[i])
    ensures Atoi(d) == DigitsValue(d)
  {
    assert !IsSpace(d[0]) && d[0] != '-' && d[0] != '+';
    assert SkipSpace(d) == d;
    DigitRunAll(d);
  }

  /** After a minus sign, a run of digits is read whole and negated. */
  lemma AtoiMinus(d: string)
    requires forall i :: 0 <= i < |d| ==> IsDigit(d[i])
    ensures Atoi("-" + d) == -(DigitsValue(d) as int)
  {
    var m := "-" + d;
    assert m[0] == '-' && !IsSpace(m[0]);
    assert SkipSpace(m) == m;
    assert m[1..] == d;
    DigitRunAll(d);
    var v := DigitsValue(LeadingDigits(m[1..]));
    assert v == DigitsValue(d);
    assert Atoi(m) == -(v as int);
  }

  /** A non-empty run of digits is read whole, after a minus sign too. */
  lemma AtoiDigits(d: string)
    requires |d| > 0 && forall i :: 0 <= i < |d| ==> IsDigit(d[i])
    ensures Atoi(d) == DigitsValue(d) && Atoi("-" + d) == -(DigitsValue(d) as int)
  {
    AtoiPlain(d);
    AtoiMinus(d);
  }

  /**
   * atoi reads back a number written in decimal, with or without a minus
   * sign: the round trip that ties Atoi to an independent writer of numbers.
   */
  lemma AtoiDecimal(n: nat)
    ensures Atoi(Decimal(n)) == n && Atoi("-" + Decimal(n)) == -(n as int)
  {
    DecimalValue(n);
    AtoiDigits(Decimal(n));
  }

  /** What ParseArguments hands back: the board side and the start square. */
  datatype Args = Args(boardSize: int, start: Pos)

  /** The board side and start square the command line asks for, 1001 and (0, 1) when not given. */
  function Requested(argv: seq<string>): Args
  {
    Args(if |argv| >= 2 then Atoi(argv[1]) else 1001,
         if |argv| == 4 then Pos(Atoi(argv[2]), Atoi(argv[3])) else Pos(0, 1))
  }

  /** The command line is usable: no argument, a board side, or a side and a start square, which fit. */
  predicate Acceptable(argv: seq<string>)
  {
    var a := Requested(argv);
    (|argv| == 1 || |argv| == 2 || |argv| == 4) &&
    1 <= a.boardSize <= kSize &&
    0 <= a.start.row < a.boardSize && 0 <= a.start.col < a.boardSize
  }

  /**
   * ParseArguments over argv (argc is its length): accepts one, two or
   * four arguments, a board side in 1 .. kSize and a start square on the
   * board, and nothing else.
   */
  method ParseArguments(argv: seq<string>) returns (r: Option<Args>)
    ensures r.Some? ==> |argv| == 1 || |argv| == 2 || |argv| == 4
    ensures r.Some? ==> 1 <= r.value.boardSize <= kSize
    ensures r.Some? ==> 0 <= r.value.start.row < r.value.boardSize && 0 <= r.value.start.col < r.value.boardSize
    ensures r.Some? <==> Acceptable(argv)
    ensures r.Some? ==> r.value == Requested(argv)
  {
    var argc := |argv|;
    var boardSize := 1001;
    var start := Pos(0, 1);
    var argsValid := true;

    if argc != 1 && argc != 2 && argc != 4 {
      return None;
    }
    if argc >= 2 {
      var argSize := Atoi(argv[1]);
      if argSize <= 0 {
        argsValid := false;
        boardSize := -1;
      } else {
        boardSize := argSize;
      }
    }
    if argc == 4 {
      var startRow, startCol := Atoi(argv[2]), Atoi(argv[3]);
      if startRow < 0 || startCol < 0 {
        argsValid := false;
      } else {
        start := Pos(startRow, startCol);
      }
    }

    if boardSize > kSize {
      argsValid := false;
    }
    if boardSize <= 0 && argc >= 2 {
      argsValid := false;
    }
    if boardSize > 0 {
      if start.row < 0 || start.row >= boardSize || start.col < 0 || start.col >= boardSize {
        argsValid := false;
      }
    } else if argc >= 2 {
      argsValid := false;
    }

    if argsValid {
      return Some(Args(boardSize, start));
    } else {
      return None;
    }
  }
}
