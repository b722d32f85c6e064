/** The top-five leaderboard: a new entry is appended, the list is sorted by
    score from highest to lowest (a stable sort, so an entry that ties an
    older one ranks after it) and cut to five entries. The list itself lives
    in browser storage; here it is the value read before and written after. */
module Leaderboard {

  const Capacity: nat := 5

  /** The date is whatever text the browser's locale formatting produced. */
  datatype ScoreEntry = ScoreEntry(name: string, score: int, date: string)

  predicate SortedDesc(s: seq<ScoreEntry>)
  {
    forall i, j :: 0 <= i < j < |s| ==> s[i].score >= s[j].score
  }

  /** The entries of `s` with score `v`, in their order in `s`. */
  function WithScore(s: seq<ScoreEntry>, v: int): seq<ScoreEntry>
  {
    if s == [] then []
    else WithScore(s[..|s| - 1], v) + if s[|s| - 1].score == v then [s[|s| - 1]] else []
  }

  /** How many entries of `s`, counted from the front, an entry with score `v`
      ranks behind: everything up to the last entry scoring at least `v`. */
  function Rank(s: seq<ScoreEntry>, v: int): (p: nat)
    ensures p <= |s|
    ensures forall k :: p <= k < |s| ==> s[k].score < v
    ensures p > 0 ==> s[p - 1].score >= v
  {
    if s == [] then 0
    else if s[|s| - 1].score >= v then |s|
    else Rank(s[..|s| - 1], v)
  }

  /** Places `x` behind the last entry of `s` that scores at least as much. */
  function InsertDesc(s: seq<ScoreEntry>, x: ScoreEntry): (r: seq<ScoreEntry>)
    ensures |r| == |s| + 1
  {
    if s == [] then [x]
    else if s[|s| - 1].score >= x.score then s + [x]
    else InsertDesc(s[..|s| - 1], x) + [s[|s| - 1]]
  }

  /** The stable sort by descending score, as insertion sort from the front. */
  function SortDesc(s: seq<ScoreEntry>): (r: seq<ScoreEntry>)
    ensures |r| == |s|
  {
    if s == [] then [] else InsertDesc(SortDesc(s[..|s| - 1]), s[|s| - 1])
  }

  /** `splice(Capacity)`: drop everything from index five on. */
  function TopFive(s: seq<ScoreEntry>): (r: seq<ScoreEntry>)
    ensures |r| == (if |s| > Capacity then Capacity else |s|) && r == s[..|r|]
    ensures |s| <= Capacity ==> r == s
  {
    if |s| > Capacity then s[..Capacity] else s
  }

  /** The list that is saved after adding `e` to `board`. */
  function AfterAdd(board: seq<ScoreEntry>, e: ScoreEntry): seq<ScoreEntry>
  {
    TopFive(SortDesc(board + [e]))
  }

  /** Whether a finished round's score earns a place on the board: on a
      board kept in order, exactly when the score ranks within the first five. */
  predicate IsTopScore(board: seq<ScoreEntry>, score: int): (top: bool)
    ensures SortedDesc(board) && |board| <= Capacity ==> (top <==> Rank(board, score) < Capacity)
  {
    |board| < Capacity || score > board[|board| - 1].score
  }

  // ---------------------------------------------------------------------
  // The insertion step

  lemma {:induction false} InsertAtRank(s: seq<ScoreEntry>, x: ScoreEntry)
    ensures var p := Rank(s, x.score); InsertDesc(s, x) == s[..p] + [x] + s[p..]
    decreases |s|
  {
    if s != [] && s[|s| - 1].score < x.score {
      var init := s[..|s| - 1];
      InsertAtRank(init, x);
      var p := Rank(s, x.score);
      assert p == Rank(init, x.score);
      assert init[..p] == s[..p];
      assert init[p..] + [s[|s| - 1]] == s[p..];
    }
  }

  /** Where the bubbling-down of `x` stops is exactly its rank. */
  lemma RankIsUnique(s: seq<ScoreEntry>, v: int, j: nat)
    requires j <= |s|
    requires forall k :: j <= k < |s| ==> s[k].score < v
    requires j == 0 || s[j - 1].score >= v
    ensures Rank(s, v) == j
  {
  }

  lemma InsertDescPermutes(s: seq<ScoreEntry>, x: ScoreEntry)
    ensures multiset(InsertDesc(s, x)) == multiset(s) + multiset{x}
  {
    InsertAtRank(s, x);
    var p := Rank(s, x.score);
    var front, back := s[..p], s[p..];
    assert s == front + back;
    assert multiset(s) == multiset(front) + multiset(back);
    assert multiset(front + [x] + back) == multiset(front) + multiset{x} + multiset(back);
  }

  /** An entry placed between the entries scoring at least as much and those
      scoring less keeps a sorted list sorted. */
  lemma SortedAround(s: seq<ScoreEntry>, x: ScoreEntry, p: nat)
    requires SortedDesc(s) && p <= |s|
    requires forall k :: p <= k < |s| ==> s[k].score < x.score
    requires p > 0 ==> s[p - 1].score >= x.score
    ensures SortedDesc(s[..p] + [x] + s[p..])
  {
    var r := s[..p] + [x] + s[p..];
    forall i, j | 0 <= i < j < |r| ensures r[i].score >= r[j].score {
      if j < p {
        assert r[i] == s[i] && r[j] == s[j];
      } else if j == p {
        assert r[i] == s[i] && r[j] == x;
        assert s[i].score >= s[p - 1].score;
      } else if i < p {
        assert r[i] == s[i] && r[j] == s[j - 1];
      } else if i == p {
        assert r[j] == s[j - 1];
      } else {
        assert r[i] == s[i - 1] && r[j] == s[j - 1];
      }
    }
  }

  lemma InsertDescSorted(s: seq<ScoreEntry>, x: ScoreEntry)
    requires SortedDesc(s)
    ensures SortedDesc(InsertDesc(s, x))
  {
    InsertAtRank(s, x);
    SortedAround(s, x, Rank(s, x.score));
  }

  lemma {:induction false} WithScoreAppend(a: seq<ScoreEntry>, b: seq<ScoreEntry>, v: int)
    ensures WithScore(a + b, v) == WithScore(a, v) + WithScore(b, v)
    decreases |b|
  {
    if b == [] {
      assert a + b == a;
    } else {
      var b' := b[..|b| - 1];
      WithScoreAppend(a, b', v);
      assert (a + b)[..|a + b| - 1] == a + b';
    }
  }

  lemma {:induction false} InsertDescStable(s: seq<ScoreEntry>, x: ScoreEntry, v: int)
    ensures WithScore(InsertDesc(s, x), v) == WithScore(s + [x], v)
    decreases |s|
  {
    if s != [] && s[|s| - 1].score < x.score {
      var init, last := s[..|s| - 1], s[|s| - 1];
      assert init + [last] == s;
      // `last` scores less than `x`, so at most one of them has score `v`.
      assert WithScore([last], v) == [] || WithScore([x], v) == [];
      calc {
        WithScore(InsertDesc(s, x), v);
        { assert InsertDesc(s, x) == InsertDesc(init, x) + [last]; }
        WithScore(InsertDesc(init, x) + [last], v);
        { WithScoreAppend(InsertDesc(init, x), [last], v); }
        WithScore(InsertDesc(init, x), v) + WithScore([last], v);
        { InsertDescStable(init, x, v); }
        WithScore(init + [x], v) + WithScore([last], v);
        { WithScoreAppend(init, [x], v); }
        WithScore(init, v) + WithScore([x], v) + WithScore([last], v);
        WithScore(init, v) + WithScore([last], v) + WithScore([x], v);
        { WithScoreAppend(init, [last], v); }
        WithScore(s, v) + WithScore([x], v);
        { WithScoreAppend(s, [x], v); }
        WithScore(s + [x], v);
      }
    }
  }

  // ---------------------------------------------------------------------
  // What the sort promises

  /** The result is ordered by descending score, is a rearrangement of the
      input, and keeps entries of equal score in their input order: the
      three together describe the one result of any stable sort. */
  lemma {:induction false} SortDescIsStableSort(s: seq<ScoreEntry>)
    ensures SortedDesc(SortDesc(s))
    ensures multiset(SortDesc(s)) == multiset(s)
    ensures forall v :: WithScore(SortDesc(s), v) == WithScore(s, v)
    decreases |s|
  {
    if s != [] {
      var init, last := s[..|s| - 1], s[|s| - 1];
      SortDescIsStableSort(init);
      InsertDescPermutes(SortDesc(init), last);
      InsertDescSorted(SortDesc(init), last);
      assert init + [last] == s;
      forall v ensures WithScore(SortDesc(s), v) == WithScore(s, v) {
        InsertDescStable(SortDesc(init), last, v);
        WithScoreAppend(SortDesc(init), [last], v);
        WithScoreAppend(init, [last], v);
      }
    }
  }

  /** Sorting a list that is already in order changes nothing. */
  lemma {:induction false} SortDescOfSorted(s: seq<ScoreEntry>)
    requires SortedDesc(s)
    ensures SortDesc(s) == s
    decreases |s|
  {
    if s != [] {
      var init := s[..|s| - 1];
      SortDescOfSorted(init);
      assert init + [s[|s| - 1]] == s;
    }
  }

  /** Adding to a list kept in order inserts the new entry behind every entry
      that scores at least as much, then cuts to five. */
  lemma AddToSortedBoard(board: seq<ScoreEntry>, e: ScoreEntry)
    requires SortedDesc(board)
    ensures var p := Rank(board, e.score);
      AfterAdd(board, e) == TopFive(board[..p] + [e] + board[p..])
  {
    assert (board + [e])[..|board|] == board;
    SortDescOfSorted(board);
    InsertAtRank(board, e);
  }

  /** The saved board is always in order and never longer than five,
      whatever was read from storage, and holds only entries that were there
      or the new one. */
  lemma AfterAddIsWellFormed(board: seq<ScoreEntry>, e: ScoreEntry)
    ensures var r := AfterAdd(board, e);
      |r| <= Capacity && SortedDesc(r) && multiset(r) <= multiset(board) + multiset{e}
  {
    var sorted := SortDesc(board + [e]);
    SortDescIsStableSort(board + [e]);
    var r := TopFive(sorted);
    assert sorted == r + sorted[|r|..];
    assert multiset(sorted) == multiset(r) + multiset(sorted[|r|..]);
  }

  /** The qualification test agrees with the insert: on a well-formed board,
      a qualifying score is kept at its rank with the entries ahead of it
      untouched, and a score that does not qualify leaves the board as it was.
      A score that only ties the fifth entry does not qualify. */
  lemma TopScoreIffKept(board: seq<ScoreEntry>, e: ScoreEntry)
    requires SortedDesc(board) && |board| <= Capacity
    ensures var p := Rank(board, e.score); var r := AfterAdd(board, e);
      && (IsTopScore(board, e.score) <==> p < Capacity)
      && (IsTopScore(board, e.score) ==> p < |r| && r[p] == e && r[..p] == board[..p])
      && (!IsTopScore(board, e.score) ==> r == board)
  {
    AddToSortedBoard(board, e);
    var p := Rank(board, e.score);
    var inserted := board[..p] + [e] + board[p..];
    if |board| == Capacity && !IsTopScore(board, e.score) {
      assert p == |board|;
      assert inserted[..Capacity] == board;
    } else if IsTopScore(board, e.score) {
      assert p < Capacity;
      assert TopFive(inserted)[..p] == inserted[..p];
    }
  }

  // ---------------------------------------------------------------------
  // The imperative code

  /** The array while `x` is being moved forward: it sits at index `j`
      between the entries of the sorted prefix `prefix`, followed by `rest`. */
  ghost function Placed(prefix: seq<ScoreEntry>, x: ScoreEntry, j: nat, rest: seq<ScoreEntry>): seq<ScoreEntry>
    requires j <= |prefix|
  {
    prefix[..j] + [x] + prefix[j..] + rest
  }

  lemma SwapStep(prefix: seq<ScoreEntry>, x: ScoreEntry, j: nat, rest: seq<ScoreEntry>)
    requires 0 < j <= |prefix|
    ensures var s := Placed(prefix, x, j, rest);
      |s| == |prefix| + 1 + |rest| && s[j] == x && s[j - 1] == prefix[j - 1] &&
      s[j - 1 := x][j := prefix[j - 1]] == Placed(prefix, x, j - 1, rest)
  {
    var s := Placed(prefix, x, j, rest);
    var t := Placed(prefix, x, j - 1, rest);
    assert |s| == |t|;
    forall k | 0 <= k < |s| ensures s[j - 1 := x][j := prefix[j - 1]][k] == t[k] {
      if k < j - 1 {
        assert s[k] == prefix[k] == t[k];
      } else if j < k {
        assert s[k] == t[k];
      }
    }
  }

  /** One pass of the insertion sort: the entry at index `i` is swapped
      forward past every lower score before it. */
  method MoveForward(a: array<ScoreEntry>, i: nat)
    requires i < a.Length
    modifies a
    ensures a[..] == InsertDesc(old(a[..i]), old(a[i])) + old(a[i + 1..])
  {
    ghost var prefix, x, rest := a[..i], a[i], a[i + 1..];
    assert a[..] == Placed(prefix, x, i, rest);
    var j := i;
    while j > 0 && a[j - 1].score < a[j].score
      invariant 0 <= j <= i
      invariant a[..] == Placed(prefix, x, j, rest)
      invariant forall k :: j <= k < i ==> prefix[k].score < x.score
    {
      SwapStep(prefix, x, j, rest);
      a[j - 1], a[j] := a[j], a[j - 1];
      j := j - 1;
    }
    RankIsUnique(prefix, x.score, j);
    InsertAtRank(prefix, x);
  }

  /** One step of the sort: the sorted prefix grows by inserting the next
      input entry, and the array splits into that prefix, the entry and the
      unsorted rest. */
  lemma SortStep(input: seq<ScoreEntry>, i: nat)
    requires i < |input|
    ensures var sorted := SortDesc(input[..i]); var whole := sorted + input[i..];
      && |sorted| == i
      && whole[..i] == sorted && whole[i] == input[i] && whole[i + 1..] == input[i + 1..]
      && SortDesc(input[..i + 1]) == InsertDesc(sorted, input[i])
  {
    assert input[..i + 1][..i] == input[..i];
  }

  /** The in-place `sort((a, b) => b.score - a.score)`: a stable insertion
      sort. */
  method SortByScoreDescending(a: array<ScoreEntry>)
    modifies a
    ensures a[..] == SortDesc(old(a[..]))
  {
    ghost var input := a[..];
    var i := 0;
    while i < a.Length
      invariant 0 <= i <= a.Length
      invariant a[..] == SortDesc(input[..i]) + input[i..]
    {
      SortStep(input, i);
      MoveForward(a, i);
      i := i + 1;
    }
    assert input[..a.Length] == input;
  }

  /** `addToLeaderboard`: push the new entry, sort, keep the first five.
      Returns the list that is written back to storage. */
  method AddToLeaderboard(board: seq<ScoreEntry>, name: string, score: int, date: string)
    returns (saved: seq<ScoreEntry>)
    ensures saved == AfterAdd(board, ScoreEntry(name, score, date))
  {
    var e := ScoreEntry(name, score, date);
    var entries := new ScoreEntry[|board| + 1](i => if 0 <= i < |board| then board[i] else e);
    assert entries[..] == board + [e];
    SortByScoreDescending(entries);
    if entries.Length > Capacity {
      saved := entries[..Capacity];
    } else {
      saved := entries[..];
    }
  }
}
