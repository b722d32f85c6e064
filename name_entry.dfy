/** What happens when a round ends: the name prompt for a qualifying score
    and the submission of the typed name, which is trimmed of surrounding
    white space and must not be blank. */
module NameEntry {
  import opened RoundState
  import opened Leaderboard

  /** The characters `String.prototype.trim` removes: the ECMAScript
      white space (tab, vertical tab, form feed, space, no-break space, the
      byte order mark and the other space separators) and the line
      terminators. */
  predicate IsJsSpace(c: char)
  {
    var n := c as int;
    || n == 0x09 || n == 0x0A || n == 0x0B || n == 0x0C || n == 0x0D
    || n == 0x20 || n == 0xA0 || n == 0x1680
    || (0x2000 <= n <= 0x200A)
    || n == 0x2028 || n == 0x2029 || n == 0x202F || n == 0x205F
    || n == 0x3000 || n == 0xFEFF
  }

  predicate AllSpace(s: string)
  {
    forall k :: 0 <= k < |s| ==> IsJsSpace(s[k])
  }

  /** The index of the first non-space character of `s` at or after `i`,
      or `|s|` when there is none: where the leading white space ends. */
  function FirstNonSpace(s: string, i: nat): (j: nat)
    requires i <= |s|
    ensures i <= j <= |s|
    ensures forall k :: i <= k < j ==> IsJsSpace(s[k])
    ensures j < |s| ==> !IsJsSpace(s[j])
    decreases |s| - i
  {
    if i < |s| && IsJsSpace(s[i]) then FirstNonSpace(s, i + 1) else i
  }

  /** The end of the last non-space character of `s` before `j` and not
      before `lo`, or `lo` when there is none: where the trailing white space
      starts. */
  function EndOfNonSpace(s: string, lo: nat, j: nat): (i: nat)
    requires lo <= j <= |s|
    ensures lo <= i <= j
    ensures forall k :: i <= k < j ==> IsJsSpace(s[k])
    ensures i > lo ==> !IsJsSpace(s[i - 1])
    decreases j
  {
    if j > lo && IsJsSpace(s[j - 1]) then EndOfNonSpace(s, lo, j - 1) else j
  }

  /** `s.trim()`: the part of `s` between the leading and trailing white
      space, which neither starts nor ends with white space. */
  function Trim(s: string): (r: string)
    ensures exists i, j :: 0 <= i <= j <= |s| && r == s[i..j] && AllSpace(s[..i]) && AllSpace(s[j..])
    ensures r == [] || (!IsJsSpace(r[0]) && !IsJsSpace(r[|r| - 1]))
  {
    var i := FirstNonSpace(s, 0);
    var j := EndOfNonSpace(s, i, |s|);
    assert AllSpace(s[..i]) by {
      forall k | 0 <= k < i ensures IsJsSpace(s[..i][k]) {
        assert s[..i][k] == s[k];
      }
    }
    assert AllSpace(s[j..]) by {
      forall k | 0 <= k < |s| - j ensures IsJsSpace(s[j..][k]) {
        assert s[j..][k] == s[j + k];
      }
    }
    s[i..j]
  }

  /** The name is blank exactly when it is white space throughout. */
  lemma TrimIsEmptyIffBlank(s: string)
    ensures Trim(s) == [] <==> AllSpace(s)
  {
    var i := FirstNonSpace(s, 0);
    var j := EndOfNonSpace(s, i, |s|);
    assert Trim(s) == s[i..j];
    if AllSpace(s) {
      assert i == |s|;
    } else if i == j {
      assert false;
    }
  }

  /** Trimming a trimmed name changes nothing: the stored name is its own
      trimmed form. */
  lemma TrimIdempotent(s: string)
    ensures Trim(Trim(s)) == Trim(s)
  {
    var t := Trim(s);
    if t != [] {
      assert FirstNonSpace(t, 0) == 0;
      assert EndOfNonSpace(t, 0, |t|) == |t|;
      assert t[0..|t|] == t;
    }
  }

  /** The effect run when the round state changes: the name prompt opens
      when the round is over with a positive score that qualifies. */
  predicate ShowsNamePrompt(s: GameState, board: seq<ScoreEntry>): (shown: bool)
    ensures shown && Valid(s) ==> !s.isPlaying && s.timeLeft == 0 && s.score >= HitPoints
    ensures shown && SortedDesc(board) && |board| <= Capacity ==> Rank(board, s.score) < Capacity
  {
    s.gameOver && s.score > 0 && IsTopScore(board, s.score)
  }

  /** `handleNameSubmit`: a blank name submits nothing; otherwise the trimmed
      name and the round's score are added and the new board is returned. */
  method HandleNameSubmit(board: seq<ScoreEntry>, s: GameState, playerName: string, date: string)
    returns (submitted: bool, saved: seq<ScoreEntry>)
    ensures submitted <==> !AllSpace(playerName)
    ensures submitted ==> saved == AfterAdd(board, ScoreEntry(Trim(playerName), s.score, date))
    ensures !submitted ==> saved == board
    ensures submitted ==> var name := Trim(playerName);
      name != [] && !IsJsSpace(name[0]) && !IsJsSpace(name[|name| - 1])
  {
    var name := Trim(playerName);
    TrimIsEmptyIffBlank(playerName);
    if name != [] {
      saved := AddToLeaderboard(board, name, s.score, date);
      submitted := true;
    } else {
      saved := board;
      submitted := false;
    }
  }

  /** The prompt and the insert agree: when the prompt opens on a
      well-formed board and a non-blank name is submitted, the new entry
      lands on the board at its rank, under the trimmed name and the round's
      score. */
  lemma PromptedScoreIsKept(board: seq<ScoreEntry>, s: GameState, playerName: string, date: string)
    requires SortedDesc(board) && |board| <= Capacity
    requires ShowsNamePrompt(s, board) && !AllSpace(playerName)
    ensures var e := ScoreEntry(Trim(playerName), s.score, date);
      var p := Rank(board, s.score); var r := AfterAdd(board, e);
      p < Capacity && p < |r| && r[p] == e && r[..p] == board[..p]
  {
    TopScoreIffKept(board, ScoreEntry(Trim(playerName), s.score, date));
  }

  /** Once the prompt is open, nothing but a new round can change the score
      it was opened for, so the score submitted is the one that qualified. */
  lemma {:induction false} PromptScoreIsStable(s: GameState, es: seq<Event>)
    requires Valid(s) && s.gameOver && AllWellFormed(es) && NoStart(es)
    ensures Run(s, es).score == s.score && Run(s, es).gameOver
    decreases es
  {
    if es != [] {
      EndedRoundIsStable(s, es[0]);
      PromptScoreIsStable(Apply(s, es[0]), es[1..]);
    }
  }
}
