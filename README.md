# Whack-a-mole game logic in Dafny

This project models the game logic of the `WhackAMoleGame` React component
(`src/components/WhackAMoleGame.tsx`) with React, timers and browser storage
stripped away. Two pieces remain.

- **The round** (`round_state.dfy`, module `RoundState`). The state is a
  `GameState` value: `score`, `timeLeft`, `isPlaying`, `gameOver` and the nine
  holes `moles`. The component updates it with five pure updaters, and each is
  a function here: `StartGame`, the one-second countdown `Tick`, `SpawnMole`
  (with the 800 ms spawn-clock callback `SpawnTick` around it), the per-mole
  expiry callback `ExpireMole`, and `HitMole`. A timer firing is one atomic
  event (`Event`, `Apply`, `Run`), not a schedule. Each `Math.random()` draw is
  a real parameter in [0, 1): the spawn coin and the index draw
  `Math.floor(random * n)`. The lemmas prove the following over any sequence of
  events:
  - every reachable state is `Valid`;
  - the score never goes down within a round;
  - the clock depends only on the number of countdown ticks;
  - a round lasts exactly 60 ticks;
  - an ended round keeps its score and clock, and only a pending expiry can
    still empty a hole;
  - no mole appears outside a running round.
- **The leaderboard** (`leaderboard.dfy`, module `Leaderboard`).
  `addToLeaderboard` pushes the new entry, sorts the array in place by
  descending score and cuts it to five. Here that is the method
  `AddToLeaderboard`. It uses an in-place stable insertion sort on an array
  (`SortByScoreDescending`), which is proved equal to the functional insertion
  sort `SortDesc`. `SortDesc` is then proved to be a stable sort: it is sorted,
  it is a permutation, and entries with the same score keep their order. A
  stable sort has only one possible result, so this is the result of
  JavaScript's stable `Array.prototype.sort`. `IsTopScore` is proved to agree
  with the insert. On a sorted board of at most five entries, a qualifying
  score is kept at its rank, and a score that does not qualify leaves the
  board unchanged. A score that only ties the fifth entry does not qualify,
  because the stable sort puts it after the older entry.
- **The end of a round** (`name_entry.dfy`, module `NameEntry`). This covers
  the prompt the end-of-round effect opens, and `handleNameSubmit`. It
  includes `String.prototype.trim` over the ECMAScript white-space and
  line-terminator characters.

Three facts about the component shape the model:
- It has no pause/resume, no moving hole layout and no difficulty clock.
- Entries with equal scores are ordered oldest first, by the stable sort at
  line 75.
- The expiry callback at line 132 does not check `isPlaying`, so it still
  runs after the round has ended.

## Model

| member | source | states |
|---|---|---|
| `RoundState.Initial` | src/components/WhackAMoleGame.tsx:32-39 | the mounted state is valid, not running, not over, score 0, full 60-second clock, every hole empty |
| `RoundState.StartGame` | src/components/WhackAMoleGame.tsx:182-189 | a new round is valid and running, not over, score 0, clock 60, all nine holes empty, whatever the state was before |
| `RoundState.Tick` | src/components/WhackAMoleGame.tsx:202-208 | if `timeLeft - 1 > 0` only `timeLeft` drops by one; otherwise the round ends with `timeLeft` 0, not running, over; `timeLeft` is never negative afterwards; score and holes untouched; validity kept |
| `RoundState.AvailableHoles` | src/components/WhackAMoleGame.tsx:121-123 | yields exactly the indices of the empty holes, each once, in increasing order |
| `RoundState.PickIndex` | src/components/WhackAMoleGame.tsx:127 | `Math.floor(random * n)` for a draw in [0, 1) is a valid index below `n` |
| `RoundState.SpawnMole` | src/components/WhackAMoleGame.tsx:117-144 | when no round runs or every hole is taken the state is unchanged; otherwise exactly one empty hole gets a mole and score, clock and the other holes are unchanged; validity kept |
| `RoundState.EveryFreeHoleCanBeChosen` | src/components/WhackAMoleGame.tsx:121-127 | every empty hole of a running round is the one spawned into for some draw in [0, 1) |
| `RoundState.SpawnTick` | src/components/WhackAMoleGame.tsx:221-225 | with a coin of 0.6 or more, outside a running round, or with every hole taken, the state is unchanged; otherwise exactly one empty hole gets a mole and nothing else changes; validity kept |
| `RoundState.ExpireMole` | src/components/WhackAMoleGame.tsx:131-135 | empties the given hole and no other, leaves score and clock alone; a hole already emptied (by a hit) means no change at all; validity kept |
| `RoundState.HitMole` | src/components/WhackAMoleGame.tsx:148-161 | a click on an empty or out-of-range hole, or outside a running round, changes nothing; otherwise the score rises by exactly 10, that hole empties, the other holes and the clock are unchanged; validity kept |
| `RoundState.Apply` | src/components/WhackAMoleGame.tsx:117-209 | any single event keeps a valid state valid (nine holes, clock within 0..60, score a non-negative multiple of 10, over exactly when the clock is 0, never running when over), and a start makes any state valid |
| `RoundState.RunPreservesValid` | src/components/WhackAMoleGame.tsx:117-209 | validity holds after any sequence of events |
| `RoundState.ScoreNeverDecreases` | src/components/WhackAMoleGame.tsx:157-161 | within a round (no start event) the score never decreases |
| `RoundState.ClockFollowsTicks` | src/components/WhackAMoleGame.tsx:201-209 | within a round, the clock after any events equals the clock after just their countdown ticks |
| `RoundState.CountdownRunsOut` | src/components/WhackAMoleGame.tsx:202-208 | from a valid state, fewer than `timeLeft` ticks lower the clock by their number and keep the round as it was; `timeLeft` or more end it |
| `RoundState.RoundLastsSixtyTicks` | src/components/WhackAMoleGame.tsx:182-209 | after a start, the round runs with `60 - ticks` left until the 60th tick and is over from then on, whatever spawns, expiries and clicks happen in between |
| `RoundState.EndedRoundIsStable` | src/components/WhackAMoleGame.tsx:117-208 | on an ended round, ticks, spawn-clock ticks and clicks change nothing and an expiry only empties a hole, so timers left running after a zero-score round (line 234) are harmless |
| `RoundState.NoSpawnOutsideRound` | src/components/WhackAMoleGame.tsx:119 | outside a running round no event but a start puts a mole in any hole |
| `Leaderboard.TopFive` | src/components/WhackAMoleGame.tsx:76 | `splice(5)` keeps a prefix of at most five entries, all of it when there are no more than five |
| `Leaderboard.InsertAtRank` | src/components/WhackAMoleGame.tsx:74-75 | inserting an entry puts it directly behind the last entry that scores at least as much, every other entry in its place |
| `Leaderboard.SortDescIsStableSort` | src/components/WhackAMoleGame.tsx:75 | the sort's result is ordered by descending score, a permutation of its input, and keeps the entries of each score in input order |
| `Leaderboard.SortDescOfSorted` | src/components/WhackAMoleGame.tsx:75 | sorting an already ordered list leaves it unchanged |
| `Leaderboard.MoveForward` | src/components/WhackAMoleGame.tsx:75 | one insertion-sort pass swaps the entry at `i` forward past the lower scores and leaves the rest of the array as it was |
| `Leaderboard.SortByScoreDescending` | src/components/WhackAMoleGame.tsx:75 | the in-place sort leaves the array equal to the stable descending sort of its old contents |
| `Leaderboard.AddToSortedBoard` | src/components/WhackAMoleGame.tsx:74-76 | on an ordered board, adding an entry inserts it at its rank and cuts to five |
| `Leaderboard.AfterAddIsWellFormed` | src/components/WhackAMoleGame.tsx:74-76 | whatever board was read, the saved one is ordered by descending score, holds at most five entries, and only entries from the old board or the new one |
| `Leaderboard.AddToLeaderboard` | src/components/WhackAMoleGame.tsx:66-79 | the saved board is the first five entries of the stable descending sort of the old board with the new entry appended |
| `Leaderboard.IsTopScore` | src/components/WhackAMoleGame.tsx:81-84 | on an ordered board of at most five, a score qualifies exactly when its rank is below five |
| `Leaderboard.TopScoreIffKept` | src/components/WhackAMoleGame.tsx:81-84 | on an ordered board of at most five, `isTopScore` holds exactly when the new entry's rank is below five; then the entry is saved at that rank behind the untouched higher entries, otherwise the board is unchanged |
| `NameEntry.FirstNonSpace` | src/components/WhackAMoleGame.tsx:249 | the leading white space ends at the first non-space character, or at the end when there is none |
| `NameEntry.EndOfNonSpace` | src/components/WhackAMoleGame.tsx:249 | the trailing white space starts right after the last non-space character that is not inside the leading white space |
| `NameEntry.Trim` | src/components/WhackAMoleGame.tsx:249-250 | `trim()` is a contiguous part of the name with only white space around it, and it neither starts nor ends with white space |
| `NameEntry.TrimIsEmptyIffBlank` | src/components/WhackAMoleGame.tsx:249 | the trimmed name is empty exactly when the name is white space throughout |
| `NameEntry.TrimIdempotent` | src/components/WhackAMoleGame.tsx:250 | the stored name is its own trimmed form |
| `NameEntry.ShowsNamePrompt` | src/components/WhackAMoleGame.tsx:233-245 | the end-of-round effect opens the prompt only for a round that is over (not running, clock 0) with a positive score, and on an ordered board of at most five only for a score that ranks within the first five |
| `NameEntry.HandleNameSubmit` | src/components/WhackAMoleGame.tsx:248-256 | submits exactly when the name is not blank; then it saves the board with the trimmed, non-blank name and the round's score added, otherwise the board is unchanged |
| `NameEntry.PromptedScoreIsKept` | src/components/WhackAMoleGame.tsx:233-250 | when the prompt opens for a positive final score on a well-formed board and a name is submitted, the entry lands at its rank on the saved board |
| `NameEntry.PromptScoreIsStable` | src/components/WhackAMoleGame.tsx:233-250 | after a round is over, no event but a new start changes the score, so the score submitted is the one that qualified |

## Left out

- Browser storage (lines 56-64): `localStorage` and the JSON encoding are
  input and output. The board read before an operation is a parameter, and
  the board written after it is the result.
- The entry date (line 71): `toLocaleDateString()` depends on the clock and
  the locale. It is an opaque `date` string parameter.
- Custom image upload (lines 87-114): `FileReader`, the 5 MB limit and the
  data URL are browser input and output.
- Timer scheduling and timer handles (lines 131, 138, 152-154, 195-198,
  201, 212, 221-227, 236-238, 259-265): each callback is one atomic event, in
  any order. Clearing handles is not modelled. In particular, the spawn
  interval stored at slot 0 of the handle array (line 227) can be overwritten
  by a mole timer (line 138). That would leave the interval running after a
  restart, and this model does not capture it.
- `boardScale` (lines 17, 38, 188, 211-218): it is floating-point arithmetic
  used only for presentation.
- Hit effects, score pop-ups and toasts (lines 163-177, 229, 254): these are
  transient UI events.
- Dialog state (`showNamePrompt`, `showLeaderboard`, `playerName` reset;
  lines 242, 251-253) and all JSX rendering: this is presentation only.
- `RoundState.HitMole`: the component checks its guard against the last
  rendered state (line 149) and applies the update to the latest state
  (line 157). The model reads one state for both, so a double click handled
  before React re-renders is not captured.
- `RoundState.SpawnMole`: the draw is an exact real in [0, 1), so the model
  has no double-precision rounding in `random * n`. Only the reachability of
  every free hole is stated, not the uniform distribution. React calling an
  updater twice in strict mode is not modelled either. That matters here
  because the updater schedules a timer.
- Scores and times are JavaScript numbers. They are modelled as unbounded
  integers because the game only produces small whole numbers.
- `tailwind.config.ts` is not part of this model: it is styling configuration
  and holds no logic.
