/** The round of a whack-a-mole game: score, countdown, the running and ended
    flags and the nine holes, with the five updates the game component applies
    to it. Every timer callback is modelled as one atomic step; the random
    draws the component makes are parameters in [0, 1). */
module RoundState {

  const HoleCount: nat := 9
  const RoundSeconds: int := 60
  const HitPoints: int := 10
  /** Chance per spawn-clock tick that a mole is spawned at all. */
  const SpawnChance: real := 0.6

  datatype GameState = GameState(
    score: int,
    timeLeft: int,
    isPlaying: bool,
    gameOver: bool,
    moles: seq<bool>)

  /** What every reachable state satisfies. */
  predicate Valid(s: GameState)
  {
    && |s.moles| == HoleCount
    && 0 <= s.timeLeft <= RoundSeconds
    && 0 <= s.score && s.score % HitPoints == 0
    && (s.gameOver <==> s.timeLeft == 0)
    && (s.gameOver ==> !s.isPlaying)
  }

  /** The countdown part of a state. */
  datatype Clock = Clock(timeLeft: int, isPlaying: bool, gameOver: bool)

  function ClockOf(s: GameState): Clock
  {
    Clock(s.timeLeft, s.isPlaying, s.gameOver)
  }

  /** `moles.map((mole, index) => index === k ? v : mole)` */
  function SetSlot(moles: seq<bool>, k: int, v: bool): (r: seq<bool>)
    ensures r == if 0 <= k < |moles| then moles[k := v] else moles
  {
    seq(|moles|, i requires 0 <= i < |moles| => if i == k then v else moles[i])
  }

  /** The state the component mounts with: nothing running, full clock. */
  function Initial(): (s: GameState)
    ensures Valid(s) && !s.isPlaying && !s.gameOver && s.score == 0
    ensures s.timeLeft == RoundSeconds
    ensures forall i :: 0 <= i < |s.moles| ==> !s.moles[i]
  {
    GameState(0, RoundSeconds, false, false, seq(HoleCount, _ => false))
  }

  /** Starting a round replaces the whole state, whatever it was. */
  function StartGame(): (s: GameState)
    ensures Valid(s) && s.isPlaying && !s.gameOver && s.score == 0
    ensures s.timeLeft == RoundSeconds && |s.moles| == HoleCount
    ensures forall i :: 0 <= i < |s.moles| ==> !s.moles[i]
  {
    GameState(0, RoundSeconds, true, false, seq(HoleCount, _ => false))
  }

  /** One tick of the one-second countdown. */
  function Tick(s: GameState): (r: GameState)
    ensures r.timeLeft >= 0
    ensures r.score == s.score && r.moles == s.moles
    ensures s.timeLeft - 1 > 0 ==> r == s.(timeLeft := s.timeLeft - 1)
    ensures s.timeLeft - 1 <= 0 ==> r.timeLeft == 0 && !r.isPlaying && r.gameOver
    ensures Valid(s) ==> Valid(r)
  {
    var newTimeLeft := s.timeLeft - 1;
    if newTimeLeft <= 0 then s.(timeLeft := 0, isPlaying := false, gameOver := true)
    else s.(timeLeft := newTimeLeft)
  }

  /** The indices of the holes without a mole, in increasing order
      (`moles.map(...).filter(index => index !== -1)`). */
  function AvailableHoles(moles: seq<bool>): (r: seq<nat>)
    ensures forall k :: 0 <= k < |r| ==> r[k] < |moles| && !moles[r[k]]
    ensures forall i :: 0 <= i < |moles| && !moles[i] ==> i in r
    ensures forall k, l :: 0 <= k < l < |r| ==> r[k] < r[l]
  {
    if moles == [] then []
    else
      var n := |moles| - 1;
      AvailableHoles(moles[..n]) + if moles[n] then [] else [n]
  }

  /** A draw in [0, 1) scaled by `n` stays in [0, n). */
  lemma {:induction false} ScaledDrawInRange(random: real, n: nat)
    requires 0.0 <= random < 1.0
    ensures 0.0 <= random * (n as real)
    ensures n > 0 ==> random * (n as real) < n as real
    decreases n
  {
    if n > 0 {
      ScaledDrawInRange(random, n - 1);
      assert random * (n as real) == random * ((n - 1) as real) + random;
    }
  }

  /** `Math.floor(random * n)` for a draw `random` in [0, 1). */
  function PickIndex(random: real, n: nat): (i: int)
    requires 0.0 <= random < 1.0 && n > 0
    ensures 0 <= i < n
  {
    ScaledDrawInRange(random, n);
    (random * (n as real)).Floor
  }

  /** Spawns one mole in a free hole chosen by `random`; nothing happens when
      no round is running or every hole is taken. */
  function SpawnMole(s: GameState, random: real): (r: GameState)
    requires 0.0 <= random < 1.0
    ensures !s.isPlaying || (forall i :: 0 <= i < |s.moles| ==> s.moles[i]) ==> r == s
    ensures s.isPlaying && (exists i :: 0 <= i < |s.moles| && !s.moles[i]) ==>
      exists j :: 0 <= j < |s.moles| && !s.moles[j] && r == s.(moles := s.moles[j := true])
    ensures Valid(s) ==> Valid(r)
  {
    if !s.isPlaying then s
    else
      var holes := AvailableHoles(s.moles);
      if |holes| == 0 then s
      else
        var hole := holes[PickIndex(random, |holes|)];
        s.(moles := SetSlot(s.moles, hole, true))
  }

  /** The draw `k / n` picks index `k`. */
  lemma PickFraction(k: nat, n: nat)
    requires k < n
    ensures 0.0 <= (k as real) / (n as real) < 1.0
    ensures PickIndex((k as real) / (n as real), n) == k
  {
    var random := (k as real) / (n as real);
    assert random * (n as real) == k as real;
  }

  /** The draw reaches every free hole: each one is the hole some value of
      `random` spawns into. */
  lemma EveryFreeHoleCanBeChosen(s: GameState, j: int)
    requires s.isPlaying && 0 <= j < |s.moles| && !s.moles[j]
    ensures exists random :: 0.0 <= random < 1.0 && SpawnMole(s, random) == s.(moles := s.moles[j := true])
  {
    var holes := AvailableHoles(s.moles);
    var k :| 0 <= k < |holes| && holes[k] == j;
    PickFraction(k, |holes|);
    var random := (k as real) / (|holes| as real);
    assert SpawnMole(s, random) == s.(moles := s.moles[j := true]);
  }

  /** The callback of the 800 ms spawn clock: spawn with chance 0.6. */
  function SpawnTick(s: GameState, coin: real, random: real): (r: GameState)
    requires 0.0 <= coin < 1.0 && 0.0 <= random < 1.0
    ensures coin >= SpawnChance || !s.isPlaying || (forall i :: 0 <= i < |s.moles| ==> s.moles[i]) ==> r == s
    ensures coin < SpawnChance && s.isPlaying && (exists i :: 0 <= i < |s.moles| && !s.moles[i]) ==>
      exists j :: 0 <= j < |s.moles| && !s.moles[j] && r == s.(moles := s.moles[j := true])
    ensures Valid(s) ==> Valid(r)
  {
    if coin < SpawnChance then SpawnMole(s, random) else s
  }

  /** The expiry callback of the mole spawned in `hole`: it hides that hole
      whether or not the round is still running. */
  function ExpireMole(s: GameState, hole: int): (r: GameState)
    ensures r.score == s.score && ClockOf(r) == ClockOf(s) && |r.moles| == |s.moles|
    ensures forall i :: 0 <= i < |s.moles| && i != hole ==> r.moles[i] == s.moles[i]
    ensures 0 <= hole < |s.moles| ==> !r.moles[hole]
    ensures !(0 <= hole < |s.moles| && s.moles[hole]) ==> r == s
    ensures Valid(s) ==> Valid(r)
  {
    s.(moles := SetSlot(s.moles, hole, false))
  }

  /** A click on hole `position`: scores and hides the mole if there is one
      and the round is running, otherwise does nothing. */
  function HitMole(s: GameState, position: int): (r: GameState)
    ensures !(0 <= position < |s.moles| && s.moles[position] && s.isPlaying) ==> r == s
    ensures 0 <= position < |s.moles| && s.moles[position] && s.isPlaying ==>
      && r.score == s.score + HitPoints
      && r.moles == s.moles[position := false]
      && ClockOf(r) == ClockOf(s)
    ensures Valid(s) ==> Valid(r)
  {
    if !(0 <= position < |s.moles|) || !s.moles[position] || !s.isPlaying then s
    else s.(score := s.score + HitPoints, moles := SetSlot(s.moles, position, false))
  }

  /** Everything that can happen to the state: a click on the start button,
      a firing of one of the timers, or a click on a hole. */
  datatype Event =
    | Start
    | CountdownTick
    | SpawnClockTick(coin: real, random: real)
    | MoleExpiry(hole: int)
    | Click(position: int)

  predicate WellFormed(e: Event)
  {
    e.SpawnClockTick? ==> 0.0 <= e.coin < 1.0 && 0.0 <= e.random < 1.0
  }

  predicate AllWellFormed(es: seq<Event>)
  {
    forall k :: 0 <= k < |es| ==> WellFormed(es[k])
  }

  predicate NoStart(es: seq<Event>)
  {
    forall k :: 0 <= k < |es| ==> !es[k].Start?
  }

  function Apply(s: GameState, e: Event): (r: GameState)
    requires WellFormed(e)
    ensures Valid(s) || e.Start? ==> Valid(r)
  {
    match e
    case Start => StartGame()
    case CountdownTick => Tick(s)
    case SpawnClockTick(coin, random) => SpawnTick(s, coin, random)
    case MoleExpiry(hole) => ExpireMole(s, hole)
    case Click(position) => HitMole(s, position)
  }

  /** The state after the events `es`, in order. */
  function Run(s: GameState, es: seq<Event>): GameState
    requires AllWellFormed(es)
    decreases es
  {
    if es == [] then s else Run(Apply(s, es[0]), es[1..])
  }

  function TickCount(es: seq<Event>): nat
  {
    if es == [] then 0 else (if es[0].CountdownTick? then 1 else 0) + TickCount(es[1..])
  }

  /** The state after `n` countdown ticks and nothing else. */
  function Ticks(s: GameState, n: nat): GameState
    decreases n
  {
    if n == 0 then s else Ticks(Tick(s), n - 1)
  }

  /** Every reachable state is valid: validity survives any sequence of events. */
  lemma {:induction false} RunPreservesValid(s: GameState, es: seq<Event>)
    requires Valid(s) && AllWellFormed(es)
    ensures Valid(Run(s, es))
    decreases es
  {
    if es != [] {
      RunPreservesValid(Apply(s, es[0]), es[1..]);
    }
  }

  /** Within a round the score never goes down. */
  lemma {:induction false} ScoreNeverDecreases(s: GameState, es: seq<Event>)
    requires AllWellFormed(es) && NoStart(es)
    ensures Run(s, es).score >= s.score
    decreases es
  {
    if es != [] {
      ScoreNeverDecreases(Apply(s, es[0]), es[1..]);
    }
  }

  /** Within a round only the countdown ticks move the clock: spawns, expiries
      and clicks in between do not change it. */
  lemma {:induction false} ClockFollowsTicks(s: GameState, es: seq<Event>)
    requires AllWellFormed(es) && NoStart(es)
    ensures ClockOf(Run(s, es)) == ClockOf(Ticks(s, TickCount(es)))
    decreases es
  {
    if es != [] {
      var e, rest := es[0], es[1..];
      assert WellFormed(e) && !e.Start?;
      assert AllWellFormed(rest) && NoStart(rest);
      var s' := Apply(s, e);
      ClockFollowsTicks(s', rest);
      if e.CountdownTick? {
        assert s' == Tick(s);
        assert TickCount(es) == TickCount(rest) + 1;
        assert Ticks(s, TickCount(es)) == Ticks(s', TickCount(rest));
      } else {
        OnlyTicksMoveClock(s, e);
        assert TickCount(es) == TickCount(rest);
        TicksDependOnClockOnly(s, s', TickCount(rest));
      }
    }
  }

  /** Spawns, expiries and clicks leave the clock as it is. */
  lemma OnlyTicksMoveClock(s: GameState, e: Event)
    requires WellFormed(e) && !e.Start? && !e.CountdownTick?
    ensures ClockOf(Apply(s, e)) == ClockOf(s)
  {
    match e
    case SpawnClockTick(coin, random) =>
    case MoleExpiry(hole) =>
    case Click(position) =>
  }

  lemma {:induction false} TicksDependOnClockOnly(s: GameState, t: GameState, n: nat)
    requires ClockOf(s) == ClockOf(t)
    ensures ClockOf(Ticks(s, n)) == ClockOf(Ticks(t, n))
    decreases n
  {
    if n > 0 {
      TicksDependOnClockOnly(Tick(s), Tick(t), n - 1);
    }
  }

  /** From a valid state the countdown runs out after exactly `timeLeft` ticks. */
  lemma {:induction false} CountdownRunsOut(s: GameState, n: nat)
    requires Valid(s)
    ensures n < s.timeLeft ==> ClockOf(Ticks(s, n)) == ClockOf(s).(timeLeft := s.timeLeft - n)
    ensures n >= s.timeLeft ==> ClockOf(Ticks(s, n)) == Clock(0, false, true)
    decreases n
  {
    if n > 0 {
      CountdownRunsOut(Tick(s), n - 1);
    }
  }

  /** A round lasts exactly 60 countdown ticks, whatever else happens in it:
      before the 60th tick it is running with 60 minus the ticks left, from
      the 60th on it is over. */
  lemma RoundLastsSixtyTicks(es: seq<Event>)
    requires AllWellFormed(es) && NoStart(es)
    ensures var r := Run(StartGame(), es);
      && (TickCount(es) < RoundSeconds ==>
            r.isPlaying && !r.gameOver && r.timeLeft == RoundSeconds - TickCount(es))
      && (TickCount(es) >= RoundSeconds ==> !r.isPlaying && r.gameOver && r.timeLeft == 0)
  {
    ClockFollowsTicks(StartGame(), es);
    CountdownRunsOut(StartGame(), TickCount(es));
  }

  /** Once a round is over, the countdown, the spawn clock and clicks leave the
      state as it is; only a pending expiry can still hide a mole. This is why
      the timers the component leaves running after a zero-score round are
      harmless. */
  lemma EndedRoundIsStable(s: GameState, e: Event)
    requires Valid(s) && s.gameOver && WellFormed(e) && !e.Start?
    ensures !e.MoleExpiry? ==> Apply(s, e) == s
    ensures e.MoleExpiry? ==> var r := Apply(s, e);
      r.score == s.score && ClockOf(r) == ClockOf(s) &&
      forall i :: 0 <= i < |s.moles| && r.moles[i] ==> s.moles[i]
  {
  }

  /** Outside a running round no mole appears. */
  lemma {:induction false} NoSpawnOutsideRound(s: GameState, es: seq<Event>)
    requires Valid(s) && !s.isPlaying && AllWellFormed(es) && NoStart(es)
    ensures var r := Run(s, es);
      !r.isPlaying && |r.moles| == |s.moles| &&
      forall i :: 0 <= i < |s.moles| && r.moles[i] ==> s.moles[i]
    decreases es
  {
    if es != [] {
      var s' := Apply(s, es[0]);
      NoSpawnOutsideRound(s', es[1..]);
    }
  }
}
