/**
 * The session state machine of the game (GameStateManager.ts): play, pause,
 * resume and game over, the score, the cleared-line count, the level and the
 * fall delay that depends on it, plus the state-change listeners.
 *
 * The wall clock (`Date.now()`) is a parameter `now` of the operations that
 * read it. Listener callbacks are identified by numbers; what a notification
 * does is recorded as a log of deliveries.
 */
module Progress {
  import opened Types
  import opened Lists

  /** The configuration used when the caller overrides nothing. */
  const DefaultConfig := GameConfig(20, 30, 1000, 50, 10, 100, 30)

  /** The listener group every notification reaches. */
  const StateChange := "stateChange"
  /** The listener group notified while the game is over. */
  const GameOverGroup := "gameOver"

  function Max(a: int, b: int): int { if a < b then b else a }

  /** `Math.floor(lines / 10) + 1`: the level the cleared lines entitle the player to. */
  function LevelFor(lines: int): int { lines / 10 + 1 }

  /**
   * The delay between two falls at `level`: the configured initial delay at level 1,
   * then shortened by one increment per level but never below 100 ms.
   */
  function FallDelay(config: GameConfig, level: int): (d: int)
    ensures level == 1 ==> d == config.initialFallSpeed
    ensures level != 1 ==> d >= 100 && d >= config.initialFallSpeed - (level - 1) * config.fallSpeedIncrement
    ensures level != 1 ==> d == 100 || d == config.initialFallSpeed - (level - 1) * config.fallSpeedIncrement
  {
    if level == 1 then config.initialFallSpeed
    else Max(100, config.initialFallSpeed - (level - 1) * config.fallSpeedIncrement)
  }

  /**
   * A higher level never waits longer between falls. From level 1 this needs an
   * initial delay of at least the 100 ms floor, since level 2 is clamped up to it.
   */
  lemma FallDelayNeverGrows(config: GameConfig, l1: int, l2: int)
    requires config.fallSpeedIncrement >= 0
    requires 1 <= l1 <= l2
    requires l1 == 1 ==> config.initialFallSpeed >= 100
    ensures FallDelay(config, l2) <= FallDelay(config, l1)
  {
    assert (l2 - 1) * config.fallSpeedIncrement >= (l1 - 1) * config.fallSpeedIncrement by {
      assert (l2 - 1) * config.fallSpeedIncrement
          == (l1 - 1) * config.fallSpeedIncrement + (l2 - l1) * config.fallSpeedIncrement;
    }
  }

  /** With an initial delay under the 100 ms floor, level 2 waits longer than level 1. */
  lemma FallDelayGrowsBelowFloor(config: GameConfig)
    requires config.initialFallSpeed < 100
    ensures FallDelay(config, 1) < FallDelay(config, 2)
  {
  }

  /** `isPlaying()`: playing, not paused and not over. */
  predicate Running(s: GameState) {
    s.isPlaying && !s.isPaused && !s.isGameOver
  }

  /**
   * The level bookkeeping every reachable state keeps: the level starts at 1, rises
   * only within `maxLevel`, never exceeds what the cleared lines entitle to, and the
   * fall delay is the one for the level.
   */
  predicate Leveled(s: GameState, config: GameConfig) {
    && 0 <= s.linesCleared
    && 1 <= s.currentLevel <= LevelFor(s.linesCleared)
    && (s.currentLevel == 1 || s.currentLevel <= config.maxLevel)
    && s.fallSpeed == FallDelay(config, s.currentLevel)
  }

  /** The state a new session starts from. */
  function InitialState(config: GameConfig): (s: GameState)
    ensures Leveled(s, config) && !Running(s) && !s.isGameOver
    ensures s.score == 0 && s.linesCleared == 0 && s.currentPattern == [] && s.timeElapsed == 0
  {
    GameState(false, false, false, 1, 0, 0, "", config.initialFallSpeed, 0)
  }

  /** One level up: the level rises by one and the fall delay follows it. */
  function LeveledUp(s: GameState, config: GameConfig): GameState {
    s.(currentLevel := s.currentLevel + 1,
       fallSpeed := Max(100, config.initialFallSpeed - s.currentLevel * config.fallSpeedIncrement))
  }

  /** Whether crediting `lines` more cleared lines to `s` triggers a level up. */
  predicate LevelsUp(s: GameState, config: GameConfig, lines: int) {
    var newLevel := LevelFor(s.linesCleared + lines);
    newLevel > s.currentLevel && newLevel <= config.maxLevel
  }

  /** The state after `addLinesCleared(lines)`. */
  function AfterLines(s: GameState, config: GameConfig, lines: int): (t: GameState)
    ensures t.linesCleared == s.linesCleared + lines
    ensures t.score == s.score + lines * config.scorePerLine
    ensures t.currentLevel == (if LevelsUp(s, config, lines) then s.currentLevel + 1 else s.currentLevel)
    ensures t == s.(linesCleared := t.linesCleared, score := t.score,
                    currentLevel := t.currentLevel, fallSpeed := t.fallSpeed)
    ensures Leveled(s, config) && lines >= 0 ==> Leveled(t, config)
  {
    var credited := s.(linesCleared := s.linesCleared + lines,
                       score := s.score + lines * config.scorePerLine);
    if LevelsUp(s, config, lines) then LeveledUp(credited, config) else credited
  }

  /**
   * The level can lag behind the cleared lines: one call raises it by one level
   * even when the lines it credits entitle the player to more.
   */
  lemma LevelLagsBehindLines()
    ensures var t := AfterLines(InitialState(DefaultConfig), DefaultConfig, 25);
            t.currentLevel == 2 && LevelFor(t.linesCleared) == 3
  {
  }

  /**
   * `calculateMatchScore`: `scorePerMatch` per matched cell plus, when more cells
   * matched than the pattern has characters, a bonus of ten times that ratio,
   * rounded down. A pattern of length 0 with matched cells divides by zero in the
   * source and is excluded here (see `MatchScoreAsWritten`).
   */
  function CalculateMatchScore(config: GameConfig, matchLength: nat, patternLength: nat): (score: int)
    requires patternLength > 0 || matchLength == 0
    ensures var bonus := score - matchLength * config.scorePerMatch;
            && (matchLength <= patternLength ==> bonus == 0)
            && (matchLength > patternLength ==>
                  bonus >= 10 && bonus * patternLength <= 10 * matchLength < (bonus + 1) * patternLength)
  {
    var base := matchLength * config.scorePerMatch;
    if matchLength > patternLength then
      var bonus := (10 * matchLength) / patternLength;
      assert bonus >= 10 by {
        assert 10 * matchLength >= 10 * patternLength;
        DivMonotone(10 * patternLength, 10 * matchLength, patternLength);
      }
      base + bonus
    else base
  }

  lemma DivMonotone(a: nat, b: nat, d: nat)
    requires d > 0 && a <= b
    ensures a / d <= b / d
  {
    var qa, qb := a / d, b / d;
    if qa > qb {
      assert qa * d >= (qb + 1) * d by {
        MulLeq(qb + 1, qa, d);
      }
      assert false;
    }
  }

  lemma MulLeq(x: nat, y: nat, d: nat)
    requires x <= y
    ensures x * d <= y * d
  {
  }

  /** The two worked examples of the scoring rule, under the default configuration. */
  lemma DefaultMatchScores()
    ensures CalculateMatchScore(DefaultConfig, 6, 2) == 90
    ensures CalculateMatchScore(DefaultConfig, 2, 2) == 20
    ensures CalculateMatchScore(DefaultConfig, 3, 2) == 45
  {
  }

  /**
   * `calculateMatchScore` as the source computes it over floating point, with
   * `None` standing for the non-finite result (`Infinity`) that a zero pattern
   * length produces as soon as one cell matched.
   */
  function MatchScoreAsWritten(config: GameConfig, matchLength: nat, patternLength: nat): (r: Option<int>)
    ensures r.None? <==> patternLength == 0 && matchLength > 0
    ensures r.Some? ==> r.value == CalculateMatchScore(config, matchLength, patternLength)
  {
    if matchLength > patternLength && patternLength == 0 then None
    else Some(CalculateMatchScore(config, matchLength, patternLength))
  }

  /** One call of a listener: who was called, with which copy of the state. */
  datatype Delivery = Delivery(listener: nat, state: GameState)

  /** The handle `subscribe` returns: calling it unsubscribes that callback from that group. */
  datatype Unsubscriber = Unsubscriber(group: string, listener: nat)

  /** The callbacks registered under `group`, in subscription order. */
  function Group(listeners: map<string, seq<nat>>, group: string): seq<nat> {
    if group in listeners then listeners[group] else []
  }

  /** Each callback of `cbs`, in order, called with `s`. */
  function Calls(cbs: seq<nat>, s: GameState): (ds: seq<Delivery>)
    ensures |ds| == |cbs|
    ensures forall i :: 0 <= i < |cbs| ==> ds[i] == Delivery(cbs[i], s)
  {
    if cbs == [] then [] else Calls(cbs[..|cbs| - 1], s) + [Delivery(cbs[|cbs| - 1], s)]
  }

  /** What one `notifyListeners()` delivers for the state `s`. */
  function Notification(listeners: map<string, seq<nat>>, s: GameState): seq<Delivery> {
    Calls(Group(listeners, StateChange), s) + (if s.isGameOver then Calls(Group(listeners, GameOverGroup), s) else [])
  }

  /**
   * Every notification reaches each state-change listener once per registration and
   * in subscription order, then every game-over listener if and only if the game is
   * over; all of them see the same state.
   */
  lemma NotificationAudience(listeners: map<string, seq<nat>>, s: GameState)
    ensures var n := Notification(listeners, s);
            var sc := Group(listeners, StateChange);
            && |n| == |sc| + (if s.isGameOver then |Group(listeners, GameOverGroup)| else 0)
            && (forall i :: 0 <= i < |sc| ==> n[i] == Delivery(sc[i], s))
            && (forall d :: d in n ==> d.state == s)
            && (s.isGameOver ==> forall cb :: cb in Group(listeners, GameOverGroup) ==> Delivery(cb, s) in n)
            && (!s.isGameOver ==> n == Calls(sc, s))
  {
    var n := Notification(listeners, s);
    var sc := Group(listeners, StateChange);
    var go := Group(listeners, GameOverGroup);
    forall d | d in n
      ensures d.state == s
    {
      var i :| 0 <= i < |n| && n[i] == d;
      if i >= |sc| {
        assert n[i] == Calls(go, s)[i - |sc|];
      }
    }
    if s.isGameOver {
      forall cb | cb in go
        ensures Delivery(cb, s) in n
      {
        var j :| 0 <= j < |go| && go[j] == cb;
        assert n[|sc| + j] == Delivery(cb, s);
      }
    }
  }

  class GameStateManager {
    var state: GameState
    const config: GameConfig
    var startTime: int
    var pausedTime: int
    var listeners: map<string, seq<nat>>
    /** Every listener call made so far, oldest first. */
    var log: seq<Delivery>
    /** When the current session started, and how long it has spent paused in total. */
    ghost var sessionStart: int
    ghost var pausedTotal: int

    ghost predicate Valid()
      reads this
    {
      && Leveled(state, config)
      && (state.isGameOver ==> !state.isPlaying)
      && startTime == sessionStart + pausedTotal
    }

    /**
     * `isPlaying()`. A lost session is never playing, so while the invariant
     * holds the game runs exactly when it was started and is not paused.
     */
    function IsPlaying(): (b: bool)
      reads this
      ensures b ==> !state.isGameOver
      ensures Valid() ==> (b <==> state.isPlaying && !state.isPaused)
    {
      Running(state)
    }

    constructor(config: GameConfig)
      ensures Valid()
      ensures this.config == config && state == InitialState(config)
      ensures startTime == 0 && pausedTime == 0 && listeners == map[] && log == []
    {
      this.config := config;
      state := InitialState(config);
      startTime := 0;
      pausedTime := 0;
      listeners := map[];
      log := [];
      sessionStart := 0;
      pausedTotal := 0;
    }

    /** Calls the state-change listeners, then, if the game is over, the game-over listeners. */
    method NotifyListeners()
      modifies this
      ensures log == old(log) + Notification(listeners, state)
      ensures state == old(state) && listeners == old(listeners)
      ensures startTime == old(startTime) && pausedTime == old(pausedTime)
      ensures sessionStart == old(sessionStart) && pausedTotal == old(pausedTotal)
    {
      var stateListeners := Group(listeners, StateChange);
      for i := 0 to |stateListeners|
        invariant log == old(log) + Calls(stateListeners[..i], state)
        invariant state == old(state) && listeners == old(listeners)
        invariant startTime == old(startTime) && pausedTime == old(pausedTime)
        invariant sessionStart == old(sessionStart) && pausedTotal == old(pausedTotal)
      {
        assert stateListeners[..i + 1][..i] == stateListeners[..i];
        log := log + [Delivery(stateListeners[i], state)];
      }
      assert stateListeners[..|stateListeners|] == stateListeners;
      if state.isGameOver {
        var overListeners := Group(listeners, GameOverGroup);
        ghost var mid := log;
        for i := 0 to |overListeners|
          invariant log == mid + Calls(overListeners[..i], state)
          invariant state == old(state) && listeners == old(listeners)
          invariant startTime == old(startTime) && pausedTime == old(pausedTime)
          invariant sessionStart == old(sessionStart) && pausedTotal == old(pausedTotal)
        {
          assert overListeners[..i + 1][..i] == overListeners[..i];
          log := log + [Delivery(overListeners[i], state)];
        }
        assert overListeners[..|overListeners|] == overListeners;
      }
    }

    /** A new session: the initial state, playing, timed from `now`. */
    method StartGame(now: int)
      requires Valid()
      modifies this
      ensures Valid() && IsPlaying()
      ensures state == InitialState(config).(isPlaying := true)
      ensures startTime == now && pausedTime == old(pausedTime) && listeners == old(listeners)
      ensures sessionStart == now && pausedTotal == 0
      ensures log == old(log) + Notification(listeners, state)
    {
      state := InitialState(config).(isPlaying := true);
      startTime := now;
      sessionStart := now;
      pausedTotal := 0;
      NotifyListeners();
    }

    /** Pauses a running game at `now`; does nothing otherwise. */
    method PauseGame(now: int)
      requires Valid()
      modifies this
      ensures Valid() && !IsPlaying()
      ensures if old(state.isPlaying && !state.isPaused) then
                && state == old(state).(isPaused := true) && pausedTime == now
                && log == old(log) + Notification(listeners, state)
              else
                state == old(state) && pausedTime == old(pausedTime) && log == old(log)
      ensures startTime == old(startTime) && listeners == old(listeners)
      ensures sessionStart == old(sessionStart) && pausedTotal == old(pausedTotal)
    {
      if state.isPlaying && !state.isPaused {
        state := state.(isPaused := true);
        pausedTime := now;
        NotifyListeners();
      }
    }

    /**
     * Resumes a paused game at `now`. The start time moves forward by the length of
     * the pause, which is added to the session's total paused time.
     */
    method ResumeGame(now: int)
      requires Valid()
      modifies this
      ensures Valid()
      ensures if old(state.isPlaying && state.isPaused) then
                && state == old(state).(isPaused := false)
                && startTime == old(startTime) + (now - old(pausedTime))
                && pausedTotal == old(pausedTotal) + (now - old(pausedTime))
                && log == old(log) + Notification(listeners, state)
              else
                state == old(state) && startTime == old(startTime) && pausedTotal == old(pausedTotal)
                && log == old(log)
      ensures pausedTime == old(pausedTime) && listeners == old(listeners)
      ensures sessionStart == old(sessionStart)
    {
      if state.isPlaying && state.isPaused {
        state := state.(isPaused := false);
        var pauseDuration := now - pausedTime;
        startTime := startTime + pauseDuration;
        pausedTotal := pausedTotal + pauseDuration;
        NotifyListeners();
      }
    }

    /** Ends the session, whatever state it is in. */
    method EndGame()
      requires Valid()
      modifies this
      ensures Valid() && !IsPlaying()
      ensures state == old(state).(isPlaying := false, isGameOver := true)
      ensures startTime == old(startTime) && pausedTime == old(pausedTime) && listeners == old(listeners)
      ensures sessionStart == old(sessionStart) && pausedTotal == old(pausedTotal)
      ensures log == old(log) + Notification(listeners, state)
    {
      state := state.(isPlaying := false, isGameOver := true);
      NotifyListeners();
    }

    method UpdateScore(points: int)
      requires Valid()
      modifies this
      ensures Valid()
      ensures state == old(state).(score := old(state.score) + points)
      ensures startTime == old(startTime) && pausedTime == old(pausedTime) && listeners == old(listeners)
      ensures sessionStart == old(sessionStart) && pausedTotal == old(pausedTotal)
      ensures log == old(log) + Notification(listeners, state)
    {
      state := state.(score := state.score + points);
      NotifyListeners();
    }

    /**
     * Credits `lines` cleared lines and their score and moves up at most one level.
     * A level up notifies once on its own, so the listeners hear twice about it.
     */
    method AddLinesCleared(lines: int)
      requires Valid()
      modifies this
      ensures lines >= 0 ==> Valid()
      ensures state == AfterLines(old(state), config, lines)
      ensures startTime == old(startTime) && pausedTime == old(pausedTime) && listeners == old(listeners)
      ensures sessionStart == old(sessionStart) && pausedTotal == old(pausedTotal)
      ensures log == old(log) + Notification(listeners, state)
                    + (if LevelsUp(old(state), config, lines) then Notification(listeners, state) else [])
    {
      ghost var s0 := state;
      state := state.(linesCleared := state.linesCleared + lines,
                      score := state.score + lines * config.scorePerLine);
      var newLevel := LevelFor(state.linesCleared);
      if newLevel > state.currentLevel && newLevel <= config.maxLevel {
        LevelUp();
      }
      ghost var mid := log;
      NotifyListeners();
      assert AfterLines(s0, config, lines) == state;
    }

    /** One level up, announced to the listeners. */
    method LevelUp()
      modifies this
      ensures state == LeveledUp(old(state), config)
      ensures startTime == old(startTime) && pausedTime == old(pausedTime) && listeners == old(listeners)
      ensures sessionStart == old(sessionStart) && pausedTotal == old(pausedTotal)
      ensures log == old(log) + Notification(listeners, state)
    {
      state := state.(currentLevel := state.currentLevel + 1);
      state := state.(fallSpeed := Max(100, config.initialFallSpeed - (state.currentLevel - 1) * config.fallSpeedIncrement));
      NotifyListeners();
    }

    method UpdatePattern(pattern: string)
      requires Valid()
      modifies this
      ensures Valid()
      ensures state == old(state).(currentPattern := pattern)
      ensures startTime == old(startTime) && pausedTime == old(pausedTime) && listeners == old(listeners)
      ensures sessionStart == old(sessionStart) && pausedTotal == old(pausedTotal)
      ensures log == old(log) + Notification(listeners, state)
    {
      state := state.(currentPattern := pattern);
      NotifyListeners();
    }

    /**
     * While the game runs, the elapsed time is the time since the session started
     * minus the time it spent paused; otherwise nothing changes.
     */
    method UpdateTimeElapsed(now: int)
      requires Valid()
      modifies this
      ensures Valid()
      ensures if old(IsPlaying()) then
                && state == old(state).(timeElapsed := (now - sessionStart) - pausedTotal)
                && log == old(log) + Notification(listeners, state)
              else
                state == old(state) && log == old(log)
      ensures startTime == old(startTime) && pausedTime == old(pausedTime) && listeners == old(listeners)
      ensures sessionStart == old(sessionStart) && pausedTotal == old(pausedTotal)
    {
      if state.isPlaying && !state.isPaused {
        state := state.(timeElapsed := now - startTime);
        NotifyListeners();
      }
    }

    /** Back to the initial state, with both clocks at 0. */
    method Reset()
      requires Valid()
      modifies this
      ensures Valid() && !IsPlaying()
      ensures state == InitialState(config)
      ensures startTime == 0 && pausedTime == 0 && listeners == old(listeners)
      ensures log == old(log) + Notification(listeners, state)
    {
      state := InitialState(config);
      startTime := 0;
      pausedTime := 0;
      sessionStart := 0;
      pausedTotal := 0;
      NotifyListeners();
    }

    /** Appends `listener` to `group`, creating the group if needed. */
    method Subscribe(group: string, listener: nat) returns (unsubscribe: Unsubscriber)
      requires Valid()
      modifies this
      ensures Valid()
      ensures listeners == old(listeners)[group := Group(old(listeners), group) + [listener]]
      ensures unsubscribe == Unsubscriber(group, listener)
      ensures state == old(state) && log == old(log)
      ensures startTime == old(startTime) && pausedTime == old(pausedTime)
      ensures sessionStart == old(sessionStart) && pausedTotal == old(pausedTotal)
    {
      if group !in listeners {
        listeners := listeners[group := []];
      }
      listeners := listeners[group := listeners[group] + [listener]];
      unsubscribe := Unsubscriber(group, listener);
    }

    /** Calling an unsubscribe handle: drops the first registration of its callback. */
    method Unsubscribe(handle: Unsubscriber)
      requires Valid()
      modifies this
      ensures Valid()
      ensures listeners == if handle.group in old(listeners)
                           then old(listeners)[handle.group := RemoveFirst(old(listeners)[handle.group], handle.listener)]
                           else old(listeners)
      ensures state == old(state) && log == old(log)
      ensures startTime == old(startTime) && pausedTime == old(pausedTime)
      ensures sessionStart == old(sessionStart) && pausedTotal == old(pausedTotal)
    {
      if handle.group in listeners {
        var callbacks := listeners[handle.group];
        var index := IndexOf(callbacks, handle.listener);
        if index > -1 {
          listeners := listeners[handle.group := callbacks[..index] + callbacks[index + 1..]];
        }
      }
    }
  }

  /** Subscribing a new callback and calling its handle leaves the group as it was. */
  lemma SubscribeThenUnsubscribe(cbs: seq<nat>, listener: nat)
    requires listener !in cbs
    ensures RemoveFirst(cbs + [listener], listener) == cbs
  {
    var xs := cbs + [listener];
    assert IndexOf(xs, listener) == |cbs| by {
      assert xs[|cbs|] == listener;
      assert xs[..|cbs|] == cbs;
    }
    assert xs[..|cbs|] == cbs;
  }
}
