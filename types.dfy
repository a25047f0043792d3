/** Data shapes shared by the game core (src/game/types/index.ts). */
module Types {

  datatype Option<T> = None | Some(value: T)

  /** A grid coordinate: `row` counts down from the spawn row 0, `col` from the left. */
  datatype Pos = Pos(row: int, col: int)

  /**
   * One occupied grid slot. `id` stands for the random identifier the source draws
   * for every new cell; here the grid hands out fresh numbers instead.
   */
  datatype Cell = Cell(character: char, id: nat, isMatched: bool, isFalling: bool, fallSpeed: int)

  /** A slot of the grid: empty (`null` in the source) or holding one cell. */
  type Slot = Option<Cell>

  /** A copy of the grid, row by row, as handed to the pattern matcher and the renderer. */
  type Snapshot = seq<seq<Slot>>

  /** The character that stands for an empty slot in every scan line. */
  const Gap: char := ' '

  /** The character a slot contributes to a scan line. */
  function Glyph(s: Slot): char {
    if s.Some? then s.value.character else Gap
  }

  /** One match of the active pattern along one scan line. */
  datatype MatchResult = MatchResult(positions: seq<Pos>, matchedText: string, patternUsed: string)

  datatype ValidationResult = ValidationResult(isValid: bool, error: Option<string>)

  /** The play/pause/game-over flags and the progress counters of one session. */
  datatype GameState = GameState(
    isPlaying: bool,
    isPaused: bool,
    isGameOver: bool,
    currentLevel: int,
    score: int,
    linesCleared: int,
    currentPattern: string,
    fallSpeed: int,
    timeElapsed: int)

  /** Session parameters, fixed at construction. */
  datatype GameConfig = GameConfig(
    gridWidth: int,
    gridHeight: int,
    initialFallSpeed: int,
    fallSpeedIncrement: int,
    scorePerMatch: int,
    scorePerLine: int,
    maxLevel: int)

  /** The kinds of event published on the event channel. */
  datatype EventType =
    | MatchFound | LinesCleared | GameOver | LevelUp | PatternChanged | ScoreUpdated
    | GridUpdated | PatternExecuted

  /** What the game loop attaches to the events it publishes. */
  datatype Payload =
    | NoPayload
    | GridPayload(grid: Snapshot)
    | MatchPayload(positions: seq<Pos>, matches: Option<seq<MatchResult>>)
    | GameOverPayload(finalScore: int, level: int, lines: int)
    | ExecutedPayload(matchCount: int, points: int)
    | LinesPayload(rows: seq<int>, count: int)
    | PatternPayload(pattern: string, valid: bool, error: Option<string>)

  datatype GameEvent = GameEvent(eventType: EventType, payload: Payload, timestamp: int)
}
