# Regex Wars game core in Dafny

Regex Wars is a falling-block puzzle game. Characters spawn at the top of a
grid and fall one row per tick. The player types a regular expression. Every
run of cells it matches along a row, a column or either diagonal is
highlighted. Executing the pattern removes those cells and scores them.
Completed rows are then cleared and count towards the level. The game is lost
once a landed character sits in the top row.

This project models the engine under `src/game/core/`:

| module | file | source |
|---|---|---|
| `Types` | `types.dfy` | the records of `src/game/types/index.ts` |
| `Lists` | `lists.dfy` | `indexOf` and `splice(i, 1)` on callback arrays |
| `Gravity` | `grid_gravity.dfy` | the two sweeps of `cascadeDown`, as functions on one column |
| `Grid` | `grid.dfy` | `GridManager`: a class over an `array2` of slots |
| `ScanLines` | `patterns_lines.dfy` | the row, column and diagonal scan lines of `findMatches` |
| `Patterns` | `patterns.dfy` | `PatternMatcher`: the global `exec` loop and deduplication |
| `Progress` | `progress.dfy` | `GameStateManager`: session state, levels, scoring, listeners |
| `Characters` | `characters.dfy` | `CharacterGenerator`: tiers, weights, weighted draws |
| `Events` | `events.dfy` | `EventManager`: the queued, re-entrant event channel |
| `Loop` | `loop.dfy` | `GameLoop`: spawn, fall, highlight, execute, lines, game over |

Classes keep the source's mutable fields and their methods carry `modifies`
clauses. Each method is proved against a specification function on values:
- `GridManager.View()` is the grid as a sequence of rows.
- `Gravity.Cascaded` is one gravity pass.
- `Patterns.Found` and `FirstOccurrences` give the search results.
- `Progress.AfterLines` is the effect of crediting cleared lines.
- `Events.Drain` and `Events.Batch` give what an emit delivers.
- `Loop.Highlight`, `Loop.Ticked` and `Loop.Executed` describe the game loop's steps.

Lemmas state what the game promises about those functions.

Some inputs of the original are parameters here:
- `performance.now()` is the `timestamp` parameter; `Date.now()` is `now`.
- `Math.random()` draws are rolls in `[0, 1)`.
- The regular-expression engine is an `Engine` value. Its `exec` is only required to return a match that starts at or after `lastIndex` and ends inside the string.
- Event callbacks are numbers. What they do when called (emit more events, throw) comes from a script of reactions.
- The global `gameEventManager` is a field of the loop.
- `nanoid()` identifiers come from a counter in the grid.
- `requestAnimationFrame` hands out frame numbers from a counter.

## Model

| member | source | states |
|---|---|---|
| Lists.IndexOf | src/game/core/EventManager.ts:20 | The index is -1 exactly when the element is absent; otherwise it holds the element and nothing before it does. |
| Lists.RemoveFirst | src/game/core/EventManager.ts:19-24 | Removing an absent callback changes nothing; removing a present one drops exactly one copy of it. |
| Lists.RemoveFirstTwice | src/game/core/EventManager.ts:19-24 | Calling an unsubscribe handle twice is a no-op the second time if the callback was registered once, and removes a second copy if it was registered twice. |
| Gravity.Column | src/game/core/GridManager.ts:55-91 | A column of the grid holds exactly the slots of that column, top to bottom. |
| Gravity.Cascaded | src/game/core/GridManager.ts:55-91 | One gravity pass keeps the grid's shape. |
| Gravity.ColumnChangedIffUnsettled | src/game/core/GridManager.ts:55-91 | `cascadeDown` reports a change for a column exactly when an occupied slot has an empty slot below it. Landing a cell is not reported. |
| Gravity.FallMovesAtMostOneRow | src/game/core/GridManager.ts:59-76 | After the first sweep, every cell is in its old slot or one row below it. |
| Gravity.FallLosesNoCell | src/game/core/GridManager.ts:59-76 | Every cell before the first sweep is afterwards in the same slot or the one below. |
| Gravity.CascadeMovesAtMostOneRow | src/game/core/GridManager.ts:55-91 | Over both sweeps no cell moves more than one row, and none disappears. |
| Gravity.CascadeKeepsCells | src/game/core/GridManager.ts:55-91 | A pass creates and destroys no cell: the column holds the same cells in the same order, and only falling flags differ. |
| Gravity.CascadeBottomRow | src/game/core/GridManager.ts:59-88 | Both sweeps start at row height-2, so a cell already in the bottom row is untouched. A cell that falls into the bottom row stays marked falling. |
| Gravity.CascadeIdempotentWhenSettled | src/game/core/GridManager.ts:55-91 | On a settled column a pass reports nothing, and a second pass changes nothing. |
| Gravity.CascadedColumn | src/game/core/GridManager.ts:55-91 | The grid pass acts on each column independently. |
| Gravity.CascadeChangedIffUnsettled | src/game/core/GridManager.ts:55-91 | `cascadeDown` returns true exactly when some cell has an empty slot below it. |
| Gravity.CascadeIdempotent | src/game/core/GridManager.ts:55-91 | On a settled grid a pass reports no change, and a second pass leaves every slot as the first left it. |
| Gravity.CascadeFixesResting | src/game/core/GridManager.ts:55-91 | A grid whose cells have all landed is a fixed point of the pass. |
| Gravity.CascadeKeepsColumns | src/game/core/GridManager.ts:55-91 | No cell changes column, and every column keeps its cells in order. |
| Grid.EmptyGrid | src/game/core/GridManager.ts:16-20 | A new grid has the requested height and width. |
| Grid.RemovedAtComposes | src/game/core/GridManager.ts:44-53 | Two removals in a row are one removal of both position lists. |
| Grid.RemovedAtDependsOnSetOnly | src/game/core/GridManager.ts:44-53 | Removal depends only on which positions are listed, not on their order or repetition. |
| Grid.RemovedAtEmptiesListed | src/game/core/GridManager.ts:44-53 | Removal keeps the shape, empties every listed in-range slot, and never fills or alters any other slot. |
| Grid.UnmarkedErasesMarks | src/game/core/GridManager.ts:122-138 | Clearing the matched flags undoes any earlier marking. |
| Grid.UnmarkedIdempotent | src/game/core/GridManager.ts:129-138 | Clearing the flags twice is clearing them once, and every character stays in place. |
| Grid.MarkedFlagsCell | src/game/core/GridManager.ts:122-127 | Marking flags the cell if there is one, and leaves every character in place. |
| Grid.SpawnKeepsTopClear | src/game/core/GridManager.ts:22-42 | A spawned cell is falling, so spawning alone cannot end the game. |
| Grid.EmptyGridIsStill | src/game/core/GridManager.ts:16-20 | An empty grid is not lost and is settled, and gravity leaves it unchanged. |
| Grid.GridManager.View | src/game/core/GridManager.ts:5-7 | The snapshot has the array's shape and agrees with it slot by slot. |
| Grid.GridManager.constructor | src/game/core/GridManager.ts:10-14 | A new manager holds an empty grid of the given size. |
| Grid.GridManager.AddCharacter | src/game/core/GridManager.ts:22-42 | The add succeeds exactly when the column is in range and its top slot is empty. Success places a falling, unmatched cell with the counter's next identifier at row 0, and advances the counter. Failure changes nothing. |
| Grid.GridManager.RemoveMatches | src/game/core/GridManager.ts:44-53 | The new grid is `RemovedAt` of the old one. |
| Grid.GridManager.CascadeDown | src/game/core/GridManager.ts:55-91 | The new grid is `Cascaded` of the old one, and the result is `CascadeChanged` of the old one. |
| Grid.GridManager.FallSweep | src/game/core/GridManager.ts:59-76 | The first sweep leaves each column as `Fall` describes, and reports whether any cell moved. |
| Grid.GridManager.RiseSweep | src/game/core/GridManager.ts:79-88 | The second sweep leaves each column as `Rise` describes, and the flag accumulates moves and wake-ups. |
| Grid.GridManager.FallRow | src/game/core/GridManager.ts:59-76 | Loop invariant of the first sweep, one row at a time. |
| Grid.GridManager.FallCell | src/game/core/GridManager.ts:61-74 | One step of the first sweep: a falling cell moves down one row, or lands. |
| Grid.GridManager.RiseRow | src/game/core/GridManager.ts:79-88 | Loop invariant of the second sweep, one row at a time. |
| Grid.GridManager.RiseCell | src/game/core/GridManager.ts:81-86 | One step of the second sweep: a landed cell over a hole starts falling again. |
| Grid.GridManager.FallStepAt | src/game/core/GridManager.ts:59-76 | The grid before a step of the first sweep determines that step. |
| Grid.GridManager.RiseStepAt | src/game/core/GridManager.ts:79-88 | The grid before a step of the second sweep determines that step. |
| Grid.GridManager.GetGridState | src/game/core/GridManager.ts:93-95 | The copy equals the grid. |
| Grid.GridManager.GetCell | src/game/core/GridManager.ts:97-102 | The result is the slot at an in-range position, and empty outside the grid. |
| Grid.GridManager.IsGameOver | src/game/core/GridManager.ts:104-107 | The game is over exactly when a non-falling cell sits in row 0. |
| Grid.GridManager.ClearGrid | src/game/core/GridManager.ts:109-112 | The manager afterwards holds a fresh, empty grid of the same size. |
| Grid.GridManager.MarkCellAsMatched | src/game/core/GridManager.ts:122-127 | The new grid is `Marked` of the old one: an occupied in-range cell is flagged, and anything else is ignored. |
| Grid.GridManager.ClearMatchedFlags | src/game/core/GridManager.ts:129-138 | The new grid is the old one with every flag cleared. |
| Grid.GridManager.RowString | src/game/core/GridManager.ts:141-144 | An in-range row gives a string of the grid's width, one character per slot with a space for an empty one; an out-of-range row gives the empty string. |
| Grid.GridManager.ColumnString | src/game/core/GridManager.ts:147-150 | The same as `RowString`, for a column read top to bottom. |
| Grid.GridManager.GetGridAsString | src/game/core/GridManager.ts:153-159 | One string per row, each spelling that row's characters. |
| ScanLines.LineLen | src/game/core/PatternMatcher.ts:144-164 | The walk along a scan line stops at the first cell outside the grid. |
| ScanLines.LineString | src/game/core/PatternMatcher.ts:144-164 | The line's string has one character per in-grid cell, a space for each empty slot. |
| ScanLines.RowLines | src/game/core/PatternMatcher.ts:41 | There is one scan line per row. |
| ScanLines.ColumnLines | src/game/core/PatternMatcher.ts:53 | There is one scan line per column. |
| ScanLines.DownRightFromRows | src/game/core/PatternMatcher.ts:65 | There is one ↘ line per row, starting at the left edge. |
| ScanLines.DownRightFromColumns | src/game/core/PatternMatcher.ts:75 | The ↘ lines from the top edge start at columns 1 to w-1. |
| ScanLines.DownLeftFromRows | src/game/core/PatternMatcher.ts:87 | There is one ↙ line per row, starting at the right edge. |
| ScanLines.DownLeftFromColumns | src/game/core/PatternMatcher.ts:97 | The ↙ lines from the top edge start at columns w-2 down to 0. |
| ScanLines.AtStep | src/game/core/PatternMatcher.ts:157-161 | Consecutive cells of a line are one step apart in its direction. |
| ScanLines.DownRightIndex | src/game/core/PatternMatcher.ts:65-84 | The ↘ line through a cell is determined by the cell's row minus its column. |
| ScanLines.DownLeftIndex | src/game/core/PatternMatcher.ts:87-106 | The ↙ line through a cell is determined by the cell's row plus its column. |
| ScanLines.DownRightPartition | src/game/core/PatternMatcher.ts:65-84 | There are h+w-1 ↘ diagonals, and every cell lies on exactly one of them. |
| ScanLines.DownLeftPartition | src/game/core/PatternMatcher.ts:87-106 | There are h+w-1 ↙ diagonals, and every cell lies on exactly one of them. |
| Patterns.Exec | src/game/core/PatternMatcher.ts:123 | A match starts at or after `lastIndex` and lies inside the string. |
| Patterns.Hits | src/game/core/PatternMatcher.ts:117-142 | Every recorded match lies inside the string. |
| Patterns.HitsNonEmptyNoGap | src/game/core/PatternMatcher.ts:125-133 | No recorded match is empty or covers an empty slot. |
| Patterns.HitsDisjoint | src/game/core/PatternMatcher.ts:122-141 | Matches on one line do not overlap, and each starts after the previous one ends. |
| Patterns.Recorded | src/game/core/PatternMatcher.ts:135-140 | A result has one position per matched character. |
| Patterns.Results | src/game/core/PatternMatcher.ts:135-140 | There is one result per recorded match. |
| Patterns.PerLine | src/game/core/PatternMatcher.ts:40-106 | The per-line results, line by line. |
| Patterns.FoundAppend | src/game/core/PatternMatcher.ts:40-106 | Searching two lists of lines in turn collects both lists' results, in order. |
| Patterns.SearchedAllLines | src/game/core/PatternMatcher.ts:40-106 | The four searches, run in order, produce the results of all scan lines in order. |
| Patterns.FirstIndices | src/game/core/PatternMatcher.ts:166-182 | The kept indices are in range and increasing. |
| Patterns.FirstOccurrencesAtIndices | src/game/core/PatternMatcher.ts:166-182 | Deduplication keeps a subsequence of the input. |
| Patterns.FirstIndicesAreFirst | src/game/core/PatternMatcher.ts:176-178 | A kept result is the first with its set of cells. |
| Patterns.FirstOccurrencesKeepsKeys | src/game/core/PatternMatcher.ts:166-182 | Every set of cells in the input survives deduplication. |
| Patterns.FirstOccurrencesDistinct | src/game/core/PatternMatcher.ts:166-182 | No two kept results share a set of cells. |
| Patterns.LineMatchesWellFormed | src/game/core/PatternMatcher.ts:41-142 | Every result on a line is a non-empty run of consecutive in-grid cells in the line's direction. It spells its text, which contains no gap, and carries the pattern. |
| Patterns.FoundWellFormed | src/game/core/PatternMatcher.ts:28-110 | The same holds for every result of a search over many lines. |
| Patterns.PatternMatcher.constructor | src/game/core/PatternMatcher.ts:4-6 | A new matcher has no pattern and no error. |
| Patterns.PatternMatcher.ValidatePattern | src/game/core/PatternMatcher.ts:184-198 | A pattern is valid exactly when it is empty or compiles. An error text is present exactly when it is invalid, and is the compiler's message. |
| Patterns.PatternMatcher.CompileError | src/game/core/PatternMatcher.ts:17-24 | The error of the global compile: present exactly when `ValidatePattern` rejects the text, and then the message of compiling with the `g` flag. |
| Patterns.PatternMatcher.GetLastError | src/game/core/PatternMatcher.ts:200-202 | The error is the global compile's error for the text last set, present exactly when that text is non-empty and does not compile. |
| Patterns.PatternMatcher.GetCurrentPattern | src/game/core/PatternMatcher.ts:204-206 | The text last set; it is the active expression exactly when it is non-empty and compiles. |
| Patterns.PatternMatcher.SetPattern | src/game/core/PatternMatcher.ts:8-26 | It returns the validity `ValidatePattern` reports and records the global compile's error. The active expression is the pattern exactly when that pattern is valid and non-empty. |
| Patterns.PatternMatcher.FindMatches | src/game/core/PatternMatcher.ts:28-110 | Without a pattern there are no matches. With one, the result is the first result per set of cells of the search over rows, columns, ↘ and ↙ diagonals, in that order. |
| Patterns.PatternMatcher.SearchRows | src/game/core/PatternMatcher.ts:41-50 | The row loop appends the results of every row. |
| Patterns.PatternMatcher.SearchColumns | src/game/core/PatternMatcher.ts:53-62 | The column loop appends the results of every column. |
| Patterns.PatternMatcher.SearchDownRight | src/game/core/PatternMatcher.ts:65-84 | The two ↘ loops append the results of every ↘ diagonal. |
| Patterns.PatternMatcher.SearchDownLeft | src/game/core/PatternMatcher.ts:87-106 | The two ↙ loops append the results of every ↙ diagonal. |
| Patterns.PatternMatcher.FindMatchesInString | src/game/core/PatternMatcher.ts:112-142 | The loop appends one result per match that `Hits` records, starting with `lastIndex` at 0. |
| Patterns.PatternMatcher.SearchTurn | src/game/core/PatternMatcher.ts:123-133 | One turn of the `exec` loop strictly advances `lastIndex` and peels the next recorded match off `Hits`, so the loop terminates. |
| Patterns.PatternMatcher.GetDiagonalString | src/game/core/PatternMatcher.ts:144-164 | The walk returns the line's string. |
| Patterns.PatternMatcher.DeduplicateMatches | src/game/core/PatternMatcher.ts:166-182 | The loop over the seen map keeps the first result per set of cells. |
| Progress.FallDelay | src/game/core/GameStateManager.ts:90-100 | The delay is the initial one at level 1. After that it is the initial delay less one increment per level, but never below 100 ms. |
| Progress.FallDelayNeverGrows | src/game/core/GameStateManager.ts:94-97 | A higher level never waits longer between falls, from level 2 on, and from level 1 when the initial delay is at least the 100 ms floor. |
| Progress.FallDelayGrowsBelowFloor | src/game/core/GameStateManager.ts:94-97 | With an initial delay under 100 ms, level 2 waits longer than level 1. |
| Progress.InitialState | src/game/core/GameStateManager.ts:25-37 | A session starts at level 1 with no score, lines, pattern or time, and not playing. |
| Progress.AfterLines | src/game/core/GameStateManager.ts:77-100 | Lines and score rise by the credited amounts, and the level rises by one exactly when the new level exceeds the current one within `maxLevel`. The level bookkeeping is preserved. |
| Progress.LevelLagsBehindLines | src/game/core/GameStateManager.ts:77-100 | Crediting 25 lines at once from the start reaches level 2, although the lines entitle the player to level 3. |
| Progress.CalculateMatchScore | src/game/core/GameStateManager.ts:165-174 | `scorePerMatch` per cell, plus, when more cells matched than the pattern has characters, a bonus of ⌊10·cells/length⌋. |
| Progress.DefaultMatchScores | src/game/core/GameStateManager.ts:165-174 | Under the default configuration, 6 cells for a 2-character pattern score 90, 2 score 20 and 3 score 45. |
| Progress.MatchScoreAsWritten | src/game/core/GameStateManager.ts:165-174 | The floating-point formula is non-finite exactly when the pattern is empty and a cell matched; otherwise it agrees with `CalculateMatchScore`. |
| Progress.Calls | src/game/core/GameStateManager.ts:148 | Each callback is called once, in order, with the state. |
| Progress.NotificationAudience | src/game/core/GameStateManager.ts:145-155 | A notification reaches every state-change listener in order. It reaches the game-over listeners if and only if the game is over. All of them see the same state. |
| Progress.SubscribeThenUnsubscribe | src/game/core/GameStateManager.ts:126-143 | Subscribing a new callback and calling its handle leaves the group as it was. |
| Progress.GameStateManager.constructor | src/game/core/GameStateManager.ts:20-23 | A new manager has the initial state and no listeners. |
| Progress.GameStateManager.NotifyListeners | src/game/core/GameStateManager.ts:145-155 | It delivers `Notification` of the current state and changes nothing else. |
| Progress.GameStateManager.StartGame | src/game/core/GameStateManager.ts:39-46 | The state becomes the initial state, now playing and timed from `now`, and listeners are notified. |
| Progress.GameStateManager.PauseGame | src/game/core/GameStateManager.ts:48-54 | Only a running, unpaused game pauses, remembering `now` and notifying; otherwise nothing changes. |
| Progress.GameStateManager.ResumeGame | src/game/core/GameStateManager.ts:56-64 | Only a paused game resumes. The start time moves forward by the length of the pause, and listeners are notified. |
| Progress.GameStateManager.EndGame | src/game/core/GameStateManager.ts:66-70 | The game stops and is over; both groups of listeners hear about it. |
| Progress.GameStateManager.UpdateScore | src/game/core/GameStateManager.ts:72-75 | Only the score changes, by `points`, and listeners are notified. |
| Progress.GameStateManager.AddLinesCleared | src/game/core/GameStateManager.ts:77-88 | The state becomes `AfterLines`. A level up notifies once more, before the final notification. |
| Progress.GameStateManager.LevelUp | src/game/core/GameStateManager.ts:90-100 | The level rises by one, the fall delay follows, and listeners are notified. |
| Progress.GameStateManager.UpdatePattern | src/game/core/GameStateManager.ts:102-105 | Only the pattern changes, and listeners are notified. |
| Progress.GameStateManager.UpdateTimeElapsed | src/game/core/GameStateManager.ts:107-112 | While running, the elapsed time becomes `now` minus the start of the session minus the time paused. Otherwise nothing changes. |
| Progress.GameStateManager.Reset | src/game/core/GameStateManager.ts:157-162 | The state returns to the initial state with both clocks at 0, and listeners are notified. |
| Progress.GameStateManager.IsPlaying | src/game/core/GameStateManager.ts:122-124 | Never true once the game is over; with the state consistent, true exactly when started and not paused. |
| Progress.GameStateManager.Subscribe | src/game/core/GameStateManager.ts:126-131 | The listener is appended to its group, creating the group if needed. |
| Progress.GameStateManager.Unsubscribe | src/game/core/GameStateManager.ts:134-142 | The handle drops the first registration of its callback from the group, if the group exists. |
| Characters.CharacterSet | src/game/core/CharacterGenerator.ts:81-92 | The set is never empty, and it is the fallback `abc` exactly below level 1. |
| Characters.LastReachedTiers | src/game/core/CharacterGenerator.ts:83-91 | Scanning the tier table keeps the tier `CharacterSet` names, and nothing below level 1. |
| Characters.TiersNested | src/game/core/CharacterGenerator.ts:14-26 | From level 1 on, each tier contains every character of the tiers below it. |
| Characters.FallbackOutsideFirstTier | src/game/core/CharacterGenerator.ts:81-92 | Level 0 can produce 'b', which level 1 cannot. |
| Characters.Ceil | src/game/core/CharacterGenerator.ts:59 | `Math.ceil` rounds up by less than 1. |
| Characters.Repeat | src/game/core/CharacterGenerator.ts:61-63 | `n` copies of the character. |
| Characters.Pool | src/game/core/CharacterGenerator.ts:55-64 | The pool holds only characters of the set. |
| Characters.PoolCounts | src/game/core/CharacterGenerator.ts:57-64 | Over distinct characters, the pool holds each character exactly ⌈10·weight⌉ times, with an absent weight reading as 1. |
| Characters.PoolCoversSet | src/game/core/CharacterGenerator.ts:57-64 | With positive weights the pool holds at least one copy per character. |
| Characters.InitialWeights | src/game/core/CharacterGenerator.ts:31-49 | Every starting weight is positive. |
| Characters.InitialCounts | src/game/core/CharacterGenerator.ts:31-59 | With the starting weights a character gets 30, 20, 5, 2 or 10 copies, by class. |
| Characters.TiersDistinct | src/game/core/CharacterGenerator.ts:14-26 | No tier lists a character twice. |
| Characters.InitialPoolCounts | src/game/core/CharacterGenerator.ts:31-64 | A level's starting pool holds each of its characters 30, 20, 5, 2 or 10 times. |
| Characters.PoolIndex | src/game/core/CharacterGenerator.ts:67 | `Math.floor(roll·n)` indexes the pool. |
| Characters.DrawnInSet | src/game/core/CharacterGenerator.ts:51-69 | Every draw is a character of the level's set. |
| Characters.SetAll | src/game/core/CharacterGenerator.ts:96-113 | The listed characters get the value, and every other entry is untouched. |
| Characters.ScaleAll | src/game/core/CharacterGenerator.ts:103-106 | The listed characters get 1.5 times their weight (absent reads as 1), and every other entry is untouched. |
| Characters.SetAllPositive | src/game/core/CharacterGenerator.ts:96-113 | Setting a positive value keeps every weight positive. |
| Characters.ScaleAllPositive | src/game/core/CharacterGenerator.ts:103-106 | Scaling keeps every weight positive. |
| Characters.Reweighted | src/game/core/CharacterGenerator.ts:94-115 | Updating keeps the weights positive, and changes nothing up to level 10. |
| Characters.ReweightedTables | src/game/core/CharacterGenerator.ts:94-115 | Above 10 digits weigh 1. Above 15 upper-case weights grow by half. Above 20 specials weigh 1/2. No update touches another's characters: upper-case weights are kept up to level 15, special weights up to level 20, and every other character outside the three classes keeps its entry. |
| Characters.ReweightingCompounds | src/game/core/CharacterGenerator.ts:101-107 | Updating twice above level 15 is not the same as updating once: upper-case weights compound. |
| Characters.CharacterGenerator.constructor | src/game/core/CharacterGenerator.ts:5-8 | A new generator has the starting weights. |
| Characters.CharacterGenerator.GetCharacterSet | src/game/core/CharacterGenerator.ts:81-92 | The scan returns `CharacterSet(level)`. |
| Characters.CharacterGenerator.GenerateCharacter | src/game/core/CharacterGenerator.ts:51-69 | It returns the character the roll picks from the pool, which is in the level's set. |
| Characters.CharacterGenerator.GenerateMultipleCharacters | src/game/core/CharacterGenerator.ts:71-79 | One character per roll, each drawn as `GenerateCharacter` draws it. |
| Characters.CharacterGenerator.UpdateWeights | src/game/core/CharacterGenerator.ts:94-115 | The new weights are `Reweighted` of the old ones. |
| Characters.CharacterGenerator.SetWeights | src/game/core/CharacterGenerator.ts:96-113 | One `forEach` that sets each listed weight. |
| Characters.CharacterGenerator.ScaleWeights | src/game/core/CharacterGenerator.ts:103-106 | One `forEach` that scales each listed weight. |
| Events.Deliver | src/game/core/EventManager.ts:50-56 | A round consumes no more reactions than there are callbacks, and emits nothing if it consumes none. |
| Events.DeliverCallsEach | src/game/core/EventManager.ts:48-56 | Every callback is called once, in order, with the event, whether or not an earlier one threw. Without reactions none throws. |
| Events.HeadEventFirst | src/game/core/EventManager.ts:46-57 | The head event reaches all its callbacks before anything else; events they emit wait behind the queue. |
| Events.DrainReachesAll | src/game/core/EventManager.ts:43-60 | No queued event is lost: each callback of each queued event's type is called with it. |
| Events.QuietDrainIsFifo | src/game/core/EventManager.ts:43-60 | Without reactions the channel is first in, first out. |
| Events.Stamped | src/game/core/EventManager.ts:28-32 | One stamped event per emitted event. |
| Events.StampedAppend | src/game/core/EventManager.ts:68-70 | Stamping two stretches is stamping one. |
| Events.BatchAppend | src/game/core/EventManager.ts:68-70 | Emitting a batch and then another is emitting their concatenation. |
| Events.QuietBatchIsOneDrain | src/game/core/EventManager.ts:68-70 | Without reactions a batch delivers exactly what queueing all of its events at once would. |
| Events.SubscribeAppends | src/game/core/EventManager.ts:10-16 | Subscribing appends to the type's list and touches no other type. |
| Events.SubscribeThenUnsubscribe | src/game/core/EventManager.ts:10-25 | The handle of a fresh subscription removes exactly that registration again. |
| Events.UnsubscribeTwice | src/game/core/EventManager.ts:19-24 | Calling a handle again does nothing when its callback was registered once. |
| Events.StaleHandleAfterClear | src/game/core/EventManager.ts:19-24 | A handle taken before `clear()` splices its old array and never touches the lists created afterwards. |
| Events.EventManager.constructor | src/game/core/EventManager.ts:6-8 | A new channel has no listeners and nothing queued. |
| Events.EventManager.Subscribe | src/game/core/EventManager.ts:10-25 | The registries become `Subscribed`, and the handle names the array that was pushed to. |
| Events.EventManager.Unsubscribe | src/game/core/EventManager.ts:19-24 | The registries become `Unsubscribed` by the handle. |
| Events.EventManager.Emit | src/game/core/EventManager.ts:27-41 | The event is stamped `now` and appended to the history. Its drain's calls are appended to the log. |
| Events.EventManager.ProcessEventQueue | src/game/core/EventManager.ts:43-60 | The queue ends empty and the calls are those of `Drain`. |
| Events.EventManager.DeliverEvent | src/game/core/EventManager.ts:50-56 | The calls are those of `Deliver`, and what the callbacks emit joins the back of the queue. |
| Events.EventManager.Clear | src/game/core/EventManager.ts:62-65 | It drops every listener and every queued event. |
| Events.EventManager.EmitBatch | src/game/core/EventManager.ts:68-70 | The calls are those of `Batch`, and the history grows by the stamped events. |
| Events.EventManager.EmitAt | src/game/core/EventManager.ts:69 | One emit of a batch extends the history by that event and advances the calls along `Batch`. |
| Events.EventManager.GetListenerCounts | src/game/core/EventManager.ts:73-81 | One count per registered type, equal to the length of its list. |
| Loop.PositionsCollectAll | src/game/core/GameLoop.ts:162-168 | A position is collected exactly when some result holds it. |
| Loop.MarkedAllFlags | src/game/core/GameLoop.ts:163-168 | Marking keeps occupancy, and flags exactly the occupied cells at listed positions. |
| Loop.HighlightIsExact | src/game/core/GameLoop.ts:159-168 | Clearing then marking flags the occupied cells at the listed positions, and no others. |
| Loop.HighlightMarksExactly | src/game/core/GameLoop.ts:142-177 | With a pattern, the highlighted positions are those of the results found, and exactly the occupied cells among them are flagged. Without one, nothing is highlighted afterwards. |
| Loop.CompletedRows | src/game/core/GameLoop.ts:213-229 | The completed rows are exactly the full rows, in increasing order. |
| Loop.RowPositions | src/game/core/GameLoop.ts:233-238 | Every position of the listed rows, row after row. |
| Loop.NothingCompleted | src/game/core/GameLoop.ts:231 | Without completed rows, clearing changes nothing. |
| Loop.ClearingLeavesNoFullRow | src/game/core/GameLoop.ts:212-248 | Clearing empties exactly the completed rows, so no row is full afterwards. |
| Loop.ClearedSlot | src/game/core/GameLoop.ts:240 | A slot is empty after clearing if its row was complete, and untouched otherwise. |
| Loop.Placed | src/game/core/GameLoop.ts:111-128 | A run of adds keeps the grid's shape and never lowers the identifier counter. |
| Loop.FreshColumn | src/game/core/GameLoop.ts:115-117 | The column picked is the first in-range draw not yet used, every draw before it hit a used column, and nothing is picked only when every remaining draw hits one. |
| Loop.SpawnColumns | src/game/core/GameLoop.ts:108-120 | The spawn fills at most the requested number of columns, and fewer only when the column or character draws run out. |
| Loop.DistinctValues | src/game/core/GameLoop.ts:109-120 | Distinct columns have as many values as entries. |
| Loop.DistinctColumnsBound | src/game/core/GameLoop.ts:109-120 | A spawn's distinct columns are no more than the grid's width. |
| Loop.UnusedColumnExists | src/game/core/GameLoop.ts:115-117 | With fewer used columns than the grid's width, some column is still free, so the `do … while` can exit. |
| Loop.FullColumnsBlock | src/game/core/GameLoop.ts:115-117 | Once every column is used, no draw, however many, finds a fresh column. |
| Loop.SpawnColumnsDistinct | src/game/core/GameLoop.ts:109-120 | The spawn only adds fresh in-range columns. |
| Loop.SpawnColumnsStarves | src/game/core/GameLoop.ts:108-120 | Asking for more characters than the grid is wide, the spawn never completes and uses up every column draw, unless the character draws run out first. |
| Loop.SpawnCount | src/game/core/GameLoop.ts:108 | One to three characters, never more than the grid's width, and exactly the drawn count on a grid at least 3 wide. |
| Loop.PlacedTopRow | src/game/core/GameLoop.ts:111-128 | Spawning into distinct columns only touches row 0. A column empty at the top gets a falling cell with its character; every other slot keeps its contents. |
| Loop.PlacedElsewhere | src/game/core/GameLoop.ts:111-128 | A slot below the top row, or in a column not spawned into, keeps its contents. |
| Loop.PlacedAt | src/game/core/GameLoop.ts:121-122 | A spawn into an empty top slot holds its character, falling and unmatched. |
| Loop.ExecutedPointsAsWritten | src/game/core/GameLoop.ts:188-193 | As written, the points are non-finite exactly when the pattern is empty and something is highlighted. |
| Loop.ExecuteAfterClearingAsWritten | src/game/core/GameLoop.ts:180-193 | After `setPattern('')` with highlights still shown, executing as written yields a non-finite score. |
| Loop.ExecutedPointsDefined | src/game/core/GameLoop.ts:188-193 | When the corrected guard passes, the points are defined and are those of `calculateMatchScore`. |
| Loop.Credited | src/game/core/GameLoop.ts:193-196 | The score rises by the points plus the line bonus, lines by the completed rows, and the play flags are kept. |
| Loop.Executed | src/game/core/GameLoop.ts:185-203 | The same as `Credited`, with the pattern cleared. |
| Loop.Landed | src/game/core/GameLoop.ts:72-82 | The spawn and the fall keep the grid's shape and never lower the identifier counter. |
| Loop.ExecutedCountAsWritten | src/game/core/GameLoop.ts:199-209 | As written, the count is read after the highlights are emptied, so it is always 0. |
| Loop.ExecutedCountIgnoresMatchesAsWritten | src/game/core/GameLoop.ts:199-209 | With any highlight, the count as written differs from the number of executed positions, which a read before the emptying would give. |
| Loop.ExecutionSettles | src/game/core/GameLoop.ts:185-200 | After an execution the executed slots are empty, no row is full, and no cell is flagged. |
| Loop.GameLoop.constructor | src/game/core/GameLoop.ts:22-32 | The loop holds the given components, no frame request, no highlights and zeroed timers. |
| Loop.GameLoop.Publish | src/game/core/GameLoop.ts:90-94 | One emit publishes exactly that event. |
| Loop.GameLoop.Stop | src/game/core/GameLoop.ts:45-50 | The frame request is cancelled and nothing else changes. |
| Loop.GameLoop.Pause | src/game/core/GameLoop.ts:52-54 | A running session pauses; otherwise nothing changes. |
| Loop.GameLoop.Resume | src/game/core/GameLoop.ts:56-61 | A paused session resumes, and all three timers restart at `timestamp`. |
| Loop.GameLoop.PickColumn | src/game/core/GameLoop.ts:115-117 | The `do … while` settles on `FreshColumn`, or fails once the draws run out. |
| Loop.GameLoop.SpawnCharacters | src/game/core/GameLoop.ts:104-129 | It spawns 1–3 characters, no more than the grid is wide, in distinct in-range columns, each drawn from the level's pool. The grid becomes `Placed`. |
| Loop.GameLoop.SpawnNext | src/game/core/GameLoop.ts:111-128 | One turn of the spawn loop extends the columns by `FreshColumn`. |
| Loop.GameLoop.AddSpawned | src/game/core/GameLoop.ts:122 | One add is one more step of `Placed`. |
| Loop.GameLoop.UpdateFallingCharacters | src/game/core/GameLoop.ts:131-140 | The grid falls one pass, and `GRID_UPDATED` is emitted exactly when something moved. |
| Loop.GameLoop.ProcessMatches | src/game/core/GameLoop.ts:142-177 | The grid, the highlights and the events are those of `Highlight`. |
| Loop.GameLoop.DropHighlights | src/game/core/GameLoop.ts:145-153 | Without a pattern, highlights are dropped and `MATCH_FOUND` with no positions is announced, only if there were some. |
| Loop.GameLoop.HighlightMatches | src/game/core/GameLoop.ts:155-177 | With a pattern, the flags are cleared and the positions of every result are collected and flagged, then announced. |
| Loop.GameLoop.SearchGrid | src/game/core/GameLoop.ts:156 | The matcher's results on the current grid. |
| Loop.GameLoop.HighlightAll | src/game/core/GameLoop.ts:162-168 | The collected positions are `Positions` of the results, and the grid is marked with them. |
| Loop.GameLoop.MarkEach | src/game/core/GameLoop.ts:164-167 | The inner loop appends and marks the result's positions. |
| Loop.GameLoop.CheckCompletedLines | src/game/core/GameLoop.ts:212-248 | Completed rows are emptied and credited via `addLinesCleared`, and `LINES_CLEARED` is emitted, only when there are some. |
| Loop.GameLoop.ClearRows | src/game/core/GameLoop.ts:231-247 | The completed rows are emptied, credited and announced. |
| Loop.GameLoop.RemoveRows | src/game/core/GameLoop.ts:233-240 | Every slot of the completed rows is emptied. |
| Loop.GameLoop.FindCompletedRows | src/game/core/GameLoop.ts:213-229 | The scan with its `break` finds `CompletedRows`. |
| Loop.GameLoop.RowsPositions | src/game/core/GameLoop.ts:233-238 | The positions of the listed rows. |
| Loop.GameLoop.ExecutePattern | src/game/core/GameLoop.ts:179-210 | Without highlights, a running game or a pattern, nothing changes. Otherwise the highlighted slots and the completed rows are emptied and the flags are cleared. The state is credited and its pattern cleared. `LINES_CLEARED`, if any, then `PATTERN_EXECUTED` announce the executed count and points. |
| Loop.GameLoop.ExecuteMatches | src/game/core/GameLoop.ts:184-209 | The acting part of `executePattern`, with the same outcome. |
| Loop.GameLoop.ClosePattern | src/game/core/GameLoop.ts:203-209 | The pattern is cleared, and `PATTERN_EXECUTED` is announced. |
| Loop.GameLoop.Unhighlight | src/game/core/GameLoop.ts:199-200 | Highlights and flags are cleared. |
| Loop.GameLoop.CreditMatches | src/game/core/GameLoop.ts:185-196 | The highlighted slots are emptied and scored, and the completed rows are cleared and credited. |
| Loop.GameLoop.ScoreMatches | src/game/core/GameLoop.ts:185-193 | The highlighted slots are emptied, and the score rises by `calculateMatchScore`. |
| Loop.GameLoop.SetPattern | src/game/core/GameLoop.ts:250-263 | The matcher takes the text. A valid one becomes the session's pattern. `PATTERN_CHANGED` carries the validity and, on rejection, the matcher's recorded error from the global compile. |
| Loop.GameLoop.Reset | src/game/core/GameLoop.ts:265-271 | There is no frame request, an empty grid, the initial session, no highlights and no pattern, so the game is neither running nor lost. |
| Loop.GameLoop.Start | src/game/core/GameLoop.ts:34-43 | A pending frame makes it a no-op. Otherwise the timers restart, a new session starts, and its first tick runs. The session stays running exactly when a frame is requested, which happens exactly when the top row is clear. |
| Loop.GameLoop.Update | src/game/core/GameLoop.ts:63-102 | A tick records its time stamp. A paused or ended session only requests the next frame. A running one updates the elapsed time, spawns and falls when due, refreshes highlights, and ends the game when the top row is blocked. The grid, highlights, events, state and frame request are those of `Ticked`. |
| Loop.GameLoop.Tick | src/game/core/GameLoop.ts:65-101 | A running tick's whole outcome is `Ticked`. |
| Loop.GameLoop.Advance | src/game/core/GameLoop.ts:65-82 | The time stamp, the elapsed time, the spawn and the fall, each when due. |
| Loop.GameLoop.Clock | src/game/core/GameLoop.ts:65-69 | The time stamp is recorded and the elapsed time updated. |
| Loop.GameLoop.SpawnIfDue | src/game/core/GameLoop.ts:72-75 | A spawn happens, and the spawn timer restarts, once 2000 ms have passed. |
| Loop.GameLoop.FallIfDue | src/game/core/GameLoop.ts:78-82 | A gravity pass happens, and the fall timer restarts, once the level's fall delay has passed. |
| Loop.GameLoop.Refresh | src/game/core/GameLoop.ts:85-101 | Highlights, then the game-over check, as `Refreshed` describes. |
| Loop.GameLoop.Conclude | src/game/core/GameLoop.ts:88-101 | Over exactly when the top row is blocked. Then the session ends and the frame request is cancelled; otherwise the next frame is requested. |
| Loop.GameLoop.EndSession | src/game/core/GameLoop.ts:89-96 | The session ends, `GAME_OVER` announces the final score, level and lines, and the frame is cancelled. |

## Left out

- Getters that only return a field (`getWidth`, `getHeight`, `getState`, `getConfig`) are plain reads of the model's fields.
- `getCharacterPreview` is not modelled: it only computes display percentages over floating point, and nothing in the core calls it.
- Floating point is not modelled: weights are exact reals and scores are integers. The rounding of `weight * 10` and `1.5` products is left out.
- The regular-expression engine is an injected oracle constrained only by where its matches may lie. Regex semantics (whether a text compiles, the error messages with and without the `g` flag, and the position and length of each match) are taken from the oracle; the `lastIndex` advance after a match, and after an empty one, is computed by the model.
- `console.warn` and `console.error` are not modelled.
- Callbacks are reaction scripts, so what a listener does beyond emitting events and throwing is not modelled.
- Object identity of cells shared between the grid and returned snapshots is not modelled: cells are values, and a flag flip rewrites the slot.
- A batch of emits shares one `now`; each `Date.now()` reading within one call is not separated.
- Loop.GameLoop.Update: its event contracts state the emitted history (`Published`), not what each listener receives. The deliveries of each emit follow from `Events.EventManager.Emit`.
- Loop.GameLoop.Start: it states the outcome of the first tick by its effect on the timers, the session, the frame request and the top row. The full grid and event outcome is the one `Update` states.
- Loop.GameLoop.SpawnCharacters (and so Loop.GameLoop.Update): random column and character draws are finite sequences of rolls. A spawn stops early when they run out, where the source would keep drawing. The spawn count is capped at the grid's width (see Findings).
- Loop.GameLoop.Update (and the other `GameLoop` methods): the contracts state the session state, but not the `GameStateManager` listeners, their log, or its `startTime` and `pausedTime`. Those are stated by the `GameStateManager` methods themselves.
- `requestAnimationFrame` is a counter of frame numbers. In the model the tick records its time stamp inside `Clock`, or in the idle branch, and requests the next frame inside `Conclude`. The observable order of effects is the same.
- `LEVEL_UP` and `SCORE_UPDATED` are event types the core never emits; they exist in the model only as constructors of `EventType`.
- `EventType` also has `GridUpdated` and `PatternExecuted`. The source emits `GRID_UPDATED` and `PATTERN_EXECUTED` (src/game/core/GameLoop.ts:136 and :206) although its declared event-type union (src/game/types/index.ts:47-53) does not list them.
- `GameStateManager` listeners are plain recorded calls: `notifyListeners` has no `try`/`catch`, so a throwing state-change listener would abort `addLinesCleared` or `levelUp` partway. Such throws, and listeners that call back into the manager, are not modelled.
- `pattern.length` in `executePattern` counts UTF-16 code units, while the model's `|pattern|` counts characters; they differ for characters outside the Basic Multilingual Plane.
- FallDelayNeverGrows: from level 1 it holds only when `initialFallSpeed` is at least 100, because level 2 is clamped up to the 100 ms floor; FallDelayGrowsBelowFloor shows the other case.

## Findings

| source | as written | input that shows it | evidently intended | confidence | as-written member | corrected member |
|---|---|---|---|---|---|---|
| src/game/core/GameLoop.ts:180-193 | `executePattern` guards only on highlights and a running game, then divides by the pattern's length | `setPattern('')` while matches are highlighted, then `executePattern()` before the next tick: `calculateMatchScore(n, 0)` is `Infinity` | executing with an empty pattern does nothing | not executed | Loop.ExecuteAfterClearingAsWritten | Loop.GameLoop.ExecutePattern |
| src/game/core/GameLoop.ts:199-209 | `matchCount` reads `currentMatches.length` after `currentMatches = []` | any execution with n > 0 highlighted positions announces `matchCount: 0` | announce the n executed positions | not executed | Loop.ExecutedCountIgnoresMatchesAsWritten | Loop.GameLoop.ExecutePattern |
| src/game/core/GameLoop.ts:108-117 | `numCharacters` is drawn from 1–3 whatever the grid's width, and each column is redrawn until unused | a grid 1 or 2 wide (which `GridManager` accepts) and a count roll drawing more characters than columns: once every column is used the `do … while` never exits | spawn at most as many characters as there are columns | not executed | Loop.SpawnColumnsStarves | Loop.SpawnCount |
