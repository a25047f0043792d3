/**
 * The game loop (src/game/core/GameLoop.ts): one object that drives the grid,
 * the pattern matcher, the character generator and the session state, tick by
 * tick, and publishes what happens on the event channel.
 *
 * The animation-frame timestamp (`performance.now()`), the wall clock
 * (`Date.now()`) and every `Math.random()` draw are parameters. The channel the
 * source reaches as a module-level singleton is a collaborator held in a field.
 */
module Loop {
  import opened Types
  import opened Gravity
  import opened ScanLines
  import opened Grid
  import opened Patterns
  import Progress
  import Characters
  import Events

  // ---------------------------------------------------------------------------
  // Matches and their highlight flags

  /** The positions of the results, result after result, each in its own order. */
  function Positions(ms: seq<MatchResult>): (ps: seq<Pos>)
  {
    if ms == [] then [] else Positions(ms[..|ms| - 1]) + ms[|ms| - 1].positions
  }

  /** A position is collected exactly when some result holds it. */
  lemma {:induction false} PositionsCollectAll(ms: seq<MatchResult>, p: Pos)
    ensures p in Positions(ms) <==> exists k :: 0 <= k < |ms| && p in ms[k].positions
  {
    if ms != [] {
      var init := ms[..|ms| - 1];
      PositionsCollectAll(init, p);
      if p in Positions(init) {
        var k :| 0 <= k < |init| && p in init[k].positions;
        assert ms[k] == init[k];
      }
      if exists k :: 0 <= k < |ms| && p in ms[k].positions {
        var k :| 0 <= k < |ms| && p in ms[k].positions;
        if k < |init| {
          assert init[k] == ms[k];
        }
      }
    }
  }

  /** `g` after one `markCellAsMatched` per position, in order. */
  function MarkedAll(g: Snapshot, ps: seq<Pos>): Snapshot
  {
    if ps == [] then g else Marked(MarkedAll(g, ps[..|ps| - 1]), ps[|ps| - 1].row, ps[|ps| - 1].col)
  }

  lemma PositionsSnoc(ms: seq<MatchResult>, i: nat)
    requires i < |ms|
    ensures Positions(ms[..i + 1]) == Positions(ms[..i]) + ms[i].positions
  {
    assert ms[..i + 1][..i] == ms[..i];
  }

  lemma MarkedAllSnoc(g: Snapshot, ps: seq<Pos>, p: Pos)
    ensures MarkedAll(g, ps + [p]) == Marked(MarkedAll(g, ps), p.row, p.col)
  {
    assert (ps + [p])[..|ps|] == ps;
  }

  /**
   * Marking keeps the shape and the occupancy of every slot, and raises the
   * flag of exactly the occupied cells at a listed position.
   */
  lemma {:induction false} MarkedAllFlags(g: Snapshot, ps: seq<Pos>, h: nat, w: nat)
    requires Shaped(g, h, w)
    ensures Shaped(MarkedAll(g, ps), h, w)
    ensures forall r, c :: 0 <= r < h && 0 <= c < w ==>
              && MarkedAll(g, ps)[r][c].Some? == g[r][c].Some?
              && (g[r][c].Some? ==> MarkedAll(g, ps)[r][c].value
                                      == g[r][c].value.(isMatched := g[r][c].value.isMatched || Pos(r, c) in ps))
  {
    if ps != [] {
      var init := ps[..|ps| - 1];
      MarkedAllFlags(g, init, h, w);
      assert forall q :: q in ps <==> q in init || q == ps[|ps| - 1] by {
        assert ps == init + [ps[|ps| - 1]];
      }
    }
  }

  /** Clearing every flag and then marking `ps` flags the occupied cells at `ps` and no others. */
  lemma HighlightIsExact(g: Snapshot, ps: seq<Pos>, h: nat, w: nat)
    requires Shaped(g, h, w)
    ensures var m := MarkedAll(Unmarked(g), ps);
            && Shaped(m, h, w)
            && forall r, c :: 0 <= r < h && 0 <= c < w ==>
                 && m[r][c].Some? == g[r][c].Some?
                 && (g[r][c].Some? ==> m[r][c].value == g[r][c].value.(isMatched := Pos(r, c) in ps))
  {
    MarkedAllFlags(Unmarked(g), ps, h, w);
  }

  /** The results the matcher's active pattern finds on `g`. */
  ghost function Matches(pm: PatternMatcher, g: Snapshot, w: nat): seq<MatchResult>
    reads pm
    requires Rect(g, w)
  {
    if pm.currentPattern.None? then []
    else FirstOccurrences(Found(pm.engine, pm.patternString, g, w, AllLines(|g|, w)))
  }

  /**
   * What `processMatches` leaves, from the grid `g`, the session's `pattern` and
   * the positions highlighted so far: the grid, the new highlighted positions and
   * the events it publishes. Without a pattern it drops the highlights there
   * are; with one it highlights every cell of every result the matcher finds.
   */
  ghost function Highlight(pm: PatternMatcher, g: Snapshot, w: nat, pattern: string, highlighted: seq<Pos>)
    : (Snapshot, seq<Pos>, seq<(EventType, Payload)>)
    reads pm
    requires Rect(g, w)
  {
    if pattern == [] then
      if highlighted == [] then (g, [], []) else (Unmarked(g), [], [(MatchFound, MatchPayload([], None))])
    else
      var ms := Matches(pm, g, w);
      (MarkedAll(Unmarked(g), Positions(ms)), Positions(ms), [(MatchFound, MatchPayload(Positions(ms), Some(ms)))])
  }

  /**
   * With a pattern, the highlighted positions are those of the results found, and
   * exactly the occupied cells among them carry the flag; without one nothing is
   * highlighted afterwards.
   */
  lemma HighlightMarksExactly(pm: PatternMatcher, g: Snapshot, w: nat, pattern: string, highlighted: seq<Pos>)
    requires Rect(g, w)
    ensures var h := Highlight(pm, g, w, pattern, highlighted);
            && Shaped(h.0, |g|, w)
            && (pattern == [] ==> h.1 == [])
            && (pattern != [] ==> forall p :: p in h.1 <==> exists k :: 0 <= k < |Matches(pm, g, w)| && p in Matches(pm, g, w)[k].positions)
            && (pattern != [] ==> forall r, c :: 0 <= r < |g| && 0 <= c < w ==>
                  && h.0[r][c].Some? == g[r][c].Some?
                  && (g[r][c].Some? ==> h.0[r][c].value == g[r][c].value.(isMatched := Pos(r, c) in h.1)))
  {
    UnmarkedIdempotent(g);
    if pattern != [] {
      var ms := Matches(pm, g, w);
      HighlightIsExact(g, Positions(ms), |g|, w);
      forall p
        ensures p in Positions(ms) <==> exists k :: 0 <= k < |ms| && p in ms[k].positions
      {
        PositionsCollectAll(ms, p);
      }
    } else {
      assert Shaped(Unmarked(g), |g|, w);
    }
  }

  // ---------------------------------------------------------------------------
  // Completed lines

  /** Row `r` has no empty slot. */
  predicate Full(g: Snapshot, r: int)
    requires 0 <= r < |g|
  {
    forall c :: 0 <= c < |g[r]| ==> g[r][c].Some?
  }

  /** The rows below `n` with no empty slot, top to bottom. */
  function CompletedRows(g: Snapshot, n: nat): (rows: seq<int>)
    requires n <= |g|
    ensures forall r :: r in rows <==> 0 <= r < n && Full(g, r)
    ensures forall i, j :: 0 <= i < j < |rows| ==> rows[i] < rows[j]
  {
    if n == 0 then []
    else
      var init := CompletedRows(g, n - 1);
      assert forall i :: 0 <= i < |init| ==> init[i] in init;
      if Full(g, n - 1) then init + [n - 1] else init
  }

  /** Every position of the listed rows, row after row, left to right. */
  function RowPositions(rows: seq<int>, w: nat): (ps: seq<Pos>)
    ensures forall p :: p in ps <==> p.row in rows && 0 <= p.col < w
  {
    if rows == [] then []
    else
      var last := rows[|rows| - 1];
      var init := RowPositions(rows[..|rows| - 1], w);
      var line := seq(w, c => Pos(last, c));
      assert forall p :: p in line <==> p.row == last && 0 <= p.col < w by {
        forall p: Pos | p.row == last && 0 <= p.col < w
          ensures p in line
        {
          assert line[p.col] == p;
        }
      }
      assert forall r :: r in rows <==> r in rows[..|rows| - 1] || r == last by {
        assert rows == rows[..|rows| - 1] + [last];
      }
      init + line
  }

  /** What `checkCompletedLines` announces: the completed rows and their count, when there are some. */
  function LinesEvents(rows: seq<int>): seq<(EventType, Payload)> {
    if rows != [] then [(EventType.LinesCleared, LinesPayload(rows, |rows|))] else []
  }

  /** The grid `checkCompletedLines` leaves: every completed row emptied. */
  function RowsCleared(g: Snapshot, w: nat): Snapshot
  {
    RemovedAt(g, RowPositions(CompletedRows(g, |g|), w))
  }

  /** Without completed rows clearing changes nothing. */
  lemma NothingCompleted(g: Snapshot, w: nat)
    requires Shaped(g, |g|, w) && CompletedRows(g, |g|) == []
    ensures RowsCleared(g, w) == g
  {
    assert RowPositions([], w) == [];
    forall r | 0 <= r < |g|
      ensures RowsCleared(g, w)[r] == g[r]
    {
    }
  }

  /**
   * Clearing empties exactly the completed rows, so that, on a grid with at least
   * one column, no row is complete afterwards.
   */
  lemma ClearingLeavesNoFullRow(g: Snapshot, w: nat)
    requires Shaped(g, |g|, w)
    ensures var g' := RowsCleared(g, w);
            && Shaped(g', |g|, w)
            && (forall r :: 0 <= r < |g| && Full(g, r) ==> forall c :: 0 <= c < w ==> g'[r][c].None?)
            && (forall r :: 0 <= r < |g| && !Full(g, r) ==> g'[r] == g[r])
            && (w > 0 ==> forall r :: 0 <= r < |g| ==> !Full(g', r))
  {
    var g' := RowsCleared(g, w);
    forall r, c | 0 <= r < |g| && 0 <= c < w
      ensures g'[r][c] == if Full(g, r) then None else g[r][c]
    {
      ClearedSlot(g, w, r, c);
    }
    forall r | 0 <= r < |g| && !Full(g, r)
      ensures g'[r] == g[r]
    {
      assert |g'[r]| == |g[r]|;
    }
    forall r | 0 <= r < |g| && w > 0
      ensures !Full(g', r)
    {
      if Full(g, r) {
        assert g'[r][0].None?;
      }
    }
  }

  /** One slot after clearing: empty in a completed row, untouched elsewhere. */
  lemma ClearedSlot(g: Snapshot, w: nat, r: nat, c: nat)
    requires Shaped(g, |g|, w) && r < |g| && c < w
    ensures RowsCleared(g, w)[r][c] == if Full(g, r) then None else g[r][c]
  {
    var rows := CompletedRows(g, |g|);
    var ps := RowPositions(rows, w);
    assert r in rows <==> Full(g, r);
    assert Pos(r, c) in ps <==> r in rows;
    assert RowsCleared(g, w)[r][c] == if Pos(r, c) in ps then None else g[r][c];
  }

  // ---------------------------------------------------------------------------
  // Spawning

  /** `g` and the next identifier after `addCharacter(columns[k], characters[k])` for each k in turn. */
  function Placed(g: Snapshot, w: nat, id: nat, columns: seq<int>, characters: seq<char>): (r: (Snapshot, nat))
    requires |g| > 0 && Shaped(g, |g|, w) && |columns| == |characters|
    ensures Shaped(r.0, |g|, w) && id <= r.1
  {
    if columns == [] then (g, id)
    else
      var n := |columns| - 1;
      var before := Placed(g, w, id, columns[..n], characters[..n]);
      var column := columns[n];
      if 0 <= column < w && before.0[0][column].None? then
        (Added(before.0, column, Cell(characters[n], before.1, false, true, 1)), before.1 + 1)
      else before
  }

  /**
   * The column the `do … while` of `spawnCharacters` settles on when it draws from
   * `rolls[from..]`: the first draw not in `usedColumns`, with the index after it,
   * or nothing when every remaining draw hits a used column.
   */
  function FreshColumn(usedColumns: seq<int>, rolls: seq<real>, from: nat, w: nat): (r: Option<(int, nat)>)
    requires from <= |rolls| && w > 0
    requires forall k :: 0 <= k < |rolls| ==> 0.0 <= rolls[k] < 1.0
    ensures r.Some? ==> && from < r.value.1 <= |rolls|
                        && r.value.0 == Characters.PoolIndex(rolls[r.value.1 - 1], w)
                        && 0 <= r.value.0 < w && r.value.0 !in usedColumns
                        && forall k :: from <= k < r.value.1 - 1 ==> Characters.PoolIndex(rolls[k], w) in usedColumns
    ensures r.None? ==> forall k :: from <= k < |rolls| ==> Characters.PoolIndex(rolls[k], w) in usedColumns
    decreases |rolls| - from
  {
    if from == |rolls| then None
    else
      var column := Characters.PoolIndex(rolls[from], w);
      if column !in usedColumns then Some((column, from + 1)) else FreshColumn(usedColumns, rolls, from + 1, w)
  }

  /**
   * The columns `spawnCharacters` fills, in order, and the column draws it has
   * spent: fresh columns until there are `n`, stopping early only when the column
   * draws or the `limit` character draws run out.
   */
  function SpawnColumns(w: nat, n: nat, columns: seq<int>, used: nat, columnRolls: seq<real>, limit: nat): (r: (seq<int>, nat))
    requires w > 0 && |columns| <= n && |columns| <= limit && used <= |columnRolls|
    requires forall k :: 0 <= k < |columnRolls| ==> 0.0 <= columnRolls[k] < 1.0
    ensures |r.0| <= n && |r.0| <= limit && used <= r.1 <= |columnRolls|
    ensures |r.0| < n ==> r.1 == |columnRolls| || |r.0| == limit
    decreases n - |columns|
  {
    if |columns| == n || |columns| == limit then (columns, used)
    else
      match FreshColumn(columns, columnRolls, used, w)
      case None => (columns, |columnRolls|)
      case Some((column, next)) => SpawnColumns(w, n, columns + [column], next, columnRolls, limit)
  }

  /** Distinct columns, each on a grid `w` wide. */
  ghost predicate DistinctColumns(columns: seq<int>, w: nat) {
    && (forall i, j :: 0 <= i < j < |columns| ==> columns[i] != columns[j])
    && (forall i :: 0 <= i < |columns| ==> 0 <= columns[i] < w)
  }

  /** The columns of a grid `w` wide. */
  ghost function ColumnRange(w: nat): (r: set<int>)
    ensures |r| == w && forall c :: c in r <==> 0 <= c < w
  {
    if w == 0 then {} else
      var r := ColumnRange(w - 1) + {w - 1};
      assert w - 1 !in ColumnRange(w - 1);
      r
  }

  /** Distinct columns have as many values as entries. */
  lemma {:induction false} DistinctValues(columns: seq<int>, w: nat)
    requires DistinctColumns(columns, w)
    ensures |set i | 0 <= i < |columns| :: columns[i]| == |columns|
  {
    if columns != [] {
      var n := |columns| - 1;
      DistinctValues(columns[..n], w);
      var before := set i | 0 <= i < n :: columns[..n][i];
      assert (set i | 0 <= i < |columns| :: columns[i]) == before + {columns[n]};
      assert columns[n] !in before;
    }
  }

  /** No more distinct columns than the grid has. */
  lemma DistinctColumnsBound(columns: seq<int>, w: nat)
    requires DistinctColumns(columns, w)
    ensures |columns| <= w
  {
    DistinctValues(columns, w);
    var values := set i | 0 <= i < |columns| :: columns[i];
    assert values <= ColumnRange(w);
    assert |values| <= |ColumnRange(w)| by {
      assert ColumnRange(w) == values + (ColumnRange(w) - values);
    }
  }

  /** Fewer distinct columns than the grid has leave one free. */
  lemma UnusedColumnExists(columns: seq<int>, w: nat) returns (c: int)
    requires DistinctColumns(columns, w) && |columns| < w
    ensures 0 <= c < w && c !in columns
  {
    DistinctValues(columns, w);
    var values := set i | 0 <= i < |columns| :: columns[i];
    var free := ColumnRange(w) - values;
    assert ColumnRange(w) == values + free;
    assert |free| > 0;
    c :| c in free;
  }

  /** Once every column of the grid is used, no draw finds a fresh one. */
  lemma FullColumnsBlock(columns: seq<int>, rolls: seq<real>, from: nat, w: nat)
    requires from <= |rolls| && w > 0
    requires forall k :: 0 <= k < |rolls| ==> 0.0 <= rolls[k] < 1.0
    requires DistinctColumns(columns, w) && |columns| == w
    ensures FreshColumn(columns, rolls, from, w) == None
  {
    var r := FreshColumn(columns, rolls, from, w);
    if r.Some? {
      var c := r.value.0;
      assert DistinctColumns(columns + [c], w);
      DistinctColumnsBound(columns + [c], w);
      assert false;
    }
  }

  /** The spawn only ever adds fresh columns of the grid. */
  lemma {:induction false} SpawnColumnsDistinct(w: nat, n: nat, columns: seq<int>, used: nat,
                                                columnRolls: seq<real>, limit: nat)
    requires w > 0 && |columns| <= n && |columns| <= limit && used <= |columnRolls|
    requires forall k :: 0 <= k < |columnRolls| ==> 0.0 <= columnRolls[k] < 1.0
    requires DistinctColumns(columns, w)
    ensures DistinctColumns(SpawnColumns(w, n, columns, used, columnRolls, limit).0, w)
    decreases n - |columns|
  {
    if |columns| == n || |columns| == limit {
    } else {
      match FreshColumn(columns, columnRolls, used, w)
      case None =>
      case Some((column, next)) =>
        assert DistinctColumns(columns + [column], w);
        SpawnColumnsDistinct(w, n, columns + [column], next, columnRolls, limit);
    }
  }

  /**
   * Asking for more characters than the grid has columns, the spawn never gets
   * them all: it runs through every column draw, however many there are, unless
   * the character draws run out first.
   */
  lemma SpawnColumnsStarves(w: nat, n: nat, columnRolls: seq<real>, limit: nat)
    requires 0 < w < n
    requires forall k :: 0 <= k < |columnRolls| ==> 0.0 <= columnRolls[k] < 1.0
    ensures var r := SpawnColumns(w, n, [], 0, columnRolls, limit);
            |r.0| < n && (r.1 == |columnRolls| || |r.0| == limit)
  {
    SpawnColumnsDistinct(w, n, [], 0, columnRolls, limit);
    DistinctColumnsBound(SpawnColumns(w, n, [], 0, columnRolls, limit).0, w);
  }

  /**
   * How many characters a spawn places: the one to three the count roll draws,
   * but never more than the grid has columns.
   */
  function SpawnCount(countRoll: real, w: nat): (n: nat)
    requires 0.0 <= countRoll < 1.0
    ensures 1 <= w ==> 1 <= n
    ensures n <= w && n <= 3
    ensures w >= 3 ==> n == Characters.PoolIndex(countRoll, 3) + 1
  {
    Min(Characters.PoolIndex(countRoll, 3) + 1, w)
  }

  /** One more spawn attempt after the others: the add of `character` at the top of `column`. */
  lemma PlacedSnoc(g: Snapshot, w: nat, id: nat, columns: seq<int>, characters: seq<char>, column: int, character: char)
    requires |g| > 0 && Shaped(g, |g|, w) && |columns| == |characters|
    ensures var before := Placed(g, w, id, columns, characters);
            Placed(g, w, id, columns + [column], characters + [character])
              == if 0 <= column < w && before.0[0][column].None?
                 then (Added(before.0, column, Cell(character, before.1, false, true, 1)), before.1 + 1)
                 else before
  {
    assert (columns + [column])[..|columns|] == columns;
    assert (characters + [character])[..|characters|] == characters;
  }

  /** Spawn choices so far: distinct columns of a grid `w` wide, each with the character its roll draws. */
  ghost predicate Drawing(level: int, weights: map<char, real>, w: nat,
                    columns: seq<int>, characters: seq<char>, characterRolls: seq<real>)
  {
    && |columns| == |characters| <= |characterRolls|
    && (forall i, j :: 0 <= i < j < |columns| ==> columns[i] != columns[j])
    && (forall i :: 0 <= i < |columns| ==> 0 <= columns[i] < w)
    && Characters.Positive(weights)
    && (forall k :: 0 <= k < |characterRolls| ==> 0.0 <= characterRolls[k] < 1.0)
    && (forall i :: 0 <= i < |characters| ==> characters[i] == Characters.Drawn(level, weights, characterRolls[i]))
  }

  /** A fresh column on the grid, with the next roll's character, extends the choices. */
  lemma DrawingSnoc(level: int, weights: map<char, real>, w: nat,
                    columns: seq<int>, characters: seq<char>, characterRolls: seq<real>, column: int)
    requires Drawing(level, weights, w, columns, characters, characterRolls)
    requires |columns| < |characterRolls| && 0 <= column < w && column !in columns
    ensures Drawing(level, weights, w, columns + [column],
                    characters + [Characters.Drawn(level, weights, characterRolls[|columns|])], characterRolls)
  {
    var n := |characters|;
    var cs := columns + [column];
    DrawsSnoc(level, weights, characters, characterRolls);
    assert forall i, j :: 0 <= i < j < |cs| ==> cs[i] != cs[j] by {
      forall i, j | 0 <= i < j < |cs|
        ensures cs[i] != cs[j]
      {
        assert cs[i] == columns[i];
        if j == n {
          assert cs[j] == column;
        } else {
          assert cs[j] == columns[j];
        }
      }
    }
    assert forall i :: 0 <= i < |cs| ==> 0 <= cs[i] < w by {
      forall i | 0 <= i < |cs|
        ensures 0 <= cs[i] < w
      {
        if i < n {
          assert cs[i] == columns[i];
        }
      }
    }
  }

  /** The next roll's draw extends the draws so far. */
  lemma DrawsSnoc(level: int, weights: map<char, real>, characters: seq<char>, characterRolls: seq<real>)
    requires Characters.Positive(weights) && forall k :: 0 <= k < |characterRolls| ==> 0.0 <= characterRolls[k] < 1.0
    requires |characters| < |characterRolls|
    requires forall i :: 0 <= i < |characters| ==> characters[i] == Characters.Drawn(level, weights, characterRolls[i])
    ensures var ds := characters + [Characters.Drawn(level, weights, characterRolls[|characters|])];
            forall i :: 0 <= i < |ds| ==> ds[i] == Characters.Drawn(level, weights, characterRolls[i])
  {
    var ds := characters + [Characters.Drawn(level, weights, characterRolls[|characters|])];
    forall i | 0 <= i < |ds|
      ensures ds[i] == Characters.Drawn(level, weights, characterRolls[i])
    {
      if i < |characters| {
        assert ds[i] == characters[i];
      }
    }
  }

  /**
   * Spawning into distinct columns touches only row 0: a listed column that was
   * empty at the top gets a falling cell with its character, and every other
   * slot keeps its contents.
   */
  lemma {:induction false} PlacedTopRow(g: Snapshot, w: nat, id: nat, columns: seq<int>, characters: seq<char>)
    requires |g| > 0 && Shaped(g, |g|, w) && |columns| == |characters|
    requires forall i, j :: 0 <= i < j < |columns| ==> columns[i] != columns[j]
    ensures var g' := Placed(g, w, id, columns, characters).0;
            && (forall r, c :: 0 < r < |g| && 0 <= c < w ==> g'[r][c] == g[r][c])
            && (forall c :: 0 <= c < w && c !in columns ==> g'[0][c] == g[0][c])
            && (forall i :: 0 <= i < |columns| && 0 <= columns[i] < w ==>
                  if g[0][columns[i]].None? then
                    g'[0][columns[i]].Some? && g'[0][columns[i]].value.character == characters[i]
                    && g'[0][columns[i]].value.isFalling && !g'[0][columns[i]].value.isMatched
                  else g'[0][columns[i]] == g[0][columns[i]])
  {
    var g' := Placed(g, w, id, columns, characters).0;
    forall r, c | 0 < r < |g| && 0 <= c < w
      ensures g'[r][c] == g[r][c]
    {
      PlacedElsewhere(g, w, id, columns, characters, r, c);
    }
    forall c | 0 <= c < w && c !in columns
      ensures g'[0][c] == g[0][c]
    {
      PlacedElsewhere(g, w, id, columns, characters, 0, c);
    }
    forall i | 0 <= i < |columns| && 0 <= columns[i] < w
      ensures if g[0][columns[i]].None? then
                g'[0][columns[i]].Some? && g'[0][columns[i]].value.character == characters[i]
                && g'[0][columns[i]].value.isFalling && !g'[0][columns[i]].value.isMatched
              else g'[0][columns[i]] == g[0][columns[i]]
    {
      PlacedAt(g, w, id, columns, characters, i);
    }
  }

  /** A slot below the top row, or in a column nobody spawned into, keeps its contents. */
  lemma {:induction false} PlacedElsewhere(g: Snapshot, w: nat, id: nat, columns: seq<int>, characters: seq<char>, r: nat, c: nat)
    requires |g| > 0 && Shaped(g, |g|, w) && |columns| == |characters|
    requires r < |g| && c < w && (r > 0 || c !in columns)
    ensures Placed(g, w, id, columns, characters).0[r][c] == g[r][c]
  {
    if columns != [] {
      var n := |columns| - 1;
      assert c !in columns ==> c !in columns[..n];
      PlacedElsewhere(g, w, id, columns[..n], characters[..n], r, c);
    }
  }

  /** The spawn at `columns[i]` lands in an empty top slot, with its character, falling and unmatched. */
  lemma {:induction false} PlacedAt(g: Snapshot, w: nat, id: nat, columns: seq<int>, characters: seq<char>, i: nat)
    requires |g| > 0 && Shaped(g, |g|, w) && |columns| == |characters|
    requires forall i, j :: 0 <= i < j < |columns| ==> columns[i] != columns[j]
    requires i < |columns| && 0 <= columns[i] < w
    ensures var g' := Placed(g, w, id, columns, characters).0;
            if g[0][columns[i]].None? then
              g'[0][columns[i]].Some? && g'[0][columns[i]].value.character == characters[i]
              && g'[0][columns[i]].value.isFalling && !g'[0][columns[i]].value.isMatched
            else g'[0][columns[i]] == g[0][columns[i]]
  {
    var n := |columns| - 1;
    var column := columns[i];
    if i == n {
      assert column !in columns[..n];
      PlacedElsewhere(g, w, id, columns[..n], characters[..n], 0, column);
    } else {
      assert columns[..n][i] == column && characters[..n][i] == characters[i];
      assert columns[n] != column;
      PlacedAt(g, w, id, columns[..n], characters[..n], i);
    }
  }

  // ---------------------------------------------------------------------------
  // Publishing on the event channel

  /**
   * Since its history was `h0`, the channel has been handed the events `es`,
   * in order, each stamped `now`, and its listeners are still `listeners`.
   * What each emit delivers is the channel's own contract (`Events.EventManager.Emit`).
   */
  ghost predicate Published(m: Events.EventManager, listeners: map<EventType, Events.Registry>,
                            h0: seq<GameEvent>, es: seq<(EventType, Payload)>, now: int)
    reads m
  {
    m.listeners == listeners && m.history == h0 + Events.Stamped(es, now)
  }

  /** Two publications in a row are one publication of both lists, in order. */
  lemma PublishedThen(m: Events.EventManager, listeners: map<EventType, Events.Registry>, h0: seq<GameEvent>,
                      h1: seq<GameEvent>, es1: seq<(EventType, Payload)>, es2: seq<(EventType, Payload)>, now: int)
    requires h1 == h0 + Events.Stamped(es1, now)
    requires Published(m, listeners, h1, es2, now)
    ensures Published(m, listeners, h0, es1 + es2, now)
  {
    Events.StampedAppend(es1, es2, now);
    assert h1 + Events.Stamped(es2, now) == h0 + (Events.Stamped(es1, now) + Events.Stamped(es2, now));
  }

  // ---------------------------------------------------------------------------
  // Scoring an execution

  /**
   * The points `executePattern` as written would credit for `matchCount` matched
   * positions under the state's pattern: `None` stands for the `Infinity` the
   * division by a zero pattern length yields.
   */
  function ExecutedPointsAsWritten(config: GameConfig, matchCount: nat, pattern: string): (r: Option<int>)
    ensures r.None? <==> pattern == [] && matchCount > 0
  {
    Progress.MatchScoreAsWritten(config, matchCount, |pattern|)
  }

  /**
   * Clearing the pattern keeps the highlighted matches until the next tick, and
   * executing then divides by the empty pattern's length.
   */
  lemma ExecuteAfterClearingAsWritten(config: GameConfig, currentMatches: seq<Pos>)
    requires currentMatches != []
    ensures ExecutedPointsAsWritten(config, |currentMatches|, "") == None
  {
  }

  /** `executePattern` acts only with highlighted matches, a running game and a pattern. */
  predicate Executes(currentMatches: seq<Pos>, playing: bool, pattern: string) {
    currentMatches != [] && playing && pattern != []
  }

  /** With a pattern the points of an execution are always defined, and they are the ones `calculateMatchScore` gives. */
  lemma ExecutedPointsDefined(config: GameConfig, currentMatches: seq<Pos>, playing: bool, pattern: string)
    requires Executes(currentMatches, playing, pattern)
    ensures ExecutedPointsAsWritten(config, |currentMatches|, pattern)
            == Some(Progress.CalculateMatchScore(config, |currentMatches|, |pattern|))
  {
  }

  /**
   * The session after an execution credits `points` and clears `lines` completed
   * rows: the score rises by the points, and the lines are credited, by the
   * rules of `addLinesCleared`, only when there are some.
   */
  function Credited(s: GameState, config: GameConfig, points: int, lines: nat): (t: GameState)
    ensures lines == 0 ==> t == s.(score := s.score + points)
    ensures t.score == s.score + points + lines * config.scorePerLine
    ensures t.linesCleared == s.linesCleared + lines
    ensures t.currentPattern == s.currentPattern
    ensures t.isPlaying == s.isPlaying && t.isPaused == s.isPaused && t.isGameOver == s.isGameOver
  {
    var s1 := s.(score := s.score + points);
    if lines > 0 then Progress.AfterLines(s1, config, lines) else s1
  }

  /**
   * Crediting in one go is `updateScore(points)` followed, when some rows were
   * completed, by `addLinesCleared` for them.
   */
  lemma CreditedInTwoSteps(s: GameState, config: GameConfig, points: int, rows: seq<int>)
    ensures var s1 := s.(score := s.score + points);
            Credited(s, config, points, |rows|) == if rows != [] then Progress.AfterLines(s1, config, |rows|) else s1
  {
  }

  /** The session after a whole execution: credited, and with its pattern cleared. */
  function Executed(s: GameState, config: GameConfig, points: int, lines: nat): (t: GameState)
    ensures t.score == s.score + points + lines * config.scorePerLine
    ensures t.linesCleared == s.linesCleared + lines && t.currentPattern == []
    ensures t.isPlaying == s.isPlaying && t.isPaused == s.isPaused && t.isGameOver == s.isGameOver
  {
    Credited(s, config, points, lines).(currentPattern := [])
  }

  /**
   * What the spawn step of a tick adds: nothing when no spawn is due; otherwise
   * the columns `SpawnColumns` names for the draws, each with the character its
   * roll draws from the level's pool.
   */
  ghost predicate Spawned(due: bool, w: nat, level: int, weights: map<char, real>,
                          countRoll: real, columnRolls: seq<real>, characterRolls: seq<real>,
                          columns: seq<int>, characters: seq<char>)
    requires w > 0 && Characters.Positive(weights) && 0.0 <= countRoll < 1.0
    requires forall k :: 0 <= k < |columnRolls| ==> 0.0 <= columnRolls[k] < 1.0
    requires forall k :: 0 <= k < |characterRolls| ==> 0.0 <= characterRolls[k] < 1.0
  {
    if !due then columns == [] && characters == []
    else
      && columns == SpawnColumns(w, SpawnCount(countRoll, w), [], 0, columnRolls, |characterRolls|).0
      && |characters| == |columns|
      && forall i :: 0 <= i < |characters| ==> characters[i] == Characters.Drawn(level, weights, characterRolls[i])
  }

  /** What the fall step of a tick announces: the new grid, when the step was due and something moved. */
  function FallEvents(g: Snapshot, w: nat, due: bool): seq<(EventType, Payload)>
    requires |g| > 0 && Shaped(g, |g|, w)
  {
    if due && CascadeChanged(g, w) then [(GridUpdated, GridPayload(Cascaded(g, w)))] else []
  }

  /**
   * What a running tick does after the fall, from the grid `g`, the session
   * state `s` and the positions highlighted so far: the highlights are refreshed,
   * and when a landed cell then sits in the top row the session ends with an
   * announcement of its final score, level and lines. The grid, the highlighted
   * positions, the events published and whether the session ended.
   */
  ghost function Refreshed(pm: PatternMatcher, g: Snapshot, w: nat, s: GameState, highlighted: seq<Pos>)
    : (Snapshot, seq<Pos>, seq<(EventType, Payload)>, bool)
    reads pm
    requires Rect(g, w)
  {
    var h := Highlight(pm, g, w, s.currentPattern, highlighted);
    var over := TopBlocked(h.0);
    (h.0, h.1, h.2 + (if over then [(GameOver, GameOverPayload(s.score, s.currentLevel, s.linesCleared))] else []), over)
  }

  /** The outcome of a running tick: the grid, the next identifier, the highlights, the events, whether it ended the session. */
  datatype Tick = Tick(grid: Snapshot, nextId: nat, highlighted: seq<Pos>, events: seq<(EventType, Payload)>, over: bool)

  /**
   * The grid and the next identifier after the spawn and the fall of a running
   * tick: the spawned `characters` land in `columns`, then the grid falls one
   * step when `fallDue`.
   */
  function Landed(g: Snapshot, w: nat, id: nat, columns: seq<int>, characters: seq<char>, fallDue: bool)
    : (r: (Snapshot, nat))
    requires |g| > 0 && Shaped(g, |g|, w) && |columns| == |characters|
    ensures Shaped(r.0, |g|, w) && id <= r.1
  {
    var placed := Placed(g, w, id, columns, characters);
    (if fallDue then Cascaded(placed.0, w) else placed.0, placed.1)
  }

  /**
   * A running tick from the grid `g`, with the state `s` it has brought up to
   * date: the grid `Landed` gives, then what `Refreshed` does to it; the events
   * are those of the fall followed by those of the refresh.
   */
  ghost function Ticked(pm: PatternMatcher, g: Snapshot, w: nat, id: nat, s: GameState, highlighted: seq<Pos>,
                        columns: seq<int>, characters: seq<char>, fallDue: bool): Tick
    reads pm
    requires |g| > 0 && Shaped(g, |g|, w) && |columns| == |characters|
  {
    var landed := Landed(g, w, id, columns, characters, fallDue);
    var r := Refreshed(pm, landed.0, w, s, highlighted);
    Tick(r.0, landed.1, r.1, FallEvents(Placed(g, w, id, columns, characters).0, w, fallDue) + r.2, r.3)
  }

  /** The highlighted positions and the announced count, as `executePattern` updates them. */
  datatype Execution = Execution(currentMatches: seq<Pos>, matchCount: int)

  /** `this.currentMatches = []`. */
  function ClearHighlights(x: Execution): Execution {
    x.(currentMatches := [])
  }

  /** `matchCount: this.currentMatches.length`: the count read from the field as it stands. */
  function ReadCount(x: Execution): Execution {
    x.(matchCount := |x.currentMatches|)
  }

  /**
   * The `matchCount` `executePattern` as written announces: it empties the
   * highlighted positions and only then reads their number.
   */
  function ExecutedCountAsWritten(currentMatches: seq<Pos>): (n: int)
    ensures n == 0
  {
    ReadCount(ClearHighlights(Execution(currentMatches, 0))).matchCount
  }

  /**
   * However many positions were executed, the announced count is 0; reading the
   * count before emptying the highlights would give their number.
   */
  lemma ExecutedCountIgnoresMatchesAsWritten(currentMatches: seq<Pos>)
    requires currentMatches != []
    ensures ExecutedCountAsWritten(currentMatches) != |currentMatches|
    ensures ReadCount(Execution(currentMatches, 0)).matchCount == |currentMatches|
  {
  }

  /**
   * After an execution (removal of the highlighted positions, clearing of the
   * completed rows, dropping of every flag) the executed slots are empty, no row
   * is full and no cell is flagged.
   */
  lemma ExecutionSettles(g: Snapshot, w: nat, currentMatches: seq<Pos>)
    requires Shaped(g, |g|, w) && w > 0
    ensures var g' := Unmarked(RowsCleared(RemovedAt(g, currentMatches), w));
            && Shaped(g', |g|, w)
            && (forall p :: p in currentMatches && 0 <= p.row < |g| && 0 <= p.col < w ==> g'[p.row][p.col].None?)
            && (forall r :: 0 <= r < |g| ==> !Full(g', r))
            && (forall r, c :: 0 <= r < |g| && 0 <= c < w && g'[r][c].Some? ==> !g'[r][c].value.isMatched)
  {
    var g1 := RemovedAt(g, currentMatches);
    RemovedAtEmptiesListed(g, currentMatches, |g|, w);
    var g2 := RowsCleared(g1, w);
    ClearingLeavesNoFullRow(g1, w);
    var g': Snapshot := Unmarked(g2);
    UnmarkedIdempotent(g2);
    forall p | p in currentMatches && 0 <= p.row < |g| && 0 <= p.col < w
      ensures g'[p.row][p.col].None?
    {
      ClearedSlot(g1, w, p.row, p.col);
    }
    forall r | 0 <= r < |g|
      ensures !Full(g', r)
    {
      assert !Full(g2, r);
      var c :| 0 <= c < w && g2[r][c].None?;
      assert g'[r][c].None?;
    }
  }

  class GameLoop {
    const gridManager: GridManager
    const patternMatcher: PatternMatcher
    const characterGenerator: Characters.CharacterGenerator
    const gameState: Progress.GameStateManager
    /** The event channel every game object publishes on. */
    const events: Events.EventManager

    /** The animation frame requested for the next tick, if any. */
    var animationId: Option<nat>
    /** The identifier the next frame request is given. */
    var nextFrame: nat
    var lastUpdateTime: int
    var lastFallTime: int
    var lastSpawnTime: int
    /** Milliseconds between two spawns. */
    const spawnInterval: int := 2000
    /** The positions highlighted by the last match search, one per result cell. */
    var currentMatches: seq<Pos>

    ghost predicate Valid()
      reads this, gridManager, patternMatcher, characterGenerator, gameState, events
    {
      && gridManager.Valid()
      && patternMatcher.Valid()
      && characterGenerator.Valid()
      && gameState.Valid()
      && events.Valid()
    }

    constructor(gridManager: GridManager, patternMatcher: PatternMatcher,
                characterGenerator: Characters.CharacterGenerator,
                gameState: Progress.GameStateManager, events: Events.EventManager)
      requires gridManager.Valid() && patternMatcher.Valid() && characterGenerator.Valid()
      requires gameState.Valid() && events.Valid()
      ensures Valid()
      ensures this.gridManager == gridManager && this.patternMatcher == patternMatcher
      ensures this.characterGenerator == characterGenerator && this.gameState == gameState
      ensures this.events == events
      ensures animationId == None && currentMatches == []
      ensures lastUpdateTime == 0 && lastFallTime == 0 && lastSpawnTime == 0
    {
      this.gridManager := gridManager;
      this.patternMatcher := patternMatcher;
      this.characterGenerator := characterGenerator;
      this.gameState := gameState;
      this.events := events;
      animationId := None;
      nextFrame := 0;
      lastUpdateTime := 0;
      lastFallTime := 0;
      lastSpawnTime := 0;
      currentMatches := [];
    }

    /** `gameEventManager.emit`, seen as publishing a batch of one event. */
    method Publish(eventType: EventType, payload: Payload, now: int)
      requires events.Valid()
      modifies events
      ensures events.Valid() && events.nextGeneration == old(events.nextGeneration)
      ensures Published(events, old(events.listeners), old(events.history), [(eventType, payload)], now)
    {
      events.Emit(eventType, payload, now);
      assert Events.Stamped([(eventType, payload)], now) == [GameEvent(eventType, payload, now)];
    }

    /** Cancels the pending frame request, if any. */
    method Stop()
      modifies this
      ensures animationId == None
      ensures nextFrame == old(nextFrame) && currentMatches == old(currentMatches)
      ensures lastUpdateTime == old(lastUpdateTime) && lastFallTime == old(lastFallTime)
      ensures lastSpawnTime == old(lastSpawnTime)
    {
      if animationId.Some? {
        animationId := None;
      }
    }

    method Pause(now: int)
      requires Valid()
      modifies gameState
      ensures Valid()
      ensures gameState.state == if old(gameState.IsPlaying()) then old(gameState.state).(isPaused := true)
                                 else old(gameState.state)
    {
      gameState.PauseGame(now);
    }

    /** Resumes the session and restarts the spawn and fall timers at `timestamp`. */
    method Resume(timestamp: int, now: int)
      requires Valid()
      modifies this, gameState
      ensures Valid()
      ensures gameState.state == if old(gameState.state.isPlaying && gameState.state.isPaused)
                                 then old(gameState.state).(isPaused := false) else old(gameState.state)
      ensures lastUpdateTime == timestamp && lastFallTime == timestamp && lastSpawnTime == timestamp
      ensures animationId == old(animationId) && currentMatches == old(currentMatches)
    {
      gameState.ResumeGame(now);
      lastUpdateTime := timestamp;
      lastFallTime := lastUpdateTime;
      lastSpawnTime := lastUpdateTime;
    }

    /**
     * The `do … while` of `spawnCharacters`: draws columns from `rolls[from..]`
     * until one not in `usedColumns` comes up, which is the column `FreshColumn`
     * names. It fails only when every remaining draw hits a used column.
     */
    method PickColumn(usedColumns: seq<int>, rolls: seq<real>, from: nat) returns (column: int, found: bool, next: nat)
      requires gridManager.Valid() && from <= |rolls|
      requires forall k :: 0 <= k < |rolls| ==> 0.0 <= rolls[k] < 1.0
      ensures var f := FreshColumn(usedColumns, rolls, from, gridManager.width);
              && found == f.Some?
              && (found ==> column == f.value.0 && next == f.value.1)
              && (!found ==> next == |rolls|)
    {
      next := from;
      found := false;
      column := -1;
      while !found && next < |rolls|
        invariant from <= next <= |rolls|
        invariant !found ==> FreshColumn(usedColumns, rolls, from, gridManager.width)
                             == FreshColumn(usedColumns, rolls, next, gridManager.width)
        invariant found ==> FreshColumn(usedColumns, rolls, from, gridManager.width) == Some((column, next))
        decreases |rolls| - next
      {
        column := Characters.PoolIndex(rolls[next], gridManager.width);
        next := next + 1;
        found := column !in usedColumns;
      }
    }

    /**
     * `spawnCharacters`: draws how many characters to spawn (one to three), then
     * for each a column not used yet in this spawn and a character of the current
     * level, and adds it at the top of that column; an add to a full column is
     * skipped. Spawning stops early only when the supplied draws run out.
     */
    method SpawnCharacters(countRoll: real, columnRolls: seq<real>, characterRolls: seq<real>)
      returns (columns: seq<int>, characters: seq<char>, used: nat)
      requires Valid()
      requires 0.0 <= countRoll < 1.0
      requires forall k :: 0 <= k < |columnRolls| ==> 0.0 <= columnRolls[k] < 1.0
      requires forall k :: 0 <= k < |characterRolls| ==> 0.0 <= characterRolls[k] < 1.0
      modifies gridManager, gridManager.grid
      ensures Valid() && gridManager.grid == old(gridManager.grid)
      ensures (columns, used) == SpawnColumns(gridManager.width, SpawnCount(countRoll, gridManager.width), [], 0,
                                              columnRolls, |characterRolls|)
      ensures |characters| == |columns|
      ensures forall i, j :: 0 <= i < j < |columns| ==> columns[i] != columns[j]
      ensures forall i :: 0 <= i < |columns| ==> 0 <= columns[i] < gridManager.width
      ensures forall i :: 0 <= i < |characters| ==>
                characters[i] == Characters.Drawn(gameState.state.currentLevel, characterGenerator.weights, characterRolls[i])
      ensures var p := Placed(old(gridManager.View()), gridManager.width, old(gridManager.nextId), columns, characters);
              gridManager.View() == p.0 && gridManager.nextId == p.1
    {
      var level := gameState.state.currentLevel;
      var numCharacters := SpawnCount(countRoll, gridManager.width);
      ghost var g0, id0 := gridManager.View(), gridManager.nextId;
      ghost var weights := characterGenerator.weights;
      columns, characters, used := [], [], 0;
      var stopped := false;
      while |columns| < numCharacters && !stopped
        invariant Spawning(g0, id0, level, weights, columns, characters, characterRolls)
        invariant |columns| <= numCharacters && used <= |columnRolls|
        invariant !stopped ==> SpawnColumns(gridManager.width, numCharacters, columns, used, columnRolls, |characterRolls|)
                               == SpawnColumns(gridManager.width, numCharacters, [], 0, columnRolls, |characterRolls|)
        invariant stopped ==> (columns, used)
                              == SpawnColumns(gridManager.width, numCharacters, [], 0, columnRolls, |characterRolls|)
        invariant gridManager.grid == old(gridManager.grid)
        decreases numCharacters - |columns|, if stopped then 0 else 1
      {
        if |columns| == |characterRolls| {
          stopped := true;
        } else {
          var found;
          columns, characters, used, found := SpawnNext(g0, id0, level, weights, columns, characters, used, columnRolls, characterRolls);
          stopped := !found;
        }
      }
    }

    /**
     * The spawn so far: `columns` distinct and on the grid, `characters` drawn
     * by the first character rolls, and the grid holding what the adds placed.
     */
    ghost predicate Spawning(g0: Snapshot, id0: nat, level: int, weights: map<char, real>,
                             columns: seq<int>, characters: seq<char>, characterRolls: seq<real>)
      reads this, gridManager, gridManager.grid, characterGenerator
    {
      && gridManager.Valid() && |g0| > 0 && Shaped(g0, |g0|, gridManager.width)
      && characterGenerator.weights == weights
      && Drawing(level, weights, gridManager.width, columns, characters, characterRolls)
      && var p := Placed(g0, gridManager.width, id0, columns, characters);
         gridManager.View() == p.0 && gridManager.nextId == p.1
    }

    /**
     * One turn of the spawn loop: picks a fresh column and, when one comes up,
     * draws the next character and adds it there. Fails only when the column
     * draws run out.
     */
    method SpawnNext(ghost g0: Snapshot, ghost id0: nat, level: int, ghost weights: map<char, real>,
                     columns: seq<int>, characters: seq<char>, used: nat,
                     columnRolls: seq<real>, characterRolls: seq<real>)
      returns (columns': seq<int>, characters': seq<char>, used': nat, found: bool)
      requires Spawning(g0, id0, level, weights, columns, characters, characterRolls)
      requires |columns| < |characterRolls| && used <= |columnRolls|
      requires forall k :: 0 <= k < |columnRolls| ==> 0.0 <= columnRolls[k] < 1.0
      modifies gridManager, gridManager.grid
      ensures gridManager.grid == old(gridManager.grid)
      ensures Spawning(g0, id0, level, weights, columns', characters', characterRolls)
      ensures var f := FreshColumn(columns, columnRolls, used, gridManager.width);
              && found == f.Some?
              && (found ==> columns' == columns + [f.value.0] && used' == f.value.1)
              && (!found ==> columns' == columns && used' == |columnRolls|)
    {
      var column;
      column, found, used' := PickColumn(columns, columnRolls, used);
      if !found {
        columns', characters' := columns, characters;
      } else {
        var character := characterGenerator.GenerateCharacter(level, characterRolls[|columns|]);
        DrawingSnoc(level, weights, gridManager.width, columns, characters, characterRolls, column);
        AddSpawned(g0, id0, columns, characters, column, character);
        columns', characters' := columns + [column], characters + [character];
      }
    }

    /** `addCharacter(column, character)` within a spawn, seen as one more step of `Placed`. */
    method AddSpawned(ghost g0: Snapshot, ghost id0: nat, ghost columns: seq<int>, ghost characters: seq<char>,
                      column: int, character: char)
      requires gridManager.Valid() && |g0| > 0 && Shaped(g0, |g0|, gridManager.width) && |columns| == |characters|
      requires var p := Placed(g0, gridManager.width, id0, columns, characters);
               gridManager.View() == p.0 && gridManager.nextId == p.1
      modifies gridManager, gridManager.grid
      ensures gridManager.Valid() && gridManager.grid == old(gridManager.grid)
      ensures var p := Placed(g0, gridManager.width, id0, columns + [column], characters + [character]);
              gridManager.View() == p.0 && gridManager.nextId == p.1
    {
      PlacedSnoc(g0, gridManager.width, id0, columns, characters, column, character);
      var added := gridManager.AddCharacter(column, character, 1);
    }

    /** `updateFallingCharacters`: one gravity pass, announced when something moved. */
    method UpdateFallingCharacters(now: int)
      requires Valid()
      modifies gridManager.grid, events
      ensures Valid()
      ensures gridManager.View() == Cascaded(old(gridManager.View()), gridManager.width)
      ensures Published(events, old(events.listeners), old(events.history),
                        if CascadeChanged(old(gridManager.View()), gridManager.width)
                        then [(GridUpdated, GridPayload(gridManager.View()))] else [], now)
    {
      var hasChanges := gridManager.CascadeDown();
      if hasChanges {
        var grid := gridManager.GetGridState();
        Publish(GridUpdated, GridPayload(grid), now);
      }
    }

    /** `processMatches`: leaves the grid, the highlighted positions and the events `Highlight` describes. */
    method ProcessMatches(now: int)
      requires Valid()
      modifies this, gridManager.grid, events
      ensures Valid()
      ensures animationId == old(animationId) && nextFrame == old(nextFrame)
      ensures lastUpdateTime == old(lastUpdateTime) && lastFallTime == old(lastFallTime)
      ensures lastSpawnTime == old(lastSpawnTime)
      ensures var h := Highlight(patternMatcher, old(gridManager.View()), gridManager.width,
                                 gameState.state.currentPattern, old(currentMatches));
              && gridManager.View() == h.0 && currentMatches == h.1
              && Published(events, old(events.listeners), old(events.history), h.2, now)
    {
      var pattern := gameState.state.currentPattern;
      if pattern == [] {
        DropHighlights(now);
        return;
      }
      HighlightMatches(now);
    }

    /** `processMatches` without a pattern: drops the highlights, if there are any. */
    method DropHighlights(now: int)
      requires Valid()
      modifies this, gridManager.grid, events
      ensures Valid()
      ensures animationId == old(animationId) && nextFrame == old(nextFrame)
      ensures lastUpdateTime == old(lastUpdateTime) && lastFallTime == old(lastFallTime)
      ensures lastSpawnTime == old(lastSpawnTime) && currentMatches == []
      ensures old(currentMatches) == [] ==>
                gridManager.View() == old(gridManager.View())
                && Published(events, old(events.listeners), old(events.history), [], now)
      ensures old(currentMatches) != [] ==>
                gridManager.View() == Unmarked(old(gridManager.View()))
                && Published(events, old(events.listeners), old(events.history),
                             [(MatchFound, MatchPayload([], None))], now)
    {
      if |currentMatches| > 0 {
        gridManager.ClearMatchedFlags();
        currentMatches := [];
        Publish(MatchFound, MatchPayload([], None), now);
      } else {
      }
    }

    /** `processMatches` with a pattern: highlights the cells of every result and announces them. */
    method HighlightMatches(now: int)
      requires Valid()
      modifies this, gridManager.grid, events
      ensures Valid()
      ensures animationId == old(animationId) && nextFrame == old(nextFrame)
      ensures lastUpdateTime == old(lastUpdateTime) && lastFallTime == old(lastFallTime)
      ensures lastSpawnTime == old(lastSpawnTime)
      ensures var ms := Matches(patternMatcher, old(gridManager.View()), gridManager.width);
              && currentMatches == Positions(ms)
              && gridManager.View() == MarkedAll(Unmarked(old(gridManager.View())), Positions(ms))
              && Published(events, old(events.listeners), old(events.history),
                           [(MatchFound, MatchPayload(Positions(ms), Some(ms)))], now)
    {
      ghost var g := gridManager.View();
      var matchResults := SearchGrid();
      gridManager.ClearMatchedFlags();
      var allPositions := HighlightAll(g, matchResults);
      currentMatches := allPositions;
      Publish(MatchFound, MatchPayload(allPositions, Some(matchResults)), now);
    }

    /** `patternMatcher.findMatches(gridManager.getGridState())`. */
    method SearchGrid() returns (matchResults: seq<MatchResult>)
      requires Valid()
      ensures matchResults == Matches(patternMatcher, gridManager.View(), gridManager.width)
    {
      var snapshot := gridManager.GetGridState();
      assert GridWidth(snapshot) == gridManager.width by {
        assert |snapshot[0]| == gridManager.width;
      }
      matchResults := patternMatcher.FindMatches(snapshot);
    }

    /** The two `forEach` loops of `processMatches`: every position of every result, collected and marked. */
    method HighlightAll(ghost g: Snapshot, matchResults: seq<MatchResult>) returns (allPositions: seq<Pos>)
      requires gridManager.Valid() && gridManager.View() == Unmarked(g)
      modifies gridManager.grid
      ensures allPositions == Positions(matchResults)
      ensures gridManager.View() == MarkedAll(Unmarked(g), allPositions)
    {
      allPositions := [];
      for i := 0 to |matchResults|
        invariant allPositions == Positions(matchResults[..i])
        invariant gridManager.View() == MarkedAll(Unmarked(g), allPositions)
      {
        allPositions := MarkEach(Unmarked(g), allPositions, matchResults[i].positions);
        PositionsSnoc(matchResults, i);
      }
      assert matchResults[..|matchResults|] == matchResults;
    }

    /** The inner `forEach` of `processMatches`: collects and marks the positions of one result. */
    method MarkEach(ghost base: Snapshot, collected: seq<Pos>, positions: seq<Pos>) returns (collected': seq<Pos>)
      requires gridManager.Valid() && gridManager.View() == MarkedAll(base, collected)
      modifies gridManager.grid
      ensures collected' == collected + positions
      ensures gridManager.View() == MarkedAll(base, collected')
    {
      collected' := collected;
      for j := 0 to |positions|
        invariant collected' == collected + positions[..j]
        invariant gridManager.View() == MarkedAll(base, collected')
      {
        var pos := positions[j];
        MarkedAllSnoc(base, collected', pos);
        collected' := collected' + [pos];
        gridManager.MarkCellAsMatched(pos.row, pos.col);
        assert positions[..j + 1] == positions[..j] + [pos];
      }
      assert positions[..|positions|] == positions;
    }

    /**
     * `checkCompletedLines`: finds the rows with no empty slot, top to bottom;
     * when there are some, empties them, credits them to the session in one call
     * and announces them.
     */
    method CheckCompletedLines(now: int)
      requires Valid()
      modifies gridManager.grid, gameState, events
      ensures Valid()
      ensures gridManager.View() == RowsCleared(old(gridManager.View()), gridManager.width)
      ensures var g := old(gridManager.View());
              var rows := CompletedRows(g, |g|);
              gameState.state == if rows != [] then Progress.AfterLines(old(gameState.state), gameState.config, |rows|)
                                 else old(gameState.state)
      ensures var g := old(gridManager.View());
              Published(events, old(events.listeners), old(events.history), LinesEvents(CompletedRows(g, |g|)), now)
    {
      ghost var g := gridManager.View();
      var completedRows := FindCompletedRows();
      if |completedRows| > 0 {
        ClearRows(completedRows, now);
      } else {
        NothingCompleted(g, gridManager.width);
      }
    }

    /** The second half of `checkCompletedLines`: empties the completed rows, credits and announces them. */
    method ClearRows(completedRows: seq<int>, now: int)
      requires Valid() && completedRows != []
      requires completedRows == CompletedRows(gridManager.View(), gridManager.height)
      modifies gridManager.grid, gameState, events
      ensures Valid()
      ensures gridManager.View() == RowsCleared(old(gridManager.View()), gridManager.width)
      ensures gameState.state == Progress.AfterLines(old(gameState.state), gameState.config, |completedRows|)
      ensures Published(events, old(events.listeners), old(events.history),
                        [(EventType.LinesCleared, LinesPayload(completedRows, |completedRows|))], now)
    {
      RemoveRows(completedRows);
      gameState.AddLinesCleared(|completedRows|);
      Publish(EventType.LinesCleared, LinesPayload(completedRows, |completedRows|), now);
    }

    /** Empties every slot of the listed rows. */
    method RemoveRows(completedRows: seq<int>)
      requires gridManager.Valid()
      requires completedRows == CompletedRows(gridManager.View(), gridManager.height)
      modifies gridManager.grid
      ensures gridManager.View() == RowsCleared(old(gridManager.View()), gridManager.width)
    {
      var positions := RowsPositions(completedRows);
      gridManager.RemoveMatches(positions);
    }

    /** The row scan of `checkCompletedLines`: a row is complete unless a cell read returns `null`. */
    method FindCompletedRows() returns (completedRows: seq<int>)
      requires gridManager.Valid()
      ensures completedRows == CompletedRows(gridManager.View(), gridManager.height)
    {
      ghost var g := gridManager.View();
      completedRows := [];
      for row := 0 to gridManager.height
        invariant completedRows == CompletedRows(g, row)
      {
        var isComplete := true;
        var col := 0;
        while col < gridManager.width
          invariant 0 <= col <= gridManager.width
          invariant isComplete && forall c :: 0 <= c < col ==> g[row][c].Some?
        {
          if gridManager.GetCell(row, col).None? {
            isComplete := false;
            break;
          }
          col := col + 1;
        }
        assert isComplete == Full(g, row);
        if isComplete {
          completedRows := completedRows + [row];
        }
      }
    }

    /** `{ row, col }` for every column of every completed row, row after row. */
    method RowsPositions(completedRows: seq<int>) returns (positions: seq<Pos>)
      requires gridManager.Valid()
      ensures positions == RowPositions(completedRows, gridManager.width)
    {
      positions := [];
      for k := 0 to |completedRows|
        invariant positions == RowPositions(completedRows[..k], gridManager.width)
      {
        ghost var before := positions;
        for col := 0 to gridManager.width
          invariant positions == before + seq(col, c => Pos(completedRows[k], c))
        {
          positions := positions + [Pos(completedRows[k], col)];
        }
        assert completedRows[..k + 1][..k] == completedRows[..k];
      }
      assert completedRows[..|completedRows|] == completedRows;
    }

    /**
     * `executePattern`, with the guard extended to an empty pattern (see
     * `ExecuteAfterClearingAsWritten`) and the announced count read before the
     * highlights are dropped (see `ExecutedCountIgnoresMatchesAsWritten`). It acts
     * only with highlighted positions, a running session and a pattern: it empties
     * the highlighted slots, credits `calculateMatchScore` for their number and the
     * pattern's length, clears the completed rows, drops every highlight and the
     * pattern, and announces the execution after the cleared rows.
     */
    method ExecutePattern(now: int)
      requires Valid()
      modifies this, gridManager.grid, gameState, events
      ensures Valid()
      ensures animationId == old(animationId) && nextFrame == old(nextFrame)
      ensures lastUpdateTime == old(lastUpdateTime) && lastFallTime == old(lastFallTime)
      ensures lastSpawnTime == old(lastSpawnTime)
      ensures !Executes(old(currentMatches), old(gameState.IsPlaying()), old(gameState.state.currentPattern)) ==>
                && gridManager.View() == old(gridManager.View()) && currentMatches == old(currentMatches)
                && gameState.state == old(gameState.state)
                && Published(events, old(events.listeners), old(events.history), [], now)
      ensures Executes(old(currentMatches), old(gameState.IsPlaying()), old(gameState.state.currentPattern)) ==>
                && currentMatches == []
                && gridManager.View() == Unmarked(RowsCleared(RemovedAt(old(gridManager.View()), old(currentMatches)),
                                                              gridManager.width))
      ensures Executes(old(currentMatches), old(gameState.IsPlaying()), old(gameState.state.currentPattern)) ==>
                var points := Progress.CalculateMatchScore(gameState.config, |old(currentMatches)|, |old(gameState.state.currentPattern)|);
                var rows := CompletedRows(RemovedAt(old(gridManager.View()), old(currentMatches)), gridManager.height);
                && gameState.state == Executed(old(gameState.state), gameState.config, points, |rows|)
                && Published(events, old(events.listeners), old(events.history),
                             LinesEvents(rows) + [(PatternExecuted, ExecutedPayload(|old(currentMatches)|, points))], now)
    {
      var pattern := gameState.state.currentPattern;
      if |currentMatches| == 0 || !gameState.IsPlaying() || pattern == [] {
        return;
      }
      ExecuteMatches(now);
    }

    /** The acting part of `executePattern`, once its guard has passed. */
    method ExecuteMatches(now: int)
      requires Valid() && Executes(currentMatches, gameState.IsPlaying(), gameState.state.currentPattern)
      modifies this, gridManager.grid, gameState, events
      ensures Valid()
      ensures animationId == old(animationId) && nextFrame == old(nextFrame)
      ensures lastUpdateTime == old(lastUpdateTime) && lastFallTime == old(lastFallTime)
      ensures lastSpawnTime == old(lastSpawnTime)
      ensures currentMatches == []
      ensures gridManager.View() == Unmarked(RowsCleared(RemovedAt(old(gridManager.View()), old(currentMatches)), gridManager.width))
      ensures var points := Progress.CalculateMatchScore(gameState.config, |old(currentMatches)|, |old(gameState.state.currentPattern)|);
              var g := RemovedAt(old(gridManager.View()), old(currentMatches));
              gameState.state == Executed(old(gameState.state), gameState.config, points, |CompletedRows(g, |g|)|)
      ensures var points := Progress.CalculateMatchScore(gameState.config, |old(currentMatches)|, |old(gameState.state.currentPattern)|);
              var g := RemovedAt(old(gridManager.View()), old(currentMatches));
              Published(events, old(events.listeners), old(events.history),
                        LinesEvents(CompletedRows(g, |g|)) + [(PatternExecuted, ExecutedPayload(|old(currentMatches)|, points))], now)
    {
      var matchCount := |currentMatches|;
      var score := CreditMatches(now);
      ghost var h1 := events.history;
      Unhighlight();
      ClosePattern(matchCount, score, now);
      ghost var g := RemovedAt(old(gridManager.View()), old(currentMatches));
      PublishedThen(events, old(events.listeners), old(events.history), h1, LinesEvents(CompletedRows(g, |g|)),
                    [(PatternExecuted, ExecutedPayload(matchCount, score))], now);
    }

    /** The end of an execution: clears the session's pattern and announces the execution. */
    method ClosePattern(matchCount: nat, score: int, now: int)
      requires Valid()
      modifies gameState, events
      ensures Valid() && gameState.state == old(gameState.state).(currentPattern := [])
      ensures Published(events, old(events.listeners), old(events.history),
                        [(PatternExecuted, ExecutedPayload(matchCount, score))], now)
    {
      gameState.UpdatePattern([]);
      Publish(PatternExecuted, ExecutedPayload(matchCount, score), now);
    }

    /** Empties the highlighted positions and clears the flag of every cell. */
    method Unhighlight()
      requires Valid()
      modifies this, gridManager.grid
      ensures Valid() && currentMatches == [] && gridManager.View() == Unmarked(old(gridManager.View()))
      ensures animationId == old(animationId) && nextFrame == old(nextFrame)
      ensures lastUpdateTime == old(lastUpdateTime) && lastFallTime == old(lastFallTime)
      ensures lastSpawnTime == old(lastSpawnTime)
    {
      currentMatches := [];
      gridManager.ClearMatchedFlags();
    }

    /**
     * The first half of an execution: empties the highlighted slots, credits the
     * points `calculateMatchScore` gives for them and clears the completed rows.
     */
    method CreditMatches(now: int) returns (points: int)
      requires Valid() && gameState.state.currentPattern != []
      modifies gridManager.grid, gameState, events
      ensures Valid()
      ensures points == Progress.CalculateMatchScore(gameState.config, |currentMatches|, |old(gameState.state.currentPattern)|)
      ensures gridManager.View() == RowsCleared(RemovedAt(old(gridManager.View()), currentMatches), gridManager.width)
      ensures var g := RemovedAt(old(gridManager.View()), currentMatches);
              gameState.state == Credited(old(gameState.state), gameState.config, points, |CompletedRows(g, |g|)|)
      ensures var g := RemovedAt(old(gridManager.View()), currentMatches);
              Published(events, old(events.listeners), old(events.history), LinesEvents(CompletedRows(g, |g|)), now)
    {
      points := ScoreMatches();
      ghost var g1 := gridManager.View();
      CheckCompletedLines(now);
      CreditedInTwoSteps(old(gameState.state), gameState.config, points, CompletedRows(g1, |g1|));
    }

    /** Empties the highlighted slots and credits the points `calculateMatchScore` gives for them. */
    method ScoreMatches() returns (points: int)
      requires Valid() && gameState.state.currentPattern != []
      modifies gridManager.grid, gameState
      ensures Valid()
      ensures points == Progress.CalculateMatchScore(gameState.config, |currentMatches|, |old(gameState.state.currentPattern)|)
      ensures gridManager.View() == RemovedAt(old(gridManager.View()), currentMatches)
      ensures gameState.state == old(gameState.state).(score := old(gameState.state.score) + points)
    {
      var pattern := gameState.state.currentPattern;
      gridManager.RemoveMatches(currentMatches);
      points := Progress.CalculateMatchScore(gameState.config, |currentMatches|, |pattern|);
      gameState.UpdateScore(points);
    }

    /**
     * `setPattern`: hands the text to the matcher; when the matcher accepts it, it
     * becomes the session's pattern. Either way the outcome is announced, with the
     * compile error on rejection. The highlighted positions are left as they are.
     */
    method SetPattern(pattern: string, now: int)
      requires Valid()
      modifies patternMatcher, gameState, events
      ensures Valid()
      ensures var v := patternMatcher.ValidatePattern(pattern);
              && patternMatcher.patternString == pattern
              && patternMatcher.currentPattern == (if v.isValid && pattern != [] then Some(pattern) else None)
              && gameState.state == (if v.isValid then old(gameState.state).(currentPattern := pattern)
                                     else old(gameState.state))
              && Published(events, old(events.listeners), old(events.history),
                           [(PatternChanged, PatternPayload(pattern, v.isValid, patternMatcher.CompileError(pattern)))], now)
    {
      var isValid := patternMatcher.SetPattern(pattern);
      if isValid {
        gameState.UpdatePattern(pattern);
        Publish(PatternChanged, PatternPayload(pattern, isValid, None), now);
      } else {
        Publish(PatternChanged, PatternPayload(pattern, isValid, patternMatcher.lastError), now);
      }
    }

    /**
     * `reset`: cancels the pending frame, empties the grid, restores the initial
     * session state, drops the highlighted positions and clears the matcher's
     * pattern. The game is then neither running nor lost.
     */
    method Reset()
      requires Valid()
      modifies this, gridManager, gameState, patternMatcher
      ensures Valid()
      ensures animationId == None && currentMatches == [] && nextFrame == old(nextFrame)
      ensures lastUpdateTime == old(lastUpdateTime) && lastFallTime == old(lastFallTime)
      ensures lastSpawnTime == old(lastSpawnTime)
      ensures fresh(gridManager.grid) && gridManager.nextId == old(gridManager.nextId)
      ensures gridManager.View() == EmptyGrid(gridManager.height, gridManager.width)
      ensures gameState.state == Progress.InitialState(gameState.config)
      ensures patternMatcher.currentPattern == None && patternMatcher.lastError == None
      ensures patternMatcher.patternString == []
      ensures !gameState.IsPlaying() && !TopBlocked(gridManager.View())
    {
      Stop();
      gridManager.ClearGrid();
      gameState.Reset();
      currentMatches := [];
      var cleared := patternMatcher.SetPattern([]);
      EmptyGridIsStill(gridManager.height, gridManager.width);
    }

    /**
     * `start`: unless a frame is already pending, restarts every timer at
     * `timestamp`, starts a new session and runs its first tick at once. That
     * tick spawns nothing, drops any highlight, and ends the session at once only
     * when a landed cell already sits in the top row.
     */
    method Start(timestamp: int, now: int, countRoll: real, columnRolls: seq<real>, characterRolls: seq<real>)
      requires Valid()
      requires 0.0 <= countRoll < 1.0
      requires forall k :: 0 <= k < |columnRolls| ==> 0.0 <= columnRolls[k] < 1.0
      requires forall k :: 0 <= k < |characterRolls| ==> 0.0 <= characterRolls[k] < 1.0
      modifies this, gridManager, gridManager.grid, gameState, events
      ensures Valid()
      ensures old(animationId).Some? ==>
                && animationId == old(animationId) && nextFrame == old(nextFrame)
                && lastUpdateTime == old(lastUpdateTime) && lastFallTime == old(lastFallTime)
                && lastSpawnTime == old(lastSpawnTime) && currentMatches == old(currentMatches)
                && gridManager.View() == old(gridManager.View()) && gridManager.nextId == old(gridManager.nextId)
                && gameState.state == old(gameState.state) && events.history == old(events.history)
      ensures old(animationId).None? ==>
                && lastUpdateTime == timestamp && lastFallTime == timestamp && lastSpawnTime == timestamp
                && currentMatches == [] && gridManager.nextId == old(gridManager.nextId)
                && gameState.state.score == 0 && gameState.state.linesCleared == 0
                && gameState.state.currentLevel == 1 && gameState.state.currentPattern == []
                && (animationId.None? <==> TopBlocked(gridManager.View()))
                && (gameState.IsPlaying() <==> animationId.Some?)
    {
      if animationId.Some? {
        return;
      }
      lastUpdateTime := timestamp;
      lastFallTime := lastUpdateTime;
      lastSpawnTime := lastUpdateTime;
      gameState.StartGame(now);
      ghost var columns, characters := Update(lastUpdateTime, now, countRoll, columnRolls, characterRolls);
    }

    /** The session state once a running tick has brought the elapsed time up to `now`. */
    ghost function Clocked(now: int): GameState
      reads gameState
    {
      gameState.state.(timeElapsed := (now - gameState.sessionStart) - gameState.pausedTotal)
    }

    /** The grid, the next identifier and the highlighted positions are those of the tick outcome `t`. */
    ghost predicate Shows(t: Tick)
      reads gridManager, gridManager.grid, this`currentMatches
    {
      gridManager.View() == t.grid && gridManager.nextId == t.nextId && currentMatches == t.highlighted
    }

    /**
     * `update`, one tick at animation time `timestamp`, with `now` the wall clock.
     * Only a running session acts: it brings the elapsed time up to date, spawns
     * when 2000 ms have passed since the last spawn, lets the grid fall one step
     * when the fall delay has passed since the last fall, refreshes the
     * highlights, and, when a landed cell then sits in the top row, ends the
     * session, announces it and requests no further frame. Otherwise the next
     * frame is requested. `columns` and `characters` are what the spawn added.
     */
    method Update(timestamp: int, now: int, countRoll: real, columnRolls: seq<real>, characterRolls: seq<real>)
      returns (ghost columns: seq<int>, ghost characters: seq<char>)
      requires Valid()
      requires 0.0 <= countRoll < 1.0
      requires forall k :: 0 <= k < |columnRolls| ==> 0.0 <= columnRolls[k] < 1.0
      requires forall k :: 0 <= k < |characterRolls| ==> 0.0 <= characterRolls[k] < 1.0
      modifies this, gridManager, gridManager.grid, gameState, events
      ensures Valid() && lastUpdateTime == timestamp && |columns| == |characters|
      ensures !old(gameState.IsPlaying()) ==>
                && columns == [] && characters == []
                && gridManager.View() == old(gridManager.View()) && gridManager.nextId == old(gridManager.nextId)
                && gameState.state == old(gameState.state) && currentMatches == old(currentMatches)
                && Published(events, old(events.listeners), old(events.history), [], now)
                && lastSpawnTime == old(lastSpawnTime) && lastFallTime == old(lastFallTime)
                && animationId == Some(old(nextFrame)) && nextFrame == old(nextFrame) + 1
      ensures old(gameState.IsPlaying()) ==>
                Spawned(timestamp - old(lastSpawnTime) >= spawnInterval, gridManager.width,
                        old(gameState.state.currentLevel), characterGenerator.weights,
                        countRoll, columnRolls, characterRolls, columns, characters)
      ensures old(gameState.IsPlaying()) ==>
                && lastSpawnTime == (if timestamp - old(lastSpawnTime) >= spawnInterval then timestamp else old(lastSpawnTime))
                && lastFallTime == (if timestamp - old(lastFallTime) >= old(gameState.state.fallSpeed) then timestamp
                                    else old(lastFallTime))
      ensures old(gameState.IsPlaying()) ==>
                Shows(Ticked(patternMatcher, old(gridManager.View()), gridManager.width, old(gridManager.nextId),
                                old(Clocked(now)), old(currentMatches), columns, characters,
                                timestamp - old(lastFallTime) >= old(gameState.state.fallSpeed)))
      ensures old(gameState.IsPlaying()) ==>
                Published(events, old(events.listeners), old(events.history), Ticked(patternMatcher, old(gridManager.View()), gridManager.width, old(gridManager.nextId),
                                old(Clocked(now)), old(currentMatches), columns, characters,
                                timestamp - old(lastFallTime) >= old(gameState.state.fallSpeed)).events, now)
      ensures old(gameState.IsPlaying()) ==>
                var over := Ticked(patternMatcher, old(gridManager.View()), gridManager.width, old(gridManager.nextId),
                                old(Clocked(now)), old(currentMatches), columns, characters,
                                timestamp - old(lastFallTime) >= old(gameState.state.fallSpeed)).over;
                && gameState.state == (if over then old(Clocked(now)).(isPlaying := false, isGameOver := true)
                                       else old(Clocked(now)))
                && animationId == (if over then None else Some(old(nextFrame)))
                && nextFrame == (if over then old(nextFrame) else old(nextFrame) + 1)
    {
      columns, characters := [], [];
      if gameState.IsPlaying() {
        var over;
        columns, characters, over := Tick(timestamp, now, countRoll, columnRolls, characterRolls);
      } else {
        lastUpdateTime := timestamp;
        animationId := Some(nextFrame);
        nextFrame := nextFrame + 1;
      }
    }

    /**
     * The work of a running tick: the time stamp, the elapsed time, the spawn and
     * the fall when they are due, the highlights, the game-over check and the
     * frame request, as `Ticked` describes.
     */
    method Tick(timestamp: int, now: int, countRoll: real, columnRolls: seq<real>, characterRolls: seq<real>)
      returns (columns: seq<int>, characters: seq<char>, over: bool)
      requires Valid() && gameState.IsPlaying()
      requires 0.0 <= countRoll < 1.0
      requires forall k :: 0 <= k < |columnRolls| ==> 0.0 <= columnRolls[k] < 1.0
      requires forall k :: 0 <= k < |characterRolls| ==> 0.0 <= characterRolls[k] < 1.0
      modifies this, gridManager, gridManager.grid, gameState, events
      ensures Valid() && |columns| == |characters|
      ensures lastUpdateTime == timestamp
      ensures Spawned(timestamp - old(lastSpawnTime) >= spawnInterval, gridManager.width,
                      old(gameState.state.currentLevel), characterGenerator.weights,
                      countRoll, columnRolls, characterRolls, columns, characters)
      ensures lastSpawnTime == (if timestamp - old(lastSpawnTime) >= spawnInterval then timestamp else old(lastSpawnTime))
      ensures lastFallTime == (if timestamp - old(lastFallTime) >= old(gameState.state.fallSpeed) then timestamp
                               else old(lastFallTime))
      ensures var t := Ticked(patternMatcher, old(gridManager.View()), gridManager.width, old(gridManager.nextId),
                              old(Clocked(now)), old(currentMatches), columns, characters,
                              timestamp - old(lastFallTime) >= old(gameState.state.fallSpeed));
              Shows(t) && over == t.over
      ensures Published(events, old(events.listeners), old(events.history),
                        Ticked(patternMatcher, old(gridManager.View()), gridManager.width, old(gridManager.nextId),
                               old(Clocked(now)), old(currentMatches), columns, characters,
                               timestamp - old(lastFallTime) >= old(gameState.state.fallSpeed)).events, now)
      ensures animationId == (if over then None else Some(old(nextFrame)))
      ensures nextFrame == (if over then old(nextFrame) else old(nextFrame) + 1)
      ensures gameState.state == if over then old(Clocked(now)).(isPlaying := false, isGameOver := true)
                                 else old(Clocked(now))
    {
      columns, characters := Advance(timestamp, now, countRoll, columnRolls, characterRolls);
      ghost var h1, landed := events.history, gridManager.View();
      over := Refresh(now);
      PublishedThen(events, events.listeners, old(events.history), h1,
                    FallEvents(Placed(old(gridManager.View()), gridManager.width, old(gridManager.nextId),
                                      columns, characters).0,
                               gridManager.width, timestamp - old(lastFallTime) >= old(gameState.state.fallSpeed)),
                    Refreshed(patternMatcher, landed, gridManager.width, old(Clocked(now)), old(currentMatches)).2, now);
    }

    /**
     * The steps of a running tick before the highlights: the time stamp and the elapsed time, then
     * the spawn and the fall, each when it is due.
     */
    method Advance(timestamp: int, now: int, countRoll: real, columnRolls: seq<real>, characterRolls: seq<real>)
      returns (columns: seq<int>, characters: seq<char>)
      requires Valid() && gameState.IsPlaying()
      requires 0.0 <= countRoll < 1.0
      requires forall k :: 0 <= k < |columnRolls| ==> 0.0 <= columnRolls[k] < 1.0
      requires forall k :: 0 <= k < |characterRolls| ==> 0.0 <= characterRolls[k] < 1.0
      modifies this, gridManager, gridManager.grid, gameState, events
      ensures Valid() && |columns| == |characters| && gridManager.grid == old(gridManager.grid)
      ensures animationId == old(animationId) && nextFrame == old(nextFrame) && currentMatches == old(currentMatches)
      ensures lastUpdateTime == timestamp
      ensures Spawned(timestamp - old(lastSpawnTime) >= spawnInterval, gridManager.width,
                      old(gameState.state.currentLevel), characterGenerator.weights,
                      countRoll, columnRolls, characterRolls, columns, characters)
      ensures lastSpawnTime == (if timestamp - old(lastSpawnTime) >= spawnInterval then timestamp else old(lastSpawnTime))
      ensures lastFallTime == (if timestamp - old(lastFallTime) >= old(gameState.state.fallSpeed) then timestamp
                               else old(lastFallTime))
      ensures var landed := Landed(old(gridManager.View()), gridManager.width, old(gridManager.nextId), columns, characters,
                                   timestamp - old(lastFallTime) >= old(gameState.state.fallSpeed));
              gridManager.View() == landed.0 && gridManager.nextId == landed.1
      ensures gameState.state == old(Clocked(now))
      ensures Published(events, old(events.listeners), old(events.history),
                        FallEvents(Placed(old(gridManager.View()), gridManager.width, old(gridManager.nextId),
                                          columns, characters).0,
                                   gridManager.width, timestamp - old(lastFallTime) >= old(gameState.state.fallSpeed)), now)
    {
      Clock(timestamp, now);
      columns, characters := SpawnIfDue(timestamp, countRoll, columnRolls, characterRolls);
      FallIfDue(timestamp, now);
    }

    /** The time step of a running tick: records the time stamp and brings the elapsed time up to date. */
    method Clock(timestamp: int, now: int)
      requires Valid() && gameState.IsPlaying()
      modifies this, gameState
      ensures Valid() && lastUpdateTime == timestamp && gameState.state == old(Clocked(now))
      ensures animationId == old(animationId) && nextFrame == old(nextFrame) && currentMatches == old(currentMatches)
      ensures lastFallTime == old(lastFallTime) && lastSpawnTime == old(lastSpawnTime)
    {
      lastUpdateTime := timestamp;
      gameState.UpdateTimeElapsed(now);
    }

    /**
     * The spawn step of a tick: spawns, and restarts the spawn timer, once 2000 ms
     * have passed since the last spawn.
     */
    method SpawnIfDue(timestamp: int, countRoll: real, columnRolls: seq<real>, characterRolls: seq<real>)
      returns (columns: seq<int>, characters: seq<char>)
      requires Valid()
      requires 0.0 <= countRoll < 1.0
      requires forall k :: 0 <= k < |columnRolls| ==> 0.0 <= columnRolls[k] < 1.0
      requires forall k :: 0 <= k < |characterRolls| ==> 0.0 <= characterRolls[k] < 1.0
      modifies this, gridManager, gridManager.grid
      ensures Valid() && gridManager.grid == old(gridManager.grid)
      ensures var due := timestamp - old(lastSpawnTime) >= spawnInterval;
              && lastSpawnTime == (if due then timestamp else old(lastSpawnTime))
              && Spawned(due, gridManager.width, gameState.state.currentLevel, characterGenerator.weights,
                         countRoll, columnRolls, characterRolls, columns, characters)
      ensures |columns| == |characters|
      ensures var p := Placed(old(gridManager.View()), gridManager.width, old(gridManager.nextId), columns, characters);
              gridManager.View() == p.0 && gridManager.nextId == p.1
      ensures animationId == old(animationId) && nextFrame == old(nextFrame) && currentMatches == old(currentMatches)
      ensures lastUpdateTime == old(lastUpdateTime) && lastFallTime == old(lastFallTime)
    {
      if timestamp - lastSpawnTime >= spawnInterval {
        var used;
        columns, characters, used := SpawnCharacters(countRoll, columnRolls, characterRolls);
        lastSpawnTime := timestamp;
      } else {
        columns, characters := [], [];
      }
    }

    /**
     * The fall step of a tick: one gravity pass, restarting the fall timer, once
     * the level's fall delay has passed since the last one.
     */
    method FallIfDue(timestamp: int, now: int)
      requires Valid()
      modifies this, gridManager.grid, events
      ensures Valid()
      ensures var due := timestamp - old(lastFallTime) >= gameState.state.fallSpeed;
              && lastFallTime == (if due then timestamp else old(lastFallTime))
              && gridManager.View() == (if due then Cascaded(old(gridManager.View()), gridManager.width)
                                        else old(gridManager.View()))
              && Published(events, old(events.listeners), old(events.history),
                           FallEvents(old(gridManager.View()), gridManager.width, due), now)
      ensures animationId == old(animationId) && nextFrame == old(nextFrame) && currentMatches == old(currentMatches)
      ensures lastUpdateTime == old(lastUpdateTime) && lastSpawnTime == old(lastSpawnTime)
    {
      var fallSpeed := gameState.state.fallSpeed;
      if timestamp - lastFallTime >= fallSpeed {
        UpdateFallingCharacters(now);
        lastFallTime := timestamp;
      }
    }

    /**
     * The steps of a running tick after the fall: the highlights, then the
     * game-over check, which ends the session, announces it and cancels the
     * frame request when a landed cell sits in the top row; otherwise the next
     * frame is requested.
     */
    method Refresh(now: int) returns (over: bool)
      requires Valid()
      modifies this, gridManager.grid, gameState, events
      ensures Valid()
      ensures var r := Refreshed(patternMatcher, old(gridManager.View()), gridManager.width, old(gameState.state),
                                 old(currentMatches));
              gridManager.View() == r.0 && currentMatches == r.1 && over == r.3
      ensures Published(events, old(events.listeners), old(events.history),
                        Refreshed(patternMatcher, old(gridManager.View()), gridManager.width, old(gameState.state),
                                  old(currentMatches)).2, now)
      ensures gameState.state == if over then old(gameState.state).(isPlaying := false, isGameOver := true)
                                 else old(gameState.state)
      ensures animationId == (if over then None else Some(old(nextFrame)))
      ensures nextFrame == (if over then old(nextFrame) else old(nextFrame) + 1)
      ensures lastUpdateTime == old(lastUpdateTime) && lastFallTime == old(lastFallTime)
      ensures lastSpawnTime == old(lastSpawnTime)
    {
      ProcessMatches(now);
      ghost var h1 := events.history;
      over := Conclude(now);
      PublishedThen(events, events.listeners, old(events.history), h1,
                    Highlight(patternMatcher, old(gridManager.View()), gridManager.width, old(gameState.state.currentPattern),
                              old(currentMatches)).2,
                    if over then [(GameOver, GameOverPayload(old(gameState.state.score), old(gameState.state.currentLevel),
                                                             old(gameState.state.linesCleared)))] else [], now);
    }

    /**
     * The end of a running tick: when a landed cell sits in the top row, the
     * session ends, is announced and the frame request is cancelled; otherwise
     * the next frame is requested.
     */
    method Conclude(now: int) returns (over: bool)
      requires Valid()
      modifies this, gameState, events
      ensures Valid() && over == TopBlocked(gridManager.View())
      ensures gameState.state == if over then old(gameState.state).(isPlaying := false, isGameOver := true)
                                 else old(gameState.state)
      ensures Published(events, old(events.listeners), old(events.history),
                        if over then [(GameOver, GameOverPayload(old(gameState.state.score), old(gameState.state.currentLevel),
                                                                 old(gameState.state.linesCleared)))] else [], now)
      ensures animationId == (if over then None else Some(old(nextFrame)))
      ensures nextFrame == (if over then old(nextFrame) else old(nextFrame) + 1)
      ensures currentMatches == old(currentMatches) && lastUpdateTime == old(lastUpdateTime)
      ensures lastFallTime == old(lastFallTime) && lastSpawnTime == old(lastSpawnTime)
    {
      over := gridManager.IsGameOver();
      if over {
        EndSession(now);
      } else {
        animationId := Some(nextFrame);
        nextFrame := nextFrame + 1;
      }
    }

    /**
     * The game-over branch of a tick: ends the session, announces its final
     * score, level and lines, and cancels the frame request.
     */
    method EndSession(now: int)
      requires Valid()
      modifies this, gameState, events
      ensures Valid()
      ensures gameState.state == old(gameState.state).(isPlaying := false, isGameOver := true)
      ensures Published(events, old(events.listeners), old(events.history),
                        [(GameOver, GameOverPayload(old(gameState.state.score), old(gameState.state.currentLevel),
                                                    old(gameState.state.linesCleared)))], now)
      ensures animationId == None && nextFrame == old(nextFrame) && currentMatches == old(currentMatches)
      ensures lastUpdateTime == old(lastUpdateTime) && lastFallTime == old(lastFallTime)
      ensures lastSpawnTime == old(lastSpawnTime)
    {
      gameState.EndGame();
      Publish(GameOver, GameOverPayload(gameState.state.score, gameState.state.currentLevel, gameState.state.linesCleared), now);
      Stop();
    }
  }
}
