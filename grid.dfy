/**
 * The grid of the game (src/game/core/GridManager.ts): a height-by-width matrix of
 * optional cells, with spawning at row 0, gravity, bulk removal and highlight flags.
 */
module Grid {
  import opened Types
  import opened Gravity

  /** An all-empty grid. */
  function EmptyGrid(h: nat, w: nat): (g: Snapshot)
    ensures Shaped(g, h, w)
  {
    seq(h, _ => seq(w, _ => None))
  }

  /** `g` with `cell` placed at row 0 of `column`. */
  function Added(g: Snapshot, column: nat, cell: Cell): (g': Snapshot)
    requires |g| > 0 && column < |g[0]|
  {
    g[0 := g[0][column := Some(cell)]]
  }

  /** `g` with every listed slot emptied; other positions are ignored. */
  function RemovedAt(g: Snapshot, ps: seq<Pos>): (g': Snapshot)
  {
    seq(|g|, r requires 0 <= r < |g| =>
      seq(|g[r]|, c requires 0 <= c < |g[r]| => if Pos(r, c) in ps then None else g[r][c]))
  }

  /** `g` with the cell at (row, col), if any, flagged as matched. */
  function Marked(g: Snapshot, row: int, col: int): (g': Snapshot)
  {
    if 0 <= row < |g| && 0 <= col < |g[row]| && g[row][col].Some? then
      g[row := g[row][col := Some(g[row][col].value.(isMatched := true))]]
    else g
  }

  /** `g` with every matched flag cleared. */
  function Unmarked(g: Snapshot): (g': Snapshot)
  {
    seq(|g|, r requires 0 <= r < |g| =>
      seq(|g[r]|, c requires 0 <= c < |g[r]| =>
        if g[r][c].Some? then Some(g[r][c].value.(isMatched := false)) else None))
  }

  /** Some slot of row 0 holds a cell that is not falling. */
  ghost predicate TopBlocked(g: Snapshot) {
    |g| > 0 && exists c :: 0 <= c < |g[0]| && g[0][c].Some? && !g[0][c].value.isFalling
  }

  /** Removing two lists of positions one after the other is removing both at once. */
  lemma RemovedAtComposes(g: Snapshot, ps: seq<Pos>, qs: seq<Pos>)
    ensures RemovedAt(RemovedAt(g, ps), qs) == RemovedAt(g, ps + qs)
  {
    var left, right := RemovedAt(RemovedAt(g, ps), qs), RemovedAt(g, ps + qs);
    forall r | 0 <= r < |g|
      ensures left[r] == right[r]
    {
      forall c | 0 <= c < |g[r]|
        ensures left[r][c] == right[r][c]
      {
        assert Pos(r, c) in ps + qs <==> Pos(r, c) in ps || Pos(r, c) in qs;
      }
    }
  }

  /** Only which positions are listed matters, not their order or repetition. */
  lemma RemovedAtDependsOnSetOnly(g: Snapshot, ps: seq<Pos>, qs: seq<Pos>)
    requires forall p :: p in ps <==> p in qs
    ensures RemovedAt(g, ps) == RemovedAt(g, qs)
  {
    forall r | 0 <= r < |g|
      ensures RemovedAt(g, ps)[r] == RemovedAt(g, qs)[r]
    {
    }
  }

  /** Removal empties exactly the listed slots and never fills one. */
  lemma RemovedAtEmptiesListed(g: Snapshot, ps: seq<Pos>, h: nat, w: nat)
    requires Shaped(g, h, w)
    ensures Shaped(RemovedAt(g, ps), h, w)
    ensures forall p :: p in ps && 0 <= p.row < h && 0 <= p.col < w ==> RemovedAt(g, ps)[p.row][p.col].None?
    ensures forall r, c :: 0 <= r < h && 0 <= c < w && RemovedAt(g, ps)[r][c].Some? ==>
      RemovedAt(g, ps)[r][c] == g[r][c] && Pos(r, c) !in ps
  {
  }

  /** Clearing the flags erases any earlier highlighting. */
  lemma UnmarkedErasesMarks(g: Snapshot, row: int, col: int)
    ensures Unmarked(Marked(g, row, col)) == Unmarked(g)
  {
    if 0 <= row < |g| && 0 <= col < |g[row]| && g[row][col].Some? {
      var m := Marked(g, row, col);
      forall r | 0 <= r < |g|
        ensures Unmarked(m)[r] == Unmarked(g)[r]
      {
      }
    }
  }

  /** Clearing the flags twice is clearing them once, and keeps every character in place. */
  lemma UnmarkedIdempotent(g: Snapshot)
    ensures Unmarked(Unmarked(g)) == Unmarked(g)
    ensures |Unmarked(g)| == |g|
    ensures forall r, c :: 0 <= r < |g| && 0 <= c < |g[r]| ==>
      Glyph(Unmarked(g)[r][c]) == Glyph(g[r][c]) && (Unmarked(g)[r][c].Some? <==> g[r][c].Some?)
  {
    var u := Unmarked(g);
    forall r | 0 <= r < |g|
      ensures Unmarked(u)[r] == u[r]
    {
    }
  }

  /** Marking flags the cell if there is one and leaves every character in place. */
  lemma MarkedFlagsCell(g: Snapshot, row: int, col: int)
    ensures |Marked(g, row, col)| == |g|
    ensures forall r, c :: 0 <= r < |g| && 0 <= c < |g[r]| ==>
      Glyph(Marked(g, row, col)[r][c]) == Glyph(g[r][c])
    ensures 0 <= row < |g| && 0 <= col < |g[row]| && g[row][col].Some? ==>
      Marked(g, row, col)[row][col].value.isMatched
  {
  }

  /** Spawning a falling cell cannot end the game. */
  lemma SpawnKeepsTopClear(g: Snapshot, column: nat, cell: Cell)
    requires |g| > 0 && column < |g[0]| && cell.isFalling
    requires !TopBlocked(g)
    ensures !TopBlocked(Added(g, column, cell))
  {
    var g': Snapshot := Added(g, column, cell);
    forall c | 0 <= c < |g'[0]| && g'[0][c].Some?
      ensures g'[0][c].value.isFalling
    {
      if c != column {
        assert g'[0][c] == g[0][c];
      }
    }
  }

  /** An empty grid is settled, not lost, and gravity leaves it alone. */
  lemma EmptyGridIsStill(h: nat, w: nat)
    requires h > 0
    ensures !TopBlocked(EmptyGrid(h, w))
    ensures Settled(EmptyGrid(h, w), w)
    ensures Cascaded(EmptyGrid(h, w), w) == EmptyGrid(h, w)
    ensures !CascadeChanged(EmptyGrid(h, w), w)
  {
    var g := EmptyGrid(h, w);
    forall c | 0 <= c < w
      ensures Resting(Column(g, c))
    {
    }
    CascadeFixesResting(g, w);
  }

  class GridManager {
    const width: nat
    const height: nat
    var grid: array2<Slot>
    /** Next identifier handed to a new cell (the source draws a random one). */
    var nextId: nat
    ghost var Repr: set<object>

    ghost predicate Valid()
      reads this
    {
      Repr == {this, grid} && height > 0 && width > 0
      && grid.Length0 == height && grid.Length1 == width
    }

    /** The grid's contents as a value, row by row. */
    ghost function View(): (g: Snapshot)
      reads this, grid
      ensures Shaped(g, grid.Length0, grid.Length1)
      ensures forall r, c :: 0 <= r < grid.Length0 && 0 <= c < grid.Length1 ==> g[r][c] == grid[r, c]
    {
      var a := grid;
      seq(a.Length0, r requires 0 <= r < a.Length0 reads a =>
        seq(a.Length1, c requires 0 <= c < a.Length1 reads a => a[r, c]))
    }

    /** Two snapshots of the same shape that agree slot by slot are equal. */
    static lemma SameSnapshot(s: Snapshot, t: Snapshot, h: nat, w: nat)
      requires Shaped(s, h, w) && Shaped(t, h, w)
      requires forall r, c :: 0 <= r < h && 0 <= c < w ==> s[r][c] == t[r][c]
      ensures s == t
    {
      forall r | 0 <= r < h
        ensures s[r] == t[r]
      {
      }
    }

    constructor (width: nat, height: nat)
      requires width > 0 && height > 0
      ensures Valid() && fresh(grid)
      ensures this.width == width && this.height == height
      ensures View() == EmptyGrid(height, width) && nextId == 0
    {
      this.width := width;
      this.height := height;
      grid := new Slot[height, width]((_, _) => None);
      nextId := 0;
      new;
      Repr := {this, grid};
      SameSnapshot(View(), EmptyGrid(height, width), height, width);
    }

    /**
     * Spawns `character` at row 0 of `column` as a falling, unmatched cell with
     * the counter's next identifier, and advances the counter. Fails, changing nothing, when the column is out of range or
     * its top slot is occupied.
     */
    method AddCharacter(column: int, character: char, fallSpeed: int) returns (added: bool)
      requires Valid()
      modifies this, grid
      ensures Valid() && grid == old(grid) && Repr == old(Repr)
      ensures added <==> 0 <= column < width && old(grid[0, column]).None?
      ensures added ==> (nextId == old(nextId) + 1
        && View() == Added(old(View()), column, Cell(character, old(nextId), false, true, fallSpeed)))
      ensures !added ==> nextId == old(nextId) && View() == old(View())
    {
      if column < 0 || column >= width {
        return false;
      }
      if grid[0, column].Some? {
        return false;
      }
      ghost var g0 := View();
      var cell := Cell(character, nextId, false, true, fallSpeed);
      nextId := nextId + 1;
      grid[0, column] := Some(cell);
      SameSnapshot(View(), Added(g0, column, cell), height, width);
      return true;
    }

    /** Empties every listed slot that is in range; all other slots keep their contents. */
    method RemoveMatches(positions: seq<Pos>)
      requires Valid()
      modifies grid
      ensures View() == RemovedAt(old(View()), positions)
    {
      ghost var g0 := View();
      for i := 0 to |positions|
        invariant forall r, c :: 0 <= r < height && 0 <= c < width ==>
          grid[r, c] == if Pos(r, c) in positions[..i] then None else g0[r][c]
      {
        var p := positions[i];
        if 0 <= p.row < height && 0 <= p.col < width && grid[p.row, p.col].Some? {
          grid[p.row, p.col] := None;
        }
        assert positions[..i + 1] == positions[..i] + [p];
      }
      assert positions[..|positions|] == positions;
      SameSnapshot(View(), RemovedAt(g0, positions), height, width);
    }

    /**
     * One gravity pass: two sweeps from row height-2 up to row 0, the first moving
     * falling cells down one row or landing them, the second waking landed cells
     * that have an empty slot below. Reports whether a cell moved or woke.
     */
    method CascadeDown() returns (changed: bool)
      requires Valid()
      modifies grid
      ensures View() == Cascaded(old(View()), width)
      ensures changed == CascadeChanged(old(View()), width)
    {
      ghost var g0 := View();
      changed := FallSweep(g0);
      changed := RiseSweep(g0, changed);
      SameSnapshot(View(), Cascaded(g0, width), height, width);
    }

    /** The first sweep, bottom row first: falling cells drop one row or land. */
    method FallSweep(ghost g0: Snapshot) returns (changed: bool)
      requires Valid() && g0 == View()
      modifies grid
      ensures FallenTo(g0, 0, width)
      ensures changed == (exists c :: 0 <= c < width && AnyFall(Column(g0, c), 0))
    {
      changed := false;
      var row := height - 2;
      while row >= 0
        invariant -1 <= row <= height - 2
        invariant FallenTo(g0, row + 1, width)
        invariant changed == (exists c :: 0 <= c < width && AnyFall(Column(g0, c), row + 1))
      {
        changed := FallRow(g0, row, changed);
        row := row - 1;
      }
    }

    /** The second sweep, bottom row first: landed cells over a hole fall again. */
    method RiseSweep(ghost g0: Snapshot, changed: bool) returns (changed': bool)
      requires Valid() && Shaped(g0, height, width)
      requires FallenTo(g0, 0, width)
      requires changed == (exists c :: 0 <= c < width && AnyFall(Column(g0, c), 0))
      modifies grid
      ensures RisenTo(g0, 0, width)
      ensures changed' == (exists c :: 0 <= c < width && (AnyFall(Column(g0, c), 0) || AnyRise(Fall(Column(g0, c), 0), 0)))
    {
      changed' := changed;
      var row := height - 2;
      while row >= 0
        invariant -1 <= row <= height - 2
        invariant RisenTo(g0, row + 1, width)
        invariant changed' == (exists c :: 0 <= c < width && (AnyFall(Column(g0, c), 0) || AnyRise(Fall(Column(g0, c), 0), row + 1)))
      {
        changed' := RiseRow(g0, row, changed');
        row := row - 1;
      }
    }

    /** Columns before `col` have had the first sweep run down to `row`, the rest down to `row + 1`. */
    ghost predicate FallenTo(g0: Snapshot, row: nat, col: nat)
      requires Valid() && Shaped(g0, height, width) && row < height
      reads this, grid
    {
      forall r, c :: 0 <= r < height && 0 <= c < width ==>
        grid[r, c] == Fall(Column(g0, c), if c < col || row + 1 == height then row else row + 1)[r]
    }

    ghost predicate RisenTo(g0: Snapshot, row: nat, col: nat)
      requires Valid() && Shaped(g0, height, width) && row < height
      reads this, grid
    {
      forall r, c :: 0 <= r < height && 0 <= c < width ==>
        grid[r, c] == Rise(Fall(Column(g0, c), 0), if c < col || row + 1 == height then row else row + 1)[r]
    }

    /** The first sweep's steps at `row`, left to right. */
    method FallRow(ghost g0: Snapshot, row: nat, changed: bool) returns (changed': bool)
      requires Valid() && Shaped(g0, height, width) && row + 1 < height
      requires FallenTo(g0, row + 1, width)
      requires changed == (exists c :: 0 <= c < width && AnyFall(Column(g0, c), row + 1))
      modifies grid
      ensures FallenTo(g0, row, width)
      ensures changed' == (exists c :: 0 <= c < width && AnyFall(Column(g0, c), row))
    {
      changed' := changed;
      var col := 0;
      while col < width
        invariant 0 <= col <= width
        invariant FallenTo(g0, row, col)
        invariant changed' == (exists c :: 0 <= c < width && AnyFall(Column(g0, c), if c < col then row else row + 1))
      {
        changed' := FallCell(g0, row, col, changed');
        col := col + 1;
      }
    }

    /** One step of the first sweep: the cell at (row, col) falls one row, or lands. */
    method FallCell(ghost g0: Snapshot, row: nat, col: nat, changed: bool) returns (changed': bool)
      requires Valid() && Shaped(g0, height, width) && row + 1 < height && col < width
      requires FallenTo(g0, row, col)
      requires changed == (exists c :: 0 <= c < width && AnyFall(Column(g0, c), if c < col then row else row + 1))
      modifies grid
      ensures FallenTo(g0, row, col + 1)
      ensures changed' == (exists c :: 0 <= c < width && AnyFall(Column(g0, c), if c < col + 1 then row else row + 1))
    {
      FallStepAt(g0, row, col);
      changed' := changed;
      var cell := grid[row, col];
      if cell.Some? && cell.value.isFalling {
        if grid[row + 1, col].None? {
          grid[row + 1, col] := cell;
          grid[row, col] := None;
          changed' := true;
        } else {
          grid[row, col] := Some(cell.value.(isFalling := false));
        }
      }
    }

    /** The second sweep's steps at `row`, left to right. */
    method RiseRow(ghost g0: Snapshot, row: nat, changed: bool) returns (changed': bool)
      requires Valid() && Shaped(g0, height, width) && row + 1 < height
      requires RisenTo(g0, row + 1, width)
      requires changed == (exists c :: 0 <= c < width && (AnyFall(Column(g0, c), 0) || AnyRise(Fall(Column(g0, c), 0), row + 1)))
      modifies grid
      ensures RisenTo(g0, row, width)
      ensures changed' == (exists c :: 0 <= c < width && (AnyFall(Column(g0, c), 0) || AnyRise(Fall(Column(g0, c), 0), row)))
    {
      changed' := changed;
      var col := 0;
      while col < width
        invariant 0 <= col <= width
        invariant RisenTo(g0, row, col)
        invariant changed' == (exists c :: 0 <= c < width && (AnyFall(Column(g0, c), 0) || AnyRise(Fall(Column(g0, c), 0), if c < col then row else row + 1)))
      {
        changed' := RiseCell(g0, row, col, changed');
        col := col + 1;
      }
    }

    /** One step of the second sweep: a landed cell over a hole at (row, col) starts falling again. */
    method RiseCell(ghost g0: Snapshot, row: nat, col: nat, changed: bool) returns (changed': bool)
      requires Valid() && Shaped(g0, height, width) && row + 1 < height && col < width
      requires RisenTo(g0, row, col)
      requires changed == (exists c :: 0 <= c < width && (AnyFall(Column(g0, c), 0) || AnyRise(Fall(Column(g0, c), 0), if c < col then row else row + 1)))
      modifies grid
      ensures RisenTo(g0, row, col + 1)
      ensures changed' == (exists c :: 0 <= c < width && (AnyFall(Column(g0, c), 0) || AnyRise(Fall(Column(g0, c), 0), if c < col + 1 then row else row + 1)))
    {
      RiseStepAt(g0, row, col);
      changed' := changed;
      var cell := grid[row, col];
      if cell.Some? && !cell.value.isFalling && grid[row + 1, col].None? {
        grid[row, col] := Some(cell.value.(isFalling := true));
        changed' := true;
      }
    }

    /** A copy of the grid, row by row. */
    method GetGridState() returns (s: Snapshot)
      requires Valid()
      ensures s == View()
    {
      s := [];
      for row := 0 to height
        invariant |s| == row
        invariant forall r :: 0 <= r < row ==> s[r] == View()[r]
      {
        var line := [];
        for col := 0 to width
          invariant |line| == col
          invariant forall c :: 0 <= c < col ==> line[c] == grid[row, c]
        {
          line := line + [grid[row, col]];
        }
        s := s + [line];
      }
    }

    /** The slot at (row, col); nothing outside the grid. */
    function GetCell(row: int, col: int): (s: Slot)
      requires Valid()
      reads this, grid
      ensures s == if 0 <= row < height && 0 <= col < width then View()[row][col] else None
    {
      if row < 0 || row >= height || col < 0 || col >= width then None else grid[row, col]
    }

    /** The game is lost once a landed cell sits in the top row. */
    function IsGameOver(): (over: bool)
      requires Valid()
      reads this, grid
      ensures over == TopBlocked(View())
    {
      exists c :: 0 <= c < width && grid[0, c].Some? && !grid[0, c].value.isFalling
    }

    /** Replaces the grid by an empty one of the same size. */
    method ClearGrid()
      requires Valid()
      modifies this
      ensures Valid() && fresh(grid) && nextId == old(nextId)
      ensures View() == EmptyGrid(height, width)
    {
      grid := new Slot[height, width]((_, _) => None);
      Repr := {this, grid};
      SameSnapshot(View(), EmptyGrid(height, width), height, width);
    }

    /** Flags the cell at (row, col) as matched; a missing cell or position is ignored. */
    method MarkCellAsMatched(row: int, col: int)
      requires Valid()
      modifies grid
      ensures View() == Marked(old(View()), row, col)
    {
      ghost var g0 := View();
      if 0 <= row < height && 0 <= col < width && grid[row, col].Some? {
        grid[row, col] := Some(grid[row, col].value.(isMatched := true));
      }
      SameSnapshot(View(), Marked(g0, row, col), height, width);
    }

    /** Clears the matched flag of every cell. */
    method ClearMatchedFlags()
      requires Valid()
      modifies grid
      ensures View() == Unmarked(old(View()))
    {
      ghost var g0 := View();
      ghost var u := Unmarked(g0);
      for row := 0 to height
        invariant forall r, c :: 0 <= r < height && 0 <= c < width ==>
          grid[r, c] == if r < row then u[r][c] else g0[r][c]
      {
        for col := 0 to width
          invariant forall r, c :: 0 <= r < height && 0 <= c < width ==>
            grid[r, c] == if r < row || (r == row && c < col) then u[r][c] else g0[r][c]
        {
          var cell := grid[row, col];
          if cell.Some? {
            grid[row, col] := Some(cell.value.(isMatched := false));
          }
        }
      }
      SameSnapshot(View(), u, height, width);
    }

    /** The characters of a row, a gap for each empty slot; empty outside the grid. */
    function RowString(row: int): (s: string)
      requires Valid()
      reads this, grid
      ensures 0 <= row < height ==> |s| == width && forall c :: 0 <= c < width ==> s[c] == Glyph(View()[row][c])
      ensures !(0 <= row < height) ==> s == []
    {
      if row < 0 || row >= height then []
      else
        var a := grid;
        seq(width, c requires 0 <= c < width reads a => Glyph(a[row, c]))
    }

    /** The characters of a column from top to bottom; empty outside the grid. */
    function ColumnString(col: int): (s: string)
      requires Valid()
      reads this, grid
      ensures 0 <= col < width ==> |s| == height && forall r :: 0 <= r < height ==> s[r] == Glyph(Column(View(), col)[r])
      ensures !(0 <= col < width) ==> s == []
    {
      if col < 0 || col >= width then []
      else
        var a := grid;
        seq(height, r requires 0 <= r < height reads a => Glyph(a[r, col]))
    }

    /** Every row's string, top to bottom. */
    method GetGridAsString() returns (rows: seq<string>)
      requires Valid()
      ensures |rows| == height
      ensures forall r :: 0 <= r < height ==> |rows[r]| == width
      ensures forall r, c :: 0 <= r < height && 0 <= c < width ==> rows[r][c] == Glyph(View()[r][c])
    {
      rows := [];
      for row := 0 to height
        invariant |rows| == row
        invariant forall r :: 0 <= r < row ==> rows[r] == RowString(r)
      {
        rows := rows + [RowString(row)];
      }
    }

    /** The grid state before step (row, col) of the first sweep determines that step. */
    lemma FallStepAt(g0: Snapshot, row: nat, col: nat)
      requires Shaped(g0, height, width) && row + 1 < height && col < width
      ensures Fall(Column(g0, col), row) == FallStep(Fall(Column(g0, col), row + 1), row)
      ensures AnyFall(Column(g0, col), row) ==
        (AnyFall(Column(g0, col), row + 1) || Moves(Fall(Column(g0, col), row + 1), row))
    {
    }

    lemma RiseStepAt(g0: Snapshot, row: nat, col: nat)
      requires Shaped(g0, height, width) && row + 1 < height && col < width
      ensures Rise(Fall(Column(g0, col), 0), row) == RiseStep(Rise(Fall(Column(g0, col), 0), row + 1), row)
      ensures AnyRise(Fall(Column(g0, col), 0), row) ==
        (AnyRise(Fall(Column(g0, col), 0), row + 1) || Wakes(Rise(Fall(Column(g0, col), 0), row + 1), row))
    {
    }
  }
}
