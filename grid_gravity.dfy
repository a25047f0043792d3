/**
 * The gravity pass of the grid (GridManager.cascadeDown), stated on one column at a
 * time: a sweep only ever moves a cell within its own column, so the grid after
 * the pass is every column after the pass.
 */
module Gravity {
  import opened Types

  /** A snapshot with `h` rows of `w` slots each. */
  ghost predicate Shaped(g: Snapshot, h: nat, w: nat) {
    |g| == h && forall r :: 0 <= r < h ==> |g[r]| == w
  }

  /** Column `c` of a snapshot, top to bottom. */
  function Column(g: Snapshot, c: nat): (x: seq<Slot>)
    requires forall r :: 0 <= r < |g| ==> c < |g[r]|
    ensures |x| == |g|
    ensures forall r :: 0 <= r < |g| ==> x[r] == g[r][c]
  {
    seq(|g|, r requires 0 <= r < |g| => g[r][c])
  }

  // ---------------------------------------------------------------------------
  // First sweep: rows |x|-2 down to 0. A falling cell with an empty slot below
  // moves down one row; a falling cell resting on another lands.
  // ---------------------------------------------------------------------------

  /** The step at row `r` moves a cell down. */
  predicate Moves(x: seq<Slot>, r: nat)
    requires r + 1 < |x|
  {
    x[r].Some? && x[r].value.isFalling && x[r + 1].None?
  }

  function FallStep(x: seq<Slot>, r: nat): (y: seq<Slot>)
    requires r + 1 < |x|
    ensures |y| == |x|
  {
    if x[r].Some? && x[r].value.isFalling then
      if x[r + 1].None? then x[r := None][r + 1 := x[r]]
      else x[r := Some(x[r].value.(isFalling := false))]
    else x
  }

  /** The column once the first sweep has processed rows |x|-2 down to `r`. */
  function Fall(x: seq<Slot>, r: nat): (y: seq<Slot>)
    requires r < |x|
    ensures |y| == |x|
    decreases |x| - r
  {
    if r + 1 == |x| then x else FallStep(Fall(x, r + 1), r)
  }

  /** Some step of the first sweep, down to row `r`, moved a cell. */
  predicate AnyFall(x: seq<Slot>, r: nat)
    requires r < |x|
    decreases |x| - r
  {
    if r + 1 == |x| then false else AnyFall(x, r + 1) || Moves(Fall(x, r + 1), r)
  }

  // ---------------------------------------------------------------------------
  // Second sweep: rows |x|-2 down to 0. A landed cell with an empty slot below
  // is marked falling again.
  // ---------------------------------------------------------------------------

  predicate Wakes(y: seq<Slot>, r: nat)
    requires r + 1 < |y|
  {
    y[r].Some? && !y[r].value.isFalling && y[r + 1].None?
  }

  function RiseStep(y: seq<Slot>, r: nat): (z: seq<Slot>)
    requires r + 1 < |y|
    ensures |z| == |y|
  {
    if Wakes(y, r) then y[r := Some(y[r].value.(isFalling := true))] else y
  }

  function Rise(y: seq<Slot>, r: nat): (z: seq<Slot>)
    requires r < |y|
    ensures |z| == |y|
    decreases |y| - r
  {
    if r + 1 == |y| then y else RiseStep(Rise(y, r + 1), r)
  }

  predicate AnyRise(y: seq<Slot>, r: nat)
    requires r < |y|
    decreases |y| - r
  {
    if r + 1 == |y| then false else AnyRise(y, r + 1) || Wakes(Rise(y, r + 1), r)
  }

  // ---------------------------------------------------------------------------
  // The whole pass.
  // ---------------------------------------------------------------------------

  function CascadeColumn(x: seq<Slot>): (y: seq<Slot>)
    requires |x| > 0
    ensures |y| == |x|
  {
    Rise(Fall(x, 0), 0)
  }

  /** What cascadeDown reports for one column: a move, or a landed cell woken up. */
  predicate ColumnChanged(x: seq<Slot>)
    requires |x| > 0
  {
    AnyFall(x, 0) || AnyRise(Fall(x, 0), 0)
  }

  function Cascaded(g: Snapshot, w: nat): (g': Snapshot)
    requires |g| > 0 && Shaped(g, |g|, w)
    ensures Shaped(g', |g|, w)
  {
    seq(|g|, r requires 0 <= r < |g| =>
      seq(w, c requires 0 <= c < w => CascadeColumn(Column(g, c))[r]))
  }

  predicate CascadeChanged(g: Snapshot, w: nat)
    requires |g| > 0 && Shaped(g, |g|, w)
  {
    exists c :: 0 <= c < w && ColumnChanged(Column(g, c))
  }

  /** No occupied slot above the bottom row has an empty slot directly below it. */
  ghost predicate SettledColumn(x: seq<Slot>) {
    forall r :: 0 <= r < |x| - 1 && x[r].Some? ==> x[r + 1].Some?
  }

  ghost predicate Settled(g: Snapshot, w: nat)
    requires Shaped(g, |g|, w)
  {
    forall c :: 0 <= c < w ==> SettledColumn(Column(g, c))
  }

  /** Settled, and no cell above the bottom row is marked falling. */
  ghost predicate Resting(x: seq<Slot>) {
    SettledColumn(x) && forall r :: 0 <= r < |x| - 1 && x[r].Some? ==> !x[r].value.isFalling
  }

  ghost predicate SameOccupancy(x: seq<Slot>, y: seq<Slot>) {
    |x| == |y| && forall k :: 0 <= k < |x| ==> x[k].Some? == y[k].Some?
  }

  /** A slot with its cell's falling flag cleared: what survives a move. */
  function Strip(s: Slot): Slot {
    if s.Some? then Some(s.value.(isFalling := false)) else None
  }

  /** Two occupied slots that hold the same cell, whatever its falling flag. */
  ghost predicate SameCell(a: Slot, b: Slot) {
    a.Some? && b.Some? && Strip(a) == Strip(b)
  }

  /** The cells of a column, top to bottom, falling flags cleared. */
  function Cells(x: seq<Slot>): seq<Cell> {
    if x == [] then []
    else (if x[0].Some? then [x[0].value.(isFalling := false)] else []) + Cells(x[1..])
  }

  // ---------------------------------------------------------------------------
  // Where each step of the first sweep may write.
  // ---------------------------------------------------------------------------

  lemma {:induction false} FallKeepsRowsAbove(x: seq<Slot>, r: nat, k: nat)
    requires r < |x| && k < r
    ensures Fall(x, r)[k] == x[k]
    decreases |x| - r
  {
    if r + 1 < |x| {
      FallKeepsRowsAbove(x, r + 1, k);
    }
  }

  lemma {:induction false} FallFixesRowsBelow(x: seq<Slot>, j: nat, r: nat, k: nat)
    requires j <= r < k < |x|
    ensures Fall(x, j)[k] == Fall(x, r)[k]
    decreases r - j
  {
    if j < r {
      FallFixesRowsBelow(x, j + 1, r, k);
    }
  }

  lemma {:induction false} FallKeepsOccupied(x: seq<Slot>, j: nat, r: nat)
    requires j <= r < |x| && Fall(x, r)[r].Some?
    ensures Fall(x, j)[r] == Fall(x, r)[r]
    decreases r - j
  {
    if j < r {
      FallKeepsOccupied(x, j + 1, r);
    }
  }

  lemma FallKeepsGap(x: seq<Slot>, k: nat)
    requires k < |x| && x[k].None?
    ensures Fall(x, k)[k].None?
  {
    if k + 1 < |x| {
      FallKeepsRowsAbove(x, k + 1, k);
    }
  }

  lemma {:induction false} AnyFallGrows(x: seq<Slot>, j: nat, r: nat)
    requires j <= r < |x| && AnyFall(x, r)
    ensures AnyFall(x, j)
    decreases r - j
  {
    if j < r {
      AnyFallGrows(x, j + 1, r);
    }
  }

  lemma {:induction false} FallOnSettled(x: seq<Slot>, r: nat)
    requires r < |x| && SettledColumn(x)
    ensures SameOccupancy(Fall(x, r), x) && !AnyFall(x, r)
    decreases |x| - r
  {
    if r + 1 < |x| {
      FallOnSettled(x, r + 1);
    }
  }

  /** On a settled column the first sweep lands every cell it visits. */
  lemma {:induction false} FallLandsSettled(x: seq<Slot>, r: nat, k: nat)
    requires r <= k < |x| - 1 && SettledColumn(x) && Fall(x, r)[k].Some?
    ensures !Fall(x, r)[k].value.isFalling
    decreases |x| - r
  {
    FallOnSettled(x, r + 1);
    if k > r {
      FallLandsSettled(x, r + 1, k);
    } else {
      FallKeepsRowsAbove(x, r + 1, r);
    }
  }

  lemma {:induction false} FallOnResting(x: seq<Slot>, r: nat)
    requires r < |x| && Resting(x)
    ensures Fall(x, r) == x
    decreases |x| - r
  {
    if r + 1 < |x| {
      FallOnResting(x, r + 1);
    }
  }

  // ---------------------------------------------------------------------------
  // The second sweep only changes flags.
  // ---------------------------------------------------------------------------

  lemma {:induction false} RiseKeepsRowsAbove(y: seq<Slot>, r: nat, k: nat)
    requires r < |y| && k < r
    ensures Rise(y, r)[k] == y[k]
    decreases |y| - r
  {
    if r + 1 < |y| {
      RiseKeepsRowsAbove(y, r + 1, k);
    }
  }

  lemma {:induction false} RiseKeepsBottom(y: seq<Slot>, r: nat)
    requires r < |y|
    ensures Rise(y, r)[|y| - 1] == y[|y| - 1]
    decreases |y| - r
  {
    if r + 1 < |y| {
      RiseKeepsBottom(y, r + 1);
    }
  }

  lemma {:induction false} RiseOnlyFlags(y: seq<Slot>, r: nat)
    requires r < |y|
    ensures forall k :: 0 <= k < |y| ==> Strip(Rise(y, r)[k]) == Strip(y[k])
    decreases |y| - r
  {
    if r + 1 < |y| {
      RiseOnlyFlags(y, r + 1);
    }
  }

  lemma RiseKeepsOccupancy(y: seq<Slot>, r: nat)
    requires r < |y|
    ensures SameOccupancy(Rise(y, r), y)
  {
    RiseOnlyFlags(y, r);
  }

  lemma {:induction false} AnyRiseGrows(y: seq<Slot>, j: nat, r: nat)
    requires j <= r < |y| && AnyRise(y, r)
    ensures AnyRise(y, j)
    decreases r - j
  {
    if j < r {
      AnyRiseGrows(y, j + 1, r);
    }
  }

  lemma {:induction false} RiseOnSettled(y: seq<Slot>, r: nat)
    requires r < |y| && SettledColumn(y)
    ensures Rise(y, r) == y && !AnyRise(y, r)
    decreases |y| - r
  {
    if r + 1 < |y| {
      RiseOnSettled(y, r + 1);
    }
  }

  // ---------------------------------------------------------------------------
  // What the pass promises, per column.
  // ---------------------------------------------------------------------------

  /**
   * cascadeDown reports a change for a column exactly when some occupied slot of
   * it has an empty slot directly below. Landing a cell is not reported.
   */
  lemma ColumnChangedIffUnsettled(x: seq<Slot>)
    requires |x| > 0
    ensures ColumnChanged(x) <==> !SettledColumn(x)
  {
    if SettledColumn(x) {
      FallOnSettled(x, 0);
      RiseOnSettled(Fall(x, 0), 0);
    } else {
      var r :| 0 <= r < |x| - 1 && x[r].Some? && x[r + 1].None?;
      var y := Fall(x, r + 1);
      FallKeepsRowsAbove(x, r + 1, r);
      FallKeepsGap(x, r + 1);
      if x[r].value.isFalling {
        assert Moves(y, r);
        AnyFallGrows(x, 0, r);
      } else {
        var z := Fall(x, 0);
        FallKeepsOccupied(x, 0, r);
        FallFixesRowsBelow(x, 0, r, r + 1);
        RiseKeepsRowsAbove(z, r + 1, r);
        RiseKeepsOccupancy(z, r + 1);
        assert Wakes(Rise(z, r + 1), r);
        AnyRiseGrows(z, 0, r);
      }
    }
  }

  /** A cell found after the pass was in the same slot or the one directly above. */
  lemma {:induction false} FallMovesAtMostOneRow(x: seq<Slot>, r: nat, k: nat)
    requires r <= k < |x| && Fall(x, r)[k].Some?
    ensures SameCell(Fall(x, r)[k], x[k]) || (r < k && SameCell(Fall(x, r)[k], x[k - 1]))
    decreases |x| - r
  {
    if r + 1 < |x| {
      FallKeepsRowsAbove(x, r + 1, r);
      if k > r && !(k == r + 1 && Moves(Fall(x, r + 1), r)) {
        FallMovesAtMostOneRow(x, r + 1, k);
      }
    }
  }

  /** A cell present before the pass is afterwards in the same slot or the one below. */
  lemma FallLosesNoCell(x: seq<Slot>, j: nat, k: nat)
    requires j <= k < |x| && x[k].Some?
    ensures SameCell(Fall(x, j)[k], x[k]) || (k + 1 < |x| && SameCell(Fall(x, j)[k + 1], x[k]))
  {
    if k + 1 < |x| {
      FallKeepsRowsAbove(x, k + 1, k);
      if Moves(Fall(x, k + 1), k) {
        FallFixesRowsBelow(x, j, k, k + 1);
      } else {
        FallKeepsOccupied(x, j, k);
      }
    } else {
      FallKeepsOccupied(x, j, k);
    }
  }

  lemma CascadeMovesAtMostOneRow(x: seq<Slot>, k: nat)
    requires k < |x|
    ensures CascadeColumn(x)[k].Some? ==>
      SameCell(CascadeColumn(x)[k], x[k]) || (0 < k && SameCell(CascadeColumn(x)[k], x[k - 1]))
    ensures x[k].Some? ==>
      SameCell(CascadeColumn(x)[k], x[k]) || (k + 1 < |x| && SameCell(CascadeColumn(x)[k + 1], x[k]))
  {
    RiseOnlyFlags(Fall(x, 0), 0);
    if CascadeColumn(x)[k].Some? {
      FallMovesAtMostOneRow(x, 0, k);
    }
    if x[k].Some? {
      FallLosesNoCell(x, 0, k);
    }
  }

  lemma {:induction false} CellsIgnoreFlags(x: seq<Slot>, y: seq<Slot>)
    requires |x| == |y| && forall k :: 0 <= k < |x| ==> Strip(x[k]) == Strip(y[k])
    ensures Cells(x) == Cells(y)
    decreases |x|
  {
    if x != [] {
      assert Strip(x[0]) == Strip(y[0]);
      CellsIgnoreFlags(x[1..], y[1..]);
    }
  }

  /** Moving a cell into the empty slot below it keeps the column's cells in order. */
  lemma {:induction false} CellsIgnoreGapSwap(x: seq<Slot>, r: nat)
    requires r + 1 < |x| && x[r + 1].None?
    ensures Cells(x[r := None][r + 1 := x[r]]) == Cells(x)
    decreases r
  {
    var y := x[r := None][r + 1 := x[r]];
    if r == 0 {
      assert x == [x[0], None] + x[2..];
      assert y == [None, x[0]] + x[2..];
      assert Cells(x) == Cells(x[1..]) + [] || x[0].Some?;
      assert x[1..] == [None] + x[2..];
      assert Cells(x[1..]) == Cells(x[2..]);
      assert y[1..] == [x[0]] + x[2..];
      assert y[1..][1..] == x[2..];
    } else {
      CellsIgnoreGapSwap(x[1..], r - 1);
      assert y[1..] == x[1..][r - 1 := None][r := x[1..][r - 1]];
    }
  }

  lemma {:induction false} FallKeepsCells(x: seq<Slot>, r: nat)
    requires r < |x|
    ensures Cells(Fall(x, r)) == Cells(x)
    decreases |x| - r
  {
    if r + 1 < |x| {
      FallKeepsCells(x, r + 1);
      var y := Fall(x, r + 1);
      if y[r].Some? && y[r].value.isFalling {
        if y[r + 1].None? {
          CellsIgnoreGapSwap(y, r);
        } else {
          CellsIgnoreFlags(y, FallStep(y, r));
        }
      }
    }
  }

  /**
   * The pass creates and destroys no cell and moves none to another column: the
   * column holds the same cells in the same order, only falling flags differ.
   */
  lemma CascadeKeepsCells(x: seq<Slot>)
    requires |x| > 0
    ensures Cells(CascadeColumn(x)) == Cells(x)
  {
    FallKeepsCells(x, 0);
    RiseOnlyFlags(Fall(x, 0), 0);
    CellsIgnoreFlags(Fall(x, 0), CascadeColumn(x));
  }

  /**
   * The bottom row is never examined: a cell already there is left exactly as it
   * was, and a cell that falls into it stays marked falling.
   */
  lemma CascadeBottomRow(x: seq<Slot>)
    requires |x| > 0
    ensures x[|x| - 1].Some? ==> CascadeColumn(x)[|x| - 1] == x[|x| - 1]
    ensures x[|x| - 1].None? && CascadeColumn(x)[|x| - 1].Some? ==>
      CascadeColumn(x)[|x| - 1].value.isFalling
  {
    var b := |x| - 1;
    RiseKeepsBottom(Fall(x, 0), 0);
    if b > 0 {
      FallFixesRowsBelow(x, 0, b - 1, b);
    }
  }

  /**
   * On a column with no empty slot below any cell the pass only lands cells, and a
   * second pass changes nothing at all.
   */
  lemma CascadeIdempotentWhenSettled(x: seq<Slot>)
    requires |x| > 0 && SettledColumn(x)
    ensures !ColumnChanged(x)
    ensures CascadeColumn(CascadeColumn(x)) == CascadeColumn(x)
    ensures !ColumnChanged(CascadeColumn(x))
  {
    ColumnChangedIffUnsettled(x);
    FallOnSettled(x, 0);
    var z := Fall(x, 0);
    RiseOnSettled(z, 0);
    forall k | 0 <= k < |z| - 1 && z[k].Some?
      ensures !z[k].value.isFalling
    {
      FallLandsSettled(x, 0, k);
    }
    assert Resting(z);
    FallOnResting(z, 0);
    ColumnChangedIffUnsettled(z);
  }

  // ---------------------------------------------------------------------------
  // The same promises for the whole grid.
  // ---------------------------------------------------------------------------

  lemma CascadedColumn(g: Snapshot, w: nat, c: nat)
    requires |g| > 0 && Shaped(g, |g|, w) && c < w
    ensures Column(Cascaded(g, w), c) == CascadeColumn(Column(g, c))
  {
  }

  /** cascadeDown returns true exactly when some cell has an empty slot below it. */
  lemma CascadeChangedIffUnsettled(g: Snapshot, w: nat)
    requires |g| > 0 && Shaped(g, |g|, w)
    ensures CascadeChanged(g, w) <==> !Settled(g, w)
  {
    forall c | 0 <= c < w
      ensures ColumnChanged(Column(g, c)) <==> !SettledColumn(Column(g, c))
    {
      ColumnChangedIffUnsettled(Column(g, c));
    }
  }

  /** On a settled grid a second cascadeDown reports nothing and changes no slot. */
  lemma CascadeIdempotent(g: Snapshot, w: nat)
    requires |g| > 0 && Shaped(g, |g|, w) && Settled(g, w)
    ensures !CascadeChanged(g, w)
    ensures Cascaded(Cascaded(g, w), w) == Cascaded(g, w)
    ensures !CascadeChanged(Cascaded(g, w), w)
  {
    var g1 := Cascaded(g, w);
    forall c | 0 <= c < w
      ensures !ColumnChanged(Column(g, c))
      ensures Column(g1, c) == CascadeColumn(Column(g, c))
      ensures CascadeColumn(Column(g1, c)) == Column(g1, c)
      ensures !ColumnChanged(Column(g1, c))
    {
      CascadedColumn(g, w, c);
      CascadeIdempotentWhenSettled(Column(g, c));
    }
    var g2 := Cascaded(g1, w);
    forall r | 0 <= r < |g|
      ensures g2[r] == g1[r]
    {
      forall c | 0 <= c < w
        ensures g2[r][c] == g1[r][c]
      {
        assert g2[r][c] == CascadeColumn(Column(g1, c))[r];
        assert Column(g1, c)[r] == g1[r][c];
      }
    }
  }

  /** A grid whose cells have all landed on something is a fixed point of the pass. */
  lemma CascadeFixesResting(g: Snapshot, w: nat)
    requires |g| > 0 && Shaped(g, |g|, w)
    requires forall c :: 0 <= c < w ==> Resting(Column(g, c))
    ensures Cascaded(g, w) == g && !CascadeChanged(g, w)
  {
    var g1 := Cascaded(g, w);
    forall c | 0 <= c < w
      ensures CascadeColumn(Column(g, c)) == Column(g, c)
      ensures !ColumnChanged(Column(g, c))
    {
      FallOnResting(Column(g, c), 0);
      RiseOnSettled(Column(g, c), 0);
      ColumnChangedIffUnsettled(Column(g, c));
    }
    forall r | 0 <= r < |g|
      ensures g1[r] == g[r]
    {
      forall c | 0 <= c < w
        ensures g1[r][c] == g[r][c]
      {
        assert g1[r][c] == CascadeColumn(Column(g, c))[r];
      }
    }
  }

  /** No cell changes column and every column keeps its cells in order. */
  lemma CascadeKeepsColumns(g: Snapshot, w: nat, c: nat)
    requires |g| > 0 && Shaped(g, |g|, w) && c < w
    ensures Cells(Column(Cascaded(g, w), c)) == Cells(Column(g, c))
  {
    CascadedColumn(g, w, c);
    CascadeKeepsCells(Column(g, c));
  }
}
