/**
 * Scan lines of PatternMatcher.findMatches: rows, columns and both diagonal
 * directions of a grid snapshot, each truncated to the cells inside the grid.
 */
module ScanLines {
  import opened Types
  import opened Gravity

  /** The direction a scan line runs in: along a row, down a column, ↘ or ↙. */
  datatype Dir = Right | Down | DownRight | DownLeft

  /** A scan line: its first cell and its direction. */
  datatype Line = Line(start: Pos, dir: Dir)

  /** The cell one step further along direction `d`. */
  function Step(p: Pos, d: Dir): Pos {
    match d
    case Right => Pos(p.row, p.col + 1)
    case Down => Pos(p.row + 1, p.col)
    case DownRight => Pos(p.row + 1, p.col + 1)
    case DownLeft => Pos(p.row + 1, p.col - 1)
  }

  /** The `k`-th cell of a scan line. */
  function At(l: Line, k: int): Pos {
    var r, c := l.start.row, l.start.col;
    match l.dir
    case Right => Pos(r, c + k)
    case Down => Pos(r + k, c)
    case DownRight => Pos(r + k, c + k)
    case DownLeft => Pos(r + k, c - k)
  }

  predicate InGrid(p: Pos, h: int, w: int) {
    0 <= p.row < h && 0 <= p.col < w
  }

  function Min(a: int, b: int): int {
    if a < b then a else b
  }

  /** The number of cells of a scan line inside an `h` by `w` grid. */
  function LineLen(l: Line, h: nat, w: nat): (n: nat)
    ensures forall k :: 0 <= k < n ==> InGrid(At(l, k), h, w)
    ensures !InGrid(At(l, n), h, w)
  {
    if !InGrid(l.start, h, w) then 0
    else match l.dir
      case Right => w - l.start.col
      case Down => h - l.start.row
      case DownRight => Min(h - l.start.row, w - l.start.col)
      case DownLeft => Min(h - l.start.row, l.start.col + 1)
  }

  /** A rectangular snapshot of width `w`. */
  ghost predicate Rect(g: Snapshot, w: nat) {
    Shaped(g, |g|, w)
  }

  /** The characters along a scan line, a gap for every empty slot. */
  function LineString(g: Snapshot, w: nat, l: Line): (s: string)
    requires Rect(g, w)
    ensures |s| == LineLen(l, |g|, w)
    ensures forall k :: 0 <= k < |s| ==> s[k] == Glyph(g[At(l, k).row][At(l, k).col])
  {
    var n := LineLen(l, |g|, w);
    seq(n, k requires 0 <= k < n => Glyph(g[At(l, k).row][At(l, k).col]))
  }

  // The six families of scan lines, in the order they are searched.

  function RowLines(h: nat): (ls: seq<Line>)
    ensures |ls| == h
  {
    seq(h, r => Line(Pos(r, 0), Right))
  }

  function ColumnLines(w: nat): (ls: seq<Line>)
    ensures |ls| == w
  {
    seq(w, c => Line(Pos(0, c), Down))
  }

  /** ↘ diagonals starting in column 0, one per row. */
  function DownRightFromRows(h: nat): (ls: seq<Line>)
    ensures |ls| == h
  {
    seq(h, r => Line(Pos(r, 0), DownRight))
  }

  /** ↘ diagonals starting in row 0, columns 1 to w-1. */
  function DownRightFromColumns(w: nat): (ls: seq<Line>)
    ensures |ls| == if w == 0 then 0 else w - 1
  {
    seq(if w == 0 then 0 else w - 1, i => Line(Pos(0, i + 1), DownRight))
  }

  /** ↙ diagonals starting in the last column, one per row. */
  function DownLeftFromRows(h: nat, w: nat): (ls: seq<Line>)
    ensures |ls| == h
  {
    seq(h, r => Line(Pos(r, w - 1), DownLeft))
  }

  /** ↙ diagonals starting in row 0, columns w-2 down to 0. */
  function DownLeftFromColumns(w: nat): (ls: seq<Line>)
    ensures |ls| == if w == 0 then 0 else w - 1
  {
    seq(if w == 0 then 0 else w - 1, i => Line(Pos(0, w - 2 - i), DownLeft))
  }

  function DownRightLines(h: nat, w: nat): seq<Line> {
    DownRightFromRows(h) + DownRightFromColumns(w)
  }

  function DownLeftLines(h: nat, w: nat): seq<Line> {
    DownLeftFromRows(h, w) + DownLeftFromColumns(w)
  }

  /** Every scan line of an `h` by `w` grid, in search order. */
  function AllLines(h: nat, w: nat): seq<Line> {
    RowLines(h) + ColumnLines(w) + DownRightLines(h, w) + DownLeftLines(h, w)
  }

  /** Consecutive cells of a scan line are one step apart. */
  lemma AtStep(l: Line, k: int)
    ensures Step(At(l, k), l.dir) == At(l, k + 1)
  {
  }

  /** The ↘ line through a cell is the one whose start has the same row minus column. */
  lemma DownRightIndex(h: nat, w: nat, i: int, k: int, p: Pos)
    requires w > 0 && InGrid(p, h, w) && 0 <= i < h + w - 1 && 0 <= k
    requires At(DownRightLines(h, w)[i], k) == p
    ensures i == if p.row >= p.col then p.row - p.col else h + p.col - p.row - 1
  {
  }

  /** The ↙ line through a cell is the one whose start has the same row plus column. */
  lemma DownLeftIndex(h: nat, w: nat, i: int, k: int, p: Pos)
    requires w > 0 && InGrid(p, h, w) && 0 <= i < h + w - 1 && 0 <= k
    requires At(DownLeftLines(h, w)[i], k) == p
    ensures i == if p.row >= w - 1 - p.col then p.row - (w - 1 - p.col) else h + (w - 2 - p.col - p.row)
  {
  }

  /**
   * The ↘ diagonals number h + w - 1 and every cell of the grid lies on exactly
   * one of them.
   */
  lemma DownRightPartition(h: nat, w: nat, p: Pos)
    requires w > 0 && InGrid(p, h, w)
    ensures |DownRightLines(h, w)| == h + w - 1
    ensures exists i, k ::
      0 <= i < h + w - 1 && 0 <= k < LineLen(DownRightLines(h, w)[i], h, w) && At(DownRightLines(h, w)[i], k) == p
    ensures forall i, j, k, k' ::
      (0 <= i < h + w - 1 && 0 <= j < h + w - 1 && 0 <= k && 0 <= k'
      && At(DownRightLines(h, w)[i], k) == p && At(DownRightLines(h, w)[j], k') == p) ==> i == j
  {
    var dr := DownRightLines(h, w);
    if p.row >= p.col {
      assert At(dr[p.row - p.col], p.col) == p;
    } else {
      assert At(dr[h + p.col - p.row - 1], p.row) == p;
    }
    forall i, j, k, k' | 0 <= i < h + w - 1 && 0 <= j < h + w - 1 && 0 <= k && 0 <= k'
      && At(dr[i], k) == p && At(dr[j], k') == p
      ensures i == j
    {
      DownRightIndex(h, w, i, k, p);
      DownRightIndex(h, w, j, k', p);
    }
  }

  /**
   * The ↙ diagonals number h + w - 1 and every cell of the grid lies on exactly
   * one of them.
   */
  lemma DownLeftPartition(h: nat, w: nat, p: Pos)
    requires w > 0 && InGrid(p, h, w)
    ensures |DownLeftLines(h, w)| == h + w - 1
    ensures exists i, k ::
      0 <= i < h + w - 1 && 0 <= k < LineLen(DownLeftLines(h, w)[i], h, w) && At(DownLeftLines(h, w)[i], k) == p
    ensures forall i, j, k, k' ::
      (0 <= i < h + w - 1 && 0 <= j < h + w - 1 && 0 <= k && 0 <= k'
      && At(DownLeftLines(h, w)[i], k) == p && At(DownLeftLines(h, w)[j], k') == p) ==> i == j
  {
    var dl := DownLeftLines(h, w);
    if p.row >= w - 1 - p.col {
      assert At(dl[p.row - (w - 1 - p.col)], w - 1 - p.col) == p;
    } else {
      assert At(dl[h + (w - 2 - p.col - p.row)], p.row) == p;
    }
    forall i, j, k, k' | 0 <= i < h + w - 1 && 0 <= j < h + w - 1 && 0 <= k && 0 <= k'
      && At(dl[i], k) == p && At(dl[j], k') == p
      ensures i == j
    {
      DownLeftIndex(h, w, i, k, p);
      DownLeftIndex(h, w, j, k', p);
    }
  }
}
