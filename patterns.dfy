/**
 * The pattern matcher (src/game/core/PatternMatcher.ts): compiles the player's
 * regular expression, runs a global search along every scan line of a grid
 * snapshot and keeps one result per set of positions.
 *
 * The regular-expression engine is not modelled: it is an oracle that says
 * whether a pattern compiles, what the compile error says, and where the next
 * match at or after a start offset lies.
 */
module Patterns {
  import opened Types
  import opened Gravity
  import opened ScanLines

  /** A match of the engine: its start offset and its length. */
  datatype Hit = Hit(index: nat, length: nat)

  /**
   * A regular-expression engine. `compiles(p)` says whether `p` is well formed,
   * which the global flag does not affect; `message(p, global)` is the text of
   * the error thrown when compiling `p` with the global flag or without it; and
   * `exec(p, s, from)` is the first match of pattern `p` in `s` starting at or
   * after offset `from`.
   */
  datatype Engine = Engine(
    compiles: string -> bool,
    message: (string, bool) -> string,
    exec: (string, string, nat) -> Option<Hit>)

  /** A match found from offset `from` starts there or later and lies inside the string. */
  ghost predicate Sound(e: Engine) {
    forall p: string, s: string, from: nat :: e.exec(p, s, from).Some? ==>
      from <= e.exec(p, s, from).value.index
      && e.exec(p, s, from).value.index + e.exec(p, s, from).value.length <= |s|
  }

  type RegexEngine = e: Engine | Sound(e)
    witness Engine(_ => true, (_, _) => "", (_, _, _) => None)

  /** One `exec` of a global expression whose `lastIndex` is `from`: past the end it fails. */
  function Exec(e: RegexEngine, p: string, s: string, from: nat): (m: Option<Hit>)
    ensures m.Some? ==> from <= m.value.index && m.value.index + m.value.length <= |s|
  {
    if from > |s| then None else e.exec(p, s, from)
  }

  /**
   * The matches the search loop records on `s` once `lastIndex` is `from`: an
   * empty match moves `lastIndex` one past its start, a match that covers a gap
   * is dropped and the search resumes after its end.
   */
  function Hits(e: RegexEngine, p: string, s: string, from: nat): (hs: seq<Hit>)
    ensures forall h :: h in hs ==> from <= h.index && h.index + h.length <= |s|
    decreases |s| + 1 - from
  {
    match Exec(e, p, s, from)
    case None => []
    case Some(h) =>
      if h.length == 0 then Hits(e, p, s, h.index + 1)
      else if Gap in s[h.index..h.index + h.length] then Hits(e, p, s, h.index + h.length)
      else [h] + Hits(e, p, s, h.index + h.length)
  }

  /** No recorded match is empty or covers a gap. */
  lemma {:induction false} HitsNonEmptyNoGap(e: RegexEngine, p: string, s: string, from: nat)
    ensures forall h :: h in Hits(e, p, s, from) ==> 0 < h.length && Gap !in s[h.index..h.index + h.length]
    decreases |s| + 1 - from
  {
    var m := Exec(e, p, s, from);
    if m.Some? {
      var h := m.value;
      var next := if h.length == 0 then h.index + 1 else h.index + h.length;
      HitsNonEmptyNoGap(e, p, s, next);
    }
  }

  /** Recorded matches on one line start strictly later than the previous one ended. */
  lemma {:induction false} HitsDisjoint(e: RegexEngine, p: string, s: string, from: nat)
    ensures forall j :: 0 <= j < |Hits(e, p, s, from)| - 1 ==>
      Hits(e, p, s, from)[j].index + Hits(e, p, s, from)[j].length <= Hits(e, p, s, from)[j + 1].index
    decreases |s| + 1 - from
  {
    match Exec(e, p, s, from)
    case None =>
    case Some(h) =>
      if h.length == 0 {
        HitsDisjoint(e, p, s, h.index + 1);
      } else if Gap in s[h.index..h.index + h.length] {
        HitsDisjoint(e, p, s, h.index + h.length);
      } else {
        var rest := Hits(e, p, s, h.index + h.length);
        HitsDisjoint(e, p, s, h.index + h.length);
        if |rest| > 0 {
          assert rest[0] in rest;
        }
      }
  }

  /** The result recorded for match `h` of line `l`: its cells, its text and the pattern. */
  function Recorded(l: Line, s: string, h: Hit, pattern: string): (m: MatchResult)
    requires h.index + h.length <= |s|
    ensures |m.positions| == |m.matchedText| == h.length
  {
    MatchResult(seq(h.length, i => At(l, h.index + i)), s[h.index..h.index + h.length], pattern)
  }

  /** The results of a list of matches on line `l`. */
  function Results(l: Line, s: string, hs: seq<Hit>, pattern: string): (ms: seq<MatchResult>)
    requires forall h :: h in hs ==> h.index + h.length <= |s|
    ensures |ms| == |hs|
  {
    seq(|hs|, j requires 0 <= j < |hs| => Recorded(l, s, hs[j], pattern))
  }

  lemma ResultsSnoc(l: Line, s: string, hs: seq<Hit>, h: Hit, pattern: string)
    requires forall h' :: h' in hs ==> h'.index + h'.length <= |s|
    requires h.index + h.length <= |s|
    ensures Results(l, s, hs + [h], pattern) == Results(l, s, hs, pattern) + [Recorded(l, s, h, pattern)]
  {
  }

  /** What one search of line `l` adds to the list of results. */
  function LineMatches(e: RegexEngine, pattern: string, g: Snapshot, w: nat, l: Line): seq<MatchResult>
    requires Rect(g, w)
  {
    var s := LineString(g, w, l);
    Results(l, s, Hits(e, pattern, s, 0), pattern)
  }

  /** The lists of `xss` one after the other. */
  function Concat(xss: seq<seq<MatchResult>>): seq<MatchResult> {
    if xss == [] then [] else Concat(xss[..|xss| - 1]) + xss[|xss| - 1]
  }

  lemma {:induction false} ConcatAppend(a: seq<seq<MatchResult>>, b: seq<seq<MatchResult>>)
    ensures Concat(a + b) == Concat(a) + Concat(b)
    decreases |b|
  {
    if b == [] {
      assert a + b == a;
    } else {
      var b' := b[..|b| - 1];
      assert (a + b)[..|a + b| - 1] == a + b';
      ConcatAppend(a, b');
    }
  }

  lemma {:induction false} ConcatMember(xss: seq<seq<MatchResult>>, m: MatchResult)
    requires m in Concat(xss)
    ensures exists i :: 0 <= i < |xss| && m in xss[i]
  {
    var init := xss[..|xss| - 1];
    if m !in xss[|xss| - 1] {
      ConcatMember(init, m);
      var i :| 0 <= i < |init| && m in init[i];
      assert xss[i] == init[i];
    }
  }

  /** The results of each line of `ls`. */
  function PerLine(e: RegexEngine, pattern: string, g: Snapshot, w: nat, ls: seq<Line>): (xss: seq<seq<MatchResult>>)
    requires Rect(g, w)
    ensures |xss| == |ls|
    ensures forall i :: 0 <= i < |ls| ==> xss[i] == LineMatches(e, pattern, g, w, ls[i])
  {
    seq(|ls|, i requires 0 <= i < |ls| => LineMatches(e, pattern, g, w, ls[i]))
  }

  /** The results of searching the lines `ls` in order. */
  function Found(e: RegexEngine, pattern: string, g: Snapshot, w: nat, ls: seq<Line>): seq<MatchResult>
    requires Rect(g, w)
  {
    Concat(PerLine(e, pattern, g, w, ls))
  }

  lemma FoundSnoc(e: RegexEngine, pattern: string, g: Snapshot, w: nat, ls: seq<Line>, l: Line)
    requires Rect(g, w)
    ensures Found(e, pattern, g, w, ls + [l]) == Found(e, pattern, g, w, ls) + LineMatches(e, pattern, g, w, l)
  {
    var xss := PerLine(e, pattern, g, w, ls + [l]);
    assert xss[..|ls|] == PerLine(e, pattern, g, w, ls);
  }

  /** Searching two lists of lines one after the other collects both lists' results. */
  lemma FoundAppend(e: RegexEngine, pattern: string, g: Snapshot, w: nat, a: seq<Line>, b: seq<Line>)
    requires Rect(g, w)
    ensures Found(e, pattern, g, w, a + b) == Found(e, pattern, g, w, a) + Found(e, pattern, g, w, b)
  {
    assert PerLine(e, pattern, g, w, a + b) == PerLine(e, pattern, g, w, a) + PerLine(e, pattern, g, w, b);
    ConcatAppend(PerLine(e, pattern, g, w, a), PerLine(e, pattern, g, w, b));
  }

  /** The search loops' step: one more line of the family `fam` searched. */
  lemma SearchedOneMore(e: RegexEngine, pattern: string, g: Snapshot, w: nat, fam: seq<Line>, i: nat,
                        found: seq<MatchResult>, before: seq<MatchResult>, after: seq<MatchResult>)
    requires Rect(g, w) && i < |fam|
    requires before == found + Found(e, pattern, g, w, fam[..i])
    requires after == before + LineMatches(e, pattern, g, w, fam[i])
    ensures after == found + Found(e, pattern, g, w, fam[..i + 1])
  {
    assert fam[..i + 1] == fam[..i] + [fam[i]];
    FoundSnoc(e, pattern, g, w, fam[..i], fam[i]);
  }

  /** Searching one family of lines and then another searches their concatenation. */
  lemma SearchedTwoFamilies(e: RegexEngine, pattern: string, g: Snapshot, w: nat, fam: seq<Line>, fam2: seq<Line>,
                            found: seq<MatchResult>, mid: seq<MatchResult>, after: seq<MatchResult>)
    requires Rect(g, w)
    requires mid == found + Found(e, pattern, g, w, fam[..|fam|])
    requires after == mid + Found(e, pattern, g, w, fam2[..|fam2|])
    ensures after == found + Found(e, pattern, g, w, fam + fam2)
  {
    assert fam[..|fam|] == fam && fam2[..|fam2|] == fam2;
    FoundAppend(e, pattern, g, w, fam, fam2);
  }

  /** The four searches in order produce the results of all scan lines in order. */
  lemma SearchedAllLines(e: RegexEngine, pattern: string, g: Snapshot, w: nat, r1: seq<MatchResult>,
                         r2: seq<MatchResult>, r3: seq<MatchResult>, r4: seq<MatchResult>)
    requires Rect(g, w)
    requires r1 == [] + Found(e, pattern, g, w, RowLines(|g|))
    requires r2 == r1 + Found(e, pattern, g, w, ColumnLines(w))
    requires r3 == r2 + Found(e, pattern, g, w, DownRightLines(|g|, w))
    requires r4 == r3 + Found(e, pattern, g, w, DownLeftLines(|g|, w))
    ensures r4 == Found(e, pattern, g, w, AllLines(|g|, w))
  {
    var rows, cols, dr, dl := RowLines(|g|), ColumnLines(w), DownRightLines(|g|, w), DownLeftLines(|g|, w);
    assert r1 == Found(e, pattern, g, w, rows);
    FoundAppend(e, pattern, g, w, rows, cols);
    assert r2 == Found(e, pattern, g, w, rows + cols);
    FoundAppend(e, pattern, g, w, rows + cols, dr);
    assert r3 == Found(e, pattern, g, w, rows + cols + dr);
    FoundAppend(e, pattern, g, w, rows + cols + dr, dl);
  }

  // ---------------------------------------------------------------------------
  // Deduplication by position set.
  // ---------------------------------------------------------------------------

  /**
   * The identity of a result: its cells regardless of order. The source builds a
   * text key from the sorted "row,col" strings, which two results share exactly
   * when they cover the same cells the same number of times.
   */
  function Key(m: MatchResult): multiset<Pos> {
    multiset(m.positions)
  }

  function Keys(ms: seq<MatchResult>): set<multiset<Pos>> {
    set m | m in ms :: Key(m)
  }

  /** The first result of every position set, in the order they were first seen. */
  function FirstOccurrences(ms: seq<MatchResult>): (r: seq<MatchResult>)
  {
    if ms == [] then []
    else
      var init, m := ms[..|ms| - 1], ms[|ms| - 1];
      FirstOccurrences(init) + (if Key(m) in Keys(init) then [] else [m])
  }

  /** The indices in `ms` of the results kept by deduplication, in increasing order. */
  function FirstIndices(ms: seq<MatchResult>): (idx: seq<nat>)
    ensures forall j :: 0 <= j < |idx| ==> idx[j] < |ms|
    ensures forall j, j' :: 0 <= j < j' < |idx| ==> idx[j] < idx[j']
  {
    if ms == [] then []
    else
      var init := ms[..|ms| - 1];
      FirstIndices(init) + (if Key(ms[|ms| - 1]) in Keys(init) then [] else [|ms| - 1])
  }

  /** The kept results are the input's results at the kept indices. */
  lemma {:induction false} FirstOccurrencesAtIndices(ms: seq<MatchResult>)
    ensures |FirstIndices(ms)| == |FirstOccurrences(ms)|
    ensures forall j :: 0 <= j < |FirstIndices(ms)| ==> FirstOccurrences(ms)[j] == ms[FirstIndices(ms)[j]]
  {
    if ms != [] {
      var init := ms[..|ms| - 1];
      FirstOccurrencesAtIndices(init);
      forall j | 0 <= j < |FirstIndices(init)|
        ensures ms[FirstIndices(init)[j]] == init[FirstIndices(init)[j]]
      {
      }
    }
  }

  /** A kept result is the first one of its position set: none before it shares its cells. */
  lemma {:induction false} FirstIndicesAreFirst(ms: seq<MatchResult>)
    ensures forall j, i :: 0 <= j < |FirstIndices(ms)| && 0 <= i < FirstIndices(ms)[j] ==>
      Key(ms[i]) != Key(ms[FirstIndices(ms)[j]])
  {
    if ms != [] {
      var init := ms[..|ms| - 1];
      FirstIndicesAreFirst(init);
      var idx := FirstIndices(init);
      forall j, i | 0 <= j < |FirstIndices(ms)| && 0 <= i < FirstIndices(ms)[j]
        ensures Key(ms[i]) != Key(ms[FirstIndices(ms)[j]])
      {
        if j == |idx| {
          assert ms[i] in init;
        } else {
          assert ms[i] == init[i] && ms[idx[j]] == init[idx[j]];
        }
      }
    }
  }

  /** Every position set of the input survives deduplication. */
  lemma {:induction false} FirstOccurrencesKeepsKeys(ms: seq<MatchResult>)
    ensures Keys(FirstOccurrences(ms)) == Keys(ms)
  {
    if ms != [] {
      var init, m := ms[..|ms| - 1], ms[|ms| - 1];
      FirstOccurrencesKeepsKeys(init);
      assert ms == init + [m];
      KeysAppend(init, [m]);
      var tail := if Key(m) in Keys(init) then [] else [m];
      KeysAppend(FirstOccurrences(init), tail);
    }
  }

  lemma KeysAppend(a: seq<MatchResult>, b: seq<MatchResult>)
    ensures Keys(a + b) == Keys(a) + Keys(b)
  {
    forall k | k in Keys(a + b)
      ensures k in Keys(a) + Keys(b)
    {
      var m :| m in a + b && Key(m) == k;
    }
    forall k | k in Keys(a) + Keys(b)
      ensures k in Keys(a + b)
    {
      var m :| (m in a || m in b) && Key(m) == k;
      assert m in a + b;
    }
  }

  /** Deduplication of a prefix one result longer. */
  lemma DedupStep(ms: seq<MatchResult>, i: nat)
    requires i < |ms|
    ensures FirstOccurrences(ms[..i + 1]) ==
      FirstOccurrences(ms[..i]) + (if Key(ms[i]) in Keys(ms[..i]) then [] else [ms[i]])
    ensures Keys(ms[..i + 1]) == Keys(ms[..i]) + {Key(ms[i])}
  {
    assert ms[..i + 1][..i] == ms[..i];
    assert ms[..i + 1] == ms[..i] + [ms[i]];
    KeysAppend(ms[..i], [ms[i]]);
  }

  /** No two kept results share a position set. */
  lemma FirstOccurrencesDistinct(ms: seq<MatchResult>)
    ensures forall j, j' :: 0 <= j < j' < |FirstOccurrences(ms)| ==>
      Key(FirstOccurrences(ms)[j]) != Key(FirstOccurrences(ms)[j'])
  {
    FirstOccurrencesAtIndices(ms);
    FirstIndicesAreFirst(ms);
    var r, idx := FirstOccurrences(ms), FirstIndices(ms);
    forall j, j' | 0 <= j < j' < |r|
      ensures Key(r[j]) != Key(r[j'])
    {
      assert idx[j] < idx[j'];
    }
  }

  // ---------------------------------------------------------------------------
  // What every result says about the grid it was found in.
  // ---------------------------------------------------------------------------

  /** Each cell of `ps` is one step in direction `d` from the previous one. */
  ghost predicate Consecutive(ps: seq<Pos>, d: Dir) {
    forall k :: 0 <= k < |ps| - 1 ==> ps[k + 1] == Step(ps[k], d)
  }

  /**
   * A result as the player sees it: a non-empty run of cells along one scan
   * direction, inside the grid, spelling its text, which holds no gap.
   */
  ghost predicate WellFormed(g: Snapshot, w: nat, m: MatchResult)
    requires Rect(g, w)
  {
    |m.positions| == |m.matchedText| > 0 && Gap !in m.matchedText
    && (exists d :: Consecutive(m.positions, d))
    && forall k :: 0 <= k < |m.positions| ==>
      InGrid(m.positions[k], |g|, w) && Glyph(g[m.positions[k].row][m.positions[k].col]) == m.matchedText[k]
  }

  lemma LineMatchesWellFormed(e: RegexEngine, pattern: string, g: Snapshot, w: nat, l: Line)
    requires Rect(g, w)
    ensures forall m :: m in LineMatches(e, pattern, g, w, l) ==> WellFormed(g, w, m) && m.patternUsed == pattern
  {
    var s := LineString(g, w, l);
    var hs := Hits(e, pattern, s, 0);
    forall j | 0 <= j < |hs|
      ensures WellFormed(g, w, Recorded(l, s, hs[j], pattern))
    {
      var h := hs[j];
      assert h in hs;
      HitsNonEmptyNoGap(e, pattern, s, 0);
      var m := Recorded(l, s, h, pattern);
      forall k | 0 <= k < |m.positions| - 1
        ensures m.positions[k + 1] == Step(m.positions[k], l.dir)
      {
        AtStep(l, h.index + k);
      }
      assert Consecutive(m.positions, l.dir);
    }
  }

  lemma FoundWellFormed(e: RegexEngine, pattern: string, g: Snapshot, w: nat, ls: seq<Line>)
    requires Rect(g, w)
    ensures forall m :: m in Found(e, pattern, g, w, ls) ==> WellFormed(g, w, m) && m.patternUsed == pattern
  {
    var xss := PerLine(e, pattern, g, w, ls);
    forall m | m in Found(e, pattern, g, w, ls)
      ensures WellFormed(g, w, m) && m.patternUsed == pattern
    {
      ConcatMember(xss, m);
      var i :| 0 <= i < |xss| && m in xss[i];
      LineMatchesWellFormed(e, pattern, g, w, ls[i]);
    }
  }

  /** The width the matcher reads off a snapshot: that of its first row. */
  function GridWidth(g: Snapshot): nat {
    if |g| == 0 then 0 else |g[0]|
  }

  class PatternMatcher {
    const engine: RegexEngine
    /** The text of the compiled expression in use, if any. */
    var currentPattern: Option<string>
    var lastError: Option<string>
    /** The text last passed to SetPattern, whether or not it compiled. */
    var patternString: string

    ghost predicate Valid()
      reads this
    {
      && (currentPattern.Some? ==>
            currentPattern.value == patternString && patternString != [] && engine.compiles(patternString))
      && (currentPattern.None? ==> patternString == [] || !engine.compiles(patternString))
      && lastError == CompileError(patternString)
    }

    constructor (engine: RegexEngine)
      ensures Valid() && this.engine == engine
      ensures currentPattern == None && lastError == None && patternString == []
    {
      this.engine := engine;
      currentPattern := None;
      lastError := None;
      patternString := [];
    }

    /** Whether `pattern` would be accepted, with the compile error when it would not. */
    function ValidatePattern(pattern: string): (v: ValidationResult)
      ensures v.isValid <==> pattern == [] || engine.compiles(pattern)
      ensures v.error.Some? <==> !v.isValid
      ensures !v.isValid ==> v.error == Some(engine.message(pattern, false))
    {
      if pattern == [] then ValidationResult(true, None)
      else if engine.compiles(pattern) then ValidationResult(true, None)
      else ValidationResult(false, Some(engine.message(pattern, false)))
    }

    /**
     * The error `setPattern` records for `pattern`: none for the empty text or
     * text that compiles, otherwise the message of the global compile. It is
     * present exactly when ValidatePattern rejects the text, though its wording
     * may differ from ValidatePattern's, which compiles without the flag.
     */
    function CompileError(pattern: string): (e: Option<string>)
      ensures e.Some? <==> !ValidatePattern(pattern).isValid
      ensures e.Some? ==> e.value == engine.message(pattern, true)
    {
      if pattern == [] || engine.compiles(pattern) then None else Some(engine.message(pattern, true))
    }

    /**
     * Makes `pattern` the active expression. The empty text clears it; text that
     * does not compile leaves no active expression and records the error. The
     * outcome and the error are those ValidatePattern reports.
     */
    method SetPattern(pattern: string) returns (ok: bool)
      modifies this
      ensures Valid() && patternString == pattern
      ensures ok == ValidatePattern(pattern).isValid && lastError == CompileError(pattern)
      ensures currentPattern == if ok && pattern != [] then Some(pattern) else None
    {
      patternString := pattern;
      lastError := None;
      if pattern == [] {
        currentPattern := None;
        return true;
      }
      if engine.compiles(pattern) {
        currentPattern := Some(pattern);
        return true;
      } else {
        lastError := Some(engine.message(pattern, true));
        currentPattern := None;
        return false;
      }
    }

    /** `getLastError`: the compile error of the text last set, when it did not compile. */
    function GetLastError(): (e: Option<string>)
      reads this
      ensures Valid() ==> e == CompileError(patternString)
      ensures Valid() ==> (e.Some? <==> patternString != [] && !engine.compiles(patternString))
    {
      lastError
    }

    /** `getCurrentPattern`: the text last set; it is the active expression exactly when it compiles. */
    function GetCurrentPattern(): (p: string)
      reads this
      ensures p == patternString
      ensures Valid() ==> (currentPattern == Some(p) <==> p != [] && engine.compiles(p))
    {
      patternString
    }

    /**
     * Every match of the active pattern along the rows, the columns, the ↘
     * diagonals and the ↙ diagonals of `g`, keeping one result per set of cells.
     * With no active pattern there are none.
     */
    method FindMatches(g: Snapshot) returns (matches: seq<MatchResult>)
      requires Valid() && Rect(g, GridWidth(g))
      ensures currentPattern.None? ==> matches == []
      ensures currentPattern.Some? ==>
        matches == FirstOccurrences(Found(engine, patternString, g, GridWidth(g), AllLines(|g|, GridWidth(g))))
    {
      if currentPattern.None? {
        return [];
      }
      var r1 := SearchRows(g, []);
      var r2 := SearchColumns(g, r1);
      var r3 := SearchDownRight(g, r2);
      var r4 := SearchDownLeft(g, r3);
      SearchedAllLines(engine, patternString, g, GridWidth(g), r1, r2, r3, r4);
      matches := DeduplicateMatches(r4);
    }

    /** The row searches: each row's characters, left to right. */
    method SearchRows(g: Snapshot, found: seq<MatchResult>) returns (found': seq<MatchResult>)
      requires Valid() && currentPattern.Some? && Rect(g, GridWidth(g))
      ensures found' == found + Found(engine, patternString, g, GridWidth(g), RowLines(|g|))
    {
      var height, width := |g|, GridWidth(g);
      ghost var fam := RowLines(height);
      found' := found;
      for row := 0 to height
        invariant found' == found + Found(engine, patternString, g, width, fam[..row])
      {
        var l := Line(Pos(row, 0), Right);
        // The row's characters left to right: the scan line along the row.
        var rowString := LineString(g, width, l);
        ghost var before := found';
        found' := FindMatchesInString(rowString, found', l);
        SearchedOneMore(engine, patternString, g, width, fam, row, found, before, found');
      }
      assert fam[..height] == fam;
    }

    /** The column searches: each column's characters, top to bottom. */
    method SearchColumns(g: Snapshot, found: seq<MatchResult>) returns (found': seq<MatchResult>)
      requires Valid() && currentPattern.Some? && Rect(g, GridWidth(g))
      ensures found' == found + Found(engine, patternString, g, GridWidth(g), ColumnLines(GridWidth(g)))
    {
      var height, width := |g|, GridWidth(g);
      ghost var fam := ColumnLines(width);
      found' := found;
      for col := 0 to width
        invariant found' == found + Found(engine, patternString, g, width, fam[..col])
      {
        var l := Line(Pos(0, col), Down);
        // The column's characters top to bottom: the scan line down the column.
        var colString := LineString(g, width, l);
        ghost var before := found';
        found' := FindMatchesInString(colString, found', l);
        SearchedOneMore(engine, patternString, g, width, fam, col, found, before, found');
      }
      assert fam[..width] == fam;
    }

    /** The ↘ searches: from each row of the left edge, then from columns 1.. of the top edge. */
    method SearchDownRight(g: Snapshot, found: seq<MatchResult>) returns (found': seq<MatchResult>)
      requires Valid() && currentPattern.Some? && Rect(g, GridWidth(g))
      ensures found' == found + Found(engine, patternString, g, GridWidth(g), DownRightLines(|g|, GridWidth(g)))
    {
      var height, width := |g|, GridWidth(g);
      ghost var e, p := engine, patternString;
      ghost var fam := DownRightFromRows(height);
      found' := found;
      for startRow := 0 to height
        invariant found' == found + Found(e, p, g, width, fam[..startRow])
      {
        var l := Line(Pos(startRow, 0), DownRight);
        assert fam[startRow] == l;
        var diagString := GetDiagonalString(g, startRow, 0, DownRight);
        ghost var before := found';
        found' := FindMatchesInString(diagString, found', l);
        SearchedOneMore(e, p, g, width, fam, startRow, found, before, found');
      }
      ghost var fam2 := DownRightFromColumns(width);
      ghost var mid := found';
      var startCol := 1;
      ghost var i: nat := 0;
      while startCol < width
        invariant i == startCol - 1 && i <= |fam2|
        invariant found' == mid + Found(e, p, g, width, fam2[..i])
      {
        var l := Line(Pos(0, startCol), DownRight);
        assert fam2[i] == l;
        var diagString := GetDiagonalString(g, 0, startCol, DownRight);
        ghost var before := found';
        found' := FindMatchesInString(diagString, found', l);
        SearchedOneMore(e, p, g, width, fam2, i, mid, before, found');
        startCol := startCol + 1;
        i := i + 1;
      }
      assert i == |fam2|;
      SearchedTwoFamilies(e, p, g, width, fam, fam2, found, mid, found');
    }

    /** The ↙ searches: from each row of the right edge, then from columns w-2 down to 0 of the top edge. */
    method SearchDownLeft(g: Snapshot, found: seq<MatchResult>) returns (found': seq<MatchResult>)
      requires Valid() && currentPattern.Some? && Rect(g, GridWidth(g))
      ensures found' == found + Found(engine, patternString, g, GridWidth(g), DownLeftLines(|g|, GridWidth(g)))
    {
      var height: nat, width: int := |g|, GridWidth(g);
      ghost var e, p := engine, patternString;
      ghost var fam := DownLeftFromRows(height, width);
      found' := found;
      for startRow := 0 to height
        invariant found' == found + Found(e, p, g, width, fam[..startRow])
      {
        var l := Line(Pos(startRow, width - 1), DownLeft);
        assert fam[startRow] == l;
        var diagString := GetDiagonalString(g, startRow, width - 1, DownLeft);
        ghost var before := found';
        found' := FindMatchesInString(diagString, found', l);
        SearchedOneMore(e, p, g, width, fam, startRow, found, before, found');
      }
      ghost var fam2 := DownLeftFromColumns(width);
      ghost var mid := found';
      var startCol := width - 2;
      ghost var i: nat := 0;
      while startCol >= 0
        invariant i == width - 2 - startCol && i <= |fam2|
        invariant found' == mid + Found(e, p, g, width, fam2[..i])
      {
        var l := Line(Pos(0, startCol), DownLeft);
        assert fam2[i] == l;
        var diagString := GetDiagonalString(g, 0, startCol, DownLeft);
        ghost var before := found';
        found' := FindMatchesInString(diagString, found', l);
        SearchedOneMore(e, p, g, width, fam2, i, mid, before, found');
        startCol := startCol - 1;
        i := i + 1;
      }
      assert i == |fam2|;
      SearchedTwoFamilies(e, p, g, width, fam, fam2, found, mid, found');
    }

    /**
     * The global search loop over one scan line: appends one result per recorded
     * match, in the order found. `lastIndex` starts at 0 for every line.
     */
    method FindMatchesInString(s: string, matches: seq<MatchResult>, l: Line) returns (matches': seq<MatchResult>)
      requires Valid()
      ensures currentPattern.None? ==> matches' == matches
      ensures currentPattern.Some? ==>
        matches' == matches + Results(l, s, Hits(engine, patternString, s, 0), patternString)
    {
      matches' := matches;
      if currentPattern.None? {
        return;
      }
      var p := currentPattern.value;
      var lastIndex: nat := 0;
      ghost var done: seq<Hit> := [];
      while true
        invariant lastIndex <= |s| + 1
        invariant Hits(engine, p, s, 0) == done + Hits(engine, p, s, lastIndex)
        invariant forall h :: h in done ==> h.index + h.length <= |s|
        invariant matches' == matches + Results(l, s, done, patternString)
        decreases |s| + 1 - lastIndex
      {
        var found, next, recorded := SearchTurn(s, p, lastIndex);
        if !found {
          break;
        }
        if recorded.Some? {
          var h := recorded.value;
          assert done + ([h] + Hits(engine, p, s, next)) == (done + [h]) + Hits(engine, p, s, next);
          ResultsSnoc(l, s, done, h, patternString);
          matches' := matches' + [Recorded(l, s, h, patternString)];
          done := done + [h];
        } else {
          assert [] + Hits(engine, p, s, next) == Hits(engine, p, s, next);
        }
        lastIndex := next;
      }
      assert done + [] == done;
    }

    /**
     * One turn of the search loop with `lastIndex` at `from`: whether `exec`
     * found a match, where `lastIndex` goes next, and the match recorded if any.
     * An empty match moves one past its start; a match covering a gap is skipped.
     */
    method SearchTurn(s: string, p: string, from: nat) returns (found: bool, next: nat, recorded: Option<Hit>)
      requires from <= |s| + 1
      ensures !found ==> Hits(engine, p, s, from) == [] && recorded.None?
      ensures found ==> from < next <= |s| + 1
      ensures found ==>
        Hits(engine, p, s, from) == (if recorded.Some? then [recorded.value] else []) + Hits(engine, p, s, next)
      ensures recorded.Some? ==> recorded.value.index + recorded.value.length <= |s|
    {
      var m := Exec(engine, p, s, from);
      if m.None? {
        return false, from, None;
      }
      var h := m.value;
      if h.length == 0 {
        return true, h.index + 1, None;
      }
      if Gap in s[h.index..h.index + h.length] {
        return true, h.index + h.length, None;
      }
      return true, h.index + h.length, Some(h);
    }

    /** The characters along the scan line from (startRow, startCol) in direction `d`. */
    method GetDiagonalString(g: Snapshot, startRow: int, startCol: int, d: Dir) returns (s: string)
      requires Rect(g, GridWidth(g))
      ensures s == LineString(g, GridWidth(g), Line(Pos(startRow, startCol), d))
    {
      var chars := [];
      var row, col := startRow, startCol;
      var height, width := |g|, GridWidth(g);
      ghost var l := Line(Pos(startRow, startCol), d);
      ghost var n := LineLen(l, height, width);
      while 0 <= row < height && 0 <= col < width
        invariant |chars| <= n
        invariant Pos(row, col) == At(l, |chars|)
        invariant forall k :: 0 <= k < |chars| ==> chars[k] == LineString(g, width, l)[k]
        decreases if d == Right then width - col else height - row
      {
        chars := chars + [Glyph(g[row][col])];
        AtStep(l, |chars| - 1);
        var next := Step(Pos(row, col), d);
        row, col := next.row, next.col;
      }
      s := chars;
    }

    /** Removes every result whose set of cells an earlier result already covered. */
    method DeduplicateMatches(matches: seq<MatchResult>) returns (unique: seq<MatchResult>)
      ensures unique == FirstOccurrences(matches)
    {
      var seen: set<multiset<Pos>> := {};
      unique := [];
      for i := 0 to |matches|
        invariant unique == FirstOccurrences(matches[..i])
        invariant seen == Keys(matches[..i])
      {
        var key := Key(matches[i]);
        DedupStep(matches, i);
        if key !in seen {
          seen := seen + {key};
          unique := unique + [matches[i]];
        }
      }
      assert matches[..|matches|] == matches;
    }
  }
}
