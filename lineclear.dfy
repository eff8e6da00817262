/** Row clearing after a lock, and the score, level and tick-interval rules it drives. */
module LineClear {
  import opened Dimensions
  import opened Board

  /** Every cell of the row is occupied; so a fresh empty row is never full. */
  predicate Full(row: seq<int>): (f: bool)
    ensures f ==> row != EmptyRow()
  {
    assert row == EmptyRow() ==> row[0] == 0;
    forall c :: 0 <= c < |row| ==> row[c] != 0
  }

  /** A grid after one pass, with the number of rows the pass removed. */
  datatype Sweep = Sweep(rows: Grid, cleared: nat)

  /** `n` empty rows. */
  function EmptyRows(n: nat): (e: Grid)
    ensures |e| == n && forall i :: 0 <= i < n ==> e[i] == EmptyRow()
  {
    seq(n, _ => EmptyRow())
  }

  /** Row `y` removed (`splice(y, 1)`) and an empty row put on top (`unshift`). */
  function Splice(b: Grid, y: int): (b': Grid)
    requires 0 <= y < |b|
    ensures |b'| == |b| && b'[0] == EmptyRow()
    ensures (forall i :: 0 <= i < |b| ==> |b[i]| == Width) ==> forall i :: 0 <= i < |b'| ==> |b'[i]| == Width
  {
    [EmptyRow()] + (b[..y] + b[y + 1..])
  }

  /**
   * The clearing loop as written: rows `y` down to 0 of the current grid are still
   * to be visited; a full row is spliced out, an empty row goes on top, and the scan
   * moves on to index `y - 1` whatever happened at `y`.
   */
  function Scan(b: Grid, y: int): (s: Sweep)
    requires -1 <= y < |b|
    ensures |s.rows| == |b| && s.cleared <= y + 1
    ensures s.cleared == 0 ==> s.rows == b
    ensures (forall i :: 0 <= i < |b| ==> |b[i]| == Width) ==> forall i :: 0 <= i < |s.rows| ==> |s.rows[i]| == Width
    decreases y + 1
  {
    if y < 0 then Sweep(b, 0)
    else if Full(b[y]) then
      var s := Scan(Splice(b, y), y - 1);
      Sweep(s.rows, s.cleared + 1)
    else Scan(b, y - 1)
  }

  /** One clearing pass over a whole grid, from the bottom row up. */
  function ClearLines(b: Grid): (s: Sweep)
    requires ValidBoard(b)
    ensures ValidBoard(s.rows) && s.cleared <= Height
    ensures s.cleared == 0 ==> s.rows == b
  {
    Scan(b, Height - 1)
  }

  /** The rows of a grid that a pass keeps, and those it removes, each in their original order. */
  datatype Partition = Partition(kept: Grid, removed: Grid)

  /**
   * An independent, bottom-up statement of what one pass does to rows `rows` of the
   * original grid: a non-full bottom row stays; a full bottom row is removed and the
   * row directly above it stays whatever it holds, because the scan never looks at it.
   */
  function Compact(rows: Grid): (p: Partition)
    decreases |rows|
    ensures |p.kept| + |p.removed| == |rows|
  {
    if |rows| == 0 then Partition([], [])
    else
      var n := |rows|;
      if !Full(rows[n - 1]) then
        var p := Compact(rows[..n - 1]);
        Partition(p.kept + [rows[n - 1]], p.removed)
      else if n == 1 then Partition([], [rows[0]])
      else
        var p := Compact(rows[..n - 2]);
        Partition(p.kept + [rows[n - 2]], p.removed + [rows[n - 1]])
  }

  /** The kept and removed rows together are the input rows, and every removed row was full. */
  predicate SplitsFullRows(rows: Grid, p: Partition) {
    multiset(p.kept) + multiset(p.removed) == multiset(rows) &&
    forall i :: 0 <= i < |p.removed| ==> Full(p.removed[i])
  }

  /** A pass only removes rows, and only full ones. */
  lemma {:induction false} CompactRemovesOnlyFullRows(rows: Grid)
    ensures SplitsFullRows(rows, Compact(rows))
    decreases |rows|
  {
    var n := |rows|;
    if n == 0 {
    } else if !Full(rows[n - 1]) {
      CompactRemovesOnlyFullRows(rows[..n - 1]);
      KeepBottomRow(rows[..n - 1], rows[n - 1], Compact(rows[..n - 1]));
      assert rows == rows[..n - 1] + [rows[n - 1]];
    } else if n == 1 {
    } else {
      CompactRemovesOnlyFullRows(rows[..n - 2]);
      DropBottomRow(rows[..n - 2], rows[n - 2], rows[n - 1], Compact(rows[..n - 2]));
      assert rows == rows[..n - 2] + [rows[n - 2], rows[n - 1]];
    }
  }

  /** Keeping a non-full bottom row preserves `SplitsFullRows`. */
  lemma KeepBottomRow(pre: Grid, row: seq<int>, p: Partition)
    requires SplitsFullRows(pre, p)
    ensures SplitsFullRows(pre + [row], Partition(p.kept + [row], p.removed))
  {
  }

  /** Removing a full bottom row and keeping the row above it preserves `SplitsFullRows`. */
  lemma DropBottomRow(pre: Grid, above: seq<int>, row: seq<int>, p: Partition)
    requires SplitsFullRows(pre, p) && Full(row)
    ensures SplitsFullRows(pre + [above, row], Partition(p.kept + [above], p.removed + [row]))
  {
  }

  /**
   * The loop's state in terms of the original grid: `cur` is `c` empty rows, then the
   * original rows `pre` not yet visited, then the rows `done` already behind the scan;
   * the scan index `y` sits on the last row of `pre`, or among the empty rows once
   * `pre` is used up.
   */
  predicate ScanState(cur: Grid, c: nat, pre: Grid, done: Grid, y: int) {
    cur == EmptyRows(c) + pre + done && (y + 1 == c + |pre| || (pre == [] && -1 <= y < c))
  }

  /** What is left of the scan from such a state removes `Compact(pre).removed` and keeps the rest. */
  predicate ScanEndsInCompact(cur: Grid, c: nat, pre: Grid, done: Grid, y: int)
    requires -1 <= y < |cur|
  {
    var p := Compact(pre);
    Scan(cur, y) == Sweep(EmptyRows(c + |p.removed|) + p.kept + done, |p.removed|)
  }

  lemma {:induction false} ScanIsCompact(cur: Grid, c: nat, pre: Grid, done: Grid, y: int)
    requires ScanState(cur, c, pre, done, y)
    ensures -1 <= y < |cur| && ScanEndsInCompact(cur, c, pre, done, y)
    decreases y + 1, 1
  {
    var n := |pre|;
    if y < 0 {
      assert c == 0 || pre == [];
    } else if pre == [] && y < c {
      ScanSkipsEmptyRow(cur, c, done, y);
    } else if !Full(pre[n - 1]) {
      ScanKeepsRow(cur, c, pre, done, y);
    } else if n == 1 {
      ScanClearsTopRow(cur, c, pre, done, y);
    } else {
      ScanClearsRow(cur, c, pre, done, y);
    }
  }

  lemma {:induction false} ScanSkipsEmptyRow(cur: Grid, c: nat, done: Grid, y: int)
    requires ScanState(cur, c, [], done, y) && 0 <= y < c
    ensures ScanEndsInCompact(cur, c, [], done, y)
    decreases y + 1, 0
  {
    assert cur[y] == EmptyRow();
    ScanIsCompact(cur, c, [], done, y - 1);
  }

  lemma {:induction false} ScanKeepsRow(cur: Grid, c: nat, pre: Grid, done: Grid, y: int)
    requires ScanState(cur, c, pre, done, y) && 0 <= y && pre != [] && y + 1 == c + |pre|
    requires !Full(pre[|pre| - 1])
    ensures ScanEndsInCompact(cur, c, pre, done, y)
    decreases y + 1, 0
  {
    var n := |pre|;
    var row := pre[n - 1];
    assert cur[y] == row;
    assert cur == EmptyRows(c) + pre[..n - 1] + ([row] + done);
    ScanIsCompact(cur, c, pre[..n - 1], [row] + done, y - 1);
    var p := Compact(pre[..n - 1]);
    assert Compact(pre) == Partition(p.kept + [row], p.removed);
    assert EmptyRows(c + |p.removed|) + p.kept + ([row] + done)
        == EmptyRows(c + |p.removed|) + (p.kept + [row]) + done;
  }

  lemma {:induction false} ScanClearsTopRow(cur: Grid, c: nat, pre: Grid, done: Grid, y: int)
    requires ScanState(cur, c, pre, done, y) && 0 <= y && |pre| == 1 && y == c
    requires Full(pre[0])
    ensures ScanEndsInCompact(cur, c, pre, done, y)
    decreases y + 1, 0
  {
    assert cur[y] == pre[0];
    var next := Splice(cur, y);
    assert next == EmptyRows(c + 1) + [] + done by {
      assert cur[..y] == EmptyRows(c);
      assert cur[y + 1..] == done;
    }
    ScanIsCompact(next, c + 1, [], done, y - 1);
    assert Compact(pre) == Partition([], [pre[0]]);
  }

  lemma {:induction false} ScanClearsRow(cur: Grid, c: nat, pre: Grid, done: Grid, y: int)
    requires ScanState(cur, c, pre, done, y) && 0 <= y && |pre| >= 2 && y + 1 == c + |pre|
    requires Full(pre[|pre| - 1])
    ensures ScanEndsInCompact(cur, c, pre, done, y)
    decreases y + 1, 0
  {
    var n := |pre|;
    var above := pre[n - 2];
    assert cur[y] == pre[n - 1];
    var next := Splice(cur, y);
    assert next == EmptyRows(c + 1) + pre[..n - 2] + ([above] + done) by {
      assert cur[..y] == EmptyRows(c) + pre[..n - 1];
      assert cur[y + 1..] == done;
      assert pre[..n - 1] == pre[..n - 2] + [above];
    }
    ScanIsCompact(next, c + 1, pre[..n - 2], [above] + done, y - 1);
    var p := Compact(pre[..n - 2]);
    assert Compact(pre) == Partition(p.kept + [above], p.removed + [pre[n - 1]]);
    assert EmptyRows(c + 1 + |p.removed|) + p.kept + ([above] + done)
        == EmptyRows(c + 1 + |p.removed|) + (p.kept + [above]) + done;
  }

  /**
   * One pass over a valid grid removes exactly the rows `Compact` removes: the new
   * grid is one empty row per removed row, then the kept rows in their original
   * order, and it still has Height rows of Width cells.
   */
  lemma ClearLinesIsCompact(b: Grid)
    requires ValidBoard(b)
    ensures ClearLines(b).cleared == |Compact(b).removed|
    ensures ClearLines(b).rows == EmptyRows(|Compact(b).removed|) + Compact(b).kept
    ensures ValidBoard(ClearLines(b).rows)
  {
    ScanIsCompact(b, 0, b, [], Height - 1);
    assert EmptyRows(0) + b + [] == b;
    var p := Compact(b);
    CompactRemovesOnlyFullRows(b);
    assert multiset(p.kept) <= multiset(b);
    forall i | 0 <= i < |p.kept| ensures |p.kept[i]| == Width {
      assert p.kept[i] in multiset(b);
    }
  }

  /** A grid none of whose rows is full passes through unchanged. */
  lemma {:induction false} CompactNoFullRows(rows: Grid)
    requires forall i :: 0 <= i < |rows| ==> !Full(rows[i])
    ensures Compact(rows) == Partition(rows, [])
    decreases |rows|
  {
    var n := |rows|;
    if n > 0 {
      CompactNoFullRows(rows[..n - 1]);
      assert rows[..n - 1] + [rows[n - 1]] == rows;
    }
  }

  /**
   * Two full rows with a non-full row between them (the bottom row and the row two
   * above it) are both cleared in one pass: two empty rows go on top and the other
   * rows keep their order.
   */
  lemma SeparatedFullRowsBothCleared(b: Grid)
    requires ValidBoard(b) && Full(b[19]) && Full(b[17])
    requires forall i :: 0 <= i < Height && i != 19 && i != 17 ==> !Full(b[i])
    ensures ClearLines(b).cleared == 2
    ensures ClearLines(b).rows == EmptyRows(2) + b[..17] + [b[18]]
  {
    ClearLinesIsCompact(b);
    CompactNoFullRows(b[..16]);
    assert b[..18][..16] == b[..16];
    assert b[..16] + [b[16]] == b[..17];
  }

  /**
   * Two adjacent full rows at the bottom: the lower one is cleared, the one directly
   * above it drops into the visited slot and is never examined, so the pass clears
   * one row and leaves a full row at the bottom of the grid.
   */
  lemma AdjacentFullRowsOneCleared(b: Grid)
    requires ValidBoard(b) && Full(b[19]) && Full(b[18])
    requires forall i :: 0 <= i < 18 ==> !Full(b[i])
    ensures ClearLines(b).cleared == 1
    ensures ClearLines(b).rows == EmptyRows(1) + b[..19]
    ensures Full(ClearLines(b).rows[Height - 1])
  {
    ClearLinesIsCompact(b);
    CompactNoFullRows(b[..18]);
    assert b[..18] + [b[18]] == b[..19];
  }

  /**
   * Without two adjacent full rows every full row is cleared: no row `Compact` keeps
   * is full.
   */
  lemma {:induction false} SeparatedFullRowsAllCleared(rows: Grid)
    requires forall i :: 0 <= i < |rows| - 1 ==> !(Full(rows[i]) && Full(rows[i + 1]))
    ensures forall i :: 0 <= i < |Compact(rows).kept| ==> !Full(Compact(rows).kept[i])
    decreases |rows|
  {
    var n := |rows|;
    if n == 0 {
    } else if !Full(rows[n - 1]) {
      SeparatedFullRowsAllCleared(rows[..n - 1]);
    } else if n > 1 {
      SeparatedFullRowsAllCleared(rows[..n - 2]);
    }
  }

  /**
   * On a grid without two adjacent full rows, one pass leaves no full row behind,
   * and the grid is unchanged when it had no full row to begin with.
   */
  lemma ClearLinesClearsSeparatedRows(b: Grid)
    requires ValidBoard(b)
    requires forall i :: 0 <= i < Height - 1 ==> !(Full(b[i]) && Full(b[i + 1]))
    ensures forall i :: 0 <= i < Height ==> !Full(ClearLines(b).rows[i])
  {
    ClearLinesIsCompact(b);
    SeparatedFullRowsAllCleared(b);
    var s := ClearLines(b);
    var e := |Compact(b).removed|;
    forall i | 0 <= i < Height ensures !Full(s.rows[i]) {
      if i < e {
        assert s.rows[i] == EmptyRow();
      } else {
        assert s.rows[i] == Compact(b).kept[i - e];
      }
    }
  }

  /**
   * Which rows of `rows` one pass removes, index by index, following the same case
   * split as `Compact`.
   */
  function ClearedMask(rows: Grid): (m: seq<bool>)
    ensures |m| == |rows|
    decreases |rows|
  {
    var n := |rows|;
    if n == 0 then []
    else if !Full(rows[n - 1]) then ClearedMask(rows[..n - 1]) + [false]
    else if n == 1 then [true]
    else ClearedMask(rows[..n - 2]) + [false, true]
  }

  /** The rows of `rows` whose mask entry is `flag`, in their original order. */
  function Select(rows: Grid, m: seq<bool>, flag: bool): Grid
    requires |m| == |rows|
    decreases |rows|
  {
    var n := |rows|;
    if n == 0 then []
    else Select(rows[..n - 1], m[..n - 1], flag) + (if m[n - 1] == flag then [rows[n - 1]] else [])
  }

  /** `Compact` keeps exactly the rows the mask leaves unmarked and removes the marked ones. */
  lemma {:induction false} CompactIsMask(rows: Grid)
    ensures Compact(rows) == Partition(Select(rows, ClearedMask(rows), false), Select(rows, ClearedMask(rows), true))
    decreases |rows|
  {
    var n := |rows|;
    var m := ClearedMask(rows);
    if n == 0 {
    } else if !Full(rows[n - 1]) {
      CompactIsMask(rows[..n - 1]);
      assert m[..n - 1] == ClearedMask(rows[..n - 1]);
    } else if n == 1 {
      assert rows[..0] == [] && m[..0] == [];
    } else {
      var pre := rows[..n - 2];
      var m2 := ClearedMask(pre);
      CompactIsMask(pre);
      assert m[..n - 1] == m2 + [false];
      assert rows[..n - 1][..n - 2] == pre;
      assert (m2 + [false])[..n - 2] == m2;
    }
  }

  /**
   * Row by row: a pass removes a row exactly when it is full and the row directly
   * below it (if there is one) was not removed. So the row above a removed row is
   * always kept, full or not.
   */
  lemma {:induction false} ClearedMaskRule(rows: Grid)
    ensures forall i :: 0 <= i < |rows| ==>
      (ClearedMask(rows)[i] <==> Full(rows[i]) && (i == |rows| - 1 || !ClearedMask(rows)[i + 1]))
    decreases |rows|
  {
    var n := |rows|;
    var m := ClearedMask(rows);
    if n == 0 {
    } else if !Full(rows[n - 1]) {
      var pre := rows[..n - 1];
      var pm := ClearedMask(pre);
      ClearedMaskRule(pre);
      assert m == pm + [false];
      forall i {:trigger m[i]} | 0 <= i < n
        ensures m[i] <==> Full(rows[i]) && (i == n - 1 || !m[i + 1])
      {
        if i < n - 1 {
          assert m[i] == pm[i] && m[i + 1] == (if i + 1 < n - 1 then pm[i + 1] else false) && rows[i] == pre[i];
          assert pm[i] <==> Full(pre[i]) && (i == |pre| - 1 || !pm[i + 1]);
        }
      }
    } else if n > 1 {
      var pre := rows[..n - 2];
      var pm := ClearedMask(pre);
      ClearedMaskRule(pre);
      assert m == pm + [false, true];
      forall i {:trigger m[i]} | 0 <= i < n
        ensures m[i] <==> Full(rows[i]) && (i == n - 1 || !m[i + 1])
      {
        if i < n - 2 {
          assert m[i] == pm[i] && m[i + 1] == (if i + 1 < n - 2 then pm[i + 1] else false) && rows[i] == pre[i];
          assert pm[i] <==> Full(pre[i]) && (i == |pre| - 1 || !pm[i + 1]);
        }
      }
    }
  }

  /**
   * A full row that survives a pass sits directly above a row the pass removed,
   * which is full as well.
   */
  lemma FullRowKeptOnlyAboveCleared(rows: Grid, i: int)
    requires 0 <= i < |rows| && Full(rows[i]) && !ClearedMask(rows)[i]
    ensures i + 1 < |rows| && ClearedMask(rows)[i + 1] && Full(rows[i + 1])
  {
    ClearedMaskRule(rows);
  }

  /** The score, level and tick interval held next to the grid. */
  datatype Stats = Stats(score: int, level: int, interval: int)

  /** The counters at the start of a game. */
  const Initial: Stats := Stats(0, 1, 1000)

  /**
   * The tick interval in milliseconds while at `level`: 1000 at level 1, and
   * 1000 - 50 * level after a level-up, with no lower bound.
   */
  function IntervalFor(level: int): (ms: int)
    ensures 1 <= level < 20 ==> 0 < ms <= 1000
    ensures 20 <= level ==> ms <= 0
  {
    if level == 1 then 1000 else 1000 - 50 * level
  }

  /**
   * The counters agree with each other: the score is a non-negative multiple of
   * 100, the level is one more than the number of whole thousands scored, and the
   * interval is the one for that level.
   */
  predicate Consistent(st: Stats) {
    st.score >= 0 && st.score % 100 == 0 && st.level == 1 + st.score / 1000 &&
    st.interval == IntervalFor(st.level)
  }

  /**
   * One cleared row: 100 more points, and when the new score is a multiple of 1000
   * the level goes up by one and the timer restarts at 1000 - 50 * level.
   */
  function Award(st: Stats): (st': Stats)
    ensures st'.score == st.score + 100
    ensures Consistent(st) ==> Consistent(st')
    ensures Consistent(st) ==> st'.level == st.level + (if st'.score % 1000 == 0 then 1 else 0)
  {
    var score := st.score + 100;
    if score % 1000 == 0 then Stats(score, st.level + 1, 1000 - (st.level + 1) * 50)
    else Stats(score, st.level, st.interval)
  }

  /** `n` cleared rows, awarded one after the other. */
  function AwardN(st: Stats, n: nat): (st': Stats)
    ensures st'.score == st.score + 100 * n
    ensures Consistent(st) ==> Consistent(st')
  {
    if n == 0 then st else Award(AwardN(st, n - 1))
  }
}
