/** The grid as a value: the cursor record, the edits the terminal makes to
    whole rows and to the row table (scrolling, inserting and deleting
    lines, erasing, writing one byte) as functions, and what each edit does
    to the cells, stated once for all grids. The terminal class is proved
    to perform exactly these edits. */
module Screen {
  import opened Cells
  import opened Parsing

  /** The cursor, the saved cursor, the scroll region and whether the
      cursor last moved down by wrapping. */
  datatype Cursor = Cursor(x: int, y: int, savedX: int, savedY: int,
                           scrollBegin: int, scrollEnd: int, wrapped: bool)

  /** What the engine tells the view: the scroll callbacks, the bell and the
      end of a batch. */
  datatype ViewEvent = ExtendBottom(begin: int, end: int) | ExtendTop(begin: int, end: int)
                     | Beep | DataProcessed

  /** The cursor inside the grid (column `columns` being the slack cell),
      the saved cursor unset or inside the grid, and an ordered region. */
  ghost predicate CursorInside(c: Cursor, rows: int, columns: int)
  {
    0 <= c.x <= columns && 0 <= c.y < rows &&
    ((c.savedX == -1 && c.savedY == -1) || (0 <= c.savedX <= columns && 0 <= c.savedY < rows)) &&
    0 <= c.scrollBegin <= c.scrollEnd < rows
  }

  /** DECRC and RCP: the saved position when one was saved, otherwise the
      cursor unchanged (see the finding on DECRC). */
  function Restored(c: Cursor): (r: Cursor)
    ensures r.savedX == c.savedX && r.savedY == c.savedY && r.wrapped == c.wrapped
    ensures r.scrollBegin == c.scrollBegin && r.scrollEnd == c.scrollEnd
    ensures c.savedX >= 0 && c.savedY >= 0 ==> r.x == c.savedX && r.y == c.savedY
    ensures c.savedX < 0 || c.savedY < 0 ==> r == c
  {
    if c.savedX >= 0 && c.savedY >= 0 then c.(x := c.savedX, y := c.savedY) else c
  }

  /** Restoring keeps the cursor inside the grid. */
  lemma RestoredInside(c: Cursor, rows: int, columns: int)
    requires CursorInside(c, rows, columns)
    ensures CursorInside(Restored(c), rows, columns)
  {
  }

  /** Saving and then restoring gives back the position saved. */
  lemma SaveThenRestore(c: Cursor, rows: int, columns: int)
    requires CursorInside(c, rows, columns)
    ensures Restored(c.(savedX := c.x, savedY := c.y)) == c.(savedX := c.x, savedY := c.y)
  {
  }

  /** Every visible cell of `row` (the first `columns`) is `blank`. */
  ghost predicate BlankRow(row: seq<Cell>, columns: int, blank: Cell)
  {
    forall x :: 0 <= x < columns && x < |row| ==> row[x] == blank
  }

  // ---------------------------------------------------------------------
  // Whole-screen edits
  // ---------------------------------------------------------------------

  /** The column the source uses for "no such position". */
  const PositionNotFound: int := -1

  /** clearRow's end column: PositionNotFound stands for the last visible
      column. */
  function SpanEnd(e: int, columns: int): (r: int)
    ensures e != PositionNotFound ==> r == e
    ensures e == PositionNotFound ==> r == columns - 1
  {
    if e == PositionNotFound then columns - 1 else e
  }

  /** Every visible cell of every row cleared (clearAll's loop). */
  function ClearedGrid(g: seq<seq<Cell>>, columns: int, blank: Cell): (r: seq<seq<Cell>>)
    ensures |r| == |g|
    ensures forall y :: 0 <= y < |g| ==> |r[y]| == |g[y]| && BlankRow(r[y], columns, blank)
    ensures forall y, x :: 0 <= y < |g| && 0 <= columns <= x < |g[y]| ==> r[y][x] == g[y][x]
  {
    seq(|g|, y requires 0 <= y < |g| => ClearSpan(g[y], 0, columns - 1, blank))
  }

  /** The cell DECALN fills the screen with. */
  const AlignmentCell: Cell := Cell('E' as int, EmptyAttr)

  /** DECALN: every visible cell of every row but the last becomes an `E`
      with the empty attribute; the last row and the slack cells are left
      as they are. */
  function AlignmentGrid(g: seq<seq<Cell>>, columns: int): (r: seq<seq<Cell>>)
    ensures |r| == |g|
    ensures forall y :: 0 <= y < |g| - 1 ==> |r[y]| == |g[y]| && BlankRow(r[y], columns, AlignmentCell)
    ensures forall y, x :: 0 <= y < |g| - 1 && 0 <= columns <= x < |g[y]| ==> r[y][x] == g[y][x]
    ensures |g| > 0 ==> r[|g| - 1] == g[|g| - 1]
  {
    seq(|g|, y requires 0 <= y < |g| =>
      if y < |g| - 1 then ClearSpan(g[y], 0, columns - 1, AlignmentCell) else g[y])
  }

  /** Foreground and background swapped in every row up to its last
      column (reverseAll's loop). */
  function SwappedGrid(g: seq<seq<Cell>>, columns: int): (r: seq<seq<Cell>>)
    ensures |r| == |g|
    ensures forall y :: 0 <= y < |g| ==> |r[y]| == |g[y]|
    ensures forall y, x :: 0 <= y < |g| && 0 <= x < |g[y]| ==>
              r[y][x].byte == g[y][x].byte && r[y][x].attr.isUrl == g[y][x].attr.isUrl
    ensures forall y, x :: 0 <= y < |g| && 0 <= x < columns - 1 && x < |g[y]| ==>
              r[y][x].attr.fg == g[y][x].attr.bg && r[y][x].attr.bg == g[y][x].attr.fg
    ensures forall y, x :: 0 <= y < |g| && columns - 1 <= x < |g[y]| && 0 <= x ==> r[y][x] == g[y][x]
  {
    seq(|g|, y requires 0 <= y < |g| => SwapColours(g[y], columns - 1))
  }

  /** Swapping the colours twice gives every cell back. */
  lemma SwapTwice(g: seq<seq<Cell>>, columns: int)
    ensures SwappedGrid(SwappedGrid(g, columns), columns) == g
  {
    var twice := SwappedGrid(SwappedGrid(g, columns), columns);
    forall y | 0 <= y < |g| ensures twice[y] == g[y] {
      assert forall x :: 0 <= x < |g[y]| ==> twice[y][x] == g[y][x];
    }
  }

  // ---------------------------------------------------------------------
  // One row down / up
  // ---------------------------------------------------------------------

  /** The grid after goOneRowDown: at the region bottom the region scrolls
      up, the row leaving at the top re-entering cleared at the bottom;
      elsewhere the grid is unchanged. */
  function DownGrid(g: seq<seq<Cell>>, c: Cursor, columns: int, blank: Cell): (r: seq<seq<Cell>>)
    requires 0 <= c.scrollBegin <= c.scrollEnd < |g|
    ensures |r| == |g|
    ensures c.y != c.scrollEnd ==> r == g
    ensures forall y :: 0 <= y < |g| && (y < c.scrollBegin || c.scrollEnd < y) ==> r[y] == g[y]
    ensures c.y == c.scrollEnd ==>
              (forall y :: c.scrollBegin <= y < c.scrollEnd ==> r[y] == g[y + 1]) &&
              |r[c.scrollEnd]| == |g[c.scrollBegin]| && BlankRow(r[c.scrollEnd], columns, blank)
  {
    if c.y == c.scrollEnd then
      ScrollUp(g, c.scrollBegin, c.scrollEnd, ClearSpan(g[c.scrollBegin], 0, columns - 1, blank))
    else g
  }

  /** The grid after goOneRowUp (the mirror image of DownGrid). */
  function UpGrid(g: seq<seq<Cell>>, c: Cursor, columns: int, blank: Cell): (r: seq<seq<Cell>>)
    requires 0 <= c.scrollBegin <= c.scrollEnd < |g|
    ensures |r| == |g|
    ensures c.y != c.scrollBegin ==> r == g
    ensures forall y :: 0 <= y < |g| && (y < c.scrollBegin || c.scrollEnd < y) ==> r[y] == g[y]
    ensures c.y == c.scrollBegin ==>
              (forall y :: c.scrollBegin < y <= c.scrollEnd ==> r[y] == g[y - 1]) &&
              |r[c.scrollBegin]| == |g[c.scrollEnd]| && BlankRow(r[c.scrollBegin], columns, blank)
  {
    if c.y == c.scrollBegin then
      ScrollDown(g, c.scrollBegin, c.scrollEnd, ClearSpan(g[c.scrollEnd], 0, columns - 1, blank))
    else g
  }

  /** The cursor row after goOneRowDown. */
  function DownY(c: Cursor, rows: int): (y: int)
    requires 0 <= c.y < rows
    ensures 0 <= y < rows
    ensures c.y == c.scrollEnd ==> y == c.y
    ensures c.y != c.scrollEnd && c.y < rows - 1 ==> y == c.y + 1
  {
    if c.y == c.scrollEnd then c.y else if c.y + 1 >= rows then rows - 1 else c.y + 1
  }

  /** The cursor row after goOneRowUp. */
  function UpY(c: Cursor): (y: int)
    requires 0 <= c.y
    ensures 0 <= y <= c.y
    ensures c.y != c.scrollBegin && c.y > 0 ==> y == c.y - 1
  {
    if c.y == c.scrollBegin then c.y else if c.y - 1 < 0 then 0 else c.y - 1
  }

  /** The view callback of goOneRowDown: only when the region scrolls and
      the caller asks for it. */
  function DownEvents(c: Cursor, updateView: bool): (ev: seq<ViewEvent>)
    ensures |ev| <= 1
  {
    if c.y == c.scrollEnd && updateView then [ExtendBottom(c.scrollBegin, c.scrollEnd)] else []
  }

  /** The view callback of goOneRowUp. */
  function UpEvents(c: Cursor, updateView: bool): (ev: seq<ViewEvent>)
    ensures |ev| <= 1
  {
    if c.y == c.scrollBegin && updateView then [ExtendTop(c.scrollBegin, c.scrollEnd)] else []
  }

  /** A scroll up of the region (a line feed on its bottom row) followed by
      a scroll down (a reverse index on its top row) gives back every row
      except the top one, which comes back blank: only the row that left
      the region is lost. */
  lemma DownThenUp(g: seq<seq<Cell>>, c: Cursor, columns: int, blank: Cell)
    requires 0 <= c.scrollBegin <= c.scrollEnd < |g| && c.y == c.scrollEnd
    ensures var up := UpGrid(DownGrid(g, c, columns, blank), c.(y := c.scrollBegin), columns, blank);
            (forall y :: 0 <= y < |g| && y != c.scrollBegin ==> up[y] == g[y]) &&
            BlankRow(up[c.scrollBegin], columns, blank)
  {
  }

  // ---------------------------------------------------------------------
  // Cursor columns
  // ---------------------------------------------------------------------

  /** The column setByteUnderCursor writes at: the cursor column inside the
      row; from the slack column, column 0 of the next row with autowrap and
      the last column without it (see the finding on writes at the slack
      column). */
  function WriteColumn(x: int, columns: int, autowrap: bool): (w: int)
    requires 0 <= x <= columns && columns >= 1
    ensures 0 <= w < columns
    ensures x < columns ==> w == x
  {
    if x < columns then x else if autowrap then 0 else columns - 1
  }

  /** The column a backspace moves to from column `x > 0`: one to the left,
      two from the slack column when autowrap is on. */
  function BackspaceColumn(x: int, columns: int, autowrap: bool): (w: int)
    ensures 0 < x < columns ==> w == x - 1
    ensures 0 < x <= columns && columns >= 2 ==> 0 <= w < columns && x - 2 <= w < x
    ensures x == columns && columns >= 2 ==> (w == columns - 2 <==> autowrap)
  {
    if x == columns && autowrap then x - 2 else x - 1
  }

  /** A backspace after writing a byte returns to the written cell, except
      after a write into the last column with autowrap on, which leaves the
      cursor on the slack column so that the backspace lands one further
      left. */
  lemma BackspaceAfterWrite(x: int, columns: int, autowrap: bool)
    requires 0 <= x < columns && columns >= 2
    ensures x < columns - 1 || !autowrap ==>
              BackspaceColumn(WriteColumn(x, columns, autowrap) + 1, columns, autowrap) == x
    ensures x == columns - 1 && autowrap ==>
              BackspaceColumn(WriteColumn(x, columns, autowrap) + 1, columns, autowrap) == x - 1
  {
  }

  /** The horizontal tab target: the next multiple of 8, kept at most at the
      slack column (see the finding on HT). */
  function TabStop(x: int, columns: int): (r: int)
    ensures 0 <= x ==> r <= columns && (r == columns || r % 8 == 0)
  {
    var stop := (x / 8 + 1) * 8;
    if stop > columns then columns else stop
  }

  /** The tab target is the first multiple of 8 to the right of the cursor,
      or the slack column when there is none before it. */
  lemma TabStopIsNext(x: int, columns: int)
    requires 0 <= x <= columns
    ensures 0 <= TabStop(x, columns) <= columns
    ensures x < columns ==> x < TabStop(x, columns)
    ensures TabStop(x, columns) % 8 == 0 || TabStop(x, columns) == columns
    ensures forall m :: x < m < TabStop(x, columns) ==> m % 8 != 0
  {
    var stop := (x / 8 + 1) * 8;
    assert x / 8 * 8 <= x < stop && stop == x / 8 * 8 + 8;
    forall m | x < m < stop ensures m % 8 != 0 {
      assert m / 8 == x / 8;
    }
  }

  lemma {:induction false} MulAtLeast(a: int, c: int)
    requires a >= 1 && c >= 0
    ensures a * c >= c
  {
    if a > 1 {
      MulAtLeast(a - 1, c);
      assert a * c == (a - 1) * c + c;
    }
  }

  /** `y * columns + x` stays inside the dirty map for cells inside the grid. */
  lemma IndexBound(y: int, x: int, rows: int, columns: int)
    requires 0 <= y < rows && 0 <= x <= columns && columns >= 1
    ensures 0 <= y * columns + x <= rows * columns
    ensures x < columns ==> y * columns + x < rows * columns
    ensures y < rows - 1 ==> y * columns + x < rows * columns
  {
    assert y * columns + columns == (y + 1) * columns;
    assert (y + 1) * columns <= rows * columns by {
      assert rows * columns == (y + 1) * columns + (rows - (y + 1)) * columns;
    }
    if y < rows - 1 {
      assert rows * columns == (y + 2) * columns + (rows - (y + 2)) * columns;
    }
  }

  /** `a * c` grows with `a` for a non-negative `c`: the start of a lower
      row has a larger dirty-map index. */
  lemma MulMonotone(a: int, b: int, c: int)
    requires 0 <= a <= b && c >= 0
    ensures a * c <= b * c
  {
    if a < b {
      MulAtLeast(b - a, c);
      assert b * c == a * c + (b - a) * c;
    }
  }

  // ---------------------------------------------------------------------
  // Writing one byte
  // ---------------------------------------------------------------------

  /** setByteUnderCursor wraps to the next row before writing: the cursor
      rests on the slack column and autowrap is on. */
  predicate WrapsBeforeWrite(c: Cursor, columns: int, m: Modes)
  {
    c.x == columns && m.autowrap
  }

  /** The row setByteUnderCursor writes on. */
  function WriteRow(c: Cursor, rows: int, columns: int, m: Modes): (y: int)
    requires 0 <= c.y < rows
    ensures 0 <= y < rows
  {
    if WrapsBeforeWrite(c, columns, m) then DownY(c, rows) else c.y
  }

  /** The cursor after setByteUnderCursor: one column right of the written
      cell, on the row written, remembering a wrap. */
  function CursorAfterWrite(c: Cursor, rows: int, columns: int, m: Modes): (d: Cursor)
    requires 0 <= c.x <= columns && 0 <= c.y < rows && columns >= 1
    ensures 1 <= d.x <= columns && d.y == WriteRow(c, rows, columns, m)
    ensures d.x == WriteColumn(c.x, columns, m.autowrap) + 1
    ensures d.savedX == c.savedX && d.savedY == c.savedY
    ensures d.scrollBegin == c.scrollBegin && d.scrollEnd == c.scrollEnd
  {
    var wraps := WrapsBeforeWrite(c, columns, m);
    c.(x := WriteColumn(c.x, columns, m.autowrap) + 1, y := WriteRow(c, rows, columns, m),
       wrapped := c.wrapped || wraps)
  }

  /** The grid after setByteUnderCursor writes byte `b` with `pen`: the
      wrap's scroll if any, then in insert mode the shift of the rest of the
      row, then the stamped cell. */
  ghost function GridAfterWrite(g: seq<seq<Cell>>, c: Cursor, columns: int, m: Modes,
                                pen: Pen, blank: Cell, b: Byte): (r: seq<seq<Cell>>)
    requires CursorInside(c, |g|, columns) && columns >= 1 && Rectangular(g, columns + 1)
    ensures |r| == |g|
  {
    var g1 := if WrapsBeforeWrite(c, columns, m) then DownGrid(g, c, columns, blank) else g;
    var y1 := WriteRow(c, |g|, columns, m);
    var x1 := WriteColumn(c.x, columns, m.autowrap);
    var row := if m.irm && c.x < columns then ShiftRight(g1[y1], x1, columns - 1) else g1[y1];
    g1[y1 := row[x1 := Stamp(row[x1], b, pen)]]
  }

  /** The dirty bits setByteUnderCursor sets: all of them when the wrap
      scrolls, else the written cell and, in insert mode, every cell after
      it up to the last column. */
  ghost predicate DirtyAfterWrite(k: int, c: Cursor, rows: int, columns: int, m: Modes)
    requires 0 <= c.x <= columns && 0 <= c.y < rows && columns >= 1
  {
    var y1 := WriteRow(c, rows, columns, m);
    var x1 := WriteColumn(c.x, columns, m.autowrap);
    var last := if m.irm && c.x < columns then columns - 1 else x1;
    (WrapsBeforeWrite(c, columns, m) && c.y == c.scrollEnd) ||
    y1 * columns + x1 <= k <= y1 * columns + last
  }

  /** The written cell carries the byte and the rendition and is not part of
      a URL; the cursor lands just right of it. */
  lemma WriteStamps(g: seq<seq<Cell>>, c: Cursor, columns: int, m: Modes, pen: Pen, blank: Cell, b: Byte)
    requires CursorInside(c, |g|, columns) && columns >= 1 && Rectangular(g, columns + 1)
    ensures var d := CursorAfterWrite(c, |g|, columns, m);
            var cell := GridAfterWrite(g, c, columns, m, pen, blank, b)[d.y][d.x - 1];
            cell.byte == b && !cell.attr.isUrl && cell.attr.fg == pen.fg && cell.attr.bg == pen.bg &&
            cell.attr.bright == pen.bright && cell.attr.underlined == pen.underlined &&
            cell.attr.blinking == pen.blinking && cell.attr.reversed == pen.reversed
  {
  }

  /** Outside insert mode and away from the slack column, writing changes
      exactly one cell: the one under the cursor. */
  lemma WriteTouchesOneCell(g: seq<seq<Cell>>, c: Cursor, columns: int, m: Modes, pen: Pen,
                            blank: Cell, b: Byte, y: int, x: int)
    requires CursorInside(c, |g|, columns) && columns >= 1 && Rectangular(g, columns + 1)
    requires !m.irm && c.x < columns
    requires 0 <= y < |g| && 0 <= x <= columns && (y, x) != (c.y, c.x)
    ensures GridAfterWrite(g, c, columns, m, pen, blank, b)[y][x] == g[y][x]
  {
  }

  /** In insert mode the cells right of the cursor are the old ones moved one
      place right, up to the last visible column; the slack cell stays. */
  lemma WriteInsertShifts(g: seq<seq<Cell>>, c: Cursor, columns: int, m: Modes, pen: Pen,
                          blank: Cell, b: Byte, x: int)
    requires CursorInside(c, |g|, columns) && columns >= 1 && Rectangular(g, columns + 1)
    requires m.irm && c.x < columns && c.x < x < columns
    ensures GridAfterWrite(g, c, columns, m, pen, blank, b)[c.y][x] == g[c.y][x - 1]
    ensures GridAfterWrite(g, c, columns, m, pen, blank, b)[c.y][columns] == g[c.y][columns]
  {
  }

  // ---------------------------------------------------------------------
  // Insert and delete lines
  // ---------------------------------------------------------------------

  /** IL: `n` times, the row at `e` is cleared and enters at `y` while rows
      `y..e-1` move down one place. */
  function InsertLines(g: seq<seq<Cell>>, y: int, e: int, n: nat, columns: int, blank: Cell): (r: seq<seq<Cell>>)
    requires 0 <= y <= e < |g|
    ensures |r| == |g|
    decreases n
  {
    if n == 0 then g
    else
      var h := InsertLines(g, y, e, n - 1, columns, blank);
      ScrollDown(h, y, e, ClearSpan(h[e], 0, columns - 1, blank))
  }

  /** DL: `n` times, the row at `y` is cleared and enters at `e` while rows
      `y+1..e` move up one place. */
  function DeleteLines(g: seq<seq<Cell>>, y: int, e: int, n: nat, columns: int, blank: Cell): (r: seq<seq<Cell>>)
    requires 0 <= y <= e < |g|
    ensures |r| == |g|
    decreases n
  {
    if n == 0 then g
    else
      var h := DeleteLines(g, y, e, n - 1, columns, blank);
      ScrollUp(h, y, e, ClearSpan(h[y], 0, columns - 1, blank))
  }

  /** Inserting `n` lines at `y`: rows outside `y..e` stay, row `r` of
      `y+n..e` is the old row `r-n`, and the first `n` rows from `y` (at most
      up to `e`) are blank; the rows pushed past `e` are gone. */
  lemma {:induction false} InsertLinesShape(g: seq<seq<Cell>>, y: int, e: int, n: nat, columns: int, blank: Cell)
    requires 0 <= y <= e < |g|
    ensures forall z :: 0 <= z < |g| && (z < y || z > e) ==> InsertLines(g, y, e, n, columns, blank)[z] == g[z]
    ensures forall z :: y + n <= z <= e ==> InsertLines(g, y, e, n, columns, blank)[z] == g[z - n]
    ensures forall z :: y <= z <= e && z < y + n ==> BlankRow(InsertLines(g, y, e, n, columns, blank)[z], columns, blank)
    decreases n
  {
    if n > 0 {
      InsertLinesShape(g, y, e, n - 1, columns, blank);
      var h := InsertLines(g, y, e, n - 1, columns, blank);
      var r := InsertLines(g, y, e, n, columns, blank);
      assert r == ScrollDown(h, y, e, ClearSpan(h[e], 0, columns - 1, blank));
      forall z | y + n <= z <= e ensures r[z] == g[z - n] {
        var w := z - 1;
        assert y + (n - 1) <= w <= e;
        assert r[z] == h[w] == g[w - (n - 1)];
      }
      forall z | y < z <= e && z < y + n ensures BlankRow(r[z], columns, blank) {
        var w := z - 1;
        assert y <= w <= e && w < y + (n - 1);
        assert r[z] == h[w];
      }
    }
  }

  /** Deleting `n` lines at `y`: rows outside `y..e` stay, row `r` of
      `y..e-n` is the old row `r+n`, and the last `n` rows of the region (at
      most down to `y`) are blank. */
  lemma DeleteLinesShape(g: seq<seq<Cell>>, y: int, e: int, n: nat, columns: int, blank: Cell)
    requires 0 <= y <= e < |g|
    ensures forall z :: 0 <= z < |g| && (z < y || z > e) ==> DeleteLines(g, y, e, n, columns, blank)[z] == g[z]
    ensures forall z :: y <= z <= e - n ==> DeleteLines(g, y, e, n, columns, blank)[z] == g[z + n]
    ensures forall z :: y <= z <= e && z > e - n ==> BlankRow(DeleteLines(g, y, e, n, columns, blank)[z], columns, blank)
  {
    DeleteLinesMoved(g, y, e, n, columns, blank);
    DeleteLinesBlank(g, y, e, n, columns, blank);
  }

  lemma {:induction false} DeleteLinesMoved(g: seq<seq<Cell>>, y: int, e: int, n: nat, columns: int, blank: Cell)
    requires 0 <= y <= e < |g|
    ensures forall z :: 0 <= z < |g| && (z < y || z > e) ==> DeleteLines(g, y, e, n, columns, blank)[z] == g[z]
    ensures forall z :: y <= z <= e - n ==> DeleteLines(g, y, e, n, columns, blank)[z] == g[z + n]
    decreases n
  {
    if n > 0 {
      DeleteLinesMoved(g, y, e, n - 1, columns, blank);
      var h := DeleteLines(g, y, e, n - 1, columns, blank);
      var r := DeleteLines(g, y, e, n, columns, blank);
      assert r == ScrollUp(h, y, e, ClearSpan(h[y], 0, columns - 1, blank));
      forall z | y <= z <= e - n ensures r[z] == g[z + n] {
        var w := z + 1;
        assert y <= w <= e - (n - 1);
        assert r[z] == h[w] == g[w + (n - 1)];
      }
    }
  }

  lemma {:induction false} DeleteLinesBlank(g: seq<seq<Cell>>, y: int, e: int, n: nat, columns: int, blank: Cell)
    requires 0 <= y <= e < |g|
    ensures forall z :: y <= z <= e && z > e - n ==> BlankRow(DeleteLines(g, y, e, n, columns, blank)[z], columns, blank)
    decreases n
  {
    if n > 0 {
      DeleteLinesBlank(g, y, e, n - 1, columns, blank);
      var h := DeleteLines(g, y, e, n - 1, columns, blank);
      var r := DeleteLines(g, y, e, n, columns, blank);
      assert r == ScrollUp(h, y, e, ClearSpan(h[y], 0, columns - 1, blank));
      forall z | y <= z < e && z > e - n ensures BlankRow(r[z], columns, blank) {
        var w := z + 1;
        assert y <= w <= e && w > e - (n - 1);
        assert r[z] == h[w];
      }
    }
  }

  /** Deleting the lines just inserted at the same row gives back the rows
      that were pushed down and leaves the rows outside the region alone;
      only the `n` rows that fell off the region bottom are lost (they come
      back blank). */
  lemma InsertThenDeleteLines(g: seq<seq<Cell>>, y: int, e: int, n: nat, columns: int, blank: Cell)
    requires 0 <= y <= e < |g|
    ensures var r := DeleteLines(InsertLines(g, y, e, n, columns, blank), y, e, n, columns, blank);
            (forall z :: 0 <= z < |g| && (z < y || z > e - n) && (z < y || z > e) ==> r[z] == g[z]) &&
            (forall z :: y <= z <= e - n ==> r[z] == g[z]) &&
            (forall z :: y <= z <= e && z > e - n ==> BlankRow(r[z], columns, blank))
  {
    InsertLinesShape(g, y, e, n, columns, blank);
    DeleteLinesShape(InsertLines(g, y, e, n, columns, blank), y, e, n, columns, blank);
  }

  // ---------------------------------------------------------------------
  // Erasing
  // ---------------------------------------------------------------------

  /** ED 0: the cursor row from column `x` on and every row below it
      cleared. */
  function EraseBelow(g: seq<seq<Cell>>, y: int, x: int, columns: int, blank: Cell): (r: seq<seq<Cell>>)
    ensures |r| == |g|
    ensures forall z :: 0 <= z < |g| ==> |r[z]| == |g[z]|
    ensures forall z :: 0 <= z < |g| && z < y ==> r[z] == g[z]
    ensures forall z :: 0 <= z < |g| && y < z ==> BlankRow(r[z], columns, blank)
    ensures forall z, w :: 0 <= z < |g| && 0 <= w && columns <= w < |g[z]| ==> r[z][w] == g[z][w]
  {
    seq(|g|, z requires 0 <= z < |g| =>
      if z == y then ClearSpan(g[z], x, columns - 1, blank)
      else if z > y then ClearSpan(g[z], 0, columns - 1, blank)
      else g[z])
  }

  /** ED 1: every row above the cursor row and the cursor row up to column
      `x` (at most the last visible column) cleared. */
  function EraseAbove(g: seq<seq<Cell>>, y: int, x: int, columns: int, blank: Cell): (r: seq<seq<Cell>>)
    ensures |r| == |g|
    ensures forall z :: 0 <= z < |g| ==> |r[z]| == |g[z]|
    ensures forall z, w :: 0 <= z < |g| && 0 <= w && columns <= w < |g[z]| ==> r[z][w] == g[z][w]
  {
    seq(|g|, z requires 0 <= z < |g| =>
      if z == y then ClearSpan(g[z], 0, if x < columns then x else columns - 1, blank)
      else if z < y then ClearSpan(g[z], 0, columns - 1, blank)
      else g[z])
  }

  /** ED 0 clears exactly the visible cells at or after the cursor in
      reading order, and ED 1 exactly those at or before it. */
  lemma EraseCells(g: seq<seq<Cell>>, y: int, x: int, columns: int, blank: Cell, z: int, w: int)
    requires 0 <= z < |g| && 0 <= w < |g[z]| && 0 <= x <= columns
    ensures EraseBelow(g, y, x, columns, blank)[z][w] ==
            if w < columns && (z > y || (z == y && w >= x)) then blank else g[z][w]
    ensures EraseAbove(g, y, x, columns, blank)[z][w] ==
            if w < columns && (z < y || (z == y && w <= x)) then blank else g[z][w]
  {
  }

  /** ED 0 followed by ED 1 at the same cursor clears the whole screen, as
      ED 2's clear does. */
  lemma EraseBelowThenAbove(g: seq<seq<Cell>>, y: int, x: int, columns: int, blank: Cell)
    requires 0 <= x <= columns
    ensures EraseAbove(EraseBelow(g, y, x, columns, blank), y, x, columns, blank) ==
            ClearedGrid(g, columns, blank)
  {
    var r := EraseAbove(EraseBelow(g, y, x, columns, blank), y, x, columns, blank);
    var c := ClearedGrid(g, columns, blank);
    forall z | 0 <= z < |g| ensures r[z] == c[z] {
      assert |r[z]| == |c[z]|;
      forall w | 0 <= w < |g[z]| ensures r[z][w] == c[z][w] {
        EraseCells(g, y, x, columns, blank, z, w);
        EraseCells(EraseBelow(g, y, x, columns, blank), y, x, columns, blank, z, w);
      }
    }
  }

  // ---------------------------------------------------------------------
  // Insert and delete characters
  // ---------------------------------------------------------------------

  /** ICH: cells from `at` move `n` places right (those pushed past the last
      visible column are lost) and the `n` cells from `at` (at most up to
      the last visible column, see the finding on ICH) are cleared. */
  function InsertChars(row: seq<Cell>, at: int, n: int, columns: int, blank: Cell): (r: seq<Cell>)
    ensures |r| == |row|
    ensures forall w :: 0 <= w && columns <= w < |row| ==> r[w] == row[w]
  {
    ClearSpan(ShiftRightBy(row, at, n, columns - 1), at,
              if at + n - 1 < columns - 1 then at + n - 1 else columns - 1, blank)
  }

  /** DCH after ICH with the same count at the same column gives back the
      cells that were pushed right and had room to stay; the `n` cells at
      the end of the row come back as DCH's blank. Cells before the cursor
      and the slack cell are never touched. */
  lemma InsertThenDeleteChars(row: seq<Cell>, at: int, n: int, columns: int, b1: Cell, b2: Cell)
    requires 0 <= at < columns <= |row| - 1 && n >= 1
    ensures var r := DeleteChars(InsertChars(row, at, n, columns, b1), at, n, columns - 1, b2);
            |r| == |row| &&
            (forall x :: 0 <= x < at ==> r[x] == row[x]) &&
            (forall x :: at <= x <= columns - 1 - n ==> r[x] == row[x]) &&
            (forall x :: at <= x <= columns - 1 && x > columns - 1 - n ==> r[x] == b2) &&
            (forall x :: columns <= x < |row| ==> r[x] == row[x])
  {
  }

  /** DCH: the cells that remain are the ones after the deleted span, in
      order, and the number of blanks entering at the end is the count
      (at most the cells from the cursor on). */
  lemma DeleteCharsShape(row: seq<Cell>, at: int, n: int, columns: int, blank: Cell)
    requires 0 <= at < columns < |row| && n >= 1
    ensures var r := DeleteChars(row, at, n, columns - 1, blank);
            r[..at] == row[..at] && r[columns..] == row[columns..] &&
            (at + n <= columns ==> r[at..columns - n] == row[at + n..columns]) &&
            (forall x :: at <= x < columns && x >= columns - n ==> r[x] == blank)
  {
    var r := DeleteChars(row, at, n, columns - 1, blank);
    if at + n <= columns {
      forall i | at <= i < columns - n ensures r[i] == row[i + n] {
      }
      assert r[at..columns - n] == row[at + n..columns];
    }
  }
}
