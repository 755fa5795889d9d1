/** Places where the engine, as written, leaves the grid, the dirty map or
    the argument queue. Each is stated here as the code does it, with an
    input that shows the fault; the rest of the model uses the corrected
    definition named beside it. */
module Findings {
  import opened Cells
  import opened Parsing
  import opened Csi
  import opened Screen
  import opened Tagging

  /** The result of an access the code makes: a value, or an index outside
      the storage it reads or writes. */
  datatype Access<T> = Done(value: T) | OutOfBounds

  // ---------------------------------------------------------------------
  // HT: the tab target is not kept inside the row
  // ---------------------------------------------------------------------

  /** HT as written: the next multiple of 8, whatever the row width. */
  function TabStopAsWritten(x: int): (r: int)
    requires x >= 0
    ensures r > x && r % 8 == 0
  {
    (x / 8 + 1) * 8
  }

  /** On a row whose width is a multiple of 8, a tab from the slack column
      (where the cursor rests after writing the last column with autowrap
      on) lands 8 cells past it, outside the row array of `columns + 1`
      cells that the next write indexes; the corrected stop stays put. */
  lemma TabFromSlackColumn(columns: int)
    requires columns >= 8 && columns % 8 == 0
    ensures TabStopAsWritten(columns) == columns + 8
    ensures TabStopAsWritten(columns) > columns + 1
    ensures TabStop(columns, columns) == columns
  {
    assert columns == (columns / 8) * 8;
  }

  // ---------------------------------------------------------------------
  // DECRC: nothing saved yet
  // ---------------------------------------------------------------------

  /** DECRC as written: the saved position, even when none was saved. */
  function RestoreAsWritten(c: Cursor): (r: Cursor)
    ensures r.x == c.savedX && r.y == c.savedY
  {
    c.(x := c.savedX, y := c.savedY)
  }

  /** Before any DECSC the saved position is (-1, -1): ESC 8 puts the
      cursor outside the grid, where the next write lands. The corrected
      restore keeps it. */
  lemma RestoreBeforeSave(c: Cursor, rows: int, columns: int)
    requires CursorInside(c, rows, columns) && c.savedX == -1 && c.savedY == -1
    ensures !CursorInside(RestoreAsWritten(c), rows, columns)
    ensures Restored(c) == c
  {
  }

  // ---------------------------------------------------------------------
  // DECSTBM: parameters are not kept inside the screen
  // ---------------------------------------------------------------------

  /** DECSTBM as written: the two parameters, ordered and made 0-based,
      without any bound. */
  function DecstbmAsWritten(args: seq<int>, begin: int, end: int, rows: int): (region: (int, int))
    ensures |args| == 2 ==> region.0 <= region.1
  {
    if args == [] then (0, rows - 1)
    else if |args| == 2 then
      if args[0] > args[1] then (args[1] - 1, args[0] - 1) else (args[0] - 1, args[1] - 1)
    else (begin, end)
  }

  /** `ESC [ 0 ; 0 r` makes the region top row -1, where the cursor is then
      sent; `ESC [ 1 ; 99 r` on a 24-row screen puts the region bottom past
      the last row. The corrected region stays inside. */
  lemma DecstbmOutside()
    ensures DecstbmAsWritten([0, 0], 0, 23, 24) == (-1, -1)
    ensures DecstbmAsWritten([1, 99], 0, 23, 24) == (0, 98)
    ensures Decstbm([0, 0], 0, 23, 24) == (0, 0)
    ensures Decstbm([1, 99], 0, 23, 24) == (0, 23)
  {
  }

  // ---------------------------------------------------------------------
  // Writing at the slack column without autowrap
  // ---------------------------------------------------------------------

  /** The column setByteUnderCursor writes at, as written: column 0 of the
      next row from the slack column with autowrap, the cursor column in
      every other case. */
  function WriteColumnAsWritten(x: int, columns: int, autowrap: bool): (w: int)
    ensures !autowrap ==> w == x
  {
    if x == columns && autowrap then 0 else x
  }

  /** With autowrap off, three bytes written from the last visible column:
      the second goes into the slack cell (whose dirty index is the next
      row's first) and the third past the row array of `columns + 1` cells.
      The corrected column stays on the last visible one. */
  lemma NoWrapWritesPastRow(columns: int)
    requires columns >= 1
    ensures var first := WriteColumnAsWritten(columns - 1, columns, false);
            var second := WriteColumnAsWritten(first + 1, columns, false);
            var third := WriteColumnAsWritten(second + 1, columns, false);
            second == columns && third == columns + 1
    ensures WriteColumn(columns, columns, false) == columns - 1
  {
  }

  // ---------------------------------------------------------------------
  // ICH: the cleared span is not kept inside the row
  // ---------------------------------------------------------------------

  /** The last column ICH clears, as written: `n` cells from the cursor. */
  function IchClearEndAsWritten(x: int, n: int): (e: int)
    ensures e - x + 1 == n
  {
    x + n - 1
  }

  /** `ESC [ 3 @` with the cursor on the last visible column clears up to
      column `columns + 1`, past the row array of `columns + 1` cells. The
      corrected ICH touches nothing beyond the visible columns. */
  lemma IchClearsPastRow(row: seq<Cell>, columns: int, blank: Cell)
    requires columns >= 1 && |row| == columns + 1
    ensures IchClearEndAsWritten(columns - 1, 3) == columns + 1 == |row|
    ensures InsertChars(row, columns - 1, 3, columns, blank)[columns] == row[columns]
  {
  }

  // ---------------------------------------------------------------------
  // ED 1 / EL 1 from the slack column
  // ---------------------------------------------------------------------

  /** The last dirty-map index `clearRow(y, 0, x)` marks, as written. */
  function EraseToCursorIndexAsWritten(y: int, x: int, columns: int): (k: int)
    ensures 0 <= x < columns ==> y * columns <= k < (y + 1) * columns
    ensures x == columns ==> k == (y + 1) * columns
  {
    y * columns + x
  }

  /** On the last row with the cursor on the slack column (after writing the
      last column with autowrap on), `ESC [ 1 J` or `ESC [ 1 K` marks index
      `rows * columns`, one past the dirty map. The corrected erase stops at
      the last visible column. */
  lemma EraseToSlackPastMap(g: seq<seq<Cell>>, rows: int, columns: int, blank: Cell)
    requires rows >= 1 && columns >= 1 && |g| == rows && Rectangular(g, columns + 1)
    ensures EraseToCursorIndexAsWritten(rows - 1, columns, columns) == rows * columns
    ensures EraseAbove(g, rows - 1, columns, columns, blank)[rows - 1][columns] == g[rows - 1][columns]
  {
    assert (rows - 1) * columns + columns == rows * columns;
  }

  // ---------------------------------------------------------------------
  // IL / DL with the cursor below the region
  // ---------------------------------------------------------------------

  /** One pass of IL's loop on row references, as written. */
  function InsertLinePassAsWritten(refs: seq<int>, y: int, e: int): (r: seq<int>)
    requires 0 <= y < |refs| && 0 <= e < |refs|
    ensures |r| == |refs|
  {
    var moved := seq(|refs|, k requires 0 <= k < |refs| => if y < k <= e then refs[k - 1] else refs[k]);
    moved[y := refs[e]]
  }

  /** One pass of DL's loop on row references, as written. */
  function DeleteLinePassAsWritten(refs: seq<int>, y: int, e: int): (r: seq<int>)
    requires 0 <= y < |refs| && 0 <= e < |refs|
    ensures |r| == |refs|
  {
    var moved := seq(|refs|, k requires 0 <= k < |refs| => if y <= k < e then refs[k + 1] else refs[k]);
    moved[e := refs[y]]
  }

  /** With the cursor below the scroll region, one IL or DL pass makes two
      rows share one array and loses the array of the other. The corrected
      IL and DL leave the grid alone there. */
  lemma LinesBelowRegionAlias(refs: seq<int>, y: int, e: int)
    requires 0 <= e < y < |refs|
    requires forall a, b :: 0 <= a < b < |refs| ==> refs[a] != refs[b]
    ensures InsertLinePassAsWritten(refs, y, e)[y] == InsertLinePassAsWritten(refs, y, e)[e]
    ensures refs[y] !in InsertLinePassAsWritten(refs, y, e)
    ensures DeleteLinePassAsWritten(refs, y, e)[y] == DeleteLinePassAsWritten(refs, y, e)[e]
    ensures refs[e] !in DeleteLinePassAsWritten(refs, y, e)
  {
    var r := InsertLinePassAsWritten(refs, y, e);
    forall k | 0 <= k < |r| ensures r[k] != refs[y] {
      if k != y {
        assert r[k] == refs[k];
      }
    }
    var d := DeleteLinePassAsWritten(refs, y, e);
    forall k | 0 <= k < |d| ensures d[k] != refs[e] {
      if k != e {
        assert d[k] == refs[k];
      }
    }
  }

  // ---------------------------------------------------------------------
  // BS inside a control sequence
  // ---------------------------------------------------------------------

  /** BS in a control sequence as written: the queue head is taken whenever
      a parameter is pending, also from an empty queue. */
  function ControlBackspaceAsWritten(p: Parser): (r: Access<Parser>)
    ensures r == OutOfBounds <==> p.csBuf != [] && p.csArg == []
  {
    if p.csBuf == [] then Done(p)
    else if p.csArg == [] then OutOfBounds
    else Done(p.(csArg := p.csArg[1..]))
  }

  /** `ESC [ 5 BS`: one digit is pending and nothing is queued, so the byte
      takes from an empty queue. The corrected BS leaves the parser as it
      is. */
  lemma BackspaceOnEmptyQueue()
    ensures var p := ParamStep(Parser(Control, [], [], 0), '5' as int);
            ControlBackspaceAsWritten(p) == OutOfBounds && ControlBackspace(p) == p
  {
  }

  // ---------------------------------------------------------------------
  // The url prefix test reads past the row
  // ---------------------------------------------------------------------

  /** The prefix comparison of updateUrlStateForRow as written, from
      character `s` of the protocol on: it stops at the first mismatch, but
      nothing stops it at the end of the row. */
  function PrefixAtAsWritten(row: seq<Cell>, i: int, p: string, s: nat): (r: Access<bool>)
    requires 0 <= i
    ensures r == OutOfBounds ==> |row| < i + |p|
    ensures i + |p| <= |row| ==> r == Done(forall t :: s <= t < |p| ==> row[i + t].byte == p[t] as int)
    decreases |p| - s
  {
    if s >= |p| then Done(true)
    else if i + s >= |row| then OutOfBounds
    else if row[i + s].byte != p[s] as int then Done(false)
    else PrefixAtAsWritten(row, i, p, s + 1)
  }

  /** With `h` in the last visible column and `t` in the slack cell (put
      there by a write without autowrap, see above), the test for "http://"
      reads the cell after the slack one, outside the row. The corrected
      test matches nothing there. */
  lemma PrefixReadsPastRow(row: seq<Cell>, columns: int)
    requires columns >= 1 && |row| == columns + 1
    requires row[columns - 1].byte == 'h' as int && row[columns].byte == 't' as int
    ensures PrefixAtAsWritten(row, columns - 1, "http://", 0) == OutOfBounds
    ensures !PrefixAt(row, columns - 1, "http://")
  {
    assert "http://"[0] == 'h' && "http://"[1] == 't';
    assert PrefixAtAsWritten(row, columns - 1, "http://", 2) == OutOfBounds;
  }

  // ---------------------------------------------------------------------
  // Relative motion in 32-bit arithmetic
  // ---------------------------------------------------------------------

  /** CUD as written, in the source's 32-bit signed arithmetic. */
  function CursorDownAsWritten(y: int, n: int, originRelative: bool, end: int, rows: int): (r: int)
    requires 0 <= y + n
    ensures y + n < TwoTo31 && 0 <= end < rows ==> 0 <= r < rows
  {
    var t := AsInt32((y + n) % TwoTo32);
    if originRelative && t > end then end
    else if t >= rows then rows - 1
    else t
  }

  /** `ESC [ 2147483647 B` on row 1: the sum wraps to -2^31, passes both
      bounds tests and becomes the cursor row. The corrected motion, in
      unbounded arithmetic, stops at the last row. */
  lemma CursorDownWraps(rows: int)
    requires 2 <= rows <= TwoTo31
    ensures CursorDownAsWritten(1, TwoTo31 - 1, false, rows - 1, rows) == -TwoTo31
    ensures CursorDown(1, TwoTo31 - 1, false, rows - 1, rows) == rows - 1
  {
  }
}
