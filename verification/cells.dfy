/** Cells, attributes and the row-level edits the terminal performs on them.
    A row is a `seq<Cell>` of `columns + 1` cells: the last one is the slack
    cell the cursor may rest on after the last visible column. */
module Cells {

  type Byte = b: int | 0 <= b < 256

  /** Colour indices of the default rendition (foreground 7, background 9). */
  const DefaultFg: int := 7
  const DefaultBg: int := 9

  /** Double-byte tags stored in a cell's attribute. */
  const NotDouble: int := 0
  const LeadByte: int := 1
  const TrailByte: int := 2

  /** The packed `CellAttribute` of the source, as a record. */
  datatype Attr = Attr(fg: int, bg: int, bright: bool, underlined: bool,
                       blinking: bool, reversed: bool, isUrl: bool, doubleByte: int)

  datatype Cell = Cell(byte: Byte, attr: Attr)

  /** The attribute every cleared cell starts from. */
  const EmptyAttr: Attr := Attr(DefaultFg, DefaultBg, false, false, false, false, false, NotDouble)

  /** The current rendition: what a written byte is stamped with. */
  datatype Pen = Pen(fg: int, bg: int, bright: bool, underlined: bool, blinking: bool, reversed: bool)

  const DefaultPen: Pen := Pen(DefaultFg, DefaultBg, false, false, false, false)

  /** A cell cleared by `clearRow`: no byte, empty attribute with the current
      background and reverse flag. */
  function Blank(bg: int, reversed: bool): (c: Cell)
    ensures c.byte == 0 && !c.attr.isUrl && c.attr.doubleByte == NotDouble
    ensures c.attr.bg == bg && c.attr.reversed == reversed && c.attr.fg == DefaultFg
  {
    Cell(0, EmptyAttr.(bg := bg, reversed := reversed))
  }

  /** A cell written with byte `b` under the rendition `pen`; the double-byte
      tag of the overwritten cell is kept and the url flag is cleared. */
  function Stamp(prev: Cell, b: Byte, pen: Pen): (c: Cell)
    ensures c.byte == b && !c.attr.isUrl && c.attr.doubleByte == prev.attr.doubleByte
    ensures c.attr.fg == pen.fg && c.attr.bg == pen.bg && c.attr.bright == pen.bright
    ensures c.attr.underlined == pen.underlined && c.attr.blinking == pen.blinking
    ensures c.attr.reversed == pen.reversed
  {
    Cell(b, prev.attr.(fg := pen.fg, bg := pen.bg, bright := pen.bright,
                       underlined := pen.underlined, blinking := pen.blinking,
                       reversed := pen.reversed, isUrl := false))
  }

  /** Columns `s..e` of `row` replaced by `blank`; the other cells kept. */
  function ClearSpan(row: seq<Cell>, s: int, e: int, blank: Cell): (r: seq<Cell>)
    ensures |r| == |row|
  {
    seq(|row|, x requires 0 <= x < |row| => if s <= x <= e then blank else row[x])
  }

  /** Clearing a span blanks exactly the columns `s..e` and keeps the rest. */
  lemma ClearSpanCells(row: seq<Cell>, s: int, e: int, blank: Cell)
    ensures forall x :: 0 <= x < |row| && s <= x <= e ==> ClearSpan(row, s, e, blank)[x] == blank
    ensures forall x :: 0 <= x < |row| && (x < s || e < x) ==> ClearSpan(row, s, e, blank)[x] == row[x]
  {
  }

  /** Insert mode: cells `at..last-1` move one place right, the cell at `last`
      is dropped, the cell at `at` is left for the caller to overwrite. */
  function ShiftRight(row: seq<Cell>, at: int, last: int): (r: seq<Cell>)
    ensures |r| == |row|
  {
    seq(|row|, x requires 0 <= x < |row| => if at < x <= last && x - 1 >= 0 then row[x - 1] else row[x])
  }

  /** Insert mode keeps the cells up to `at` and past `last` and moves the
      ones in between one place right. */
  lemma ShiftRightCells(row: seq<Cell>, at: int, last: int)
    ensures forall x :: 0 <= x < |row| && (x <= at || last < x) ==> ShiftRight(row, at, last)[x] == row[x]
    ensures forall x :: 0 < x < |row| && at < x <= last ==> ShiftRight(row, at, last)[x] == row[x - 1]
  {
  }

  /** ICH: cells from `at` move `n` places right within `0..last`; the ones
      pushed past `last` are lost. The vacated span is cleared separately. */
  function ShiftRightBy(row: seq<Cell>, at: int, n: int, last: int): (r: seq<Cell>)
    ensures |r| == |row|
  {
    seq(|row|, x requires 0 <= x < |row| =>
      if at + n - 1 < x <= last && 0 <= x - n < |row| then row[x - n] else row[x])
  }

  /** ICH moves the cells from `at` right by `n`, as far as `last` and the
      end of the row allow. */
  lemma ShiftRightByMoves(row: seq<Cell>, at: int, n: int, last: int)
    ensures forall x :: 0 <= x < |row| && (x < at + n || last < x) ==> ShiftRightBy(row, at, n, last)[x] == row[x]
    ensures forall w :: 0 <= n && 0 <= at <= w && w + n <= last && w + n < |row| ==>
              ShiftRightBy(row, at, n, last)[w + n] == row[w]
  {
    forall w | 0 <= n && 0 <= at <= w && w + n <= last && w + n < |row|
      ensures ShiftRightBy(row, at, n, last)[w + n] == row[w]
    {
      var x := w + n;
      assert x - n == w;
    }
  }

  /** DCH: cells from `at + n` move `n` places left; the last `n` visible
      cells become `blank`. */
  function DeleteChars(row: seq<Cell>, at: int, n: int, last: int, blank: Cell): (r: seq<Cell>)
    ensures |r| == |row|
  {
    seq(|row|, x requires 0 <= x < |row| =>
      if at <= x <= last then (if x <= last - n && 0 <= x + n < |row| then row[x + n] else blank) else row[x])
  }

  /** DCH keeps the cells outside `at..last`, moves the survivors `n` places
      left and fills the last `n` cells of the span with `blank`. */
  lemma DeleteCharsCells(row: seq<Cell>, at: int, n: int, last: int, blank: Cell)
    ensures forall x :: 0 <= x < |row| && (x < at || last < x) ==> DeleteChars(row, at, n, last, blank)[x] == row[x]
    ensures forall x :: 0 <= x < |row| && 0 <= n && x + n < |row| && at <= x <= last - n ==>
              DeleteChars(row, at, n, last, blank)[x] == row[x + n]
    ensures forall x :: 0 <= x < |row| && at <= x <= last && last - n < x ==> DeleteChars(row, at, n, last, blank)[x] == blank
  {
  }

  /** Swap foreground and background of every cell before column `limit`. */
  function SwapColours(row: seq<Cell>, limit: int): (r: seq<Cell>)
    ensures |r| == |row|
  {
    seq(|row|, x requires 0 <= x < |row| =>
      if x < limit then row[x].(attr := row[x].attr.(fg := row[x].attr.bg, bg := row[x].attr.fg))
      else row[x])
  }

  /** Before `limit` each cell has its colours exchanged and keeps its byte
      and every other attribute; from `limit` on the cells are kept. */
  lemma SwapColoursCells(row: seq<Cell>, limit: int)
    ensures forall x :: 0 <= x < |row| && x < limit ==>
              var c := SwapColours(row, limit)[x];
              c.byte == row[x].byte && c.attr.fg == row[x].attr.bg && c.attr.bg == row[x].attr.fg &&
              c.attr.(fg := row[x].attr.fg, bg := row[x].attr.bg) == row[x].attr
    ensures forall x :: 0 <= x < |row| && limit <= x ==> SwapColours(row, limit)[x] == row[x]
  {
  }

  /** Scroll up inside `[b, e]`: rows move up by one and `entering` enters at `e`. */
  function ScrollUp(grid: seq<seq<Cell>>, b: int, e: int, entering: seq<Cell>): (r: seq<seq<Cell>>)
    requires 0 <= b <= e < |grid|
    ensures |r| == |grid|
    ensures forall y :: 0 <= y < |grid| && (y < b || y > e) ==> r[y] == grid[y]
    ensures forall y :: b <= y < e ==> r[y] == grid[y + 1]
    ensures r[e] == entering
  {
    grid[..b] + grid[b + 1..e + 1] + [entering] + grid[e + 1..]
  }

  /** Scroll down inside `[b, e]`: rows move down by one and `entering` enters at `b`. */
  function ScrollDown(grid: seq<seq<Cell>>, b: int, e: int, entering: seq<Cell>): (r: seq<seq<Cell>>)
    requires 0 <= b <= e < |grid|
    ensures |r| == |grid|
    ensures forall y :: 0 <= y < |grid| && (y < b || y > e) ==> r[y] == grid[y]
    ensures forall y :: b < y <= e ==> r[y] == grid[y - 1]
    ensures r[b] == entering
  {
    grid[..b] + [entering] + grid[b..e] + grid[e + 1..]
  }

  /** A grid whose rows all have `width` cells. */
  ghost predicate Rectangular(grid: seq<seq<Cell>>, width: int)
  {
    forall y :: 0 <= y < |grid| ==> |grid[y]| == width
  }

  /** Scrolling one way and then the other with the row that left restores
      the grid: the rotation loses no row and duplicates none. */
  lemma {:induction false} ScrollUpThenDown(grid: seq<seq<Cell>>, b: int, e: int)
    requires 0 <= b <= e < |grid|
    ensures ScrollDown(ScrollUp(grid, b, e, grid[b]), b, e, grid[b]) == grid
  {
    var up := ScrollUp(grid, b, e, grid[b]);
    var down := ScrollDown(up, b, e, grid[b]);
    assert |down| == |grid|;
    forall y | 0 <= y < |grid| ensures down[y] == grid[y] {
      if b < y <= e {
        assert down[y] == up[y - 1];
      }
    }
  }

  /** The row that leaves a region scrolled up does not matter: only the
      entering row is seen. */
  lemma ScrollUpIgnoresLeaving(grid: seq<seq<Cell>>, b: int, e: int, row: seq<Cell>, entering: seq<Cell>)
    requires 0 <= b <= e < |grid|
    ensures ScrollUp(grid[b := row], b, e, entering) == ScrollUp(grid, b, e, entering)
  {
    assert grid[b := row][..b] == grid[..b];
    assert grid[b := row][b + 1..e + 1] == grid[b + 1..e + 1];
    assert grid[b := row][e + 1..] == grid[e + 1..];
  }

  /** Likewise for a region scrolled down. */
  lemma ScrollDownIgnoresLeaving(grid: seq<seq<Cell>>, b: int, e: int, row: seq<Cell>, entering: seq<Cell>)
    requires 0 <= b <= e < |grid|
    ensures ScrollDown(grid[e := row], b, e, entering) == ScrollDown(grid, b, e, entering)
  {
    assert grid[e := row][..b] == grid[..b];
    assert grid[e := row][b..e] == grid[b..e];
    assert grid[e := row][e + 1..] == grid[e + 1..];
  }
}
