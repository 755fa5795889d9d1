/** The view's integer helpers around the terminal: pixel points to cell
    indices and back, the control character a key chord types, the bytes a
    jump key sends, the selected range and the word selected by a double
    click. Pixel sizes, key codes and modifier flags are parameters. */
module View {
  import opened Cells
  import opened Parsing
  import opened Screen
  import opened Reading
  import Term

  datatype Option<T> = None | Some(value: T)

  // ---------------------------------------------------------------------
  // Points and indices
  // ---------------------------------------------------------------------

  /** `v` kept inside `[0, hi]`. */
  function Clamp(v: int, hi: int): (r: int)
    requires hi >= 0
    ensures 0 <= r <= hi
    ensures 0 <= v <= hi ==> r == v
  {
    if v >= hi then hi else if v < 0 then 0 else v
  }

  /** A coordinate inside `[0, n * size)` lies in cell `v / size`, which is
      below `n`. */
  lemma CellOfCoordinate(v: int, n: int, size: int)
    requires n >= 1 && size >= 1 && 0 <= v < n * size
    ensures 0 <= v / size < n
    ensures (v / size) * size <= v < (v / size) * size + size
  {
    if v / size >= n {
      MulMonotone(n, v / size, size);
      assert false;
    }
  }

  /** indexFromPoint: the point is first kept inside the view (one pixel
      short of its right and bottom edges), then the index of the cell
      under it is returned, row-major. */
  function IndexFromPoint(px: int, py: int, rows: int, columns: int, cellWidth: int, cellHeight: int): (i: int)
    requires rows >= 1 && columns >= 1 && cellWidth >= 1 && cellHeight >= 1
    ensures 0 <= i < rows * columns
    ensures 0 <= px < columns * cellWidth && 0 <= py < rows * cellHeight ==>
              (i % columns) * cellWidth <= px < (i % columns) * cellWidth + cellWidth &&
              (i / columns) * cellHeight <= py < (i / columns) * cellHeight + cellHeight
  {
    var x := Clamp(px, columns * cellWidth - 1);
    var y := Clamp(py, rows * cellHeight - 1);
    CellOfCoordinate(x, columns, cellWidth);
    CellOfCoordinate(y, rows, cellHeight);
    IndexBound(y / cellHeight, x / cellWidth, rows, columns);
    RowColumnOf(y / cellHeight, x / cellWidth, columns);
    (y / cellHeight) * columns + x / cellWidth
  }

  /** pointFromIndex: the top-left pixel of cell column `x`, row `y`, each
      first kept inside `[0, columns]` and `[0, rows]` (one past the last
      cell is allowed). */
  function PointFromIndex(x: int, y: int, rows: int, columns: int, cellWidth: int, cellHeight: int): (p: (int, int))
    requires rows >= 1 && columns >= 1 && cellWidth >= 1 && cellHeight >= 1
    ensures 0 <= p.0 <= columns * cellWidth && 0 <= p.1 <= rows * cellHeight
    ensures 0 <= x <= columns ==> p.0 == x * cellWidth
    ensures 0 <= y <= rows ==> p.1 == y * cellHeight
  {
    var cx := Clamp(x, columns);
    var cy := Clamp(y, rows);
    MulMonotone(cx, columns, cellWidth);
    MulMonotone(cy, rows, cellHeight);
    (cx * cellWidth, cy * cellHeight)
  }

  /** The top-left pixel of a visible cell maps back to that cell. */
  lemma PointRoundTrip(x: int, y: int, rows: int, columns: int, cellWidth: int, cellHeight: int)
    requires rows >= 1 && columns >= 1 && cellWidth >= 1 && cellHeight >= 1
    requires 0 <= x < columns && 0 <= y < rows
    ensures var p := PointFromIndex(x, y, rows, columns, cellWidth, cellHeight);
            IndexFromPoint(p.0, p.1, rows, columns, cellWidth, cellHeight) == y * columns + x
  {
    var p := PointFromIndex(x, y, rows, columns, cellWidth, cellHeight);
    MulMonotone(x + 1, columns, cellWidth);
    MulMonotone(y + 1, rows, cellHeight);
    assert p.0 < columns * cellWidth && p.1 < rows * cellHeight;
    RowColumnOf(x, 0, cellWidth);
    RowColumnOf(y, 0, cellHeight);
    assert p.0 / cellWidth == x && p.1 / cellHeight == y;
  }

  // ---------------------------------------------------------------------
  // Keys
  // ---------------------------------------------------------------------

  const KeyTwo: int := 0x32
  const KeySix: int := 0x36
  const KeyMinus: int := 0x2d
  const KeySlash: int := 0x2f
  const KeyQuestion: int := 0x3f
  const KeyAt: int := 0x40
  const KeyAsciiCircum: int := 0x5e
  const KeyUnderscore: int := 0x5f
  const KeyHome: int := 0x0100_0010
  const KeyEnd: int := 0x0100_0011
  const KeyPageUp: int := 0x0100_0016
  const KeyPageDown: int := 0x0100_0017

  /** characterFromKeyPress: without Control nothing is typed. With Shift,
      2, 6, `-` and `/` stand for `@`, `^`, `_` and `?`. A key from `@` to
      `_` then types the control character `key - '@'`; any other key types
      nothing. The flag says whether a character was typed. */
  function CharacterFromKeyPress(key: int, control: bool, shift: bool): (r: (int, bool))
    ensures !control ==> r == (0, false)
    ensures r.1 ==> 0 <= r.0 <= 31
    ensures !r.1 ==> r.0 == 0
    ensures control && !shift ==> (r.1 <==> KeyAt <= key <= KeyUnderscore)
    ensures control && !shift && r.1 ==> r.0 == key - KeyAt
    ensures control && shift && key == KeyTwo ==> r == (0, true)
    ensures control && shift && key == KeySix ==> r == (0x1e, true)
    ensures control && shift && key == KeyMinus ==> r == (0x1f, true)
    ensures control && shift && key == KeySlash ==> r == (0, false)
  {
    if !control then (0, false)
    else
      var k := if !shift then key
               else if key == KeyTwo then KeyAt
               else if key == KeySix then KeyAsciiCircum
               else if key == KeyMinus then KeyUnderscore
               else if key == KeySlash then KeyQuestion
               else key;
      if k < KeyAt || k > KeyUnderscore then (0, false)
      else (k - KeyAt, true)
  }

  /** Every control character 0 to 31 is typed by exactly one key with
      Control held: the one `@` places before it. */
  lemma ControlCharactersTyped(code: int, key: int)
    requires 0 <= code <= 31
    ensures CharacterFromKeyPress(KeyAt + code, true, false) == (code, true)
    ensures CharacterFromKeyPress(key, true, false) == (code, true) ==> key == KeyAt + code
  {
  }

  /** The digit handleJumpKey puts between `ESC [` and `~`, if the key is
      one of the four jump keys. */
  function JumpDigit(key: int): (d: Option<Byte>)
    ensures d != None ==> d.value in {'1' as int, '4' as int, '5' as int, '6' as int}
  {
    if key == KeyPageUp then Some('5' as int)
    else if key == KeyPageDown then Some('6' as int)
    else if key == KeyHome then Some('1' as int)
    else if key == KeyEnd then Some('4' as int)
    else None
  }

  /** handleJumpKey: the bytes sent for a key, nothing for a key that is not
      PageUp, PageDown, Home or End. */
  function JumpKeyBytes(key: int): (bytes: seq<Byte>)
    ensures key == KeyPageUp ==> bytes == [ESC, '[' as int, '5' as int, '~' as int]
    ensures key == KeyPageDown ==> bytes == [ESC, '[' as int, '6' as int, '~' as int]
    ensures key == KeyHome ==> bytes == [ESC, '[' as int, '1' as int, '~' as int]
    ensures key == KeyEnd ==> bytes == [ESC, '[' as int, '4' as int, '~' as int]
    ensures key != KeyPageUp && key != KeyPageDown && key != KeyHome && key != KeyEnd ==> bytes == []
  {
    match JumpDigit(key)
    case None => []
    case Some(d) => [ESC, '[' as int, d, '~' as int]
  }

  /** The four jump keys send four different sequences, each a complete
      control sequence: a terminal fed one comes back to its ground state. */
  lemma JumpKeysDistinct(k1: int, k2: int)
    requires JumpKeyBytes(k1) != [] && JumpKeyBytes(k2) != []
    ensures JumpKeyBytes(k1) == JumpKeyBytes(k2) <==> k1 == k2
    ensures StateAfter(Normal, JumpKeyBytes(k1)) == Normal
  {
    var b := JumpKeyBytes(k1);
    assert StateAfter(Normal, b) == StateAfter(Escape, b[1..]);
    assert StateAfter(Escape, b[1..]) == StateAfter(Control, b[2..]);
    assert StateAfter(Control, b[2..]) == StateAfter(Control, b[3..]);
    assert StateAfter(Control, b[3..]) == StateAfter(Normal, b[4..]);
    if JumpKeyBytes(k1) == JumpKeyBytes(k2) {
      assert JumpKeyBytes(k1)[2] == JumpKeyBytes(k2)[2];
    }
  }

  // ---------------------------------------------------------------------
  // Selection
  // ---------------------------------------------------------------------

  /** The range `selection` hands to stringFromIndex: none for an empty or
      unset selection; a selection made backwards (negative length) is
      turned into the same cells counted forwards. */
  function SelectionRange(start: int, length: int): (r: Option<(int, int)>)
    ensures r == None <==> length == 0 || start == PositionNotFound
    ensures r != None ==> r.value.1 > 0
    ensures r != None && length > 0 ==> r.value == (start, length)
    ensures r != None && length < 0 ==> r.value.0 + r.value.1 == start && r.value.1 == -length
  {
    if length == 0 || start == PositionNotFound then None
    else if length < 0 then Some((start + length, 0 - length))
    else Some((start, length))
  }

  /** Selecting the same cells forwards or backwards gives the same range. */
  lemma SelectionEitherWay(start: int, length: int)
    requires length > 0 && start != PositionNotFound && start + length != PositionNotFound
    ensures SelectionRange(start + length, -length) == SelectionRange(start, length)
  {
  }

  /** A cell a double click selects: alphanumeric by the site's test
      `isAlphanumeric` and not half of a double-byte character. */
  predicate WordCell(c: Cell, isAlphanumeric: Byte -> bool)
  {
    isAlphanumeric(c.byte) && c.attr.doubleByte == NotDouble
  }

  /** The first column of the run of word cells ending at column `c` (one
      past `c` when the cell at `c` is not a word cell). */
  function WordStart(row: seq<Cell>, c: int, isAlphanumeric: Byte -> bool): (s: int)
    requires -1 <= c < |row|
    ensures 0 <= s <= c + 1
    ensures forall k :: s <= k <= c ==> WordCell(row[k], isAlphanumeric)
    ensures s == 0 || !WordCell(row[s - 1], isAlphanumeric)
    decreases c + 1
  {
    if c >= 0 && WordCell(row[c], isAlphanumeric) then WordStart(row, c - 1, isAlphanumeric) else c + 1
  }

  /** One past the last column of the run of word cells from column `c`,
      stopping at `columns`. */
  function WordEnd(row: seq<Cell>, c: int, columns: int, isAlphanumeric: Byte -> bool): (e: int)
    requires 0 <= c <= columns <= |row|
    ensures c <= e <= columns
    ensures forall k :: c <= k < e ==> WordCell(row[k], isAlphanumeric)
    ensures e == columns || !WordCell(row[e], isAlphanumeric)
    decreases columns - c
  {
    if c < columns && WordCell(row[c], isAlphanumeric) then WordEnd(row, c + 1, columns, isAlphanumeric) else c
  }

  /** A clicked word cell lies inside the word selected around it, and that
      word cannot be widened on either side. */
  lemma WordAroundIsMaximal(row: seq<Cell>, c: int, columns: int, isAlphanumeric: Byte -> bool)
    requires 0 <= c < columns <= |row| && WordCell(row[c], isAlphanumeric)
    ensures var s := WordStart(row, c, isAlphanumeric);
            var e := WordEnd(row, s, columns, isAlphanumeric);
            s <= c < e &&
            (forall k :: s <= k < e ==> WordCell(row[k], isAlphanumeric)) &&
            (s == 0 || !WordCell(row[s - 1], isAlphanumeric)) &&
            (e == columns || !WordCell(row[e], isAlphanumeric))
  {
    var s := WordStart(row, c, isAlphanumeric);
    WordEndPast(row, s, c, columns, isAlphanumeric);
  }

  /** The run from `s` reaches past every word cell it starts with. */
  lemma {:induction false} WordEndPast(row: seq<Cell>, s: int, c: int, columns: int, isAlphanumeric: Byte -> bool)
    requires 0 <= s <= c < columns <= |row|
    requires forall k :: s <= k <= c ==> WordCell(row[k], isAlphanumeric)
    ensures WordEnd(row, s, columns, isAlphanumeric) > c
    decreases c - s
  {
    if s < c {
      WordEndPast(row, s + 1, c, columns, isAlphanumeric);
    }
  }

  /** The selection state of the view. */
  class ViewPrivate {
    var selectedStart: int
    var selectedLength: int

    /** No selection yet. */
    constructor ()
      ensures selectedStart == PositionNotFound && selectedLength == 0
    {
      selectedStart := PositionNotFound;
      selectedLength := 0;
    }

    /** selectWordAround: walking left from the clicked column while cells
        are word cells, the selection start follows to the word's first
        cell; then from that cell the selection length grows by one per word
        cell up to the last visible column. A click on a cell that is not a
        word cell keeps the start and counts the word cells to its right. */
    method SelectWordAround(t: Term.Terminal, r: int, c: int, isAlphanumeric: Byte -> bool)
      requires t.Valid() && 0 <= r < t.rows && 0 <= c < t.columns
      modifies this
      ensures var row := t.cells[r];
              var s := WordStart(row, c, isAlphanumeric);
              selectedStart == (if s <= c then r * t.columns + s else old(selectedStart)) &&
              selectedLength == old(selectedLength) + (WordEnd(row, s, t.columns, isAlphanumeric) - s)
    {
      var row := t.CellsAtRow(r);
      var start := selectedStart;
      var x := c;
      while x >= 0
        invariant -1 <= x <= c
        invariant WordStart(row, x, isAlphanumeric) == WordStart(row, c, isAlphanumeric)
        invariant start == if x < c then r * t.columns + x + 1 else old(selectedStart)
      {
        if WordCell(row[x], isAlphanumeric) {
          start := r * t.columns + x;
        } else {
          break;
        }
        x := x - 1;
      }
      x := x + 1;
      ghost var s := x;
      var length := selectedLength;
      while x < t.columns
        invariant s <= x <= t.columns
        invariant WordEnd(row, x, t.columns, isAlphanumeric) == WordEnd(row, s, t.columns, isAlphanumeric)
        invariant length == old(selectedLength) + (x - s)
      {
        if WordCell(row[x], isAlphanumeric) {
          length := length + 1;
        } else {
          break;
        }
        x := x + 1;
      }
      selectedStart, selectedLength := start, length;
    }

    /** selection: the text of the selected cells, read back by the
        terminal's stringFromIndex; nothing for an empty or unset
        selection. */
    method Selection(t: Term.Terminal, decode: int -> int) returns (s: seq<int>)
      requires t.Valid()
      requires selectedStart != PositionNotFound ==>
                 0 <= selectedStart <= t.rows * t.columns && 0 <= selectedStart + selectedLength <= t.rows * t.columns
      modifies t
      ensures t.Valid() && t.Regs() == old(t.Regs()) && Wide(t.cells, t.columns)
      ensures match SelectionRange(selectedStart, selectedLength)
              case None => s == [] && t.cells == old(t.cells)
              case Some(range) =>
                RetaggedBetween(old(t.cells), t.cells, t.columns, range.0, range.0 + range.1) &&
                s == Text(t.cells, t.columns, range.0, range.1, decode)
    {
      if selectedLength == 0 || selectedStart == PositionNotFound {
        s := [];
        assert Wide(t.cells, t.columns);
        return;
      }
      var start := selectedStart;
      var length := selectedLength;
      if length < 0 {
        start := start + length;
        length := 0 - length;
      }
      s := t.StringFromIndex(start, length, decode);
    }
  }
}
