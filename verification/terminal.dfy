/** The VT100/VT102 engine: a resumable byte parser that edits a grid of
    cells, a parallel dirty map, the cursor, the scroll region and the
    current rendition. Replies to the host and notifications to the view are
    recorded in ghost logs. */
module Term {
  import opened Cells
  import opened Tagging
  import opened Csi
  import opened Parsing
  import opened Screen
  import opened Reading

  /** Every field of the terminal except the grid and the dirty map. */
  datatype Registers = Registers(parser: Parser, cursor: Cursor, hasMessage: bool, pen: Pen,
                                 modes: Modes, sent: seq<seq<Byte>>, events: seq<ViewEvent>)

  /** What the memory of a fresh terminal happens to hold where the source
      reads it before writing it. */
  datatype Uninitialised = Uninitialised(hasWrapped: bool, hasMessage: bool,
                                         bColorIndex: int, reversed: bool, slack: Cell)

  /** The inner loop of updateUrlStateForRow: protocol `p` is spelt out
      from cell `i` on. A cell past the end of the row matches nothing (see
      the finding on the prefix test). */
  method MatchesAt(row: seq<Cell>, i: int, p: string) returns (matched: bool)
    requires 0 <= i && p != []
    ensures matched == PrefixAt(row, i, p)
  {
    matched := true;
    var s := 0;
    while s < |p|
      invariant 0 <= s <= |p|
      invariant forall t :: 0 <= t < s ==> i + t < |row| && row[i + t].byte == p[t] as int
    {
      if i + s >= |row| || row[i + s].byte != p[s] as int {
        matched := false;
        return;
      }
      s := s + 1;
    }
    assert row[i + |p| - 1].byte == p[|p| - 1] as int;
  }

  /** The protocol loop of updateUrlStateForRow: some protocol prefix starts
      at cell `i`. */
  method StartsUrlAt(row: seq<Cell>, i: int) returns (found: bool)
    requires 0 <= i
    ensures found == StartsUrl(row, i)
  {
    found := false;
    var k := 0;
    while k < |Protocols|
      invariant 0 <= k <= |Protocols|
      invariant forall j :: 0 <= j < |Protocols| ==> Protocols[j] != []
      invariant forall j :: 0 <= j < k ==> !PrefixAt(row, i, Protocols[j])
    {
      var matched := MatchesAt(row, i, Protocols[k]);
      if matched {
        found := true;
        return;
      }
      k := k + 1;
    }
  }

  /** One column of updateUrlStateForRow's scan: inside a URL, a byte that
      ends URLs ends it; outside, a protocol prefix starts one. */
  method NextUrlFlag(src: seq<Cell>, seed: bool, i: int, isUrl: bool) returns (next: bool)
    requires 0 <= i < |src|
    requires isUrl == if i == 0 then seed else UrlFlag(seed, src, i - 1)
    ensures next == UrlFlag(seed, src, i)
  {
    next := isUrl;
    if isUrl {
      var b := src[i].byte;
      if b < 0x21 || b > 0x7e || b == ')' as int {
        next := false;
      }
    } else {
      next := StartsUrlAt(src, i);
    }
  }

  class Terminal {
    const rows: int
    const columns: int
    const standard: Standard
    const dirty: array<bool>

    var parser: Parser
    var cursor: Cursor
    var hasMessage: bool
    var pen: Pen
    var cells: seq<seq<Cell>>
    var modes: Modes

    /** Byte strings handed to the connection's sendBytes. */
    ghost var sent: seq<seq<Byte>>
    /** Notifications given to the view. */
    ghost var events: seq<ViewEvent>

    /** The grid shape, the cursor inside the grid, a 32-bit accumulator
        that is zero whenever no digit is pending. */
    ghost predicate Valid()
      reads this
    {
      rows >= 1 && columns >= 2 && dirty.Length == rows * columns &&
      |cells| == rows && Rectangular(cells, columns + 1) &&
      CursorInside(cursor, rows, columns) && 0 <= parser.csTemp < TwoTo32 &&
      (parser.csBuf == [] ==> parser.csTemp == 0)
    }

    ghost function Regs(): Registers
      reads this
    {
      Registers(parser, cursor, hasMessage, pen, modes, sent, events)
    }

    /** The dirty-map index of a cell, as the source computes it. */
    function Idx(y: int, x: int): int
    {
      y * columns + x
    }

    /** The cell clearRow writes under the current rendition. */
    function ClearedCell(): Cell
      reads this
    {
      Blank(pen.bg, pen.reversed)
    }

    constructor (rows: int, columns: int, junk: Uninitialised)
      requires rows >= 1 && columns >= 2
      ensures Valid() && fresh(dirty)
      ensures this.rows == rows && this.columns == columns && standard == VT102
      ensures forall y, x :: 0 <= y < rows && 0 <= x <= columns ==>
                cells[y][x] == if x < columns then Blank(junk.bColorIndex, junk.reversed) else junk.slack
      ensures forall k :: 0 <= k < dirty.Length ==> dirty[k]
      ensures Regs() == Registers(FreshParser, Cursor(0, 0, -1, -1, 0, rows - 1, junk.hasWrapped),
                                  junk.hasMessage, DefaultPen, InitialModes,
                                  [], [])
    {
      this.rows := rows;
      this.columns := columns;
      standard := VT102;
      dirty := new bool[rows * columns];
      cells := seq(rows, y => seq(columns + 1, x => junk.slack));
      parser := FreshParser;
      cursor := Cursor(0, 0, -1, -1, 0, rows - 1, junk.hasWrapped);
      hasMessage := junk.hasMessage;
      pen := DefaultPen.(bg := junk.bColorIndex, reversed := junk.reversed);
      modes := InitialModes;
      sent, events := [], [];
      new;
      ClearAll();
    }

    // -------------------------------------------------------------------
    // Queries and the dirty map
    // -------------------------------------------------------------------

    /** isDiryAt, attributeOfCellAt and cellsAtRow: plain reads. */
    predicate IsDirtyAt(y: int, x: int)
      requires 0 <= Idx(y, x) < dirty.Length
      reads this, dirty
    {
      dirty[Idx(y, x)]
    }

    function AttributeOfCellAt(y: int, x: int): Attr
      requires Valid() && 0 <= y < rows && 0 <= x <= columns
      reads this
    {
      cells[y][x].attr
    }

    function CellsAtRow(y: int): seq<Cell>
      requires Valid() && 0 <= y < rows
      reads this
    {
      cells[y]
    }

    method SetDirtyAt(y: int, x: int, value: bool)
      requires 0 <= Idx(y, x) < dirty.Length
      modifies dirty
      ensures dirty[..] == old(dirty[..])[Idx(y, x) := value]
      ensures IsDirtyAt(y, x) == value
    {
      dirty[Idx(y, x)] := value;
    }

    /** Every index from the start of row `y` to the end of the map. */
    method SetDirtyUnder(y: int, value: bool)
      requires Valid() && 0 <= y
      modifies dirty
      ensures forall k :: 0 <= k < dirty.Length ==>
                dirty[k] == if k >= Idx(y, 0) then value else old(dirty[k])
    {
      var i := y * columns;
      while i < rows * columns
        invariant i >= y * columns
        invariant forall k :: 0 <= k < dirty.Length ==>
                    dirty[k] == if y * columns <= k < i then value else old(dirty[k])
      {
        dirty[i] := value;
        i := i + 1;
      }
    }

    method SetDirtyAll()
      requires Valid()
      modifies dirty
      ensures forall k :: 0 <= k < dirty.Length ==> dirty[k]
    {
      SetDirtyUnder(0, true);
    }

    /** moveCursorTo: both coordinates clamped into the visible grid. */
    method MoveCursorTo(x: int, y: int)
      requires Valid()
      modifies this
      ensures Valid() && cells == old(cells)
      ensures 0 <= cursor.x < columns && 0 <= cursor.y < rows
      ensures Regs() == old(Regs()).(cursor := old(cursor).(x := ClampTo(x, columns), y := ClampTo(y, rows)))
    {
      cursor := cursor.(x := ClampTo(x, columns), y := ClampTo(y, rows));
    }

    /** popLineCount: the head of the argument queue, at least 1, removed;
        1 when the queue is empty. */
    method PopLineCount() returns (n: int)
      requires Valid()
      modifies this
      ensures Valid() && cells == old(cells)
      ensures n == Csi.PopLineCount(old(parser.csArg)).count
      ensures Regs() == old(Regs()).(parser := old(parser).(csArg := Csi.PopLineCount(old(parser.csArg)).rest))
    {
      if parser.csArg == [] {
        n := 1;
      } else {
        var p := parser.csArg[0];
        parser := parser.(csArg := parser.csArg[1..]);
        n := if p > 1 then p else 1;
      }
    }

    // -------------------------------------------------------------------
    // Clearing and reversing
    // -------------------------------------------------------------------

    /** clearRow: columns `s..e` of row `y` (to the last visible column when
        `e` is PositionNotFound) become cleared cells and their dirty indices
        are set; nothing else changes. */
    method ClearRow(y: int, s: int, e: int)
      requires Valid() && 0 <= y < rows && 0 <= s && e <= columns
      requires s <= SpanEnd(e, columns) ==> Idx(y, SpanEnd(e, columns)) < rows * columns
      modifies this, dirty
      ensures Valid() && Regs() == old(Regs())
      ensures cells == old(cells)[y := ClearSpan(old(cells)[y], s, SpanEnd(e, columns), old(ClearedCell()))]
      ensures forall k :: 0 <= k < dirty.Length ==>
                dirty[k] == (old(dirty[k]) || Idx(y, s) <= k <= Idx(y, SpanEnd(e, columns)))
    {
      var last := if e == PositionNotFound then columns - 1 else e;
      FillSpan(y, s, last, ClearedCell());
    }

    /** The column loop shared by clearRow and DECALN: columns `s..e` of row
        `y` become `fill`, each marked dirty. */
    method FillSpan(y: int, s: int, e: int, fill: Cell)
      requires Valid() && 0 <= y < rows && 0 <= s && e <= columns
      requires s <= e ==> Idx(y, e) < rows * columns
      modifies this, dirty
      ensures Valid() && Regs() == old(Regs())
      ensures cells == old(cells)[y := ClearSpan(old(cells)[y], s, e, fill)]
      ensures forall k :: 0 <= k < dirty.Length ==>
                dirty[k] == (old(dirty[k]) || Idx(y, s) <= k <= Idx(y, e))
    {
      var row := cells[y];
      var x := s;
      while x <= e
        modifies dirty
        invariant s <= x <= e + 1 || x == s
        invariant |row| == columns + 1
        invariant forall z :: s <= z < x ==> row[z] == fill
        invariant forall z :: 0 <= z <= columns && (z < s || z >= x) ==> row[z] == cells[y][z]
        invariant forall k :: 0 <= k < dirty.Length ==>
                    dirty[k] == (old(dirty[k]) || Idx(y, s) <= k < Idx(y, x))
      {
        IndexBound(y, x, rows, columns);
        row := row[x := fill];
        dirty[Idx(y, x)] := true;
        x := x + 1;
      }
      assert row == ClearSpan(cells[y], s, e, fill);
      cells := cells[y := row];
    }

    /** clearAll: every visible cell cleared under the rendition in force,
        the whole map dirty, the cursor home, the argument queue and the
        parser reset and the rendition back to the default. */
    method ClearAll()
      requires Valid()
      modifies this, dirty
      ensures Valid()
      ensures cells == ClearedGrid(old(cells), columns, old(ClearedCell()))
      ensures forall k :: 0 <= k < dirty.Length ==> dirty[k]
      ensures Regs() == old(Regs()).(cursor := old(cursor).(x := 0, y := 0), parser := FreshParser,
                                     pen := DefaultPen.(reversed := old(modes.screenReverse)))
    {
      cursor := cursor.(x := 0, y := 0);
      ClearRows(0, rows);
      assert cells == ClearedGrid(old(cells), columns, old(ClearedCell()));
      parser := FreshParser;
      pen := DefaultPen.(reversed := modes.screenReverse);
    }

    /** The whole rows `from..to-1` cleared one after the other, as the row
        loops of clearAll and ED do. */
    method ClearRows(from: int, to: int)
      requires Valid() && 0 <= from <= to <= rows
      modifies this, dirty
      ensures Valid() && Regs() == old(Regs())
      ensures |cells| == rows
      ensures forall r :: 0 <= r < rows ==>
                cells[r] == if from <= r < to then ClearSpan(old(cells)[r], 0, columns - 1, old(ClearedCell())) else old(cells)[r]
      ensures forall k :: 0 <= k < dirty.Length ==> dirty[k] == (old(dirty[k]) || Idx(from, 0) <= k < Idx(to, 0))
    {
      ghost var blank := ClearedCell();
      var y := from;
      while y < to
        invariant from <= y <= to
        invariant Valid() && Regs() == old(Regs())
        invariant forall r :: 0 <= r < rows ==>
                    cells[r] == if from <= r < y then ClearSpan(old(cells)[r], 0, columns - 1, blank) else old(cells)[r]
        invariant forall k :: 0 <= k < dirty.Length ==> dirty[k] == (old(dirty[k]) || Idx(from, 0) <= k < Idx(y, 0))
      {
        IndexBound(y, columns - 1, rows, columns);
        NextRowIndex(y);
        MulMonotone(from, y, columns);
        ClearRow(y, 0, columns - 1);
        y := y + 1;
      }
    }

    /** reverseAll: foreground and background swapped in every cell before
        the last column of each row (the last column is skipped, as in the
        source), each such cell marked dirty. */
    method ReverseAll()
      requires Valid()
      modifies this, dirty
      ensures Valid() && Regs() == old(Regs())
      ensures cells == SwappedGrid(old(cells), columns)
      ensures forall k :: 0 <= k < dirty.Length ==> dirty[k] == (old(dirty[k]) || k % columns < columns - 1)
    {
      var y := 0;
      while y < rows
        invariant 0 <= y <= rows
        invariant Valid() && Regs() == old(Regs())
        invariant forall r :: 0 <= r < rows ==>
                    cells[r] == if r < y then SwapColours(old(cells)[r], columns - 1) else old(cells)[r]
        invariant forall k :: 0 <= k < dirty.Length ==>
                    dirty[k] == (old(dirty[k]) || (k < Idx(y, 0) && k % columns < columns - 1))
      {
        ghost var d0 := dirty[..];
        ReverseRow(y);
        ReverseStep(old(dirty[..]), d0, dirty[..], y, columns);
        y := y + 1;
      }
      assert cells == SwappedGrid(old(cells), columns);
    }

    /** The column loop of reverseAll for row `y`. */
    method ReverseRow(y: int)
      requires Valid() && 0 <= y < rows
      modifies this, dirty
      ensures Valid() && Regs() == old(Regs())
      ensures cells == old(cells)[y := SwapColours(old(cells)[y], columns - 1)]
      ensures forall k :: 0 <= k < dirty.Length ==>
                dirty[k] == (old(dirty[k]) || Idx(y, 0) <= k < Idx(y, columns - 1))
    {
      var row := cells[y];
      var x := 0;
      while x < columns - 1
        modifies dirty
        invariant 0 <= x <= columns - 1
        invariant |row| == columns + 1
        invariant forall z :: 0 <= z < x ==> row[z] == SwapColours(cells[y], columns - 1)[z]
        invariant forall z :: x <= z <= columns ==> row[z] == cells[y][z]
        invariant forall k :: 0 <= k < dirty.Length ==>
                    dirty[k] == (old(dirty[k]) || Idx(y, 0) <= k < Idx(y, x))
      {
        IndexBound(y, x, rows, columns);
        var c := row[x];
        row := row[x := c.(attr := c.attr.(fg := c.attr.bg, bg := c.attr.fg))];
        dirty[Idx(y, x)] := true;
        x := x + 1;
      }
      assert row == SwapColours(cells[y], columns - 1);
      cells := cells[y := row];
    }

    /** A visible cell's dirty index lies in the band of row `y` exactly when
        the cell is on row `y`. */
    lemma RowOfIdx(r: int, x: int, y: int)
      requires columns >= 1 && 0 <= x < columns && 0 <= r && 0 <= y
      ensures (Idx(y, 0) <= Idx(r, x) < Idx(y, 0) + columns) <==> r == y
    {
      if r < y {
        assert (r + 1) * columns <= y * columns by {
          assert y * columns == (r + 1) * columns + (y - r - 1) * columns;
        }
      } else if r > y {
        assert r * columns >= (y + 1) * columns by {
          assert r * columns == (y + 1) * columns + (r - y - 1) * columns;
        }
      }
    }

    /** One row of reverseAll's loop, stated on the map's contents: the band
        of row `y` up to its last column is exactly the part of that row whose
        column is not the last. */
    static lemma {:induction false} ReverseStep(d: seq<bool>, d0: seq<bool>, d1: seq<bool>, y: int, columns: int)
      requires columns >= 1 && 0 <= y && |d| == |d0| == |d1|
      requires forall k :: 0 <= k < |d0| ==> d0[k] == (d[k] || (k < y * columns && k % columns < columns - 1))
      requires forall k :: 0 <= k < |d1| ==> d1[k] == (d0[k] || y * columns <= k < y * columns + columns - 1)
      ensures forall k :: 0 <= k < |d1| ==>
                d1[k] == (d[k] || (k < (y + 1) * columns && k % columns < columns - 1))
    {
      assert (y + 1) * columns == y * columns + columns;
      forall k | y * columns <= k < y * columns + columns {
        ColumnOfIndex(k, y, columns);
      }
    }

    /** An index in the band of row `y` has column `k - y * columns`. */
    static lemma ColumnOfIndex(k: int, y: int, columns: int)
      requires columns >= 1 && 0 <= y && y * columns <= k < y * columns + columns
      ensures k % columns == k - y * columns
    {
      var q, m := k / columns, k % columns;
      assert k == q * columns + m && 0 <= m < columns;
      if q < y {
        MulAtLeast(y - q, columns);
        assert false;
      } else if q > y {
        MulAtLeast(q - y, columns);
        assert false;
      }
    }

    lemma NextRowIndex(y: int)
      ensures Idx(y + 1, 0) == Idx(y, columns - 1) + 1
    {
    }

    // -------------------------------------------------------------------
    // Post-processing
    // -------------------------------------------------------------------

    /** Every visible cell carries the double-byte tag and the url flag its
        row's bytes call for. */
    ghost predicate PostProcessed()
      reads this
    {
      forall y :: 0 <= y < rows ==> RowTagged(cells, y, columns)
    }

    /** updateDoubleByteStateForRow: the lead/trail scan of row `y`, from a
        fresh state at column 0; the map is not touched. */
    method UpdateDoubleByteStateForRow(y: int)
      requires Valid() && 0 <= y < rows
      modifies this
      ensures Valid() && Regs() == old(Regs())
      ensures cells == old(cells)[y := Retag(old(cells)[y], columns)]
    {
      var row := cells[y];
      var db := NotDouble;
      var i := 0;
      while i < columns
        invariant 0 <= i <= columns && |row| == columns + 1
        invariant forall z :: 0 <= z < i ==> row[z] == Retag(cells[y], columns)[z]
        invariant forall z :: i <= z <= columns ==> row[z] == cells[y][z]
        invariant db == if i == 0 then NotDouble else DbState(cells[y], i - 1)
      {
        if db == NotDouble || db == TrailByte {
          db := if row[i].byte > 0x7f then LeadByte else NotDouble;
        } else if db == LeadByte {
          db := TrailByte;
        }
        row := row[i := row[i].(attr := row[i].attr.(doubleByte := db))];
        i := i + 1;
      }
      assert row == Retag(cells[y], columns);
      cells := cells[y := row];
    }

    /** updateUrlStateForRow: the url scan of row `y`, seeded with the flag
        of the last visible cell of the row above; a cell is marked dirty
        exactly when its flag changes. */
    method UpdateUrlStateForRow(y: int)
      requires Valid() && 0 <= y < rows
      modifies this, dirty
      ensures Valid() && Regs() == old(Regs())
      ensures cells == old(cells)[y := Reflag(old(cells)[y], UrlSeed(old(cells), y, columns), columns)]
      ensures forall k :: 0 <= k < dirty.Length ==>
                dirty[k] == (old(dirty[k]) ||
                             (Idx(y, 0) <= k < Idx(y, 0) + columns &&
                              FlagChanges(old(cells)[y], UrlSeed(old(cells), y, columns), k - Idx(y, 0))))
    {
      var seed := false;
      if y > 0 {
        seed := cells[y - 1][columns - 1].attr.isUrl;
      }
      var row := FlagRow(y, cells[y], seed);
      cells := cells[y := row];
    }

    /** Cell `j` of `row` gets a different url flag from the scan. */
    static ghost predicate FlagChanges(row: seq<Cell>, seed: bool, j: int)
      requires 0 <= j < |row|
    {
      row[j].attr.isUrl != UrlFlag(seed, row, j)
    }

    /** One column of updateUrlStateForRow: the cell takes the flag `isUrl`,
        and its dirty bit is set when that changes the cell. */
    method FlagCell(y: int, i: int, row: seq<Cell>, isUrl: bool) returns (row': seq<Cell>)
      requires 0 <= y < rows && 0 <= i < columns && |row| == columns + 1 && dirty.Length == rows * columns
      modifies dirty
      ensures row' == row[i := row[i].(attr := row[i].attr.(isUrl := isUrl))]
      ensures forall k :: 0 <= k < dirty.Length ==> dirty[k] == (old(dirty[k]) || (k == Idx(y, i) && row[i].attr.isUrl != isUrl))
    {
      row' := row;
      if row[i].attr.isUrl != isUrl {
        row' := row[i := row[i].(attr := row[i].attr.(isUrl := isUrl))];
        IndexBound(y, i, rows, columns);
        dirty[Idx(y, i)] := true;
      }
    }

    /** The column loop of updateUrlStateForRow on the row's cells `src`. */
    method FlagRow(y: int, src: seq<Cell>, seed: bool) returns (row: seq<Cell>)
      requires columns >= 1 && 0 <= y < rows && |src| == columns + 1 && dirty.Length == rows * columns
      modifies dirty
      ensures row == Reflag(src, seed, columns)
      ensures forall k :: 0 <= k < dirty.Length ==>
                dirty[k] == (old(dirty[k]) || (Idx(y, 0) <= k < Idx(y, 0) + columns && FlagChanges(src, seed, k - Idx(y, 0))))
    {
      row := src;
      var isUrl := seed;
      var i := 0;
      while i < columns
        invariant 0 <= i <= columns && |row| == columns + 1
        invariant forall z :: 0 <= z < i ==> row[z] == Reflag(src, seed, columns)[z]
        invariant forall z :: i <= z <= columns ==> row[z] == src[z]
        invariant isUrl == if i == 0 then seed else UrlFlag(seed, src, i - 1)
        invariant forall k :: 0 <= k < dirty.Length ==>
                    dirty[k] == (old(dirty[k]) || (Idx(y, 0) <= k < Idx(y, 0) + i && FlagChanges(src, seed, k - Idx(y, 0))))
      {
        isUrl := NextUrlFlag(src, seed, i, isUrl);
        row := FlagCell(y, i, row, isUrl);
        i := i + 1;
      }
      assert row == Reflag(src, seed, columns);
    }

    // -------------------------------------------------------------------
    // Moving down and up a row
    // -------------------------------------------------------------------

    /** The row-pointer loop of goOneRowDown: rows `b+1..e` move up one place
        and the row that was at `b` re-enters at `e`. */
    method RotateUp(b: int, e: int)
      requires Valid() && 0 <= b <= e < rows
      modifies this
      ensures Valid() && Regs() == old(Regs())
      ensures cells == ScrollUp(old(cells), b, e, old(cells)[b])
    {
      var g := cells;
      var emptyLine := g[b];
      var x := b;
      while x < e
        invariant b <= x <= e && |g| == rows
        invariant forall r :: b <= r < x ==> g[r] == cells[r + 1]
        invariant forall r :: 0 <= r < rows && (r < b || r >= x) ==> g[r] == cells[r]
      {
        g := g[x := g[x + 1]];
        x := x + 1;
      }
      g := g[e := emptyLine];
      cells := g;
    }

    /** The row-pointer loop of goOneRowUp: rows `b..e-1` move down one place
        and the row that was at `e` re-enters at `b`. */
    method RotateDown(b: int, e: int)
      requires Valid() && 0 <= b <= e < rows
      modifies this
      ensures Valid() && Regs() == old(Regs())
      ensures cells == ScrollDown(old(cells), b, e, old(cells)[e])
    {
      var g := cells;
      var emptyLine := g[e];
      var x := e;
      while x > b
        invariant b <= x <= e && |g| == rows
        invariant forall r :: x < r <= e ==> g[r] == cells[r - 1]
        invariant forall r :: 0 <= r < rows && (r <= x || r > e) ==> g[r] == cells[r]
      {
        g := g[x := g[x - 1]];
        x := x - 1;
      }
      g := g[b := emptyLine];
      cells := g;
    }

    /** Rows `b..e` scroll up by one: row `b` is cleared and re-enters at
        `e`, and its cells are marked dirty. */
    method ScrollRegionUp(b: int, e: int)
      requires Valid() && 0 <= b <= e < rows
      modifies this, dirty
      ensures Valid() && Regs() == old(Regs())
      ensures cells == ScrollUp(old(cells), b, e, ClearSpan(old(cells)[b], 0, columns - 1, old(ClearedCell())))
      ensures forall k :: 0 <= k < dirty.Length ==>
                dirty[k] == (old(dirty[k]) || Idx(b, 0) <= k <= Idx(b, columns - 1))
    {
      ghost var entering := ClearSpan(cells[b], 0, columns - 1, ClearedCell());
      IndexBound(b, columns - 1, rows, columns);
      ClearRow(b, 0, columns - 1);
      RotateUp(b, e);
      ScrollUpIgnoresLeaving(old(cells), b, e, entering, entering);
    }

    /** Rows `b..e` scroll down by one: row `e` is cleared and re-enters at
        `b`, and its cells are marked dirty. */
    method ScrollRegionDown(b: int, e: int)
      requires Valid() && 0 <= b <= e < rows
      modifies this, dirty
      ensures Valid() && Regs() == old(Regs())
      ensures cells == ScrollDown(old(cells), b, e, ClearSpan(old(cells)[e], 0, columns - 1, old(ClearedCell())))
      ensures forall k :: 0 <= k < dirty.Length ==>
                dirty[k] == (old(dirty[k]) || Idx(e, 0) <= k <= Idx(e, columns - 1))
    {
      ghost var entering := ClearSpan(cells[e], 0, columns - 1, ClearedCell());
      IndexBound(e, columns - 1, rows, columns);
      ClearRow(e, 0, columns - 1);
      RotateDown(b, e);
      ScrollDownIgnoresLeaving(old(cells), b, e, entering, entering);
    }

    /** goOneRowDown: on the region bottom the region scrolls up by one, the
        row entering at the bottom is cleared, the whole map becomes dirty
        and the view is told when `updateView`; elsewhere the cursor moves
        down one row, at most to the last row. */
    method GoOneRowDown(updateView: bool)
      requires Valid()
      modifies this, dirty
      ensures Valid()
      ensures cells == DownGrid(old(cells), old(cursor), columns, old(ClearedCell()))
      ensures Regs() == old(Regs()).(cursor := old(cursor).(y := DownY(old(cursor), rows)),
                                     events := old(events) + DownEvents(old(cursor), updateView))
      ensures old(cursor.y) == old(cursor.scrollEnd) ==> forall k :: 0 <= k < dirty.Length ==> dirty[k]
      ensures old(cursor.y) != old(cursor.scrollEnd) ==> dirty[..] == old(dirty[..])
    {
      if cursor.y == cursor.scrollEnd {
        if updateView {
          events := events + [ExtendBottom(cursor.scrollBegin, cursor.scrollEnd)];
        }
        ScrollRegionUp(cursor.scrollBegin, cursor.scrollEnd);
        SetDirtyAll();
      } else {
        var y := cursor.y + 1;
        cursor := cursor.(y := if y >= rows then rows - 1 else y);
      }
    }

    /** goOneRowUp: the mirror image of goOneRowDown on the region top. */
    method GoOneRowUp(updateView: bool)
      requires Valid()
      modifies this, dirty
      ensures Valid()
      ensures cells == UpGrid(old(cells), old(cursor), columns, old(ClearedCell()))
      ensures Regs() == old(Regs()).(cursor := old(cursor).(y := UpY(old(cursor))),
                                     events := old(events) + UpEvents(old(cursor), updateView))
      ensures old(cursor.y) == old(cursor.scrollBegin) ==> forall k :: 0 <= k < dirty.Length ==> dirty[k]
      ensures old(cursor.y) != old(cursor.scrollBegin) ==> dirty[..] == old(dirty[..])
    {
      if cursor.y == cursor.scrollBegin {
        if updateView {
          events := events + [ExtendTop(cursor.scrollBegin, cursor.scrollEnd)];
        }
        ScrollRegionDown(cursor.scrollBegin, cursor.scrollEnd);
        SetDirtyAll();
      } else {
        var y := cursor.y - 1;
        cursor := cursor.(y := if y < 0 then 0 else y);
      }
    }

    // -------------------------------------------------------------------
    // Writing a byte
    // -------------------------------------------------------------------

    /** setByteUnderCursor: in insert mode the cells from the cursor on move
        one place right first; from the slack column the cursor wraps to the
        next row (scrolling on the region bottom) when autowrap is on. The
        byte is then stamped with the rendition, keeping the cell's
        double-byte tag and clearing its url flag, its cell marked dirty and
        the cursor advanced by one. */
    method SetByteUnderCursor(c: Byte)
      requires Valid()
      modifies this, dirty
      ensures Valid()
      ensures cells == GridAfterWrite(old(cells), old(cursor), columns, old(modes), old(pen), old(ClearedCell()), c)
      ensures Regs() == old(Regs()).(cursor := CursorAfterWrite(old(cursor), rows, columns, old(modes)),
                                     events := old(events) + if WrapsBeforeWrite(old(cursor), columns, old(modes))
                                                             then DownEvents(old(cursor), true) else [])
      ensures forall k :: 0 <= k < dirty.Length ==>
                dirty[k] == (old(dirty[k]) || DirtyAfterWrite(k, old(cursor), rows, columns, old(modes)))
    {
      PrepareWrite();
      WriteUnderCursor(c);
    }

    /** The branches of setByteUnderCursor before the write: the insert-mode
        shift, or the wrap to the next row, or (corrected) the step back
        from the slack column without autowrap. */
    method PrepareWrite()
      requires Valid()
      modifies this, dirty
      ensures Valid() && cursor.x < columns
      ensures var c0 := old(cursor);
              var g1 := if WrapsBeforeWrite(c0, columns, old(modes))
                        then DownGrid(old(cells), c0, columns, old(ClearedCell())) else old(cells);
              cells == if old(modes.irm) && c0.x < columns
                       then g1[c0.y := ShiftRight(g1[c0.y], c0.x, columns - 1)] else g1
      ensures var c0 := old(cursor);
              var wraps := WrapsBeforeWrite(c0, columns, old(modes));
              Regs() == old(Regs()).(cursor := c0.(x := WriteColumn(c0.x, columns, old(modes.autowrap)),
                                                   y := WriteRow(c0, rows, columns, old(modes)),
                                                   wrapped := c0.wrapped || wraps),
                                     events := old(events) + if wraps then DownEvents(c0, true) else [])
      ensures var c0 := old(cursor);
              forall k :: 0 <= k < dirty.Length ==>
                dirty[k] == (old(dirty[k]) || (WrapsBeforeWrite(c0, columns, old(modes)) && c0.y == c0.scrollEnd) ||
                             (old(modes.irm) && c0.x < columns && Idx(c0.y, c0.x) < k <= Idx(c0.y, columns - 1)))
    {
      if cursor.x <= columns - 1 && modes.irm {
        ShiftForInsert();
      } else if cursor.x == columns && modes.autowrap {
        cursor := cursor.(x := 0, wrapped := true);
        GoOneRowDown(true);
      } else if cursor.x == columns {
        cursor := cursor.(x := columns - 1);
      }
    }

    /** The insert-mode loop of setByteUnderCursor: cells from the cursor to
        the next-to-last column move one place right, the last visible cell
        is dropped and every moved-into cell is marked dirty. */
    method ShiftForInsert()
      requires Valid() && cursor.x < columns
      modifies this, dirty
      ensures Valid() && Regs() == old(Regs())
      ensures cells == old(cells)[cursor.y := ShiftRight(old(cells)[cursor.y], cursor.x, columns - 1)]
      ensures forall k :: 0 <= k < dirty.Length ==>
                dirty[k] == (old(dirty[k]) || Idx(cursor.y, cursor.x) < k <= Idx(cursor.y, columns - 1))
    {
      var y := cursor.y;
      var row := cells[y];
      var x := columns - 1;
      while x > cursor.x
        modifies dirty
        invariant cursor.x <= x <= columns - 1
        invariant |row| == columns + 1
        invariant forall z :: x < z <= columns - 1 ==> row[z] == cells[y][z - 1]
        invariant forall z :: 0 <= z <= columns && (z <= x || z == columns) ==> row[z] == cells[y][z]
        invariant forall k :: 0 <= k < dirty.Length ==>
                    dirty[k] == (old(dirty[k]) || Idx(y, x) < k <= Idx(y, columns - 1))
      {
        IndexBound(y, x, rows, columns);
        row := row[x := row[x - 1]];
        dirty[Idx(y, x)] := true;
        x := x - 1;
      }
      assert row == ShiftRight(cells[y], cursor.x, columns - 1);
      cells := cells[y := row];
    }

    /** The final step of setByteUnderCursor: stamp the cell under the cursor,
        mark it dirty, advance the cursor. */
    method WriteUnderCursor(c: Byte)
      requires Valid() && cursor.x < columns
      modifies this, dirty
      ensures Valid()
      ensures cells == old(cells)[cursor.y := old(cells)[cursor.y][old(cursor.x) := Stamp(old(cells)[cursor.y][old(cursor.x)], c, pen)]]
      ensures forall k :: 0 <= k < dirty.Length ==> dirty[k] == (old(dirty[k]) || k == Idx(cursor.y, old(cursor.x)))
      ensures Regs() == old(Regs()).(cursor := old(cursor).(x := old(cursor.x) + 1))
    {
      IndexBound(cursor.y, cursor.x, rows, columns);
      cells := cells[cursor.y := cells[cursor.y][cursor.x := Stamp(cells[cursor.y][cursor.x], c, pen)]];
      dirty[Idx(cursor.y, cursor.x)] := true;
      cursor := cursor.(x := cursor.x + 1);
    }

    // -------------------------------------------------------------------
    // Normal state
    // -------------------------------------------------------------------

    /** handleNormalDataInput: one byte outside any sequence. Ignored control
        bytes change nothing; ENQ sends an empty reply; BEL beeps and raises
        the message flag; BS backs up; HT goes to the next tab stop; LF, VT
        and FF go one row down (to column 0 too unless the line-feed flag is
        set); CR goes to column 0; ESC starts an escape sequence; any other
        byte is written under the cursor. */
    method HandleNormalDataInput(c: Byte)
      requires Valid() && parser.state == Normal
      modifies this, dirty
      ensures Valid()
      ensures parser.state == NextState(Normal, c)
      ensures IgnoredInNormal(c) ==> Regs() == old(Regs())
      ensures c == ENQ ==> Regs() == old(Regs()).(sent := old(sent) + [[]])
      ensures c == BEL ==> Regs() == old(Regs()).(hasMessage := true, events := old(events) + [Beep])
      ensures c == HT ==> Regs() == old(Regs()).(cursor := old(cursor).(x := TabStop(old(cursor.x), columns)))
      ensures c == CR ==> Regs() == old(Regs()).(cursor := old(cursor).(x := 0))
      ensures c == ESC ==> Regs() == old(Regs()).(parser := old(parser).(state := Escape))
      ensures IgnoredInNormal(c) || c == ENQ || c == BEL || c == HT || c == CR || c == ESC ==>
                cells == old(cells) && dirty[..] == old(dirty[..])
      ensures c == LF || c == VT || c == FF ==>
                cells == DownGrid(old(cells), old(cursor), columns, old(ClearedCell())) &&
                Regs() == old(Regs()).(cursor := old(cursor).(x := if old(modes.lnm) then old(cursor.x) else 0,
                                                              y := DownY(old(cursor), rows)))
      ensures c == LF || c == VT || c == FF ==>
                if old(cursor.y) == old(cursor.scrollEnd) then forall k :: 0 <= k < dirty.Length ==> dirty[k]
                else dirty[..] == old(dirty[..])
      ensures c == BS && old(cursor.x) > 0 ==>
                cells == old(cells) && dirty[..] == old(dirty[..]) &&
                Regs() == old(Regs()).(cursor := old(cursor).(x := BackspaceColumn(old(cursor.x), columns, old(modes.autowrap))))
      ensures c == BS && old(cursor.x) == 0 && old(cursor.wrapped) ==>
                cells == UpGrid(old(cells), old(cursor), columns, old(ClearedCell())) &&
                Regs() == old(Regs()).(cursor := old(cursor).(x := columns - 1, y := UpY(old(cursor)), wrapped := false),
                                       events := old(events) + UpEvents(old(cursor), true))
      ensures c == BS && old(cursor.x) == 0 && old(cursor.wrapped) ==>
                if old(cursor.y) == old(cursor.scrollBegin) then forall k :: 0 <= k < dirty.Length ==> dirty[k]
                else dirty[..] == old(dirty[..])
      ensures c == BS && old(cursor.x) == 0 && !old(cursor.wrapped) ==>
                cells == old(cells) && dirty[..] == old(dirty[..]) && Regs() == old(Regs())
      ensures Printable(c) ==>
                cells == GridAfterWrite(old(cells), old(cursor), columns, old(modes), old(pen), old(ClearedCell()), c) &&
                Regs() == old(Regs()).(cursor := CursorAfterWrite(old(cursor), rows, columns, old(modes)),
                                       events := old(events) + if WrapsBeforeWrite(old(cursor), columns, old(modes))
                                                               then DownEvents(old(cursor), true) else [])
      ensures Printable(c) ==> forall k :: 0 <= k < dirty.Length ==>
                dirty[k] == (old(dirty[k]) || DirtyAfterWrite(k, old(cursor), rows, columns, old(modes)))
    {
      if Printable(c) {
        SetByteUnderCursor(c);
      } else if c == BS || c == LF || c == VT || c == FF {
        HandleNormalMotion(c);
      } else {
        HandleNormalSignal(c);
      }
    }

    /** The cases of handleNormalDataInput that touch neither the grid nor
        the map. */
    method HandleNormalSignal(c: Byte)
      requires Valid() && parser.state == Normal
      requires !Printable(c) && c != BS && c != LF && c != VT && c != FF
      modifies this
      ensures Valid() && cells == old(cells)
      ensures parser.state == NextState(Normal, c)
      ensures IgnoredInNormal(c) ==> Regs() == old(Regs())
      ensures c == ENQ ==> Regs() == old(Regs()).(sent := old(sent) + [[]])
      ensures c == BEL ==> Regs() == old(Regs()).(hasMessage := true, events := old(events) + [Beep])
      ensures c == HT ==> Regs() == old(Regs()).(cursor := old(cursor).(x := TabStop(old(cursor.x), columns)))
      ensures c == CR ==> Regs() == old(Regs()).(cursor := old(cursor).(x := 0))
      ensures c == ESC ==> Regs() == old(Regs()).(parser := old(parser).(state := Escape))
    {
      if IgnoredInNormal(c) {
      } else if c == ENQ {
        sent := sent + [[]];
      } else if c == BEL {
        events := events + [Beep];
        hasMessage := true;
      } else if c == HT {
        TabStopIsNext(cursor.x, columns);
        cursor := cursor.(x := TabStop(cursor.x, columns));
      } else if c == CR {
        cursor := cursor.(x := 0);
      } else {
        parser := parser.(state := Escape);
      }
    }

    /** The cases of handleNormalDataInput that move between rows: BS, and
        LF, VT and FF. */
    method HandleNormalMotion(c: Byte)
      requires Valid() && parser.state == Normal
      requires c == BS || c == LF || c == VT || c == FF
      modifies this, dirty
      ensures Valid() && parser == old(parser)
      ensures c != BS ==>
                cells == DownGrid(old(cells), old(cursor), columns, old(ClearedCell())) &&
                Regs() == old(Regs()).(cursor := old(cursor).(x := if old(modes.lnm) then old(cursor.x) else 0,
                                                              y := DownY(old(cursor), rows)))
      ensures c != BS ==>
                if old(cursor.y) == old(cursor.scrollEnd) then forall k :: 0 <= k < dirty.Length ==> dirty[k]
                else dirty[..] == old(dirty[..])
      ensures c == BS && old(cursor.x) > 0 ==>
                cells == old(cells) && dirty[..] == old(dirty[..]) &&
                Regs() == old(Regs()).(cursor := old(cursor).(x := BackspaceColumn(old(cursor.x), columns, old(modes.autowrap))))
      ensures c == BS && old(cursor.x) == 0 && old(cursor.wrapped) ==>
                cells == UpGrid(old(cells), old(cursor), columns, old(ClearedCell())) &&
                Regs() == old(Regs()).(cursor := old(cursor).(x := columns - 1, y := UpY(old(cursor)), wrapped := false),
                                       events := old(events) + UpEvents(old(cursor), true))
      ensures c == BS && old(cursor.x) == 0 && old(cursor.wrapped) ==>
                if old(cursor.y) == old(cursor.scrollBegin) then forall k :: 0 <= k < dirty.Length ==> dirty[k]
                else dirty[..] == old(dirty[..])
      ensures c == BS && old(cursor.x) == 0 && !old(cursor.wrapped) ==>
                cells == old(cells) && dirty[..] == old(dirty[..]) && Regs() == old(Regs())
    {
      if c == BS {
        HandleNormalBs();
      } else {
        LineFeed();
      }
    }

    /** LF, VT and FF (and VT inside a control sequence): column 0 unless
        the line-feed flag is set, then one row down without telling the
        view. */
    method LineFeed()
      requires Valid()
      modifies this, dirty
      ensures Valid()
      ensures cells == DownGrid(old(cells), old(cursor), columns, old(ClearedCell()))
      ensures Regs() == old(Regs()).(cursor := old(cursor).(x := if old(modes.lnm) then old(cursor.x) else 0,
                                                            y := DownY(old(cursor), rows)))
      ensures old(cursor.y) == old(cursor.scrollEnd) ==> forall k :: 0 <= k < dirty.Length ==> dirty[k]
      ensures old(cursor.y) != old(cursor.scrollEnd) ==> dirty[..] == old(dirty[..])
    {
      if !modes.lnm {
        cursor := cursor.(x := 0);
      }
      GoOneRowDown(false);
    }

    /** handleNormalBs: one column left (two from the slack column with
        autowrap on); from column 0 after a wrap, back to the last column of
        the row above, scrolling on the region top. */
    method HandleNormalBs()
      requires Valid()
      modifies this, dirty
      ensures Valid()
      ensures old(cursor.x) > 0 ==>
                cells == old(cells) && dirty[..] == old(dirty[..]) &&
                Regs() == old(Regs()).(cursor := old(cursor).(x := BackspaceColumn(old(cursor.x), columns, old(modes.autowrap))))
      ensures old(cursor.x) == 0 && old(cursor.wrapped) ==>
                cells == UpGrid(old(cells), old(cursor), columns, old(ClearedCell())) &&
                Regs() == old(Regs()).(cursor := old(cursor).(x := columns - 1, y := UpY(old(cursor)), wrapped := false),
                                       events := old(events) + UpEvents(old(cursor), true))
      ensures old(cursor.x) == 0 && old(cursor.wrapped) ==>
                if old(cursor.y) == old(cursor.scrollBegin) then forall k :: 0 <= k < dirty.Length ==> dirty[k]
                else dirty[..] == old(dirty[..])
      ensures old(cursor.x) == 0 && !old(cursor.wrapped) ==>
                cells == old(cells) && dirty[..] == old(dirty[..]) && Regs() == old(Regs())
    {
      if cursor.x > 0 {
        cursor := cursor.(x := BackspaceColumn(cursor.x, columns, modes.autowrap));
      } else if cursor.wrapped {
        cursor := cursor.(x := columns - 1);
        GoOneRowUp(true);
        cursor := cursor.(wrapped := false);
      }
    }

    // -------------------------------------------------------------------
    // Escape state
    // -------------------------------------------------------------------

    /** handleEscapeDataInput: the byte after ESC, at index `i` of the chunk
        `data`. `[` opens a control sequence with fresh registers; RI and IND
        move one row up or down (scrolling at the region edge, telling the
        view); DECSC saves the cursor and DECRC restores it when one was
        saved (see the finding on DECRC); `#` looks at the next byte of the
        chunk for DECALN; `(` and `)` designate a character set; NEL is CR
        and IND; RIS clears the screen; anything else ends the sequence. The
        result is the index of the last byte consumed. */
    method HandleEscapeDataInput(c: Byte, i: int, data: seq<Byte>) returns (next: int)
      requires Valid() && parser.state == Escape && 0 <= i < |data| && data[i] == c
      modifies this, dirty
      ensures Valid()
      ensures parser.state == NextState(Escape, c)
      ensures next == if c == EscHash && i < |data| - 1 && data[i + 1] == HashDecaln then i + 1 else i
      ensures c == ESC ==> Regs() == old(Regs())
      ensures c == EscCsi ==> Regs() == old(Regs()).(parser := Parser(Control, [], [], 0))
      ensures c == EscDecsc ==>
                Regs() == old(Regs()).(parser := old(parser).(state := Normal),
                                       cursor := old(cursor).(savedX := old(cursor.x), savedY := old(cursor.y)))
      ensures c == EscDecrc ==>
                Regs() == old(Regs()).(parser := old(parser).(state := Normal),
                                       cursor := Restored(old(cursor)))
      ensures c == EscG0 || c == EscG1 ==> Regs() == old(Regs()).(parser := old(parser).(state := Scs))
      ensures c == EscHash ==> Regs() == old(Regs()).(parser := old(parser).(state := Normal))
      ensures c != ESC && c != EscCsi && c != EscRi && c != EscInd && c != EscDecsc && c != EscDecrc &&
              c != EscHash && c != EscG0 && c != EscG1 && c != EscNel && c != EscRis ==>
                Regs() == old(Regs()).(parser := old(parser).(state := Normal))
      ensures c != EscRi && c != EscInd && c != EscNel && c != EscHash && c != EscRis ==>
                cells == old(cells) && dirty[..] == old(dirty[..])
      ensures c == EscRi ==>
                cells == UpGrid(old(cells), old(cursor), columns, old(ClearedCell())) &&
                Regs() == old(Regs()).(parser := old(parser).(state := Normal), cursor := old(cursor).(y := UpY(old(cursor))),
                                       events := old(events) + UpEvents(old(cursor), true))
      ensures c == EscRi ==>
                if old(cursor.y) == old(cursor.scrollBegin) then forall k :: 0 <= k < dirty.Length ==> dirty[k]
                else dirty[..] == old(dirty[..])
      ensures c == EscInd || c == EscNel ==>
                if old(cursor.y) == old(cursor.scrollEnd) then forall k :: 0 <= k < dirty.Length ==> dirty[k]
                else dirty[..] == old(dirty[..])
      ensures c == EscInd || c == EscNel ==>
                cells == DownGrid(old(cells), old(cursor), columns, old(ClearedCell())) &&
                Regs() == old(Regs()).(parser := old(parser).(state := Normal),
                                       cursor := old(cursor).(x := if c == EscNel then 0 else old(cursor.x),
                                                              y := DownY(old(cursor), rows)),
                                       events := old(events) + DownEvents(old(cursor), true))
      ensures c == EscHash ==>
                cells == if next == i + 1 then AlignmentGrid(old(cells), columns) else old(cells)
      ensures c == EscHash ==> forall k :: 0 <= k < dirty.Length ==>
                dirty[k] == (old(dirty[k]) || (next == i + 1 && k < Idx(rows - 1, 0)))
      ensures c == EscRis ==>
                cells == ClearedGrid(old(cells), columns, old(ClearedCell())) &&
                Regs() == old(Regs()).(cursor := old(cursor).(x := 0, y := 0), parser := FreshParser,
                                       pen := DefaultPen.(reversed := old(modes.screenReverse)))
      ensures c == EscRis ==> forall k :: 0 <= k < dirty.Length ==> dirty[k]
    {
      next := i;
      if c == EscRi || c == EscInd || c == EscNel {
        HandleEscapeMotion(c);
      } else if c == EscHash {
        next := HandleEscapeHash(i, data);
        parser := parser.(state := Normal);
      } else if c == EscRis {
        ClearAll();
      } else {
        HandleEscapeSignal(c);
      }
    }

    /** The cases of handleEscapeDataInput that move between rows: RI, IND
        and NEL. */
    method HandleEscapeMotion(c: Byte)
      requires Valid() && parser.state == Escape
      requires c == EscRi || c == EscInd || c == EscNel
      modifies this, dirty
      ensures Valid()
      ensures c == EscRi ==>
                cells == UpGrid(old(cells), old(cursor), columns, old(ClearedCell())) &&
                Regs() == old(Regs()).(parser := old(parser).(state := Normal), cursor := old(cursor).(y := UpY(old(cursor))),
                                       events := old(events) + UpEvents(old(cursor), true))
      ensures c == EscRi ==>
                if old(cursor.y) == old(cursor.scrollBegin) then forall k :: 0 <= k < dirty.Length ==> dirty[k]
                else dirty[..] == old(dirty[..])
      ensures c == EscInd || c == EscNel ==>
                if old(cursor.y) == old(cursor.scrollEnd) then forall k :: 0 <= k < dirty.Length ==> dirty[k]
                else dirty[..] == old(dirty[..])
      ensures c != EscRi ==>
                cells == DownGrid(old(cells), old(cursor), columns, old(ClearedCell())) &&
                Regs() == old(Regs()).(parser := old(parser).(state := Normal),
                                       cursor := old(cursor).(x := if c == EscNel then 0 else old(cursor.x),
                                                              y := DownY(old(cursor), rows)),
                                       events := old(events) + DownEvents(old(cursor), true))
    {
      if c == EscRi {
        GoOneRowUp(true);
      } else {
        if c == EscNel {
          cursor := cursor.(x := 0);
        }
        GoOneRowDown(true);
      }
      parser := parser.(state := Normal);
    }

    /** The cases of handleEscapeDataInput that touch neither the grid nor
        the map. */
    method HandleEscapeSignal(c: Byte)
      requires Valid() && parser.state == Escape
      requires c != EscRi && c != EscInd && c != EscNel && c != EscHash && c != EscRis
      modifies this
      ensures Valid() && cells == old(cells)
      ensures parser.state == NextState(Escape, c)
      ensures c == ESC ==> Regs() == old(Regs())
      ensures c == EscCsi ==> Regs() == old(Regs()).(parser := Parser(Control, [], [], 0))
      ensures c == EscDecsc ==>
                Regs() == old(Regs()).(parser := old(parser).(state := Normal),
                                       cursor := old(cursor).(savedX := old(cursor.x), savedY := old(cursor.y)))
      ensures c == EscDecrc ==>
                Regs() == old(Regs()).(parser := old(parser).(state := Normal),
                                       cursor := Restored(old(cursor)))
      ensures c == EscG0 || c == EscG1 ==> Regs() == old(Regs()).(parser := old(parser).(state := Scs))
      ensures c != ESC && c != EscCsi && c != EscDecsc && c != EscDecrc && c != EscG0 && c != EscG1 ==>
                Regs() == old(Regs()).(parser := old(parser).(state := Normal))
    {
      if c == ESC {
      } else if c == EscCsi {
        parser := Parser(Control, [], [], 0);
      } else if c == EscDecsc {
        cursor := cursor.(savedX := cursor.x, savedY := cursor.y);
        parser := parser.(state := Normal);
      } else if c == EscDecrc {
        if cursor.savedX >= 0 && cursor.savedY >= 0 {
          cursor := cursor.(x := cursor.savedX, y := cursor.savedY);
        }
        parser := parser.(state := Normal);
      } else if c == EscG0 || c == EscG1 {
        parser := parser.(state := Scs);
      } else {
        parser := parser.(state := Normal);
      }
    }

    /** handleEscapeHash: `ESC # 8` within one chunk is DECALN, which fills
        every row but the last with `E` and marks those rows dirty; the `8`
        is consumed. Otherwise nothing happens. */
    method HandleEscapeHash(i: int, data: seq<Byte>) returns (next: int)
      requires Valid() && 0 <= i < |data|
      modifies this, dirty
      ensures Valid() && Regs() == old(Regs())
      ensures next == if i < |data| - 1 && data[i + 1] == HashDecaln then i + 1 else i
      ensures cells == if next == i + 1 then AlignmentGrid(old(cells), columns) else old(cells)
      ensures forall k :: 0 <= k < dirty.Length ==>
                dirty[k] == (old(dirty[k]) || (next == i + 1 && k < Idx(rows - 1, 0)))
    {
      next := i;
      if i < |data| - 1 && data[i + 1] == HashDecaln {
        next := i + 1;
        AlignRows();
      }
    }

    /** The row loop of DECALN. */
    method AlignRows()
      requires Valid()
      modifies this, dirty
      ensures Valid() && Regs() == old(Regs())
      ensures cells == AlignmentGrid(old(cells), columns)
      ensures forall k :: 0 <= k < dirty.Length ==> dirty[k] == (old(dirty[k]) || k < Idx(rows - 1, 0))
    {
      var y := 0;
      while y < rows - 1
        invariant 0 <= y <= rows - 1
        invariant Valid() && Regs() == old(Regs())
        invariant forall r :: 0 <= r < rows ==>
                    cells[r] == if r < y then ClearSpan(old(cells)[r], 0, columns - 1, AlignmentCell) else old(cells)[r]
        invariant forall k :: 0 <= k < dirty.Length ==> dirty[k] == (old(dirty[k]) || k < Idx(y, 0))
      {
        IndexBound(y, columns - 1, rows, columns);
        NextRowIndex(y);
        FillSpan(y, 0, columns - 1, AlignmentCell);
        y := y + 1;
      }
      assert cells == AlignmentGrid(old(cells), columns);
    }

    // -------------------------------------------------------------------
    // Control sequences: cursor motion, region, reports, rendition
    // -------------------------------------------------------------------

    /** CUU, CUD, CNL and CPL: the count is popped and the cursor moved up
        or down by it, clamped to the grid and, for CUU and CUD in origin
        mode, to the scroll region; CNL and CPL also return to column 0. */
    method HandleControlCursorVertical(c: Byte)
      requires Valid()
      requires c == CsiCuu || c == CsiCud || c == CsiCnl || c == CsiCpl
      modifies this
      ensures Valid() && cells == old(cells)
      ensures Regs() == old(Regs()).(parser := old(parser).(csArg := Csi.PopLineCount(old(parser.csArg)).rest),
                                     cursor := cursor)
      ensures var n := Csi.PopLineCount(old(parser.csArg)).count;
              var c0 := old(cursor);
              cursor == if c == CsiCuu then c0.(y := CursorUp(c0.y, n, old(modes.originRelative), c0.scrollBegin, rows))
                        else if c == CsiCud then c0.(y := CursorDown(c0.y, n, old(modes.originRelative), c0.scrollEnd, rows))
                        else c0.(x := 0, y := CursorNextLine(c0.y, n, if c == CsiCnl then 1 else -1, rows))
      ensures MotionEffect(c, old(Regs()), Regs().(parser := old(parser)))
    {
      var n := PopLineCount();
      var y := cursor.y;
      if c == CsiCuu {
        y := y - n;
        if modes.originRelative && y < cursor.scrollBegin {
          y := cursor.scrollBegin;
        } else if y < 0 {
          y := 0;
        }
        cursor := cursor.(y := y);
      } else if c == CsiCud {
        y := y + n;
        if modes.originRelative && y > cursor.scrollEnd {
          y := cursor.scrollEnd;
        } else if y >= rows {
          y := rows - 1;
        }
        cursor := cursor.(y := y);
      } else if c == CsiCnl {
        y := y + n;
        if y >= rows {
          y := rows - 1;
        }
        cursor := cursor.(x := 0, y := y);
      } else {
        y := y - n;
        if y < 0 {
          y := 0;
        }
        cursor := cursor.(x := 0, y := y);
      }
    }

    /** CUF and CUB: the count is popped and the cursor moved right or left
        by it, clamped to the visible columns. */
    method HandleControlCursorHorizontal(c: Byte)
      requires Valid()
      requires c == CsiCuf || c == CsiCub
      modifies this
      ensures Valid() && cells == old(cells)
      ensures Regs() == old(Regs()).(parser := old(parser).(csArg := Csi.PopLineCount(old(parser.csArg)).rest),
                                     cursor := cursor)
      ensures var n := Csi.PopLineCount(old(parser.csArg)).count;
              cursor == if c == CsiCuf then old(cursor).(x := CursorForward(old(cursor.x), n, columns))
                        else old(cursor).(x := CursorBack(old(cursor.x), n, columns))
      ensures MotionEffect(c, old(Regs()), Regs().(parser := old(parser)))
    {
      var n := PopLineCount();
      var x := cursor.x;
      if c == CsiCuf {
        x := x + n;
        if x >= columns {
          x := columns - 1;
        }
      } else {
        x := x - n;
        if x < 0 {
          x := 0;
        }
      }
      cursor := cursor.(x := x);
    }

    /** CHA, HPA, HPR, HPB, VPA, VPR and VPB: a count is popped and the
        cursor moved to an absolute or relative column or row through
        moveCursorTo, which clamps both coordinates into the visible grid. */
    method HandleControlCursorJump(c: Byte)
      requires Valid()
      requires c == CsiCha || c == CsiHpa || c == CsiHpr || c == CsiHpb ||
               c == CsiVpa || c == CsiVpr || c == CsiVpb
      modifies this
      ensures Valid() && cells == old(cells)
      ensures Regs() == old(Regs()).(parser := old(parser).(csArg := Csi.PopLineCount(old(parser.csArg)).rest),
                                     cursor := cursor)
      ensures var n := Csi.PopLineCount(old(parser.csArg)).count;
              var x0, y0 := old(cursor.x), old(cursor.y);
              var x := if c == CsiCha || c == CsiHpa then n - 1
                       else if c == CsiHpr then x0 + n else if c == CsiHpb then x0 - n else x0;
              var y := if c == CsiVpa then n - 1 else if c == CsiVpr then y0 + n else if c == CsiVpb then y0 - n else y0;
              cursor == old(cursor).(x := ClampTo(x, columns), y := ClampTo(y, rows))
      ensures MotionEffect(c, old(Regs()), Regs().(parser := old(parser)))
    {
      var n := PopLineCount();
      if c == CsiCha || c == CsiHpa {
        MoveCursorTo(n - 1, cursor.y);
      } else if c == CsiHpr {
        MoveCursorTo(cursor.x + n, cursor.y);
      } else if c == CsiHpb {
        MoveCursorTo(cursor.x - n, cursor.y);
      } else if c == CsiVpa {
        MoveCursorTo(cursor.x, n - 1);
      } else if c == CsiVpr {
        MoveCursorTo(cursor.x, cursor.y + n);
      } else {
        MoveCursorTo(cursor.x, cursor.y - n);
      }
    }

    /** SCP saves the cursor; RCP restores it only when one was saved. */
    method HandleControlSaveRestore(c: Byte)
      requires Valid() && (c == CsiScp || c == CsiRcp)
      modifies this
      ensures Valid() && cells == old(cells)
      ensures c == CsiScp ==>
                Regs() == old(Regs()).(cursor := old(cursor).(savedX := old(cursor.x), savedY := old(cursor.y)))
      ensures c == CsiRcp ==>
                Regs() == old(Regs()).(cursor := Restored(old(cursor)))
      ensures MotionEffect(c, old(Regs()), Regs().(parser := old(parser)))
    {
      if c == CsiScp {
        cursor := cursor.(savedX := cursor.x, savedY := cursor.y);
      } else if cursor.savedX >= 0 && cursor.savedY >= 0 {
        cursor := cursor.(x := cursor.savedX, y := cursor.savedY);
      }
    }

    /** handleControlCup (CUP and HVP): home on an empty queue, otherwise
        the row then the column are popped and the cursor moved there. */
    method HandleControlCup()
      requires Valid()
      modifies this
      ensures Valid() && cells == old(cells)
      ensures var q := old(parser.csArg);
              var pos := CupTarget(q, old(modes.originRelative), old(cursor.scrollBegin), old(cursor.scrollEnd), rows, columns);
              Regs() == old(Regs()).(parser := old(parser).(csArg := if q == [] then q
                                                                     else Csi.PopLineCount(Csi.PopLineCount(q).rest).rest),
                                     cursor := old(cursor).(x := pos.0, y := pos.1))
      ensures MotionEffect(CsiCup, old(Regs()), Regs().(parser := old(parser)))
    {
      if parser.csArg == [] {
        cursor := cursor.(x := 0, y := 0);
      } else {
        var p := PopLineCount();
        var q := PopLineCount();
        if modes.originRelative && cursor.scrollBegin > 0 {
          p := p + cursor.scrollBegin;
          if p > cursor.scrollEnd {
            p := cursor.scrollEnd + 1;
          }
        }
        MoveCursorTo(q - 1, p - 1);
      }
    }

    /** handleControlDecstbm: an empty queue resets the region to the whole
        screen, exactly two values set it (see the finding on DECSTBM), any
        other count keeps it; the cursor then goes to column 0 of the region
        top. */
    method HandleControlDecstbm()
      requires Valid()
      modifies this
      ensures Valid() && cells == old(cells)
      ensures var q := old(parser.csArg);
              var region := Decstbm(q, old(cursor.scrollBegin), old(cursor.scrollEnd), rows);
              Regs() == old(Regs()).(parser := old(parser).(csArg := if |q| == 2 then [] else q),
                                     cursor := old(cursor).(scrollBegin := region.0, scrollEnd := region.1,
                                                            x := 0, y := region.0))
      ensures MotionEffect(CsiDecstbm, old(Regs()), Regs().(parser := old(parser)))
    {
      if parser.csArg == [] {
        cursor := cursor.(scrollBegin := 0, scrollEnd := rows - 1);
      } else if |parser.csArg| == 2 {
        var small := RegionArg(parser.csArg[0], rows);
        var large := RegionArg(parser.csArg[1], rows);
        parser := parser.(csArg := []);
        if small > large {
          small, large := large, small;
        }
        cursor := cursor.(scrollBegin := small - 1, scrollEnd := large - 1);
      }
      cursor := cursor.(x := 0, y := cursor.scrollBegin);
    }

    /** handleControlDa: the identification reply of the emulated standard
        is sent for an empty queue or a single 0; a single value is
        consumed. */
    method HandleControlDa()
      requires Valid()
      modifies this
      ensures Valid() && cells == old(cells)
      ensures var q := old(parser.csArg);
              Regs() == old(Regs()).(parser := old(parser).(csArg := if |q| == 1 then [] else q),
                                     sent := old(sent) + if q == [] || q == [0] then [DaReply(standard)] else [])
      ensures MotionEffect(CsiDa, old(Regs()), Regs().(parser := old(parser)))
    {
      var reply := DaReply(standard);
      if parser.csArg == [] {
        sent := sent + [reply];
      } else if |parser.csArg| == 1 {
        var p := parser.csArg[0];
        parser := parser.(csArg := []);
        if p == 0 {
          sent := sent + [reply];
        }
      }
    }

    /** handleControlDsr: with exactly one value, 5 is answered with the
        status report and 6 with the cursor position report; the value is
        consumed. Any other queue is left alone. */
    method HandleControlDsr()
      requires Valid()
      modifies this
      ensures Valid() && cells == old(cells)
      ensures var q := old(parser.csArg);
              Regs() == old(Regs()).(parser := old(parser).(csArg := if |q| == 1 then [] else q),
                                     sent := old(sent) + if q == [5] then [DsrOkReply]
                                                         else if q == [6] then [DsrCursorReport(old(cursor.x), old(cursor.y))]
                                                         else [])
      ensures MotionEffect(CsiDsr, old(Regs()), Regs().(parser := old(parser)))
    {
      if |parser.csArg| != 1 {
        return;
      }
      var p := parser.csArg[0];
      parser := parser.(csArg := []);
      if p == 5 {
        sent := sent + [DsrOkReply];
      } else if p == 6 {
        sent := sent + [DsrCursorReport(cursor.x, cursor.y)];
      }
    }

    /** handleControlSgr: the queue (a single 0 when empty) applied to the
        rendition parameter by parameter, and consumed. */
    method HandleControlSgr()
      requires Valid()
      modifies this
      ensures Valid() && cells == old(cells)
      ensures Regs() == old(Regs()).(parser := old(parser).(csArg := []),
                                     pen := Sgr(old(pen), old(modes.screenReverse), old(parser.csArg)))
      ensures MotionEffect(CsiSgr, old(Regs()), Regs().(parser := old(parser)))
    {
      if parser.csArg == [] {
        parser := parser.(csArg := [0]);
      }
      while parser.csArg != []
        invariant Valid() && cells == old(cells)
        invariant Regs() == old(Regs()).(parser := old(parser).(csArg := parser.csArg), pen := pen)
        invariant SgrAll(pen, modes.screenReverse, parser.csArg) == Sgr(old(pen), old(modes.screenReverse), old(parser.csArg))
        decreases |parser.csArg|
      {
        var p := parser.csArg[0];
        parser := parser.(csArg := parser.csArg[1..]);
        ApplyRendition(p);
      }
    }

    /** One SGR parameter applied to the pen: 0 resets it, 1, 4, 5 and 7 set
        bright, underline, blink and reverse, 3x and 4x pick the foreground
        and background colour; anything else is ignored. */
    method ApplyRendition(p: int)
      requires Valid()
      modifies this
      ensures Valid() && cells == old(cells)
      ensures Regs() == old(Regs()).(pen := SgrStep(old(pen), old(modes.screenReverse), p))
    {
      if p == 0 {
        pen := Pen(DefaultFg, DefaultBg, false, false, false, modes.screenReverse);
      } else if p == 1 {
        pen := pen.(bright := true);
      } else if p == 4 {
        pen := pen.(underlined := true);
      } else if p == 5 {
        pen := pen.(blinking := true);
      } else if p == 7 {
        pen := pen.(reversed := !modes.screenReverse);
      } else if TruncDiv(p, 10) == 3 {
        pen := pen.(fg := p - 30);
      } else if TruncDiv(p, 10) == 4 {
        pen := pen.(bg := p - 40);
      }
    }

    // -------------------------------------------------------------------
    // Control sequences: editing the grid
    // -------------------------------------------------------------------

    /** ICH: the count is popped, the cells from the cursor move that many
        places right (those pushed past the last visible column are lost)
        and the vacated cells are cleared (at most up to the last visible
        column, see the finding on ICH). Every visible cell from the cursor
        on is marked dirty. */
    method HandleControlIch()
      requires Valid()
      modifies this, dirty
      ensures Valid()
      ensures cells == old(cells)[old(cursor.y) := InsertChars(old(cells)[old(cursor.y)], old(cursor.x),
                                                               Csi.PopLineCount(old(parser.csArg)).count,
                                                               columns, old(ClearedCell()))]
      ensures Regs() == old(Regs()).(parser := old(parser).(csArg := Csi.PopLineCount(old(parser.csArg)).rest))
      ensures forall k :: 0 <= k < dirty.Length ==>
                dirty[k] == (old(dirty[k]) || Idx(old(cursor.y), old(cursor.x)) <= k <= Idx(old(cursor.y), columns - 1))
      ensures IchEffect(old(cells), old(Regs()), old(dirty[..]), cells, Regs().(parser := old(parser)), dirty[..])
    {
      var n := PopLineCount();
      ShiftCharsRight(n);
      var e := cursor.x + n - 1;
      if e > columns - 1 {
        e := columns - 1;
      }
      IndexBound(cursor.y, e, rows, columns);
      ClearRow(cursor.y, cursor.x, e);
    }

    /** The column loop of ICH: from the last visible column down to `n`
        past the cursor, each cell takes the one `n` places left of it and
        is marked dirty. */
    method ShiftCharsRight(n: int)
      requires Valid() && n >= 1
      modifies this, dirty
      ensures Valid() && Regs() == old(Regs())
      ensures cells == old(cells)[cursor.y := ShiftRightBy(old(cells)[cursor.y], cursor.x, n, columns - 1)]
      ensures forall k :: 0 <= k < dirty.Length ==>
                dirty[k] == (old(dirty[k]) || Idx(cursor.y, cursor.x + n - 1) < k <= Idx(cursor.y, columns - 1))
    {
      var y := cursor.y;
      var row := cells[y];
      var x := columns - 1;
      while x > cursor.x + n - 1
        modifies dirty
        invariant x <= columns - 1 && (x >= cursor.x + n - 1 || x == columns - 1)
        invariant |row| == columns + 1
        invariant forall z :: x < z <= columns - 1 ==> row[z] == cells[y][z - n]
        invariant forall z :: 0 <= z <= columns && (z <= x || z == columns) ==> row[z] == cells[y][z]
        invariant forall k :: 0 <= k < dirty.Length ==>
                    dirty[k] == (old(dirty[k]) || Idx(y, x) < k <= Idx(y, columns - 1))
      {
        IndexBound(y, x, rows, columns);
        row := row[x := row[x - n]];
        dirty[Idx(y, x)] := true;
        x := x - 1;
      }
      assert row == ShiftRightBy(cells[y], cursor.x, n, columns - 1);
      cells := cells[y := row];
    }

    /** ED 0: the cursor row from the cursor on and every row below it
        cleared; every index from the cursor's on is dirty. */
    method EraseBelowCursor()
      requires Valid()
      modifies this, dirty
      ensures Valid() && Regs() == old(Regs())
      ensures cells == EraseBelow(old(cells), cursor.y, cursor.x, columns, old(ClearedCell()))
      ensures forall k :: 0 <= k < dirty.Length ==> dirty[k] == (old(dirty[k]) || Idx(cursor.y, cursor.x) <= k)
    {
      IndexBound(cursor.y, columns - 1, rows, columns);
      NextRowIndex(cursor.y);
      ClearRow(cursor.y, cursor.x, columns - 1);
      ClearRows(cursor.y + 1, rows);
      assert cells == EraseBelow(old(cells), cursor.y, cursor.x, columns, old(ClearedCell()));
    }

    /** ED 1: every row above the cursor row and the cursor row up to the
        cursor (at most the last visible column, see the finding on ED 1)
        cleared; every index up to the cursor's is dirty. */
    method EraseAboveCursor()
      requires Valid()
      modifies this, dirty
      ensures Valid() && Regs() == old(Regs())
      ensures cells == EraseAbove(old(cells), cursor.y, cursor.x, columns, old(ClearedCell()))
      ensures forall k :: 0 <= k < dirty.Length ==>
                dirty[k] == (old(dirty[k]) || k <= Idx(cursor.y, if cursor.x < columns then cursor.x else columns - 1))
    {
      var e := if cursor.x < columns then cursor.x else columns - 1;
      IndexBound(cursor.y, e, rows, columns);
      ClearRow(cursor.y, 0, e);
      ClearRows(0, cursor.y);
      assert cells == EraseAbove(old(cells), cursor.y, cursor.x, columns, old(ClearedCell()));
    }

    /** handleControlEd: the queue head (not consumed) picks the part of the
        screen erased: 0 or none from the cursor to the end, 1 from the
        start to the cursor, 2 everything (through clearAll); any other value
        does nothing. */
    method HandleControlEd()
      requires Valid()
      modifies this, dirty
      ensures Valid()
      ensures var q := old(parser.csArg);
              (q == [] || q[0] == 0) ==>
                cells == EraseBelow(old(cells), old(cursor.y), old(cursor.x), columns, old(ClearedCell())) &&
                Regs() == old(Regs()) &&
                forall k :: 0 <= k < dirty.Length ==> dirty[k] == (old(dirty[k]) || Idx(old(cursor.y), old(cursor.x)) <= k)
      ensures var q := old(parser.csArg);
              (q != [] && q[0] == 1) ==>
                cells == EraseAbove(old(cells), old(cursor.y), old(cursor.x), columns, old(ClearedCell())) &&
                Regs() == old(Regs()) &&
                forall k :: 0 <= k < dirty.Length ==>
                  dirty[k] == (old(dirty[k]) || k <= Idx(old(cursor.y), if old(cursor.x) < columns then old(cursor.x) else columns - 1))
      ensures var q := old(parser.csArg);
              (q != [] && q[0] == 2) ==>
                cells == ClearedGrid(old(cells), columns, old(ClearedCell())) &&
                Regs() == old(Regs()).(cursor := old(cursor).(x := 0, y := 0), parser := FreshParser,
                                       pen := DefaultPen.(reversed := old(modes.screenReverse))) &&
                forall k :: 0 <= k < dirty.Length ==> dirty[k]
      ensures var q := old(parser.csArg);
              (q != [] && q[0] != 0 && q[0] != 1 && q[0] != 2) ==>
                cells == old(cells) && Regs() == old(Regs()) && dirty[..] == old(dirty[..])
      ensures EdEffect(old(cells), old(Regs()), old(dirty[..]), cells, Regs().(parser := old(parser)), dirty[..])
    {
      if parser.csArg == [] || parser.csArg[0] == 0 {
        EraseBelowCursor();
      } else if parser.csArg[0] == 1 {
        EraseAboveCursor();
      } else if parser.csArg[0] == 2 {
        ClearAll();
      }
    }

    /** handleControlEl: the same choice for the cursor row alone: 0 or none
        from the cursor to the end of the row, 1 from its start to the cursor
        (at most the last visible column), 2 the whole row. */
    method HandleControlEl()
      requires Valid()
      modifies this, dirty
      ensures Valid() && Regs() == old(Regs())
      ensures var q := old(parser.csArg);
              var y, x := old(cursor.y), old(cursor.x);
              var s := if q == [] || q[0] == 0 then x else 0;
              var e := if q == [] || q[0] == 0 || q[0] == 2 then columns - 1
                       else if q[0] == 1 then (if x < columns then x else columns - 1)
                       else -2;
              cells == old(cells)[y := ClearSpan(old(cells)[y], s, e, old(ClearedCell()))] &&
              forall k :: 0 <= k < dirty.Length ==> dirty[k] == (old(dirty[k]) || Idx(y, s) <= k <= Idx(y, e))
      ensures ElEffect(old(cells), old(Regs()), old(dirty[..]), cells, Regs().(parser := old(parser)), dirty[..])
    {
      IndexBound(cursor.y, columns - 1, rows, columns);
      if parser.csArg == [] || parser.csArg[0] == 0 {
        ClearRow(cursor.y, cursor.x, columns - 1);
      } else if parser.csArg[0] == 1 {
        IndexBound(cursor.y, if cursor.x < columns then cursor.x else columns - 1, rows, columns);
        ClearRow(cursor.y, 0, if cursor.x < columns then cursor.x else columns - 1);
      } else if parser.csArg[0] == 2 {
        ClearRow(cursor.y, 0, PositionNotFound);
      } else {
        assert old(cells)[cursor.y] == ClearSpan(old(cells)[cursor.y], 0, -2, old(ClearedCell()));
      }
    }

    /** handleControlIl: the count is popped; that many times the region's
        bottom row is cleared and re-enters at the cursor row while the rows
        in between move down; then every index from the cursor row on is
        dirty. With the cursor below the region nothing moves (see the
        finding on IL and DL). */
    method HandleControlIl()
      requires Valid()
      modifies this, dirty
      ensures Valid()
      ensures var y, e := old(cursor.y), old(cursor.scrollEnd);
              cells == if y <= e then InsertLines(old(cells), y, e, Csi.PopLineCount(old(parser.csArg)).count,
                                                  columns, old(ClearedCell()))
                       else old(cells)
      ensures Regs() == old(Regs()).(parser := old(parser).(csArg := Csi.PopLineCount(old(parser.csArg)).rest))
      ensures forall k :: 0 <= k < dirty.Length ==>
                dirty[k] == (old(dirty[k]) || (old(cursor.y) <= old(cursor.scrollEnd) && k >= Idx(old(cursor.y), 0)))
      ensures LinesEffect(true, old(cells), old(Regs()), old(dirty[..]), cells, Regs().(parser := old(parser)), dirty[..])
    {
      var n := PopLineCount();
      if cursor.y <= cursor.scrollEnd {
        InsertLinesLoop(n);
        MarkRowsBelow(cursor.y, cursor.scrollEnd);
      }
    }

    /** handleControlDl: the mirror image of IL: the cursor row is cleared
        and re-enters at the region's bottom while the rows below it move
        up, `n` times. */
    method HandleControlDl()
      requires Valid()
      modifies this, dirty
      ensures Valid()
      ensures var y, e := old(cursor.y), old(cursor.scrollEnd);
              cells == if y <= e then DeleteLines(old(cells), y, e, Csi.PopLineCount(old(parser.csArg)).count,
                                                  columns, old(ClearedCell()))
                       else old(cells)
      ensures Regs() == old(Regs()).(parser := old(parser).(csArg := Csi.PopLineCount(old(parser.csArg)).rest))
      ensures forall k :: 0 <= k < dirty.Length ==>
                dirty[k] == (old(dirty[k]) || (old(cursor.y) <= old(cursor.scrollEnd) && k >= Idx(old(cursor.y), 0)))
      ensures LinesEffect(false, old(cells), old(Regs()), old(dirty[..]), cells, Regs().(parser := old(parser)), dirty[..])
    {
      var n := PopLineCount();
      if cursor.y <= cursor.scrollEnd {
        DeleteLinesLoop(n);
        MarkRowsBelow(cursor.y, cursor.scrollEnd);
      }
    }

    /** The line loop of IL: clear the region's bottom row, rotate it in at
        the cursor row. */
    method InsertLinesLoop(n: int)
      requires Valid() && cursor.y <= cursor.scrollEnd && n >= 0
      modifies this, dirty
      ensures Valid() && Regs() == old(Regs())
      ensures cells == InsertLines(old(cells), cursor.y, cursor.scrollEnd, n, columns, old(ClearedCell()))
      ensures forall k :: 0 <= k < dirty.Length ==>
                dirty[k] == (old(dirty[k]) || (n > 0 && Idx(cursor.scrollEnd, 0) <= k <= Idx(cursor.scrollEnd, columns - 1)))
    {
      var y, e := cursor.y, cursor.scrollEnd;
      ghost var blank := ClearedCell();
      IndexBound(e, columns - 1, rows, columns);
      var l := 0;
      while l < n
        invariant 0 <= l <= n
        invariant Valid() && Regs() == old(Regs())
        invariant cells == InsertLines(old(cells), y, e, l, columns, blank)
        invariant forall k :: 0 <= k < dirty.Length ==>
                    dirty[k] == (old(dirty[k]) || (l > 0 && Idx(e, 0) <= k <= Idx(e, columns - 1)))
      {
        assert ClearedCell() == blank;
        ScrollRegionDown(y, e);
        l := l + 1;
      }
    }

    /** The line loop of DL: clear the cursor row, rotate it in at the
        region's bottom. */
    method DeleteLinesLoop(n: int)
      requires Valid() && cursor.y <= cursor.scrollEnd && n >= 0
      modifies this, dirty
      ensures Valid() && Regs() == old(Regs())
      ensures cells == DeleteLines(old(cells), cursor.y, cursor.scrollEnd, n, columns, old(ClearedCell()))
      ensures forall k :: 0 <= k < dirty.Length ==>
                dirty[k] == (old(dirty[k]) || (n > 0 && Idx(cursor.y, 0) <= k <= Idx(cursor.y, columns - 1)))
    {
      var y, e := cursor.y, cursor.scrollEnd;
      ghost var blank := ClearedCell();
      IndexBound(y, columns - 1, rows, columns);
      var l := 0;
      while l < n
        invariant 0 <= l <= n
        invariant Valid() && Regs() == old(Regs())
        invariant cells == DeleteLines(old(cells), y, e, l, columns, blank)
        invariant forall k :: 0 <= k < dirty.Length ==>
                    dirty[k] == (old(dirty[k]) || (l > 0 && Idx(y, 0) <= k <= Idx(y, columns - 1)))
      {
        DeleteOneLine(y, e, old(cells), l, blank);
        l := l + 1;
      }
    }

    /** One turn of DL's line loop, stated against DeleteLines. */
    method DeleteOneLine(y: int, e: int, ghost g0: seq<seq<Cell>>, ghost l: nat, ghost blank: Cell)
      requires Valid() && 0 <= y <= e < rows && |g0| == rows && ClearedCell() == blank
      requires cells == DeleteLines(g0, y, e, l, columns, blank)
      modifies this, dirty
      ensures Valid() && Regs() == old(Regs()) && ClearedCell() == blank
      ensures cells == DeleteLines(g0, y, e, l + 1, columns, blank)
      ensures forall k :: 0 <= k < dirty.Length ==> dirty[k] == (old(dirty[k]) || Idx(y, 0) <= k <= Idx(y, columns - 1))
    {
      ScrollRegionUp(y, e);
    }

    /** The closing loop of IL and DL: setDirtyUnder for every row of
        `from..to`, which leaves every index from row `from` on dirty. */
    method MarkRowsBelow(from: int, to: int)
      requires Valid() && 0 <= from <= to
      modifies dirty
      ensures forall k :: 0 <= k < dirty.Length ==> dirty[k] == (old(dirty[k]) || k >= Idx(from, 0))
    {
      var l := from;
      while l <= to
        invariant from <= l <= to + 1
        invariant forall k :: 0 <= k < dirty.Length ==> dirty[k] == (old(dirty[k]) || (l > from && k >= Idx(from, 0)))
      {
        MulMonotone(from, l, columns);
        SetDirtyUnder(l, true);
        l := l + 1;
      }
    }

    /** handleControlDch: the count (popped only when it is the sole value,
        1 otherwise) of cells at the cursor deleted: the cells after them
        move left and blanks with the current background (not reversed)
        fill the end of the visible row. Every visible cell from the cursor
        on is marked dirty. */
    method HandleControlDch()
      requires Valid()
      modifies this, dirty
      ensures Valid()
      ensures var q := old(parser.csArg);
              var n := if |q| == 1 then Csi.PopLineCount(q).count else 1;
              cells == old(cells)[old(cursor.y) := DeleteChars(old(cells)[old(cursor.y)], old(cursor.x), n,
                                                               columns - 1, Blank(old(pen.bg), false))]
      ensures var q := old(parser.csArg);
              Regs() == old(Regs()).(parser := old(parser).(csArg := if |q| == 1 then Csi.PopLineCount(q).rest else q))
      ensures forall k :: 0 <= k < dirty.Length ==>
                dirty[k] == (old(dirty[k]) || Idx(old(cursor.y), old(cursor.x)) <= k <= Idx(old(cursor.y), columns - 1))
      ensures DchEffect(old(cells), old(Regs()), old(dirty[..]), cells, Regs().(parser := old(parser)), dirty[..])
    {
      var n := 1;
      if |parser.csArg| == 1 {
        n := PopLineCount();
      }
      DeleteCharsLoop(n);
    }

    /** The column loop of DCH. */
    method DeleteCharsLoop(n: int)
      requires Valid() && n >= 1
      modifies this, dirty
      ensures Valid() && Regs() == old(Regs())
      ensures cells == old(cells)[cursor.y := DeleteChars(old(cells)[cursor.y], cursor.x, n, columns - 1, Blank(pen.bg, false))]
      ensures forall k :: 0 <= k < dirty.Length ==>
                dirty[k] == (old(dirty[k]) || Idx(cursor.y, cursor.x) <= k <= Idx(cursor.y, columns - 1))
    {
      var y := cursor.y;
      var blank := Blank(pen.bg, false);
      var row := cells[y];
      var x := cursor.x;
      while x <= columns - 1
        modifies dirty
        invariant cursor.x <= x && (x <= columns || x == cursor.x)
        invariant |row| == columns + 1
        invariant forall z :: cursor.x <= z < x ==> row[z] == DeleteChars(cells[y], cursor.x, n, columns - 1, blank)[z]
        invariant forall z :: 0 <= z <= columns && (z < cursor.x || z >= x) ==> row[z] == cells[y][z]
        invariant forall k :: 0 <= k < dirty.Length ==>
                    dirty[k] == (old(dirty[k]) || Idx(y, cursor.x) <= k < Idx(y, x))
      {
        IndexBound(y, x, rows, columns);
        if x <= columns - 1 - n {
          row := row[x := row[x + n]];
        } else {
          row := row[x := blank];
        }
        dirty[Idx(y, x)] := true;
        x := x + 1;
      }
      assert row == DeleteChars(cells[y], cursor.x, n, columns - 1, blank);
      cells := cells[y := row];
    }

    // -------------------------------------------------------------------
    // Control sequences: modes
    // -------------------------------------------------------------------

    /** handleControlSm (`on` true) and handleControlRm: the queue is read as
        a run of modes; DECCOLM clears the screen afterwards (SM only
        outside origin mode, which the run has just turned off) and puts
        the cursor home. */
    method HandleControlMode(on: bool)
      requires Valid()
      modifies this, dirty
      ensures Valid()
      ensures var r := RunModes(ModeRun(old(modes), false, false), old(parser.csArg), on);
              modes == r.modes &&
              cells == (if r.clear then ClearedGrid(old(cells), columns, old(ClearedCell()))
                        else if r.flip then SwappedGrid(old(cells), columns) else old(cells))
      ensures var r := RunModes(ModeRun(old(modes), false, false), old(parser.csArg), on);
              r.clear ==>
                Regs() == old(Regs()).(parser := FreshParser, modes := r.modes,
                                       pen := DefaultPen.(reversed := r.modes.screenReverse),
                                       cursor := old(cursor).(x := 0, y := 0, scrollBegin := 0, scrollEnd := rows - 1)) &&
                forall k :: 0 <= k < dirty.Length ==> dirty[k]
      ensures var r := RunModes(ModeRun(old(modes), false, false), old(parser.csArg), on);
              !r.clear ==>
                Regs() == old(Regs()).(parser := old(parser).(csArg := []), modes := r.modes,
                                       pen := if r.flip then old(pen).(reversed := !old(pen.reversed)) else old(pen)) &&
                forall k :: 0 <= k < dirty.Length ==> dirty[k] == (old(dirty[k]) || (r.flip && k % columns < columns - 1))
      ensures ModeEffect(on, old(cells), old(Regs()), old(dirty[..]), cells, Regs().(parser := old(parser)), dirty[..])
    {
      RunModesClear(ModeRun(old(modes), false, false), old(parser.csArg), on);
      var clear := RunModeQueue(on);
      if clear && !(on && modes.originRelative) {
        ClearAll();
        cursor := cursor.(x := 0, y := 0);
      }
    }

    /** The queue loop of handleControlSm and handleControlRm: every value
        dequeued; a -1 marker followed by exactly one value makes that value
        a private mode. The result says whether DECCOLM asked for a clear. */
    method RunModeQueue(on: bool) returns (clear: bool)
      requires Valid()
      modifies this, dirty
      ensures Valid()
      ensures var r := RunModes(ModeRun(old(modes), false, false), old(parser.csArg), on);
              clear == r.clear && modes == r.modes &&
              cells == (if r.flip then SwappedGrid(old(cells), columns) else old(cells)) &&
              Regs() == old(Regs()).(parser := old(parser).(csArg := []), modes := r.modes,
                                     pen := if r.flip then old(pen).(reversed := !old(pen.reversed)) else old(pen),
                                     cursor := if r.clear then old(cursor).(scrollBegin := 0, scrollEnd := rows - 1)
                                               else old(cursor))
      ensures var r := RunModes(ModeRun(old(modes), false, false), old(parser.csArg), on);
              forall k :: 0 <= k < dirty.Length ==> dirty[k] == (old(dirty[k]) || (r.flip && k % columns < columns - 1))
    {
      ApplyAnsiModes(on);
      clear := false;
      if parser.csArg != [] {
        var q := parser.csArg[1];
        parser := parser.(csArg := []);
        clear := PrivateModeStep(q, on);
      }
    }

    /** The part of the queue loop before a private mode: every value
        dequeued and applied as an ANSI mode, until the queue is empty or
        holds just a -1 marker and one value. */
    method ApplyAnsiModes(on: bool)
      requires Valid()
      modifies this
      ensures Valid() && cells == old(cells)
      ensures parser.csArg == [] || (|parser.csArg| == 2 && parser.csArg[0] == -1)
      ensures RunModes(ModeRun(modes, false, false), parser.csArg, on) ==
              RunModes(ModeRun(old(modes), false, false), old(parser.csArg), on)
      ensures Regs() == old(Regs()).(parser := old(parser).(csArg := parser.csArg), modes := modes)
    {
      while parser.csArg != [] && !(parser.csArg[0] == -1 && |parser.csArg| == 2)
        invariant Valid() && cells == old(cells)
        invariant RunModes(ModeRun(modes, false, false), parser.csArg, on) ==
                  RunModes(ModeRun(old(modes), false, false), old(parser.csArg), on)
        invariant Regs() == old(Regs()).(parser := old(parser).(csArg := parser.csArg), modes := modes)
        decreases |parser.csArg|
      {
        var p := parser.csArg[0];
        parser := parser.(csArg := parser.csArg[1..]);
        if p != -1 {
          modes := AnsiMode(modes, p, on);
        }
      }
    }

    /** One private mode of SM or RM: DECCOLM (3) drops origin mode, resets
        the region and asks for a clear; DECSCNM (5), when it changes the
        screen's polarity, flips the pen's reverse flag and reverses the
        whole screen; DECOM (6) and DECAWM (7) set their flag. */
    method PrivateModeStep(q: int, on: bool) returns (clear: bool)
      requires Valid()
      modifies this, dirty
      ensures Valid()
      ensures var r := PrivateMode(ModeRun(old(modes), false, false), q, on);
              clear == r.clear && modes == r.modes &&
              cells == (if r.flip then SwappedGrid(old(cells), columns) else old(cells)) &&
              Regs() == old(Regs()).(modes := r.modes,
                                     pen := if r.flip then old(pen).(reversed := !old(pen.reversed)) else old(pen),
                                     cursor := if r.clear then old(cursor).(scrollBegin := 0, scrollEnd := rows - 1)
                                               else old(cursor))
      ensures var r := PrivateMode(ModeRun(old(modes), false, false), q, on);
              forall k :: 0 <= k < dirty.Length ==> dirty[k] == (old(dirty[k]) || (r.flip && k % columns < columns - 1))
    {
      clear := false;
      if q == 3 {
        clear := true;
        modes := modes.(originRelative := false);
        cursor := cursor.(scrollBegin := 0, scrollEnd := rows - 1);
      } else if q == 5 {
        if modes.screenReverse != on {
          modes := modes.(screenReverse := on);
          pen := pen.(reversed := !pen.reversed);
          ReverseAll();
        }
      } else if q == 6 {
        modes := modes.(originRelative := on);
      } else if q == 7 {
        modes := modes.(autowrap := on);
      }
    }

    // -------------------------------------------------------------------
    // Control state
    // -------------------------------------------------------------------

    /** The pending parameter, if any digit was read, joins the queue and
        the accumulator and buffer are reset. */
    method FlushParameter()
      requires Valid()
      modifies this
      ensures Valid() && cells == old(cells)
      ensures Regs() == old(Regs()).(parser := old(parser).(csArg := Flushed(old(parser)), csTemp := 0, csBuf := []))
    {
      if parser.csBuf != [] {
        parser := parser.(csArg := parser.csArg + [AsInt32(parser.csTemp)], csTemp := 0, csBuf := []);
      }
    }

    /** What an editing final `c` (ICH, ED, EL, IL, DL, DCH, SM or RM) does,
        as its handler states it, taking grid `g0`, registers `r0` and map
        `d0` to `g1`, `d1` and registers `kept`, whose parser is left as in
        `r0` (the caller empties the queue). */
    ghost predicate EditingEffect(c: Byte, g0: seq<seq<Cell>>, r0: Registers, d0: seq<bool>,
                                  g1: seq<seq<Cell>>, kept: Registers, d1: seq<bool>)
      requires rows >= 1 && columns >= 2 && |g0| == rows && CursorInside(r0.cursor, rows, columns)
    {
      |d1| == |d0| &&
      if c == CsiIch then IchEffect(g0, r0, d0, g1, kept, d1)
      else if c == CsiEd then EdEffect(g0, r0, d0, g1, kept, d1)
      else if c == CsiEl then ElEffect(g0, r0, d0, g1, kept, d1)
      else if c == CsiIl || c == CsiDl then LinesEffect(c == CsiIl, g0, r0, d0, g1, kept, d1)
      else if c == CsiDch then DchEffect(g0, r0, d0, g1, kept, d1)
      else if c == CsiSm || c == CsiRm then ModeEffect(c == CsiSm, g0, r0, d0, g1, kept, d1)
      else g1 == g0 && kept == r0 && d1 == d0
    }

    /** ICH: the cursor row gets `InsertChars` of the popped count, and the
        visible cells from the cursor on are marked. */
    ghost predicate IchEffect(g0: seq<seq<Cell>>, r0: Registers, d0: seq<bool>,
                              g1: seq<seq<Cell>>, kept: Registers, d1: seq<bool>)
      requires rows >= 1 && columns >= 2 && |g0| == rows && CursorInside(r0.cursor, rows, columns) && |d1| == |d0|
    {
      var y, x := r0.cursor.y, r0.cursor.x;
      g1 == g0[y := InsertChars(g0[y], x, Csi.PopLineCount(r0.parser.csArg).count, columns,
                                Blank(r0.pen.bg, r0.pen.reversed))] &&
      kept == r0 &&
      forall k :: 0 <= k < |d1| ==> d1[k] == (d0[k] || Idx(y, x) <= k <= Idx(y, columns - 1))
    }

    /** ED: the queue head (not consumed) picks ED 0, ED 1, ED 2 (clearAll)
        or nothing. */
    ghost predicate EdEffect(g0: seq<seq<Cell>>, r0: Registers, d0: seq<bool>,
                             g1: seq<seq<Cell>>, kept: Registers, d1: seq<bool>)
      requires rows >= 1 && columns >= 2 && |g0| == rows && CursorInside(r0.cursor, rows, columns) && |d1| == |d0|
    {
      var q, y, x := r0.parser.csArg, r0.cursor.y, r0.cursor.x;
      var blank := Blank(r0.pen.bg, r0.pen.reversed);
      if q == [] || q[0] == 0 then
        g1 == EraseBelow(g0, y, x, columns, blank) && kept == r0 &&
        forall k :: 0 <= k < |d1| ==> d1[k] == (d0[k] || Idx(y, x) <= k)
      else if q[0] == 1 then
        g1 == EraseAbove(g0, y, x, columns, blank) && kept == r0 &&
        forall k :: 0 <= k < |d1| ==> d1[k] == (d0[k] || k <= Idx(y, if x < columns then x else columns - 1))
      else if q[0] == 2 then
        g1 == ClearedGrid(g0, columns, blank) &&
        kept == r0.(cursor := r0.cursor.(x := 0, y := 0), pen := DefaultPen.(reversed := r0.modes.screenReverse)) &&
        forall k :: 0 <= k < |d1| ==> d1[k]
      else
        g1 == g0 && kept == r0 && d1 == d0
    }

    /** EL: the same choice on the cursor row alone. */
    ghost predicate ElEffect(g0: seq<seq<Cell>>, r0: Registers, d0: seq<bool>,
                             g1: seq<seq<Cell>>, kept: Registers, d1: seq<bool>)
      requires rows >= 1 && columns >= 2 && |g0| == rows && CursorInside(r0.cursor, rows, columns) && |d1| == |d0|
    {
      var q, y, x := r0.parser.csArg, r0.cursor.y, r0.cursor.x;
      var s := if q == [] || q[0] == 0 then x else 0;
      var l := if q == [] || q[0] == 0 || q[0] == 2 then columns - 1
               else if q[0] == 1 then (if x < columns then x else columns - 1)
               else -2;
      g1 == g0[y := ClearSpan(g0[y], s, l, Blank(r0.pen.bg, r0.pen.reversed))] && kept == r0 &&
      forall k :: 0 <= k < |d1| ==> d1[k] == (d0[k] || Idx(y, s) <= k <= Idx(y, l))
    }

    /** IL (`insert`) and DL: `InsertLines` or `DeleteLines` of the popped
        count when the cursor is in the region, and every index from the
        cursor row on marked; nothing below the region. */
    ghost predicate LinesEffect(insert: bool, g0: seq<seq<Cell>>, r0: Registers, d0: seq<bool>,
                                g1: seq<seq<Cell>>, kept: Registers, d1: seq<bool>)
      requires rows >= 1 && columns >= 2 && |g0| == rows && CursorInside(r0.cursor, rows, columns) && |d1| == |d0|
    {
      var y, e := r0.cursor.y, r0.cursor.scrollEnd;
      var n := Csi.PopLineCount(r0.parser.csArg).count;
      var blank := Blank(r0.pen.bg, r0.pen.reversed);
      g1 == (if y > e then g0
             else if insert then InsertLines(g0, y, e, n, columns, blank)
             else DeleteLines(g0, y, e, n, columns, blank)) &&
      kept == r0 &&
      forall k :: 0 <= k < |d1| ==> d1[k] == (d0[k] || (y <= e && k >= Idx(y, 0)))
    }

    /** DCH: the count (only when it is the sole value) deleted at the
        cursor, with a background-only blank. */
    ghost predicate DchEffect(g0: seq<seq<Cell>>, r0: Registers, d0: seq<bool>,
                              g1: seq<seq<Cell>>, kept: Registers, d1: seq<bool>)
      requires rows >= 1 && columns >= 2 && |g0| == rows && CursorInside(r0.cursor, rows, columns) && |d1| == |d0|
    {
      var q, y, x := r0.parser.csArg, r0.cursor.y, r0.cursor.x;
      g1 == g0[y := DeleteChars(g0[y], x, if |q| == 1 then Csi.PopLineCount(q).count else 1,
                                columns - 1, Blank(r0.pen.bg, false))] &&
      kept == r0 &&
      forall k :: 0 <= k < |d1| ==> d1[k] == (d0[k] || Idx(y, x) <= k <= Idx(y, columns - 1))
    }

    /** SM (`on`) and RM: the mode run of the queue, then the DECCOLM clear
        or the DECSCNM reverse. */
    ghost predicate ModeEffect(on: bool, g0: seq<seq<Cell>>, r0: Registers, d0: seq<bool>,
                               g1: seq<seq<Cell>>, kept: Registers, d1: seq<bool>)
      requires rows >= 1 && columns >= 2 && |g0| == rows && CursorInside(r0.cursor, rows, columns) && |d1| == |d0|
    {
      var r := RunModes(ModeRun(r0.modes, false, false), r0.parser.csArg, on);
      if r.clear then
        g1 == ClearedGrid(g0, columns, Blank(r0.pen.bg, r0.pen.reversed)) &&
        kept == r0.(modes := r.modes, pen := DefaultPen.(reversed := r.modes.screenReverse),
                    cursor := r0.cursor.(x := 0, y := 0, scrollBegin := 0, scrollEnd := rows - 1)) &&
        forall k :: 0 <= k < |d1| ==> d1[k]
      else
        g1 == (if r.flip then SwappedGrid(g0, columns) else g0) &&
        kept == r0.(modes := r.modes, pen := if r.flip then r0.pen.(reversed := !r0.pen.reversed) else r0.pen) &&
        forall k :: 0 <= k < |d1| ==> d1[k] == (d0[k] || (r.flip && k % columns < columns - 1))
    }

    /** What a final that leaves the grid alone does to the registers, as
        its handler states it, from `r0` to `kept`, whose parser is left as
        in `r0`: CUU, CUD, CNL, CPL, CUF and CUB move by the popped count;
        CHA, HPA, HPR, HPB, VPA, VPR and VPB jump through the clamp; CUP and
        HVP go to their target; DA and DSR reply; SGR sets the rendition;
        DECSTBM sets the region; SCP and RCP save and restore. Every other
        final (REP, TBC, unknown bytes) changes nothing. */
    ghost predicate MotionEffect(c: Byte, r0: Registers, kept: Registers)
      requires rows >= 1 && columns >= 2 && CursorInside(r0.cursor, rows, columns)
    {
      var q, c0 := r0.parser.csArg, r0.cursor;
      var n := Csi.PopLineCount(q).count;
      if c == CsiCuu || c == CsiCud || c == CsiCnl || c == CsiCpl || c == CsiCuf || c == CsiCub then
        kept == r0.(cursor := RelativeMove(c, c0, n, r0.modes.originRelative))
      else if c == CsiCha || c == CsiHpa || c == CsiHpr || c == CsiHpb ||
              c == CsiVpa || c == CsiVpr || c == CsiVpb then
        kept == r0.(cursor := JumpMove(c, c0, n))
      else if c == CsiCup || c == CsiHvp then
        var pos := CupTarget(q, r0.modes.originRelative, c0.scrollBegin, c0.scrollEnd, rows, columns);
        kept == r0.(cursor := c0.(x := pos.0, y := pos.1))
      else if c == CsiDa then
        kept == r0.(sent := r0.sent + if q == [] || q == [0] then [DaReply(standard)] else [])
      else if c == CsiSgr then
        kept == r0.(pen := Sgr(r0.pen, r0.modes.screenReverse, q))
      else if c == CsiDsr then
        kept == r0.(sent := r0.sent + if q == [5] then [DsrOkReply]
                                      else if q == [6] then [DsrCursorReport(c0.x, c0.y)] else [])
      else if c == CsiDecstbm then
        var region := Decstbm(q, c0.scrollBegin, c0.scrollEnd, rows);
        kept == r0.(cursor := c0.(scrollBegin := region.0, scrollEnd := region.1, x := 0, y := region.0))
      else if c == CsiScp then
        kept == r0.(cursor := c0.(savedX := c0.x, savedY := c0.y))
      else if c == CsiRcp then
        kept == r0.(cursor := Restored(c0))
      else
        kept == r0
    }

    /** CUU, CUD, CNL, CPL, CUF and CUB by `n`. */
    function RelativeMove(c: Byte, c0: Cursor, n: int, originRelative: bool): (r: Cursor)
      requires CursorInside(c0, rows, columns) && columns >= 1 && n >= 1
      ensures r.savedX == c0.savedX && r.savedY == c0.savedY && r.wrapped == c0.wrapped
      ensures r.scrollBegin == c0.scrollBegin && r.scrollEnd == c0.scrollEnd
      ensures c == CsiCuu || c == CsiCud ==> r.x == c0.x
      ensures c == CsiCuf || c == CsiCub ==> r.y == c0.y
    {
      if c == CsiCuu then c0.(y := CursorUp(c0.y, n, originRelative, c0.scrollBegin, rows))
      else if c == CsiCud then c0.(y := CursorDown(c0.y, n, originRelative, c0.scrollEnd, rows))
      else if c == CsiCnl || c == CsiCpl then c0.(x := 0, y := CursorNextLine(c0.y, n, if c == CsiCnl then 1 else -1, rows))
      else if c == CsiCuf then c0.(x := CursorForward(c0.x, n, columns))
      else c0.(x := CursorBack(c0.x, n, columns))
    }

    /** CHA, HPA, HPR, HPB, VPA, VPR and VPB by `n`, through moveCursorTo. */
    function JumpMove(c: Byte, c0: Cursor, n: int): (r: Cursor)
      requires rows >= 1 && columns >= 1
      ensures 0 <= r.x < columns && 0 <= r.y < rows
      ensures r == c0.(x := r.x, y := r.y)
    {
      var x := if c == CsiCha || c == CsiHpa then n - 1
               else if c == CsiHpr then c0.x + n else if c == CsiHpb then c0.x - n else c0.x;
      var y := if c == CsiVpa then n - 1 else if c == CsiVpr then c0.y + n else if c == CsiVpb then c0.y - n else c0.y;
      c0.(x := ClampTo(x, columns), y := ClampTo(y, rows))
    }

    /** The registers at the start of a final's handler: the pending
        parameter flushed into the queue. */
    ghost function FlushedRegs(): Registers
      requires Valid()
      reads this
    {
      Regs().(parser := parser.(csArg := Flushed(parser), csTemp := 0, csBuf := []))
    }

    /** handleControlNonSimpleShiftingInputs: the final byte of a control
        sequence. The pending parameter is flushed, then the final's
        handler runs; REP, TBC and unknown finals do nothing more. Only the
        editing finals touch the grid, only DA and DSR reply, only SM and
        RM change modes, and the view is never told anything. */
    method HandleControlNonSimpleShiftingInputs(c: Byte)
      requires Valid()
      modifies this, dirty
      ensures Valid() && parser.csBuf == [] && parser.csTemp == 0
      ensures parser.state == old(parser.state) || parser == FreshParser
      ensures !EditsGrid(c) ==> cells == old(cells) && dirty[..] == old(dirty[..])
      ensures c != CsiDa && c != CsiDsr ==> sent == old(sent)
      ensures old(sent) <= sent
      ensures c != CsiSm && c != CsiRm ==> modes == old(modes)
      ensures events == old(events) && hasMessage == old(hasMessage)
      ensures c == CsiRep || c == CsiTbc ==>
                Regs() == old(Regs()).(parser := old(parser).(csArg := Flushed(old(parser)), csTemp := 0, csBuf := []))
      ensures EditsGrid(c) ==>
                EditingEffect(c, old(cells), old(FlushedRegs()), old(dirty[..]), cells,
                              Regs().(parser := old(FlushedRegs()).parser), dirty[..])
      ensures !EditsGrid(c) ==> MotionEffect(c, old(FlushedRegs()), Regs().(parser := old(FlushedRegs()).parser))
    {
      FlushParameter();
      if EditsGrid(c) {
        HandleControlEditing(c);
      } else {
        HandleControlMotionAndReports(c);
      }
    }

    /** The finals that edit the grid: ICH, ED, EL, IL, DL, DCH, SM, RM. */
    method HandleControlEditing(c: Byte)
      requires Valid() && EditsGrid(c) && parser.csBuf == [] && parser.csTemp == 0
      modifies this, dirty
      ensures Valid() && parser.csBuf == [] && parser.csTemp == 0
      ensures parser.state == old(parser.state) || parser == FreshParser
      ensures sent == old(sent) && events == old(events) && hasMessage == old(hasMessage)
      ensures c != CsiSm && c != CsiRm ==> modes == old(modes)
      ensures EditingEffect(c, old(cells), old(Regs()), old(dirty[..]), cells, Regs().(parser := old(parser)), dirty[..])
    {
      if c == CsiIch {
        HandleControlIch();
      } else if c == CsiEd {
        HandleControlEd();
      } else if c == CsiEl {
        HandleControlEl();
      } else if c == CsiIl {
        HandleControlIl();
      } else if c == CsiDl {
        HandleControlDl();
      } else if c == CsiDch {
        HandleControlDch();
      } else {
        HandleControlMode(c == CsiSm);
      }
    }

    /** The finals that leave the grid alone: cursor motion, CUP, DA, SGR,
        DSR, DECSTBM, SCP and RCP; REP, TBC and unknown finals do nothing. */
    method HandleControlMotionAndReports(c: Byte)
      requires Valid() && !EditsGrid(c) && parser.csBuf == [] && parser.csTemp == 0
      modifies this
      ensures Valid() && cells == old(cells) && parser.csBuf == [] && parser.csTemp == 0
      ensures parser.state == old(parser.state)
      ensures c != CsiDa && c != CsiDsr ==> sent == old(sent)
      ensures old(sent) <= sent
      ensures modes == old(modes) && events == old(events) && hasMessage == old(hasMessage)
      ensures c == CsiRep || c == CsiTbc ==> Regs() == old(Regs())
      ensures MotionEffect(c, old(Regs()), Regs().(parser := old(parser)))
    {
      if c == CsiCuu || c == CsiCud || c == CsiCnl || c == CsiCpl {
        HandleControlCursorVertical(c);
      } else if c == CsiCuf || c == CsiCub {
        HandleControlCursorHorizontal(c);
      } else if c == CsiCha || c == CsiHpa || c == CsiHpr || c == CsiHpb ||
                c == CsiVpa || c == CsiVpr || c == CsiVpb {
        HandleControlCursorJump(c);
      } else if c == CsiCup || c == CsiHvp {
        HandleControlCup();
      } else if c == CsiDa {
        HandleControlDa();
      } else if c == CsiSgr {
        HandleControlSgr();
      } else if c == CsiDsr {
        HandleControlDsr();
      } else if c == CsiDecstbm {
        HandleControlDecstbm();
      } else if c == CsiScp || c == CsiRcp {
        HandleControlSaveRestore(c);
      }
    }

    /** handleControlDataInput: one byte inside a control sequence.
        Parameter bytes feed the accumulator and the queue; BS drops the
        queue head while a parameter is pending (see the finding on BS); VT
        is a line feed and CR returns to column 0, all staying in the
        sequence. Any other byte is the final: its handler runs and the
        parser returns to Normal with an empty queue. */
    method HandleControlDataInput(c: Byte)
      requires Valid() && parser.state == Control
      modifies this, dirty
      ensures Valid() && parser.state == NextState(Control, c)
      ensures ParameterByte(c) ==>
                cells == old(cells) && dirty[..] == old(dirty[..]) &&
                Regs() == old(Regs()).(parser := ParamStep(old(parser), c))
      ensures c == BS ==>
                cells == old(cells) && dirty[..] == old(dirty[..]) &&
                Regs() == old(Regs()).(parser := ControlBackspace(old(parser)))
      ensures c == VT ==>
                cells == DownGrid(old(cells), old(cursor), columns, old(ClearedCell())) &&
                Regs() == old(Regs()).(cursor := old(cursor).(x := if old(modes.lnm) then old(cursor.x) else 0,
                                                              y := DownY(old(cursor), rows)))
      ensures c == VT ==>
                if old(cursor.y) == old(cursor.scrollEnd) then forall k :: 0 <= k < dirty.Length ==> dirty[k]
                else dirty[..] == old(dirty[..])
      ensures c == CR ==>
                cells == old(cells) && dirty[..] == old(dirty[..]) &&
                Regs() == old(Regs()).(cursor := old(cursor).(x := 0))
      ensures !StaysInControl(c) ==> parser == FreshParser && events == old(events) && old(sent) <= sent
      ensures !StaysInControl(c) && !EditsGrid(c) ==> cells == old(cells) && dirty[..] == old(dirty[..])
      ensures !StaysInControl(c) && EditsGrid(c) ==>
                EditingEffect(c, old(cells), old(FlushedRegs()), old(dirty[..]), cells,
                              Regs().(parser := old(FlushedRegs()).parser), dirty[..])
      ensures !StaysInControl(c) && !EditsGrid(c) ==>
                MotionEffect(c, old(FlushedRegs()), Regs().(parser := old(FlushedRegs()).parser))
    {
      if '0' as int <= c <= '?' as int {
        HandleParameterByte(c);
      } else if c == BS {
        if parser.csBuf != [] && parser.csArg != [] {
          parser := parser.(csArg := parser.csArg[1..]);
        }
      } else if c == VT {
        LineFeed();
      } else if c == CR {
        cursor := cursor.(x := 0);
      } else {
        HandleControlNonSimpleShiftingInputs(c);
        parser := parser.(csArg := [], state := Normal);
      }
    }

    /** The parameter branch of handleControlDataInput. The buffer has just
        received `c`, so the source's test that it is non-empty before a
        separator is queued always passes. */
    method HandleParameterByte(c: Byte)
      requires Valid() && ParameterByte(c)
      modifies this
      ensures Valid() && cells == old(cells)
      ensures Regs() == old(Regs()).(parser := ParamStep(old(parser), c))
    {
      var buf := parser.csBuf + [c];
      if '0' as int <= c <= '9' as int {
        parser := parser.(csBuf := buf, csTemp := AccumulateDigit(parser.csTemp, c - '0' as int));
      } else if c == '?' as int {
        parser := parser.(csArg := parser.csArg + [-1], csTemp := 0, csBuf := []);
      } else {
        parser := parser.(csArg := parser.csArg + [AsInt32(parser.csTemp)], csTemp := 0, csBuf := []);
      }
    }

    // -------------------------------------------------------------------
    // Feeding a chunk
    // -------------------------------------------------------------------

    /** processIncomingData: every byte of the chunk goes to the handler of
        the parser's state (a byte in the character-set state just returns
        to Normal, and `ESC # 8` consumes two bytes); then every row is
        re-tagged and re-flagged and the view is told the data was
        processed. The parser ends in the state the chunk leads to, replies
        and notifications are only ever appended, and the grid is left
        post-processed. */
    method ProcessIncomingData(bytes: seq<Byte>)
      requires Valid()
      modifies this, dirty
      ensures Valid() && PostProcessed()
      ensures parser.state == StateAfter(old(parser.state), bytes)
      ensures old(sent) <= sent
      ensures |events| > |old(events)| && events[..|old(events)|] == old(events) && events[|events| - 1] == DataProcessed
    {
      var i := 0;
      while i < |bytes|
        invariant 0 <= i <= |bytes| && Valid()
        invariant StateAfter(parser.state, bytes[i..]) == StateAfter(old(parser.state), bytes)
        invariant old(sent) <= sent && old(events) <= events
      {
        var next := StepByte(bytes[i], i, bytes);
        i := next + 1;
      }
      PostProcessRows();
      events := events + [DataProcessed];
    }

    /** One turn of processIncomingData's byte loop; the result is the index
        of the last byte consumed. */
    method StepByte(c: Byte, i: int, bytes: seq<Byte>) returns (next: int)
      requires Valid() && 0 <= i < |bytes| && bytes[i] == c
      modifies this, dirty
      ensures Valid() && i <= next < |bytes|
      ensures StateAfter(parser.state, bytes[next + 1..]) == StateAfter(old(parser.state), bytes[i..])
      ensures old(sent) <= sent && old(events) <= events
    {
      next := i;
      if parser.state == Normal {
        NormalByte(c);
      } else if parser.state == Escape {
        next := EscapeByte(c, i, bytes);
      } else if parser.state == Control {
        ControlByte(c);
      } else {
        parser := parser.(state := Normal);
      }
      assert bytes[i..][0] == c && bytes[i..][1..] == bytes[i + 1..];
      if next == i + 1 {
        assert bytes[i..][2..] == bytes[i + 2..];
      }
    }

    /** The Normal-state handler as StepByte sees it: the state it leaves
        and the replies and events it only adds to. */
    method NormalByte(c: Byte)
      requires Valid() && parser.state == Normal
      modifies this, dirty
      ensures Valid() && parser.state == NextState(Normal, c)
      ensures old(sent) <= sent && old(events) <= events
    {
      HandleNormalDataInput(c);
    }

    /** The Escape-state handler as StepByte sees it. */
    method EscapeByte(c: Byte, i: int, data: seq<Byte>) returns (next: int)
      requires Valid() && parser.state == Escape && 0 <= i < |data| && data[i] == c
      modifies this, dirty
      ensures Valid() && parser.state == NextState(Escape, c)
      ensures next == if c == EscHash && i < |data| - 1 && data[i + 1] == HashDecaln then i + 1 else i
      ensures old(sent) <= sent && old(events) <= events
    {
      next := HandleEscapeDataInput(c, i, data);
    }

    /** The Control-state handler as StepByte sees it. */
    method ControlByte(c: Byte)
      requires Valid() && parser.state == Control
      modifies this, dirty
      ensures Valid() && parser.state == NextState(Control, c)
      ensures old(sent) <= sent && old(events) <= events
    {
      HandleControlDataInput(c);
    }

    /** The closing loop of processIncomingData: each row re-tagged, then
        re-flagged from the row above, top to bottom. Bytes and every other
        attribute are kept; the map only gains dirty cells. */
    method PostProcessRows()
      requires Valid()
      modifies this, dirty
      ensures Valid() && Regs() == old(Regs()) && PostProcessed()
      ensures forall y :: 0 <= y < rows ==>
                cells[y] == Reflag(Retag(old(cells)[y], columns), UrlSeed(cells, y, columns), columns)
      ensures forall k :: 0 <= k < dirty.Length ==> (old(dirty[k]) ==> dirty[k])
    {
      var y := 0;
      while y < rows
        invariant 0 <= y <= rows && Valid() && Regs() == old(Regs())
        invariant TaggedUpTo(cells, old(cells), y, columns)
        invariant forall k :: 0 <= k < dirty.Length ==> (old(dirty[k]) ==> dirty[k])
      {
        PostProcessRow(old(cells), y);
        y := y + 1;
      }
    }

    /** One row of the closing loop: updateDoubleByteStateForRow then
        updateUrlStateForRow. */
    method PostProcessRow(ghost g: seq<seq<Cell>>, y: int)
      requires Valid() && 0 <= y < rows && TaggedUpTo(cells, g, y, columns)
      modifies this, dirty
      ensures Valid() && Regs() == old(Regs()) && TaggedUpTo(cells, g, y + 1, columns)
      ensures forall k :: 0 <= k < dirty.Length ==> (old(dirty[k]) ==> dirty[k])
    {
      UpdateDoubleByteStateForRow(y);
      UpdateUrlStateForRow(y);
      TaggedStep(old(cells), cells, g, y, columns);
    }

    // -------------------------------------------------------------------
    // Reading text back
    // -------------------------------------------------------------------

    /** The visible part of the grid read in flat indices, and the cell a
        visible row and column name. */
    lemma CellAtIdx(y: int, x: int)
      requires Valid() && 0 <= y < rows && 0 <= x < columns
      ensures Wide(cells, columns) && 0 <= Idx(y, x) < rows * columns
      ensures CellAt(cells, columns, Idx(y, x)) == cells[y][x]
    {
      IndexBound(y, x, rows, columns);
      RowColumnOf(y, x, columns);
    }

    /** stringFromIndex: the text of `length` cells from flat index `begin`,
        one newline per row start inside the span, blanks written only before
        a later character, double-byte pairs through `decode`. Each row
        started inside the span is retagged first. */
    method StringFromIndex(begin: int, length: int, decode: int -> int) returns (s: seq<int>)
      requires Valid() && (length > 0 ==> 0 <= begin && begin + length <= rows * columns)
      modifies this
      ensures Valid() && Regs() == old(Regs())
      ensures RetaggedBetween(old(cells), cells, columns, begin, begin + length)
      ensures Wide(cells, columns) && s == Text(cells, columns, begin, length, decode)
    {
      var out: seq<int> := [];
      var temp := 0;
      var space: nat := 0;
      var i := begin;
      while i < begin + length
        invariant Valid() && Regs() == old(Regs()) && Wide(cells, columns)
        invariant length > 0 ==> begin <= i <= begin + length
        invariant length <= 0 ==> i == begin && out == [] && cells == old(cells)
        invariant RetaggedBetween(old(cells), cells, columns, begin, i)
        invariant length > 0 ==> Reader(out, temp, space) == Scan(cells, columns, begin, i - begin, decode)
        decreases begin + length - i
      {
        out, temp, space := ReadIndex(old(cells), begin, i, decode, out, temp, space);
        i := i + 1;
      }
      s := out;
    }

    /** The row start at flat index `i` retags its row; the scan of the
        cells before `i` does not see the change. */
    method RetagRowStart(begin: int, i: int, decode: int -> int)
      requires Valid() && 0 <= begin < i < rows * columns && i % columns == 0 && Wide(cells, columns)
      modifies this
      ensures Valid() && Regs() == old(Regs()) && Wide(cells, columns)
      ensures 0 <= i / columns < rows
      ensures cells == old(cells)[i / columns := Retag(old(cells)[i / columns], columns)]
      ensures Scan(cells, columns, begin, i - begin, decode) == Scan(old(cells), columns, begin, i - begin, decode)
    {
      FlatIndex(i, rows, columns);
      var y := i / columns;
      UpdateDoubleByteStateForRow(y);
      assert y * columns == i;
      ScanFrame(old(cells), cells, y, columns, begin, i - begin, decode);
    }

    /** One pass of stringFromIndex's loop, for flat index `i`: a row start
        after the first cell retags its row and writes a newline, then the
        cell is read. */
    method ReadIndex(ghost g0: seq<seq<Cell>>, begin: int, i: int, decode: int -> int,
                     out: seq<int>, temp: int, space: nat)
      returns (out': seq<int>, temp': int, space': nat)
      requires Valid() && 0 <= begin <= i < rows * columns && Wide(cells, columns)
      requires RetaggedBetween(g0, cells, columns, begin, i)
      requires Reader(out, temp, space) == Scan(cells, columns, begin, i - begin, decode)
      modifies this
      ensures Valid() && Regs() == old(Regs()) && Wide(cells, columns)
      ensures RetaggedBetween(g0, cells, columns, begin, i + 1)
      ensures Reader(out', temp', space') == Scan(cells, columns, begin, i + 1 - begin, decode)
    {
      FlatIndex(i, rows, columns);
      var x := i % columns;
      var y := i / columns;
      out', temp', space' := out, temp, space;
      if x == 0 && i != begin {
        RetagRowStart(begin, i, decode);
        NewRowCell(Reader(out, temp, space), cells[y][x], decode);
        out' := out' + [NewlineUnit];
        space' := 0;
      }
      RetagNext(g0, old(cells), cells, columns, begin, i);
      out', temp', space' := ReadCellStep(out', temp', space', cells[y][x], decode);
    }

    /** urlStringAt: whether the cell at `row`, `column` carries the url
        flag, and the bytes of the whole run of url cells around it, walking
        back across row starts to the run's head and then forward to its end
        or the grid's end. */
    method UrlStringAt(row: int, column: int) returns (hasUrl: bool, url: seq<Byte>)
      requires Valid() && 0 <= row < rows && 0 <= column < columns
      ensures Wide(cells, columns) && 0 <= Idx(row, column) < rows * columns
      ensures CellAt(cells, columns, Idx(row, column)) == cells[row][column]
      ensures hasUrl == cells[row][column].attr.isUrl
      ensures !hasUrl ==> url == []
      ensures hasUrl ==> url == RunBytes(cells, columns, RunStart(cells, columns, Idx(row, column)),
                                         RunEnd(cells, columns, Idx(row, column)))
    {
      CellAtIdx(row, column);
      hasUrl := cells[row][column].attr.isUrl;
      url := [];
      if !hasUrl {
        return;
      }
      var r, c := UrlHead(row, column);
      url := UrlBytesFrom(r, c);
      SameRun(cells, columns, Idx(r, c), Idx(row, column));
    }

    /** The first loop of urlStringAt and the step after it: walk back from a
        url cell while cells carry the flag, wrapping to the previous row's
        last visible column, stopping before the first row; then step forward
        one cell. The result is the head of the run. */
    method UrlHead(row: int, column: int) returns (r: int, c: int)
      requires Valid() && 0 <= row < rows && 0 <= column < columns && cells[row][column].attr.isUrl
      ensures Wide(cells, columns) && 0 <= r < rows && 0 <= c < columns
      ensures 0 <= Idx(row, column) < rows * columns && CellAt(cells, columns, Idx(row, column)).attr.isUrl
      ensures Idx(r, c) == RunStart(cells, columns, Idx(row, column))
    {
      CellAtIdx(row, column);
      ghost var p := Idx(row, column);
      r, c := row, column;
      while cells[r][c].attr.isUrl
        invariant 0 <= r < rows && 0 <= c < columns && Idx(r, c) <= p
        invariant forall i :: Idx(r, c) < i <= p ==> CellAt(cells, columns, i).attr.isUrl
        decreases Idx(r, c)
      {
        CellAtIdx(r, c);
        c := c - 1;
        if c < 0 {
          c := columns - 1;
          r := r - 1;
          NextRowIndex(r);
        }
        if r < 0 {
          break;
        }
      }
      if 0 <= r {
        CellAtIdx(r, c);
      }
      c := c + 1;
      if c >= columns {
        c := 0;
        r := r + 1;
        NextRowIndex(r - 1);
      }
      RunStartIs(cells, columns, p, Idx(r, c));
    }

    /** The second loop of urlStringAt: the bytes of the url cells from the
        head of a run onwards, wrapping to the next row and stopping at the
        grid's end. */
    method UrlBytesFrom(row: int, column: int) returns (url: seq<Byte>)
      requires Valid() && 0 <= row < rows && 0 <= column < columns
      requires Wide(cells, columns) && 0 <= Idx(row, column) < rows * columns
      requires CellAt(cells, columns, Idx(row, column)).attr.isUrl
      ensures url == RunBytes(cells, columns, Idx(row, column), RunEnd(cells, columns, Idx(row, column)))
    {
      ghost var s := Idx(row, column);
      var r, c := row, column;
      url := [];
      while cells[r][c].attr.isUrl
        invariant 0 <= r < rows && 0 <= c < columns && s <= Idx(r, c) < rows * columns
        invariant forall i :: s <= i < Idx(r, c) ==> CellAt(cells, columns, i).attr.isUrl
        invariant url == RunBytes(cells, columns, s, Idx(r, c))
        decreases rows * columns - Idx(r, c)
      {
        CellAtIdx(r, c);
        RunBytesNext(cells, columns, s, Idx(r, c));
        url := url + [cells[r][c].byte];
        c := c + 1;
        if c >= columns {
          c := 0;
          r := r + 1;
          NextRowIndex(r - 1);
        }
        if r >= rows {
          break;
        }
        IndexBound(r, c, rows, columns);
      }
      if r < rows {
        CellAtIdx(r, c);
      }
      RunEndIs(cells, columns, s, Idx(r, c));
    }
  }
}
