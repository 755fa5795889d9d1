/** Reading text back out of the grid: the string of a span of cells in
    reading order (stringFromIndex) and the URL under a cell (urlStringAt).
    Characters are UTF-16 code units as `int`s; double-byte pairs go through
    a decoding table that is a parameter here. */
module Reading {
  import opened Cells
  import opened Tagging
  import opened Screen

  const NewlineUnit: int := 10
  const SpaceUnit: int := 32

  /** `n` spaces. */
  function Spaces(n: nat): (r: seq<int>)
    ensures |r| == n && forall k :: 0 <= k < n ==> r[k] == SpaceUnit
  {
    seq(n, k => SpaceUnit)
  }

  /** The loop registers of stringFromIndex: the text so far, the pending
      lead byte and the number of blank cells not yet written out. */
  datatype Reader = Reader(out: seq<int>, temp: int, space: nat)

  const FreshReader: Reader := Reader([], 0, 0)

  /** A cell that reads as a blank: a plain (not double-byte) cell holding
      no byte or a space. */
  predicate BlankCell(c: Cell)
  {
    c.attr.doubleByte == NotDouble && (c.byte == 0 || c.byte == ' ' as int)
  }

  /** The table index of a lead/trail pair, computed in unsigned 32-bit
      arithmetic as the source does. */
  function PairCode(lead: int, trail: int): (code: int)
    ensures 0 <= code < 0x1_0000_0000
  {
    (lead * 256 + trail - 0x8000) % 0x1_0000_0000
  }

  /** One cell of stringFromIndex. At the start of a new row a newline is
      written and pending blanks are dropped. Blank plain cells are only
      counted; any other plain cell writes the pending blanks and its byte.
      A lead cell remembers its byte; a trail cell after a non-zero lead
      writes the pending blanks and the decoded pair. */
  function ReadCell(r: Reader, c: Cell, newRow: bool, decode: int -> int): (t: Reader)
    ensures |t.out| >= |r.out| && t.out[..|r.out|] == r.out
    ensures newRow ==> |t.out| > |r.out| && t.out[|r.out|] == NewlineUnit
    ensures |t.out| + t.space <= |r.out| + r.space + 2
  {
    var r1 := if newRow then r.(out := r.out + [NewlineUnit], space := 0) else r;
    if c.attr.doubleByte == NotDouble then
      if c.byte == 0 || c.byte == ' ' as int then r1.(space := r1.space + 1)
      else r1.(out := r1.out + Spaces(r1.space) + [c.byte], space := 0)
    else if c.attr.doubleByte == LeadByte then r1.(temp := c.byte)
    else if c.attr.doubleByte == TrailByte && r1.temp != 0 then
      r1.(out := r1.out + Spaces(r1.space) + [decode(PairCode(r1.temp, c.byte))], space := 0)
    else r1
  }

  /** Row and column of flat index `i`, and that they are inside a grid of
      `rows` rows. */
  lemma FlatIndex(i: int, rows: int, columns: int)
    requires columns >= 1 && 0 <= i < rows * columns
    ensures 0 <= i / columns < rows && 0 <= i % columns < columns
    ensures i == (i / columns) * columns + i % columns
  {
    if i / columns >= rows {
      assert false;
    }
  }

  /** A grid every row of which holds at least `columns` cells. */
  ghost predicate Wide(g: seq<seq<Cell>>, columns: int)
  {
    columns >= 1 && forall y :: 0 <= y < |g| ==> |g[y]| >= columns
  }

  /** The registers after the first `n` cells from flat index `begin`. */
  function Scan(g: seq<seq<Cell>>, columns: int, begin: int, n: nat, decode: int -> int): Reader
    requires Wide(g, columns) && 0 <= begin && begin + n <= |g| * columns
    decreases n
  {
    if n == 0 then FreshReader
    else
      var i := begin + n - 1;
      FlatIndex(i, |g|, columns);
      ReadCell(Scan(g, columns, begin, n - 1, decode), g[i / columns][i % columns],
               i % columns == 0 && i != begin, decode)
  }

  /** stringFromIndex's result: the text of `length` cells from `begin`;
      nothing for a length that is not positive. */
  function Text(g: seq<seq<Cell>>, columns: int, begin: int, length: int, decode: int -> int): (r: seq<int>)
    requires Wide(g, columns) && (length > 0 ==> 0 <= begin && begin + length <= |g| * columns)
    ensures length <= 0 ==> r == []
    ensures length > 0 ==> |r| <= 2 * length
  {
    if length <= 0 then []
    else
      ScanLength(g, columns, begin, length, decode);
      Scan(g, columns, begin, length, decode).out
  }

  /** Each cell adds at most two units to the text and the pending blanks
      together (a newline when it starts a row, and itself), and at most one
      pending blank. */
  lemma {:induction false} ScanLength(g: seq<seq<Cell>>, columns: int, begin: int, n: nat, decode: int -> int)
    requires Wide(g, columns) && 0 <= begin && begin + n <= |g| * columns
    ensures Scan(g, columns, begin, n, decode).space <= n
    ensures |Scan(g, columns, begin, n, decode).out| + Scan(g, columns, begin, n, decode).space <= 2 * n
    decreases n
  {
    if n > 0 {
      ScanLength(g, columns, begin, n - 1, decode);
    }
  }

  /** The scan of a prefix only reads the rows that prefix covers: changing
      a row that starts at or after the prefix end leaves it alone. */
  lemma {:induction false} ScanFrame(g: seq<seq<Cell>>, h: seq<seq<Cell>>, ry: int, columns: int,
                                     begin: int, n: nat, decode: int -> int)
    requires Wide(g, columns) && Wide(h, columns) && |g| == |h| && 0 <= begin && begin + n <= |g| * columns
    requires forall y :: 0 <= y < |g| && y != ry ==> g[y] == h[y]
    requires 0 <= ry && ry * columns >= begin + n
    ensures Scan(g, columns, begin, n, decode) == Scan(h, columns, begin, n, decode)
    decreases n
  {
    if n > 0 {
      ScanFrame(g, h, ry, columns, begin, n - 1, decode);
      var i := begin + n - 1;
      RowBefore(i, ry, columns);
      ScanStep(g, columns, begin, n, decode);
      ScanStep(h, columns, begin, n, decode);
      assert g[i / columns] == h[i / columns];
    }
  }

  /** A flat index below row `ry`'s first index lies in a row above `ry`. */
  lemma RowBefore(i: int, ry: int, columns: int)
    requires columns >= 1 && 0 <= i < ry * columns
    ensures i / columns < ry
  {
    FlatIndex(i, ry, columns);
  }

  /** One more cell: the scan of `n` cells is the scan of `n - 1` followed by
      the cell at flat index `begin + n - 1`. */
  lemma ScanStep(g: seq<seq<Cell>>, columns: int, begin: int, n: nat, decode: int -> int)
    requires Wide(g, columns) && 0 <= begin && begin + n <= |g| * columns && n > 0
    ensures var i := begin + n - 1;
            0 <= i / columns < |g| && 0 <= i % columns < columns &&
            Scan(g, columns, begin, n, decode) ==
            ReadCell(Scan(g, columns, begin, n - 1, decode), g[i / columns][i % columns],
                     i % columns == 0 && i != begin, decode)
  {
    FlatIndex(begin + n - 1, |g|, columns);
  }

  /** Blank cells at the end of a span add nothing to its text: spaces are
      only written before a later non-blank character on the same row. */
  lemma {:induction false} TrailingBlanks(g: seq<seq<Cell>>, columns: int, begin: int, n: nat, m: nat,
                                          decode: int -> int)
    requires Wide(g, columns) && 0 <= begin && begin + n + m <= |g| * columns
    requires forall i :: begin + n <= i < begin + n + m ==> i % columns != 0 || i == begin
    requires forall i :: begin + n <= i < begin + n + m ==> 0 <= i / columns < |g| && BlankCell(g[i / columns][i % columns])
    ensures Scan(g, columns, begin, n + m, decode).out == Scan(g, columns, begin, n, decode).out
    decreases m
  {
    if m > 0 {
      TrailingBlanks(g, columns, begin, n, m - 1, decode);
    }
  }

  /** Text written on one row in plain single-byte characters reads back as
      exactly its bytes. */
  lemma {:induction false} PlainRowReadsBack(g: seq<seq<Cell>>, columns: int, begin: int, n: nat, decode: int -> int)
    requires Wide(g, columns) && 0 <= begin && begin + n <= |g| * columns
    requires forall i :: begin < i < begin + n ==> i % columns != 0
    requires forall i :: begin <= i < begin + n ==>
               0 <= i / columns < |g| && g[i / columns][i % columns].attr.doubleByte == NotDouble &&
               !BlankCell(g[i / columns][i % columns])
    ensures |Scan(g, columns, begin, n, decode).out| == n
    ensures Scan(g, columns, begin, n, decode).space == 0
    ensures forall k :: 0 <= k < n ==>
              Scan(g, columns, begin, n, decode).out[k] == g[(begin + k) / columns][(begin + k) % columns].byte
    decreases n
  {
    if n > 0 {
      PlainRowReadsBack(g, columns, begin, n - 1, decode);
      var i := begin + n - 1;
      FlatIndex(i, |g|, columns);
      var before := Scan(g, columns, begin, n - 1, decode);
      assert Spaces(before.space) == [];
      assert Scan(g, columns, begin, n, decode).out == before.out + [g[i / columns][i % columns].byte];
    }
  }

  /** `n` spaces written one at a time onto `out`. */
  method AppendSpaces(out: seq<int>, n: nat) returns (t: seq<int>)
    ensures t == out + Spaces(n)
  {
    t := out;
    var j := 0;
    while j < n
      invariant 0 <= j <= n && t == out + Spaces(j)
    {
      t := t + [SpaceUnit];
      j := j + 1;
      assert Spaces(j) == Spaces(j - 1) + [SpaceUnit];
    }
  }

  /** The body of stringFromIndex's loop for one cell, on its three
      registers; the newline at a row start is written by the caller. */
  method ReadCellStep(out: seq<int>, temp: int, space: nat, c: Cell, decode: int -> int)
    returns (out': seq<int>, temp': int, space': nat)
    ensures Reader(out', temp', space') == ReadCell(Reader(out, temp, space), c, false, decode)
  {
    out', temp', space' := out, temp, space;
    if c.attr.doubleByte == NotDouble {
      if c.byte == 0 || c.byte == ' ' as int {
        space' := space + 1;
      } else {
        out' := AppendSpaces(out, space);
        out' := out' + [c.byte];
        space' := 0;
      }
    } else if c.attr.doubleByte == LeadByte {
      temp' := c.byte;
    } else if c.attr.doubleByte == TrailByte {
      if temp != 0 {
        var code := PairCode(temp, c.byte);
        out' := AppendSpaces(out, space);
        out' := out' + [decode(code)];
        space' := 0;
      }
    }
  }

  /** A row start inside the span writes a newline and drops the pending
      blanks before the cell is read. */
  lemma NewRowCell(r: Reader, c: Cell, decode: int -> int)
    ensures ReadCell(r, c, true, decode) == ReadCell(r.(out := r.out + [NewlineUnit], space := 0), c, false, decode)
  {
  }

  /** The rows of `g` that start strictly after flat index `lo` and before
      `hi` are the retagged rows of `g0`; the others are those of `g0`. */
  ghost predicate RetaggedBetween(g0: seq<seq<Cell>>, g: seq<seq<Cell>>, columns: int, lo: int, hi: int)
  {
    |g| == |g0| &&
    forall y :: 0 <= y < |g| ==> g[y] == if lo < y * columns < hi then Retag(g0[y], columns) else g0[y]
  }

  /** Index `i` retags its row exactly when it starts a row after `lo`. */
  lemma RetagNext(g0: seq<seq<Cell>>, g1: seq<seq<Cell>>, g2: seq<seq<Cell>>, columns: int, lo: int, i: int)
    requires columns >= 1 && 0 <= lo <= i && 0 <= i / columns < |g1|
    requires RetaggedBetween(g0, g1, columns, lo, i)
    requires g2 == if i % columns == 0 && i != lo then g1[i / columns := Retag(g1[i / columns], columns)] else g1
    ensures RetaggedBetween(g0, g2, columns, lo, i + 1)
  {
    forall y | 0 <= y < |g2|
      ensures g2[y] == if lo < y * columns < i + 1 then Retag(g0[y], columns) else g0[y]
    {
      RowColumnOf(y, 0, columns);
      if i % columns == 0 {
        assert i == (i / columns) * columns;
      }
    }
  }

  // ---------------------------------------------------------------------
  // urlStringAt
  // ---------------------------------------------------------------------

  /** The cell at flat index `i` (row-major over the visible columns)
      carries the url flag. */
  ghost predicate UrlAt(g: seq<seq<Cell>>, columns: int, i: int)
    requires Wide(g, columns)
  {
    0 <= i < |g| * columns && 0 <= i / columns < |g| && g[i / columns][i % columns].attr.isUrl
  }

  /** The cell at flat index `i`. */
  function CellAt(g: seq<seq<Cell>>, columns: int, i: int): Cell
    requires Wide(g, columns) && 0 <= i < |g| * columns
  {
    FlatIndex(i, |g|, columns);
    g[i / columns][i % columns]
  }

  /** Row `y`, column `x` is flat index `y * columns + x`. */
  lemma RowColumnOf(y: int, x: int, columns: int)
    requires columns >= 1 && 0 <= x < columns && y >= 0
    ensures (y * columns + x) / columns == y && (y * columns + x) % columns == x
  {
    var i := y * columns + x;
    var q, m := i / columns, i % columns;
    assert i == q * columns + m && 0 <= m < columns;
    if q < y {
      MulAtLeast(y - q, columns);
      assert false;
    } else if q > y {
      MulAtLeast(q - y, columns);
      assert false;
    }
  }

  /** The first index of the run of url cells that holds `p`. */
  function RunStart(g: seq<seq<Cell>>, columns: int, p: int): (s: int)
    requires Wide(g, columns) && 0 <= p < |g| * columns && CellAt(g, columns, p).attr.isUrl
    ensures 0 <= s <= p
    ensures forall i :: s <= i <= p ==> CellAt(g, columns, i).attr.isUrl
    ensures s == 0 || !CellAt(g, columns, s - 1).attr.isUrl
    decreases p
  {
    if p > 0 && CellAt(g, columns, p - 1).attr.isUrl then RunStart(g, columns, p - 1) else p
  }

  /** One past the last index of the run of url cells that holds `p` (the
      grid's end at most). */
  function RunEnd(g: seq<seq<Cell>>, columns: int, p: int): (e: int)
    requires Wide(g, columns) && 0 <= p < |g| * columns && CellAt(g, columns, p).attr.isUrl
    ensures p < e <= |g| * columns
    ensures forall i :: p <= i < e ==> CellAt(g, columns, i).attr.isUrl
    ensures e == |g| * columns || !CellAt(g, columns, e).attr.isUrl
    decreases |g| * columns - p
  {
    if p + 1 < |g| * columns && CellAt(g, columns, p + 1).attr.isUrl then RunEnd(g, columns, p + 1) else p + 1
  }

  /** The bytes of cells `s..e-1`. */
  function RunBytes(g: seq<seq<Cell>>, columns: int, s: int, e: int): (r: seq<Byte>)
    requires Wide(g, columns) && 0 <= s <= e <= |g| * columns
    ensures |r| == e - s && forall k :: 0 <= k < e - s ==> r[k] == CellAt(g, columns, s + k).byte
  {
    seq<Byte>(e - s, k requires 0 <= k < e - s => CellAt(g, columns, s + k).byte)
  }

  /** Reading one more cell appends its byte. */
  lemma RunBytesNext(g: seq<seq<Cell>>, columns: int, s: int, e: int)
    requires Wide(g, columns) && 0 <= s <= e < |g| * columns
    ensures RunBytes(g, columns, s, e + 1) == RunBytes(g, columns, s, e) + [CellAt(g, columns, e).byte]
  {
  }

  /** Every cell of a run reports the same run: the URL found from any of
      its cells is the same string. */
  lemma {:induction false} SameRun(g: seq<seq<Cell>>, columns: int, p: int, q: int)
    requires Wide(g, columns) && 0 <= p <= q < |g| * columns
    requires forall i :: p <= i <= q ==> CellAt(g, columns, i).attr.isUrl
    ensures RunStart(g, columns, p) == RunStart(g, columns, q)
    ensures RunEnd(g, columns, p) == RunEnd(g, columns, q)
    decreases q - p
  {
    if p < q {
      SameRun(g, columns, p, q - 1);
      assert RunStart(g, columns, q) == RunStart(g, columns, q - 1);
      assert RunEnd(g, columns, q - 1) == RunEnd(g, columns, q);
    }
  }

  /** The run that starts at `s` and ends before `e` is the run of any of
      its cells. */
  lemma {:induction false} RunStartIs(g: seq<seq<Cell>>, columns: int, p: int, s: int)
    requires Wide(g, columns) && 0 <= s <= p < |g| * columns
    requires forall i :: s <= i <= p ==> CellAt(g, columns, i).attr.isUrl
    requires s == 0 || !CellAt(g, columns, s - 1).attr.isUrl
    ensures RunStart(g, columns, p) == s
    decreases p - s
  {
    if s < p {
      RunStartIs(g, columns, p - 1, s);
    }
  }

  lemma {:induction false} RunEndIs(g: seq<seq<Cell>>, columns: int, p: int, e: int)
    requires Wide(g, columns) && 0 <= p < e <= |g| * columns
    requires forall i :: p <= i < e ==> CellAt(g, columns, i).attr.isUrl
    requires e == |g| * columns || !CellAt(g, columns, e).attr.isUrl
    ensures RunEnd(g, columns, p) == e
    decreases e - p
  {
    if p + 1 < e {
      RunEndIs(g, columns, p + 1, e);
    }
  }
}
