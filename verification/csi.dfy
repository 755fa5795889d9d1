/** The arithmetic of control sequences: the 32-bit parameter accumulator,
    the argument queue's default count, cursor motion clamps, CUP and
    DECSTBM targets, SGR and the device reports. The terminal class calls
    these on its own fields. */
module Csi {
  import opened Cells

  const TwoTo31: int := 0x8000_0000
  const TwoTo32: int := 0x1_0000_0000

  // ---------------------------------------------------------------------
  // Parameter accumulation
  // ---------------------------------------------------------------------

  /** `_csTemp * 10 + d` on the unsigned 32-bit accumulator `_csTemp`. */
  function AccumulateDigit(acc: int, d: int): (r: int)
    requires 0 <= acc < TwoTo32 && 0 <= d <= 9
    ensures 0 <= r < TwoTo32
    ensures r == (acc * 10 + d) % TwoTo32
  {
    (acc * 10 + d) % TwoTo32
  }

  /** The value of a run of decimal digits, without any width limit. */
  function DecimalValue(ds: seq<int>): nat
    requires forall k :: 0 <= k < |ds| ==> 0 <= ds[k] <= 9
  {
    if ds == [] then 0 else DecimalValue(ds[..|ds| - 1]) * 10 + ds[|ds| - 1]
  }

  /** The accumulator after feeding `ds` one digit at a time from `acc`. */
  function Accumulated(acc: int, ds: seq<int>): (r: int)
    requires 0 <= acc < TwoTo32
    requires forall k :: 0 <= k < |ds| ==> 0 <= ds[k] <= 9
    ensures 0 <= r < TwoTo32
  {
    if ds == [] then acc else AccumulateDigit(Accumulated(acc, ds[..|ds| - 1]), ds[|ds| - 1])
  }

  /** Feeding the digits of a parameter from a cleared accumulator leaves
      its decimal value reduced modulo 2^32: parameters of ten or more
      digits wrap around rather than saturate. */
  lemma {:induction false} AccumulatedIsDecimalMod(ds: seq<int>)
    requires forall k :: 0 <= k < |ds| ==> 0 <= ds[k] <= 9
    ensures Accumulated(0, ds) == DecimalValue(ds) % TwoTo32
  {
    if ds != [] {
      var init := ds[..|ds| - 1];
      var d := ds[|ds| - 1];
      AccumulatedIsDecimalMod(init);
      var v := DecimalValue(init);
      ModTimesTenPlus(v, d);
    }
  }

  lemma ModTimesTenPlus(v: nat, d: int)
    requires 0 <= d <= 9
    ensures ((v % TwoTo32) * 10 + d) % TwoTo32 == (v * 10 + d) % TwoTo32
  {
    var q := v / TwoTo32;
    var r := v % TwoTo32;
    assert v == q * TwoTo32 + r;
    assert v * 10 + d == (q * 10) * TwoTo32 + (r * 10 + d);
    ModAddMultiple(r * 10 + d, q * 10);
  }

  lemma ModAddMultiple(a: int, k: int)
    ensures (k * TwoTo32 + a) % TwoTo32 == a % TwoTo32
  {
  }

  /** The unsigned accumulator enqueued as a signed `int`: the same 32 bits
      read in two's complement. */
  function AsInt32(u: int): (v: int)
    requires 0 <= u < TwoTo32
    ensures -TwoTo31 <= v < TwoTo31
    ensures v % TwoTo32 == u
    ensures u < TwoTo31 ==> v == u
  {
    if u < TwoTo31 then u else u - TwoTo32
  }

  // ---------------------------------------------------------------------
  // The argument queue
  // ---------------------------------------------------------------------

  datatype Popped = Popped(count: int, rest: seq<int>)

  /** popLineCount on a queue value: the default count 1 on an empty queue,
      otherwise the head raised to at least 1, and the queue without it. */
  function PopLineCount(q: seq<int>): (r: Popped)
    ensures r.count >= 1
    ensures q == [] ==> r.count == 1 && r.rest == []
    ensures q != [] ==> r.rest == q[1..] && (q[0] >= 1 ==> r.count == q[0])
    ensures q != [] && q[0] < 1 ==> r.count == 1
  {
    if q == [] then Popped(1, [])
    else Popped(if q[0] > 1 then q[0] else 1, q[1..])
  }

  // ---------------------------------------------------------------------
  // Cursor motion
  // ---------------------------------------------------------------------

  /** moveCursorTo's clamp of one coordinate into `[0, n)`. */
  function ClampTo(v: int, n: int): (r: int)
    requires n >= 1
    ensures 0 <= r < n
    ensures 0 <= v < n ==> r == v
    ensures v < 0 ==> r == 0
    ensures v >= n ==> r == n - 1
  {
    if v < 0 then 0 else if v >= n then n - 1 else v
  }

  /** CUU: up `n` rows, stopping at the region top when origin-relative and
      at row 0 otherwise. */
  function CursorUp(y: int, n: int, originRelative: bool, begin: int, rows: int): (r: int)
    requires 0 <= y < rows && 0 <= begin < rows && n >= 1
    ensures 0 <= r < rows
    ensures originRelative ==> r >= begin
    ensures y - n >= (if originRelative then begin else 0) ==> r == y - n
    ensures r <= y || (originRelative && r == begin)
  {
    var t := y - n;
    if originRelative && t < begin then begin
    else if t < 0 then 0
    else t
  }

  /** CUD: down `n` rows, stopping at the region bottom when origin-relative
      and at the last row otherwise. */
  function CursorDown(y: int, n: int, originRelative: bool, end: int, rows: int): (r: int)
    requires 0 <= y < rows && 0 <= end < rows && n >= 1
    ensures 0 <= r < rows
    ensures originRelative ==> r <= end
    ensures y + n <= (if originRelative then end else rows - 1) ==> r == y + n
    ensures r >= y || (originRelative && r == end)
  {
    var t := y + n;
    if originRelative && t > end then end
    else if t >= rows then rows - 1
    else t
  }

  /** CUF: right `n` columns, stopping at the last column. */
  function CursorForward(x: int, n: int, columns: int): (r: int)
    requires 0 <= x <= columns && n >= 1 && columns >= 1
    ensures 0 <= r < columns
    ensures x + n < columns ==> r == x + n
    ensures x + n >= columns ==> r == columns - 1
  {
    var t := x + n;
    if t >= columns then columns - 1 else t
  }

  /** CUB: left `n` columns, stopping at column 0. From the slack column one
      step lands on the last column. */
  function CursorBack(x: int, n: int, columns: int): (r: int)
    requires 0 <= x <= columns && n >= 1 && columns >= 1
    ensures 0 <= r < columns
    ensures x - n >= 0 ==> r == x - n
    ensures x - n < 0 ==> r == 0
  {
    var t := x - n;
    if t < 0 then 0 else t
  }

  /** CNL / CPL rows: `n` rows down or up (`dir` is +1 or -1), clamped to the
      grid and never to the scroll region. */
  function CursorNextLine(y: int, n: int, dir: int, rows: int): (r: int)
    requires 0 <= y < rows && n >= 1 && (dir == 1 || dir == -1)
    ensures 0 <= r < rows
    ensures 0 <= y + dir * n < rows ==> r == y + dir * n
  {
    ClampTo(y + dir * n, rows)
  }

  /** CUP / HVP: the (column, row) the cursor moves to. An empty queue homes
      to (0, 0); otherwise the row count then the column count are popped,
      the row is offset by the region top when origin-relative (and kept at
      most one past the region bottom), and both are clamped to the grid. */
  function CupTarget(args: seq<int>, originRelative: bool, begin: int, end: int,
                     rows: int, columns: int): (pos: (int, int))
    requires 0 <= begin <= end < rows && columns >= 1
    ensures 0 <= pos.0 < columns && 0 <= pos.1 < rows
    ensures args == [] ==> pos == (0, 0)
    ensures args != [] && !(originRelative && begin > 0) && 1 <= args[0] <= rows ==> pos.1 == args[0] - 1
    ensures |args| >= 2 && 1 <= args[1] <= columns ==> pos.0 == args[1] - 1
    ensures |args| == 1 ==> pos.0 == 0
    ensures args != [] && originRelative && begin > 0 && 1 <= args[0] && args[0] + begin <= end + 1
            ==> pos.1 == args[0] + begin - 1
    ensures args != [] && originRelative && begin > 0 ==> begin <= pos.1 <= end
  {
    if args == [] then (0, 0)
    else
      var p := PopLineCount(args);
      var q := PopLineCount(p.rest);
      var line := if originRelative && begin > 0 then
                    (if p.count + begin > end then end + 1 else p.count + begin)
                  else p.count;
      (ClampTo(q.count - 1, columns), ClampTo(line - 1, rows))
  }

  /** A DECSTBM parameter kept inside `[1, rows]`. */
  function RegionArg(v: int, rows: int): (r: int)
    requires rows >= 1
    ensures 1 <= r <= rows
    ensures 1 <= v <= rows ==> r == v
  {
    if v < 1 then 1 else if v > rows then rows else v
  }

  /** DECSTBM: the new (begin, end) scroll region. An empty queue resets to
      the whole screen; exactly two parameters give the 0-based smaller and
      larger line (each first kept inside the screen, see the finding on
      DECSTBM); any other count keeps the region. */
  function Decstbm(args: seq<int>, begin: int, end: int, rows: int): (region: (int, int))
    requires rows >= 1 && 0 <= begin <= end < rows
    ensures 0 <= region.0 <= region.1 < rows
    ensures args == [] ==> region == (0, rows - 1)
    ensures |args| != 0 && |args| != 2 ==> region == (begin, end)
    ensures |args| == 2 && 1 <= args[0] <= rows && 1 <= args[1] <= rows ==>
            region.0 + 1 == (if args[0] <= args[1] then args[0] else args[1]) &&
            region.1 + 1 == (if args[0] <= args[1] then args[1] else args[0])
  {
    if args == [] then (0, rows - 1)
    else if |args| == 2 then
      var a := RegionArg(args[0], rows);
      var b := RegionArg(args[1], rows);
      if a > b then (b - 1, a - 1) else (a - 1, b - 1)
    else (begin, end)
  }

  // ---------------------------------------------------------------------
  // SGR
  // ---------------------------------------------------------------------

  /** C's `/` on int: the quotient truncated toward zero. */
  function TruncDiv(a: int, b: int): (q: int)
    requires b > 0
    ensures a >= 0 ==> q >= 0 && 0 <= a - q * b < b
    ensures a < 0 ==> q <= 0 && -b < a - q * b <= 0
  {
    if a >= 0 then a / b else -((-a) / b)
  }

  /** `p / 10 == 3` (C division) holds exactly for 30..39, and `== 4` for
      40..49: negative parameters never select a colour. */
  lemma TruncDivTens(p: int)
    ensures TruncDiv(p, 10) == 3 <==> 30 <= p <= 39
    ensures TruncDiv(p, 10) == 4 <==> 40 <= p <= 49
  {
    if p < 0 {
      assert (-p) / 10 >= 0;
    }
  }

  /** One SGR parameter applied to the pen. */
  function SgrStep(pen: Pen, screenReverse: bool, p: int): (r: Pen)
    ensures p == 0 ==> r == Pen(DefaultFg, DefaultBg, false, false, false, screenReverse)
    ensures r.reversed != pen.reversed ==> p == 0 || p == 7
    ensures r.fg != pen.fg ==> p == 0 || 30 <= p <= 39
    ensures r.bg != pen.bg ==> p == 0 || 40 <= p <= 49
    ensures p != 0 && p != 1 && p != 4 && p != 5 && p != 7 && !(30 <= p <= 49) ==> r == pen
  {
    TruncDivTens(p);
    if p == 0 then Pen(DefaultFg, DefaultBg, false, false, false, screenReverse)
    else if p == 1 then pen.(bright := true)
    else if p == 4 then pen.(underlined := true)
    else if p == 5 then pen.(blinking := true)
    else if p == 7 then pen.(reversed := !screenReverse)
    else if TruncDiv(p, 10) == 3 then pen.(fg := p - 30)
    else if TruncDiv(p, 10) == 4 then pen.(bg := p - 40)
    else pen
  }

  /** The parameters applied in queue order. */
  function SgrAll(pen: Pen, screenReverse: bool, args: seq<int>): (r: Pen)
    ensures (forall k :: 0 <= k < |args| ==> args[k] != 0 && args[k] != 7) ==> r.reversed == pen.reversed
    ensures (forall k :: 0 <= k < |args| ==> args[k] != 0 && !(30 <= args[k] <= 39)) ==> r.fg == pen.fg
    ensures (forall k :: 0 <= k < |args| ==> args[k] != 0 && !(40 <= args[k] <= 49)) ==> r.bg == pen.bg
    decreases |args|
  {
    if args == [] then pen else SgrAll(SgrStep(pen, screenReverse, args[0]), screenReverse, args[1..])
  }

  /** The pen handleControlSgr leaves: an empty queue acts as a single 0. */
  function Sgr(pen: Pen, screenReverse: bool, args: seq<int>): (r: Pen)
    ensures args == [] ==> r == Pen(DefaultFg, DefaultBg, false, false, false, screenReverse)
  {
    if args == [] then
      assert [0][1..] == [];
      SgrAll(pen, screenReverse, [0])
    else SgrAll(pen, screenReverse, args)
  }

  /** Parameters apply in order: a queue split in two is the second part
      applied to the result of the first. */
  lemma {:induction false} SgrAllAppend(pen: Pen, screenReverse: bool, a: seq<int>, b: seq<int>)
    ensures SgrAll(pen, screenReverse, a + b) == SgrAll(SgrAll(pen, screenReverse, a), screenReverse, b)
    decreases |a|
  {
    if a != [] {
      assert (a + b)[0] == a[0] && (a + b)[1..] == a[1..] + b;
      SgrAllAppend(SgrStep(pen, screenReverse, a[0]), screenReverse, a[1..], b);
    } else {
      assert a + b == b;
    }
  }

  /** A 0 anywhere in the queue erases everything before it: the result is
      the parameters after it applied to the default rendition. */
  lemma SgrResetForgets(pen: Pen, screenReverse: bool, a: seq<int>, b: seq<int>)
    ensures SgrAll(pen, screenReverse, a + [0] + b) ==
            SgrAll(Pen(DefaultFg, DefaultBg, false, false, false, screenReverse), screenReverse, b)
  {
    SgrAllAppend(pen, screenReverse, a + [0], b);
    SgrAllAppend(pen, screenReverse, a, [0]);
  }

  /** 30..39 sets the foreground to p - 30 and 40..49 the background to
      p - 40, leaving every other field of the pen as it was. */
  lemma SgrColour(pen: Pen, screenReverse: bool, p: int)
    ensures 30 <= p <= 39 ==> SgrAll(pen, screenReverse, [p]) == pen.(fg := p - 30)
    ensures 40 <= p <= 49 ==> SgrAll(pen, screenReverse, [p]) == pen.(bg := p - 40)
  {
    TruncDivTens(p);
    assert SgrAll(pen, screenReverse, [p]) == SgrAll(SgrStep(pen, screenReverse, p), screenReverse, []);
  }

  // ---------------------------------------------------------------------
  // Replies sent to the host
  // ---------------------------------------------------------------------

  const Esc: Byte := 0x1b

  datatype Standard = VT100 | VT102

  /** The device-attributes reply for each emulated standard. */
  function DaReply(standard: Standard): (r: seq<Byte>)
    ensures |r| >= 4 && r[0] == Esc && r[1] == '[' as int && r[2] == '?' as int && r[|r| - 1] == 'c' as int
  {
    match standard
    case VT100 => [Esc, '[' as int, '?' as int, '1' as int, ';' as int, '0' as int, 'c' as int]
    case VT102 => [Esc, '[' as int, '?' as int, '6' as int, 'c' as int]
  }

  /** The device-status "OK" reply, byte for byte as the source writes it. */
  const DsrOkReply: seq<Byte> := [Esc, '[' as int, ';' as int, '0' as int, 'n' as int]

  /** `'0' + v` stored into a `char` of the reply: the low 8 bits. */
  function AsciiDigit(v: int): (b: Byte)
    ensures 0 <= v <= 9 ==> '0' as int <= b <= '9' as int && b - '0' as int == v
  {
    ('0' as int + v) % 256
  }

  /** One coordinate of the cursor report: a tens byte when the value is 10
      or more, then the units byte. Values of 100 or more are not written
      in decimal (see the DSR lemmas). */
  function ReportNumber(v: int): (r: seq<Byte>)
    requires v >= 1
    ensures |r| == if v >= 10 then 2 else 1
    ensures v < 100 ==> forall k :: 0 <= k < |r| ==> '0' as int <= r[k] <= '9' as int
    ensures r[|r| - 1] - '0' as int == v % 10
  {
    (if v >= 10 then [AsciiDigit(v / 10)] else []) + [AsciiDigit(v % 10)]
  }

  /** The cursor-position report `ESC [ row ; column R`, 1-based. */
  function DsrCursorReport(x: int, y: int): (r: seq<Byte>)
    requires x >= 0 && y >= 0
    ensures 6 <= |r| <= 8 && r[0] == Esc && r[1] == '[' as int && r[|r| - 1] == 'R' as int
    ensures x < 9 && y < 9 ==> r == [Esc, '[' as int, '1' as int + y, ';' as int, '1' as int + x, 'R' as int]
  {
    [Esc, '[' as int] + ReportNumber(y + 1) + [';' as int] + ReportNumber(x + 1) + ['R' as int]
  }

  /** The decimal spelling of a natural number, most significant digit first. */
  function Decimal(n: nat): (r: seq<Byte>)
    ensures |r| >= 1
    ensures forall k :: 0 <= k < |r| ==> '0' as int <= r[k] <= '9' as int
  {
    if n < 10 then [('0' as int + n)] else Decimal(n / 10) + [('0' as int + n % 10)]
  }

  /** Below 100 a coordinate is reported in plain decimal. */
  lemma ReportNumberIsDecimal(v: int)
    requires 1 <= v < 100
    ensures ReportNumber(v) == Decimal(v)
  {
    if v >= 10 {
      assert Decimal(v) == Decimal(v / 10) + [('0' as int + v % 10)];
      assert Decimal(v / 10) == [('0' as int + v / 10)];
    }
  }

  /** For positions up to 99 the report is the decimal row and column. */
  lemma DsrReportDecimal(x: int, y: int)
    requires 0 <= x < 99 && 0 <= y < 99
    ensures DsrCursorReport(x, y) ==
            [Esc, '[' as int] + Decimal(y + 1) + [';' as int] + Decimal(x + 1) + ['R' as int]
  {
    ReportNumberIsDecimal(y + 1);
    ReportNumberIsDecimal(x + 1);
  }

  /** From row 100 on the tens byte is no longer a digit: row 100 is sent as
      the bytes ':' '0'. */
  lemma DsrReportRow100(x: int)
    requires 0 <= x < 9
    ensures DsrCursorReport(x, 99)[2] == ':' as int
    ensures DsrCursorReport(x, 99)[2..4] != Decimal(100)[..2]
  {
    assert Decimal(100) == Decimal(10) + ['0' as int];
    assert Decimal(10) == Decimal(1) + ['0' as int];
  }
}
