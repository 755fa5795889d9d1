# A verified model of the Qelly VT100/VT102 terminal engine

Qelly is a BBS client. Its terminal engine, class `Terminal`, takes the bytes
the host sends and keeps a screen of cells up to date:

- a resumable four-state parser (Normal, Escape, Control, Scs);
- a grid of `rows` rows, each with `columns + 1` cells (one slack cell past
  the last visible column, where the cursor rests after writing the last
  column);
- a dirty map of `rows * columns` flags, indexed `row * columns + column`;
- the cursor, the saved cursor and the scroll region;
- the current rendition (colours, bright, underline, blink, reverse);
- the modes (line feed, insert, origin, autowrap, screen reverse).

After each chunk of bytes every row is re-tagged for double-byte characters
and re-flagged for URL spans. The view reads the grid back as text for
selections and URLs.

This project models that engine in Dafny and proves what each operation does.

**Modules**

- `Cells`: cells, attributes and the row-level edits.
- `Parsing`: the byte codes, the parser states and the control-sequence
  parameter registers.
- `Csi`: the arithmetic of the control functions:
  - the 32-bit parameter accumulator;
  - popLineCount and the cursor motions;
  - CUP and DECSTBM;
  - SGR;
  - the DA and DSR replies.
- `Screen`: the cursor, the grid-wide edits (scroll, erase, insert and delete
  lines and characters, the write of one byte) and their properties.
- `Tagging`: the double-byte lead/trail scan and the URL flag scan.
- `Reading`: the text read back by stringFromIndex and the URL run read back
  by urlStringAt.
- `Term`: the class `Terminal`. Its fields are updated by methods with loops,
  each proved against the functions above. Replies to the host (`sent`) and
  notifications to the view (`events`) are ghost logs.
- `View`: the view's integer helpers:
  - pixel points to cell indices and back;
  - the Ctrl-key character;
  - the jump-key bytes;
  - the selected range and the word selected by a double click.
- `Findings`: ten places where the code as written leaves the grid, the dirty
  map or the argument queue. Each has an input that shows it and the
  corrected definition the rest of the model uses.

**Modelling choices**

- Rows are values in a `seq<seq<Cell>>` field, so the row-pointer rotations
  of the source become sequence rotations.
- The dirty map is an `array<bool>`.
- The argument queue `_csArg` and the digit buffer `_csBuf` are `seq<int>`
  fields of a `Parser` record.
- Fields the source keeps side by side are grouped into records: `Cursor`,
  `Pen` (rendition) and `Modes`.
- Integers are unbounded. The source's 32-bit arithmetic is written out in
  four places:
  - the parameter accumulator is `uint` and wraps modulo 2^32 (`Csi.AccumulateDigit`);
  - a parameter is enqueued as a signed `int` (`Csi.AsInt32`);
  - the double-byte pair code is computed in unsigned 32-bit arithmetic (`Reading.PairCode`);
  - the CUD sum, in the findings (`Findings.CursorDownAsWritten`).

  The other sums and differences are unbounded and are listed under
  "Left out": the cursor sums of CUF, CNL, HPR and VPR, CUP's origin offset,
  ICH's clear end `_cursorX + p - 1`, and DECSTBM's `small - 1`.
- C's `/` truncates toward zero; `Csi.TruncDiv` models it where a negative
  SGR parameter reaches it.
- The constants of `Globals.h` are not part of this model:
  - byte codes follow ASCII and ECMA-48 final bytes;
  - the default colours are 7 and 9, the values SGR 0 assigns;
  - `PositionNotFound` is -1.
- The Qt key codes used by the view are Qt's public values. The Control and
  Shift modifiers are two booleans.

## Model

| member | source | states |
|---|---|---|
| `Cells.Blank` | src/Terminal.cpp:130-133 | A cleared cell has no byte, the empty attribute with the current background and reverse flag, no URL flag and no double-byte tag. |
| `Cells.Stamp` | src/Terminal.cpp:168-175 | A written cell holds the byte and every field of the current rendition, has its URL flag cleared and keeps the double-byte tag of the cell it overwrites. |
| `Cells.ScrollUp` | src/Terminal.cpp:259-263 | Scrolling a region up keeps the rows outside it, moves each row of the region up by one and puts the entering row at the bottom. |
| `Cells.ScrollDown` | src/Terminal.cpp:283-287 | Scrolling a region down keeps the rows outside it, moves each row of the region down by one and puts the entering row at the top. |
| `Cells.ScrollUpThenDown` | src/Terminal.cpp:259-287 | Rotating up and then down with the row that left restores the grid: the rotation loses and duplicates no row. |
| `Cells.ScrollUpIgnoresLeaving` | src/Terminal.cpp:259-263 | The row that leaves at the top of an upward scroll does not matter. |
| `Cells.ScrollDownIgnoresLeaving` | src/Terminal.cpp:283-287 | The row that leaves at the bottom of a downward scroll does not matter. |
| `Cells.ClearSpanCells` | src/Terminal.cpp:124-136 | Clearing a span blanks exactly the columns from its start to its end and keeps every other cell. |
| `Cells.ShiftRightCells` | src/Terminal.cpp:154-161 | In insert mode the cells after the cursor move one place right up to the last column; the cursor cell, the cells before it and the cells past the last column are kept. |
| `Cells.ShiftRightByMoves` | src/Terminal.cpp:555-563 | ICH keeps the cells before `at + n` and past the last column, and the cell at each `w` from `at` on lands at `w + n` when that is still on the row. |
| `Cells.DeleteCharsCells` | src/Terminal.cpp:785-802 | DCH keeps the cells outside the span from the cursor to the last column, moves the rest of the span `n` places left and blanks the last `n` cells of the span. |
| `Cells.SwapColoursCells` | src/Terminal.cpp:138-150 | Before the limit column each cell has its foreground and background exchanged and keeps its byte and every other attribute; from the limit on cells are kept. |
| `Parsing.NextState` | src/Terminal.cpp:304-317 | Only ESC `[` enters Control and only bytes a control sequence absorbs keep it there; the Scs state always returns to Normal. |
| `Parsing.StateAfterAppend` | src/Terminal.cpp:298-321 | The parser resumes across chunk boundaries: the state after two chunks is the state after their concatenation. |
| `Parsing.ParamStep` | src/Terminal.cpp:499-518 | One parameter byte keeps the accumulator a 32-bit unsigned value and keeps the parser state. |
| `Parsing.ParamRun` | src/Terminal.cpp:499-518 | A run of parameter bytes keeps the accumulator a 32-bit unsigned value and keeps the parser state. |
| `Parsing.ParamRunDigits` | src/Terminal.cpp:502-505 | Digits extend the accumulator by one decimal place each, modulo 2^32, join the buffer and leave the queue alone. |
| `Parsing.ParameterThenSeparator` | src/Terminal.cpp:502-517 | A decimal parameter closed by `;` joins the queue as its value modulo 2^32 read as a signed 32-bit number, and the accumulator and buffer are cleared. |
| `Parsing.ParamRunAppend` | src/Terminal.cpp:499-518 | Feeding two runs of parameter bytes is feeding their concatenation. |
| `Parsing.Flushed` | src/Terminal.cpp:546-551 | With no digit pending, the queue handed to the final's handler is the queue as it stands. |
| `Parsing.ControlBackspace` | src/Terminal.cpp:523-525 | BS in a control sequence drops exactly the head of the queue while a parameter is pending and the queue is not empty. Otherwise it changes nothing. State, buffer and accumulator are kept. |
| `Parsing.RunModesClear` | src/Terminal.cpp:826-891 | A mode run asks for a clear only with origin mode off, and never both clears and flips the screen. |
| `Parsing.RunModesFlags` | src/Terminal.cpp:826-957 | A mode run writes flags in queue order and the last write wins: each flag ends as the queue's last write to it, or as it was when the queue never names it. |
| `Parsing.SetThenReset` | src/Terminal.cpp:826-957 | SM of a whole queue followed by RM of the same queue leaves the modes RM alone would leave, and RM then SM leaves those SM alone would leave. |
| `Parsing.IgnoredInNormal` | src/Terminal.cpp:331-398 | Every byte the Normal state ignores is a C0 control or DEL. |
| `Parsing.Printable` | src/Terminal.cpp:331-398 | The Normal state writes exactly the bytes from space up except DEL, plus SOH and STX, which no case of the switch names. |
| `Parsing.StaysInControl` | src/Terminal.cpp:497-542 | No final byte (`@` and above) keeps a control sequence open. |
| `Parsing.EditsGrid` | src/Terminal.cpp:544-684 | An editing final is neither a motion or report final nor a byte that keeps the sequence open. |
| `Parsing.MovesOrReports` | src/Terminal.cpp:564-680 | A motion or report final never keeps the sequence open. |
| `Parsing.StateAfter` | src/Terminal.cpp:298-321 | An empty chunk keeps the parser state, and a chunk with no ESC leaves the Normal state Normal. |
| `Parsing.AnsiMode` | src/Terminal.cpp:826-844 | Only mode 20 (LNM, set means cleared) and mode 4 (IRM) change anything, each only its own flag. |
| `Parsing.PrivateMode` | src/Terminal.cpp:845-875 | A private mode never touches LNM or IRM. Only 3 asks for a clear, and then drops origin mode; only 5 changes screen reverse, and then records a flip; values other than 3, 5, 6 and 7 change nothing. |
| `Parsing.RunModes` | src/Terminal.cpp:826-957 | A queue with no private marker changes only LNM and IRM and neither clears nor flips. A change of screen reverse always records a flip. |
| `Csi.AccumulateDigit` | src/Terminal.cpp:504 | `_csTemp * 10 + d` stays a 32-bit unsigned value and equals the exact sum modulo 2^32. |
| `Csi.Accumulated` | src/Terminal.cpp:502-505 | Feeding digits one at a time keeps the accumulator a 32-bit unsigned value. |
| `Csi.AccumulatedIsDecimalMod` | src/Terminal.cpp:502-505 | From a cleared accumulator, a parameter's digits leave its decimal value modulo 2^32. Long parameters wrap around rather than saturate. |
| `Csi.AsInt32` | src/Terminal.cpp:514 | The unsigned accumulator enqueued into an `int` queue is the same 32 bits read in two's complement: in range, congruent, and unchanged below 2^31. |
| `Csi.PopLineCount` | src/Terminal.h:100-106 | The count is 1 on an empty queue, which stays empty. Otherwise the head is removed and the count is the head raised to at least 1. |
| `Csi.ClampTo` | src/Terminal.h:95-99 | A coordinate is clamped into `[0, n)`: kept when inside, 0 below, `n - 1` above. |
| `Csi.CursorUp` | src/Terminal.cpp:564-570 | CUU leaves the row inside the grid, at or below the region top when origin-relative. It moves exactly `n` when that stays inside, and otherwise never moves down except onto the region top. |
| `Csi.CursorDown` | src/Terminal.cpp:571-577 | CUD leaves the row inside the grid, at or above the region bottom when origin-relative. It moves exactly `n` when that stays inside. |
| `Csi.CursorForward` | src/Terminal.cpp:578-582 | CUF leaves the column inside the visible columns: `x + n`, or the last column when that would leave them. |
| `Csi.CursorBack` | src/Terminal.cpp:583-587 | CUB leaves the column inside the visible columns: `x - n`, or column 0. |
| `Csi.CursorNextLine` | src/Terminal.cpp:588-599 | CNL and CPL leave the row inside the grid, exactly `n` rows away when that stays inside. |
| `Csi.CupTarget` | src/Terminal.cpp:686-705 | CUP and HVP home to (0,0) on an empty queue. Otherwise the row comes from the first value and the column from the second (column 0 when absent); when the region does not start at row 0, origin mode offsets by the region top and keeps the row inside the region; the target is always inside the grid. |
| `Csi.RegionArg` | src/Terminal.cpp:1047-1056 | A DECSTBM value is kept inside `[1, rows]`, unchanged when already inside. |
| `Csi.Decstbm` | src/Terminal.cpp:1038-1057 | An empty queue resets the region to the whole screen and any count but 2 keeps it. Two in-range values give the 0-based smaller and larger line. The region is always ordered and inside the screen. |
| `Csi.TruncDivTens` | src/Terminal.cpp:990-997 | C's `p / 10` is 3 exactly for 30..39 and 4 exactly for 40..49, so negative parameters never pick a colour. |
| `Csi.Sgr` | src/Terminal.cpp:961-962 | SGR with an empty queue resets the rendition to the default, reversed only on a reversed screen. |
| `Csi.SgrAllAppend` | src/Terminal.cpp:964-1003 | Parameters apply in queue order. |
| `Csi.SgrResetForgets` | src/Terminal.cpp:969-976 | A 0 erases every parameter before it. |
| `Csi.SgrColour` | src/Terminal.cpp:990-997 | 30..39 sets the foreground to `p - 30` and 40..49 the background to `p - 40`, nothing else. |
| `Csi.DaReply` | src/Terminal.cpp:804-819 | The DA reply of each standard is an `ESC [ ?` ... `c` sequence. |
| `Csi.Decimal` | src/Terminal.cpp:1023-1029 | The reference spelling of a number is a non-empty run of decimal digits. |
| `Csi.ReportNumberIsDecimal` | src/Terminal.cpp:1023-1029 | Below 100, a coordinate of the cursor report is its decimal spelling. |
| `Csi.DsrReportDecimal` | src/Terminal.cpp:1020-1031 | For positions up to 99 the DSR 6 report is `ESC [ row ; column R` in decimal, 1-based. |
| `Csi.DsrReportRow100` | src/Terminal.cpp:1023-1025 | Row 100 is reported with the tens byte `:`, not as the decimal `100`. |
| `Csi.TruncDiv` | src/Terminal.cpp:990-997 | C's quotient: the remainder has the sign of the dividend and is smaller in size than the divisor. |
| `Csi.SgrStep` | src/Terminal.cpp:964-1003 | 0 gives the default rendition. Only 0 and 7 change the reverse flag, only 0 and 30..39 the foreground, only 0 and 40..49 the background. A parameter other than 0, 1, 4, 5, 7 and 30..49 changes nothing. |
| `Csi.SgrAll` | src/Terminal.cpp:964-1003 | A queue without 0 and 7 keeps the reverse flag; one without 0 and 30..39 keeps the foreground; one without 0 and 40..49 keeps the background. |
| `Csi.AsciiDigit` | src/Terminal.cpp:1023-1029 | The values 0..9 are written as the bytes `0`..`9`. |
| `Csi.ReportNumber` | src/Terminal.cpp:1023-1029 | A value below 10 takes one byte and one from 10 on takes two. Below 100 every byte is a digit, and the last byte is always the units digit. |
| `Csi.DsrCursorReport` | src/Terminal.cpp:1020-1031 | The report is 6 to 8 bytes, starts with `ESC [` and ends with `R`. For a position below 9 in both directions it is `ESC [ row ; column R` with single 1-based digits. |
| `Screen.Restored` | src/Terminal.cpp:674-680 | Restoring moves the cursor to the saved position when one was saved and changes nothing otherwise. The saved position, the wrap flag and the region are kept. |
| `Screen.RestoredInside` | src/Terminal.cpp:674-680 | Restoring keeps the cursor inside the grid. |
| `Screen.SaveThenRestore` | src/Terminal.cpp:670-680 | Saving then restoring gives back the saved position. |
| `Screen.SpanEnd` | src/Terminal.cpp:126-127 | clearRow's end column `PositionNotFound` stands for the last visible column. |
| `Screen.ClearedGrid` | src/Terminal.cpp:109-110 | clearAll's loop blanks every visible cell and keeps every slack cell. |
| `Screen.AlignmentGrid` | src/Terminal.cpp:485-493 | DECALN fills every visible cell of every row but the last with `E` and the empty attribute. The last row and the slack cells are kept. |
| `Screen.SwapTwice` | src/Terminal.cpp:138-150 | Swapping colours twice gives the grid back. |
| `Screen.DownY` | src/Terminal.cpp:266-271 | goOneRowDown keeps the row on the region bottom. Elsewhere it moves down one, never past the last row. |
| `Screen.UpY` | src/Terminal.cpp:290-295 | goOneRowUp never moves down and moves up one off the region top when not on row 0. |
| `Screen.DownThenUp` | src/Terminal.cpp:250-296 | A scroll up of the region followed by a scroll down gives back every row but the top one, which comes back blank. |
| `Screen.WriteColumn` | src/Terminal.cpp:162-168 | The written column is always visible and is the cursor column inside the row. |
| `Screen.BackspaceAfterWrite` | src/Terminal.cpp:400-407 | A backspace after a write returns to the written cell, except after writing the last column with autowrap, where it lands one further left. |
| `Screen.TabStop` | src/Terminal.cpp:351-353 | The tab target is a multiple of 8 or the slack column, never past it. |
| `Screen.TabStopIsNext` | src/Terminal.cpp:351-353 | The tab target is the first multiple of 8 right of the cursor, or the slack column when none comes before it. |
| `Screen.WriteRow` | src/Terminal.cpp:162-166 | The written row is inside the grid. |
| `Screen.CursorAfterWrite` | src/Terminal.cpp:162-177 | After a write the cursor is one right of the written column, on the written row, with the saved cursor and region kept. |
| `Screen.GridAfterWrite` | src/Terminal.cpp:152-178 | A write keeps the grid's height. |
| `Screen.WriteStamps` | src/Terminal.cpp:168-177 | The written cell carries the byte and the rendition, is not part of a URL, and the cursor lands just right of it. |
| `Screen.WriteTouchesOneCell` | src/Terminal.cpp:168-176 | Outside insert mode and away from the slack column, a write changes exactly the cell under the cursor. |
| `Screen.WriteInsertShifts` | src/Terminal.cpp:154-161 | In insert mode the cells right of the cursor are the old ones moved one place right; the slack cell stays. |
| `Screen.InsertLinesShape` | src/Terminal.cpp:755-765 | IL keeps the rows outside the region, moves rows down by `n` and blanks the first `n` rows from the cursor; the rows pushed past the bottom are gone. |
| `Screen.DeleteLinesShape` | src/Terminal.cpp:770-780 | DL keeps the rows outside the region, moves rows up by `n` and blanks the last `n` rows of the region. |
| `Screen.InsertThenDeleteLines` | src/Terminal.cpp:755-780 | DL after IL at the same row gives back the rows that were pushed down; only the rows that fell off come back blank. |
| `Screen.EraseAbove` | src/Terminal.cpp:719-722 | ED 1 keeps the shape and every slack cell. |
| `Screen.EraseCells` | src/Terminal.cpp:707-731 | ED 0 clears exactly the visible cells at or after the cursor in reading order, and ED 1 exactly those at or before it. |
| `Screen.EraseBelowThenAbove` | src/Terminal.cpp:707-731 | ED 0 then ED 1 at the same cursor clears the whole screen, as ED 2 does. |
| `Screen.InsertChars` | src/Terminal.cpp:555-563 | ICH keeps the row length and the slack cell. |
| `Screen.InsertThenDeleteChars` | src/Terminal.cpp:555-563 | DCH after ICH with the same count gives back the cells that had room to stay; the last `n` cells come back as DCH's blank. |
| `Screen.DeleteCharsShape` | src/Terminal.cpp:785-802 | DCH moves the cells after the deleted span left in order and fills the end with exactly `n` blanks (at most up to the cursor). |
| `Screen.SwappedGrid` | src/Terminal.cpp:138-150 | reverseAll keeps every byte, URL flag and row length. It exchanges the colours of every cell before the last visible column and leaves the last visible column and the slack cell alone. |
| `Screen.DownGrid` | src/Terminal.cpp:250-272 | Off the region's bottom row the grid is unchanged. On it, the rows outside the region stay, each region row takes the row below it, and the bottom row is blank. |
| `Screen.UpGrid` | src/Terminal.cpp:274-296 | Off the region's top row the grid is unchanged. On it, the rows outside the region stay, each region row takes the row above it, and the top row is blank. |
| `Screen.BackspaceColumn` | src/Terminal.cpp:400-414 | From a visible column BS goes one left. From the slack column it goes two left exactly when autowrap is on. The result is always a visible column. |
| `Screen.EraseBelow` | src/Terminal.cpp:709-714 | ED 0's rows below the cursor: the rows above the cursor and the slack cells are kept, every visible cell of the rows below is blank, and every row keeps its length. |
| `Tagging.DbState` | src/Terminal.cpp:180-201 | A lead tag sits on a byte above 0x7f, a trail tag follows one, and nothing else is tagged. |
| `Tagging.DbStateOfBytes` | src/Terminal.cpp:180-201 | The tags depend on the bytes only. |
| `Tagging.DbPairsInRun` | src/Terminal.cpp:184-199 | A run of high bytes after an untagged or trail cell splits into lead/trail pairs from its first byte. |
| `Tagging.AsciiRowUntagged` | src/Terminal.cpp:190-193 | A row of ASCII bytes carries no tag. |
| `Tagging.RetagIdempotent` | src/Terminal.cpp:180-201 | Tagging twice is tagging once. |
| `Tagging.PrefixStartIsUrlByte` | src/Terminal.cpp:206-229 | The first letter of every protocol is a byte that does not end a URL. |
| `Tagging.UrlFlagIff` | src/Terminal.cpp:209-247 | A cell is flagged exactly when a protocol prefix starts at or before it, or the span comes over from the row above, and no byte since then ended the span. |
| `Tagging.Reflag` | src/Terminal.cpp:242-246 | Re-flagging keeps every byte and every double-byte tag. |
| `Tagging.StartsUrlOfBytes` | src/Terminal.cpp:224-240 | The prefix test reads bytes only. |
| `Tagging.UrlFlagOfBytes` | src/Terminal.cpp:203-248 | The flags depend on the bytes and the seed only. |
| `Tagging.RowPostProcessed` | src/Terminal.cpp:323-327 | Tagging then flagging a row leaves every visible cell with the tag and flag its bytes call for, so running the two passes again changes nothing. |
| `Tagging.RowTaggedFrame` | src/Terminal.cpp:209-211 | Whether a row is post-processed depends only on it and the row above. |
| `Tagging.TaggedStep` | src/Terminal.cpp:323-327 | Post-processing row `y` extends the prefix of post-processed rows by one. |
| `Tagging.RetagCells` | src/Terminal.cpp:180-201 | Re-tagging keeps every byte and every attribute but the double-byte tag. The first `n` cells get the tag of the scan; the rest are kept. |
| `Tagging.PrefixAt` | src/Terminal.cpp:227-229 | A matched non-empty protocol has its first letter at a cell inside the row. |
| `Tagging.StartsUrl` | src/Terminal.cpp:224-238 | A URL start has room for six cells in the row from where it starts. |
| `Tagging.EndsUrl` | src/Terminal.cpp:217-221 | A byte that does not end a URL is printable ASCII from `!` to `~`. |
| `Reading.PairCode` | src/Terminal.cpp:1099 | The lead/trail table index is a 32-bit unsigned value. |
| `Reading.ReadCell` | src/Terminal.cpp:1071-1118 | Reading a cell only appends to the text, and a row start appends a newline first. One cell adds at most two units to the text plus the pending blanks. |
| `Reading.FlatIndex` | src/Terminal.cpp:1069-1070 | A flat index inside the grid names a row and a visible column inside it. |
| `Reading.ScanFrame` | src/Terminal.cpp:1071-1077 | The text of a prefix does not depend on rows that start after it. |
| `Reading.TrailingBlanks` | src/Terminal.cpp:1081-1091 | Blank cells at the end of a span add nothing to its text. |
| `Reading.PlainRowReadsBack` | src/Terminal.cpp:1080-1091 | Plain single-byte text on one row reads back as exactly its bytes. |
| `Reading.AppendSpaces` | src/Terminal.cpp:1087-1088 | The blank loop appends exactly `n` spaces. |
| `Reading.ReadCellStep` | src/Terminal.cpp:1078-1119 | The loop body's three registers end as the specification of one cell says. |
| `Reading.NewRowCell` | src/Terminal.cpp:1071-1076 | A row start writes a newline and drops the pending blanks before the cell is read. |
| `Reading.RetagNext` | src/Terminal.cpp:1071-1073 | A flat index retags its row exactly when it starts a row after the span's first index. |
| `Reading.RowColumnOf` | src/Terminal.cpp:1069-1070 | Row `y`, column `x` is flat index `y * columns + x` and back. |
| `Reading.RunStart` | src/Terminal.cpp:1130-1149 | The head of a URL run: every cell from it to the clicked one is flagged, and the cell before it is not (or it is the first cell). |
| `Reading.RunEnd` | src/Terminal.cpp:1151-1163 | The end of a URL run: every cell up to it is flagged, and it is unflagged or the grid's end. |
| `Reading.RunBytes` | src/Terminal.cpp:1151-1164 | The URL text is the bytes of the run's cells, in order. |
| `Reading.RunBytesNext` | src/Terminal.cpp:1154 | Reading one more cell appends its byte. |
| `Reading.SameRun` | src/Terminal.cpp:1124-1165 | Every cell of a run reports the same run, so a URL found from any of its cells is the same string. |
| `Reading.RunStartIs` | src/Terminal.cpp:1130-1149 | A maximal run's head is the head found from any of its cells. |
| `Reading.RunEndIs` | src/Terminal.cpp:1151-1163 | A maximal run's end is the end found from any of its cells. |
| `Reading.ScanLength` | src/Terminal.cpp:1067-1119 | After `n` cells at most `n` blanks are pending, and the text plus the pending blanks is at most two units per cell. |
| `Reading.ScanStep` | src/Terminal.cpp:1067-1119 | The scan of `n` cells is the scan of `n - 1` cells followed by the cell at flat index `begin + n - 1`, which lies inside the grid. |
| `Reading.Text` | src/Terminal.cpp:1062-1122 | A length of 0 or less reads as the empty text; otherwise the text has at most two units per cell. |
| `Term.MatchesAt` | src/Terminal.cpp:226-234 | The comparison loop answers whether the protocol is spelt out from the cell. |
| `Term.StartsUrlAt` | src/Terminal.cpp:224-240 | The protocol loop answers whether some protocol starts at the cell. |
| `Term.NextUrlFlag` | src/Terminal.cpp:216-241 | One column of the URL scan computes that cell's flag. |
| `Term.Terminal.constructor` | src/Terminal.cpp:34-82 | A new terminal is VT102, blanked through clearAll with the colours the uninitialised fields hold, fully dirty, homed, in Normal state with empty registers and the initial modes, with no saved cursor. |
| `Term.Terminal.SetDirtyAt` | src/Terminal.h:83-86 | Exactly one flag of the map changes, and it reads back as the value set. |
| `Term.Terminal.SetDirtyUnder` | src/Terminal.h:78-82 | Every flag from the row's start to the end of the map takes the value; earlier flags are kept. |
| `Term.Terminal.SetDirtyAll` | src/Terminal.h:74-77 | Every flag is set. |
| `Term.Terminal.MoveCursorTo` | src/Terminal.h:95-99 | The cursor lands on the clamped coordinates, inside the visible grid; nothing else changes. |
| `Term.Terminal.PopLineCount` | src/Terminal.h:100-106 | The count and the remaining queue are those of `Csi.PopLineCount`; nothing else changes. |
| `Term.Terminal.ClearRow` | src/Terminal.cpp:124-136 | Columns `s..e` of the row become cleared cells and their flags are set; no other cell, flag or register changes. |
| `Term.Terminal.FillSpan` | src/Terminal.cpp:128-135 | The column loop writes the fill into exactly the span and sets exactly its flags. |
| `Term.Terminal.ClearAll` | src/Terminal.cpp:95-122 | Every visible cell is cleared under the old rendition and every flag set. The cursor is homed, the parser and queue reset, and the rendition returns to the default (reversed on a reversed screen). |
| `Term.Terminal.ClearRows` | src/Terminal.cpp:109-110 | Whole rows `from..to-1` are cleared and exactly their flags set. |
| `Term.Terminal.ReverseAll` | src/Terminal.cpp:138-150 | Colours are swapped in every cell before each row's last visible column, and exactly those flags are set. |
| `Term.Terminal.ReverseRow` | src/Terminal.cpp:142-148 | One row's colours are swapped up to its last visible column. |
| `Term.Terminal.UpdateDoubleByteStateForRow` | src/Terminal.cpp:180-201 | The row is retagged from a fresh scan; nothing else changes. |
| `Term.Terminal.UpdateUrlStateForRow` | src/Terminal.cpp:203-248 | The row is re-flagged, seeded from the row above, and a flag of the map is set exactly where a cell's URL flag changed. |
| `Term.Terminal.FlagRow` | src/Terminal.cpp:214-247 | The column loop computes the re-flagged row and sets exactly the flags of changed cells. |
| `Term.Terminal.RotateUp` | src/Terminal.cpp:261-263 | The row-pointer loop is the upward rotation of the region. |
| `Term.Terminal.RotateDown` | src/Terminal.cpp:285-287 | The row-pointer loop is the downward rotation of the region. |
| `Term.Terminal.ScrollRegionUp` | src/Terminal.cpp:259-264 | The region scrolls up with the cleared top row entering at the bottom. |
| `Term.Terminal.ScrollRegionDown` | src/Terminal.cpp:283-288 | The region scrolls down with the cleared bottom row entering at the top. |
| `Term.Terminal.GoOneRowDown` | src/Terminal.cpp:250-272 | On the region bottom the region rotates up, the entering row is cleared, the whole map is dirty and the view is told when asked. Elsewhere the cursor moves down one row, clamped, and the map is unchanged. |
| `Term.Terminal.GoOneRowUp` | src/Terminal.cpp:274-296 | The mirror image on the region top. |
| `Term.Terminal.SetByteUnderCursor` | src/Terminal.cpp:152-178 | The grid, registers and map after a write are those of the write's specification: wrap and scroll, insert shift, stamped cell, cursor one right. |
| `Term.Terminal.PrepareWrite` | src/Terminal.cpp:154-167 | The insert shift, or the wrap to the next row, leaves the cursor on a visible column. |
| `Term.Terminal.ShiftForInsert` | src/Terminal.cpp:154-161 | The insert loop shifts the row right from the cursor and sets exactly the moved-into flags. |
| `Term.Terminal.WriteUnderCursor` | src/Terminal.cpp:168-177 | The cell under the cursor is stamped and its flag set, and the cursor moves right by exactly one. |
| `Term.Terminal.HandleNormalDataInput` | src/Terminal.cpp:331-398 | Ignored bytes change nothing. ENQ sends an empty reply; BEL beeps and sets the message flag; HT tabs; CR returns; ESC enters Escape; every other byte is written. LF, VT and FF on the region's bottom row mark the whole map dirty, and elsewhere leave it alone; BS after a wrap does the same on the region's top row. |
| `Term.Terminal.HandleNormalSignal` | src/Terminal.cpp:335-347 | The cases that touch neither grid nor map change exactly their registers. |
| `Term.Terminal.HandleNormalMotion` | src/Terminal.cpp:348-360 | BS, LF, VT and FF move as handleNormalBs and the line feed specify. The map becomes all dirty exactly when the move scrolls: a line feed on the region's bottom row, or a reverse wrap on its top row. Otherwise it is unchanged. |
| `Term.Terminal.LineFeed` | src/Terminal.cpp:354-360 | Column 0 unless the line-feed flag is set, then goOneRowDown without telling the view. |
| `Term.Terminal.HandleNormalBs` | src/Terminal.cpp:400-414 | One column left, two from the slack column with autowrap. From column 0 after a wrap, the last column of the row above, clearing the wrap flag. Otherwise nothing. |
| `Term.Terminal.HandleEscapeDataInput` | src/Terminal.cpp:416-477 | Each byte after ESC does its documented action and leaves the parser state `NextState` gives. `ESC # 8` within the chunk consumes the `8`. RI on the region's top row and IND or NEL on its bottom row mark the whole map dirty; otherwise they keep it. |
| `Term.Terminal.HandleEscapeMotion` | src/Terminal.cpp:429-463 | RI goes one row up; IND and NEL go one row down, NEL to column 0 too. The map becomes all dirty when RI is on the region's top row or IND/NEL on its bottom row, and is unchanged otherwise. |
| `Term.Terminal.HandleEscapeSignal` | src/Terminal.cpp:418-476 | The escape finals that touch neither grid nor map change exactly their registers. |
| `Term.Terminal.HandleEscapeHash` | src/Terminal.cpp:479-495 | DECALN runs only when `8` follows within the chunk. It fills the alignment grid and sets the flags of every row but the last. |
| `Term.Terminal.AlignRows` | src/Terminal.cpp:485-493 | The DECALN loop produces the alignment grid and sets exactly the flags before the last row. |
| `Term.Terminal.HandleControlCursorVertical` | src/Terminal.cpp:564-599 | CUU, CUD, CNL and CPL pop one count and move as `Csi.CursorUp`, `Csi.CursorDown` and `Csi.CursorNextLine` say. |
| `Term.Terminal.HandleControlCursorHorizontal` | src/Terminal.cpp:578-587 | CUF and CUB pop one count and move as `Csi.CursorForward` and `Csi.CursorBack` say. |
| `Term.Terminal.HandleControlCursorJump` | src/Terminal.cpp:600-656 | CHA, HPA, HPR, HPB, VPA, VPR and VPB pop one count and move through the clamp. |
| `Term.Terminal.HandleControlSaveRestore` | src/Terminal.cpp:670-680 | SCP saves the cursor; RCP restores it only when one was saved. |
| `Term.Terminal.HandleControlCup` | src/Terminal.cpp:686-705 | The cursor moves to `Csi.CupTarget` and the queue loses what was popped. |
| `Term.Terminal.HandleControlDecstbm` | src/Terminal.cpp:1038-1060 | The region becomes `Csi.Decstbm` and the cursor goes to column 0 of the region top. |
| `Term.Terminal.HandleControlDa` | src/Terminal.cpp:804-824 | The DA reply is sent for an empty queue or a single 0, and a single value is consumed. |
| `Term.Terminal.HandleControlDsr` | src/Terminal.cpp:1006-1036 | With exactly one value, 5 sends the status reply and 6 the cursor report, and the value is consumed; any other queue is left alone. |
| `Term.Terminal.HandleControlSgr` | src/Terminal.cpp:959-1004 | The rendition becomes `Csi.Sgr` of the queue, and the queue is emptied. |
| `Term.Terminal.ApplyRendition` | src/Terminal.cpp:966-1002 | One parameter is applied to the rendition. |
| `Term.Terminal.HandleControlIch` | src/Terminal.cpp:555-563 | The cursor row becomes `Screen.InsertChars` of one popped count, and the flags from the cursor to the row's last visible column are set. |
| `Term.Terminal.ShiftCharsRight` | src/Terminal.cpp:557-561 | The ICH loop shifts the row right by `n` and sets exactly the moved-into flags. |
| `Term.Terminal.EraseBelowCursor` | src/Terminal.cpp:709-714 | ED 0 clears from the cursor to the end and sets every flag from the cursor's on. |
| `Term.Terminal.EraseAboveCursor` | src/Terminal.cpp:719-723 | ED 1 clears from the start to the cursor and sets the flags up to the cursor's. |
| `Term.Terminal.HandleControlEd` | src/Terminal.cpp:707-731 | The queue head, not consumed, picks ED 0 (also for an empty queue), ED 1 or ED 2. Any other value does nothing. |
| `Term.Terminal.HandleControlEl` | src/Terminal.cpp:733-753 | The same choice for the cursor row alone. |
| `Term.Terminal.HandleControlIl` | src/Terminal.cpp:755-768 | The grid becomes `Screen.InsertLines` of one popped count when the cursor is in the region, and is unchanged below it. Every flag from the cursor row on is set. |
| `Term.Terminal.HandleControlDl` | src/Terminal.cpp:770-783 | The grid becomes `Screen.DeleteLines` of one popped count in the same way. |
| `Term.Terminal.InsertLinesLoop` | src/Terminal.cpp:758-765 | The IL loop computes `Screen.InsertLines` and sets the flags of the cleared rows. |
| `Term.Terminal.DeleteLinesLoop` | src/Terminal.cpp:773-780 | The DL loop computes `Screen.DeleteLines` and sets the flags of the cleared rows. |
| `Term.Terminal.MarkRowsBelow` | src/Terminal.cpp:766-767 | Repeated setDirtyUnder leaves every flag from row `from` on set. |
| `Term.Terminal.HandleControlDch` | src/Terminal.cpp:785-802 | The count is popped only when it is the sole value. The row becomes `Cells.DeleteChars` with a background-only blank, and the flags from the cursor on are set. |
| `Term.Terminal.DeleteCharsLoop` | src/Terminal.cpp:788-801 | The DCH loop computes `Cells.DeleteChars` and sets exactly the flags from the cursor on. |
| `Term.Terminal.HandleControlMode` | src/Terminal.cpp:826-957 | SM and RM apply the queue's mode run. DECCOLM then clears and homes (SM only outside origin mode); DECSCNM reverses the screen. |
| `Term.Terminal.RunModeQueue` | src/Terminal.cpp:829-881 | The queue loop computes `Parsing.RunModes` and empties the queue. |
| `Term.Terminal.ApplyAnsiModes` | src/Terminal.cpp:829-844 | ANSI values are applied until the queue is empty or holds a private marker and one value. |
| `Term.Terminal.PrivateModeStep` | src/Terminal.cpp:845-877 | One private mode is applied as `Parsing.PrivateMode` says, reversing the screen when DECSCNM flips it. |
| `Term.Terminal.FlushParameter` | src/Terminal.cpp:546-551 | The pending parameter joins the queue and the accumulator and buffer are reset. |
| `Term.Terminal.HandleControlNonSimpleShiftingInputs` | src/Terminal.cpp:544-684 | Only editing finals touch the grid or map, only DA and DSR reply, only SM and RM change modes, and the view is never told anything. On the registers with the last parameter flushed, an editing final has the effect `EditingEffect` gives (ICH, ED, EL, IL, DL, DCH, SM, RM), and any other final the effect `MotionEffect` gives (cursor moves, CUP/HVP, DA, DSR, SGR, DECSTBM, SCP, RCP; REP and TBC do nothing). |
| `Term.Terminal.HandleControlEditing` | src/Terminal.cpp:555-623 | The editing finals send nothing and change no mode except through SM and RM. Each final changes the grid, the registers and the map as `EditingEffect` states for it: ICH, ED, EL, IL/DL, DCH as the matching handler does, SM/RM by running the mode queue. |
| `Term.Terminal.HandleControlMotionAndReports` | src/Terminal.cpp:564-680 | The other finals keep the grid; REP and TBC do nothing at all. Each final changes the registers as `MotionEffect` states for it: relative moves by `RelativeMove`, jumps by `JumpMove`, CUP/HVP to `Csi.CupTarget`, DA and DSR append their reply, SGR sets the pen, DECSTBM sets the region and homes the cursor, SCP and RCP save and restore. |
| `Term.Terminal.HandleControlDataInput` | src/Terminal.cpp:497-542 | Parameter bytes step the registers, BS drops the queue head as `Parsing.ControlBackspace` says, and VT and CR act within the sequence (VT dirties the whole map only on the region's bottom row). Any other byte runs the final and returns to Normal with empty registers. That final's effect is `EditingEffect` or `MotionEffect` on the registers with the last parameter flushed. |
| `Term.Terminal.HandleParameterByte` | src/Terminal.cpp:499-518 | The registers become `Parsing.ParamStep` of the byte. |
| `Term.Terminal.ProcessIncomingData` | src/Terminal.cpp:298-329 | The parser ends in `Parsing.StateAfter` of the chunk and the grid is post-processed. Replies and events are only appended, ending with the data-processed event. |
| `Term.Terminal.StepByte` | src/Terminal.cpp:301-320 | One turn of the byte loop preserves the state the rest of the chunk leads to. |
| `Term.Terminal.PostProcessRows` | src/Terminal.cpp:323-327 | Every row is retagged and re-flagged top to bottom; bytes are kept and the map only gains flags. |
| `Term.Terminal.PostProcessRow` | src/Terminal.cpp:325-326 | One row extends the post-processed prefix by one. |
| `Term.Terminal.StringFromIndex` | src/Terminal.cpp:1062-1122 | The result is `Reading.Text` of the span, and exactly the rows started inside the span are retagged. |
| `Term.Terminal.ReadIndex` | src/Terminal.cpp:1067-1119 | One pass of the loop advances the registers by one cell of `Reading.Scan`. |
| `Term.Terminal.UrlStringAt` | src/Terminal.cpp:1124-1165 | The flag says whether the cell is in a URL. The URL is empty when it is not, and otherwise the bytes of the whole run around the cell. |
| `Term.Terminal.UrlHead` | src/Terminal.cpp:1130-1149 | The backward walk and the step after it reach the run's head. |
| `Term.Terminal.UrlBytesFrom` | src/Terminal.cpp:1151-1164 | The forward walk collects the bytes from the head to the run's end. |
| `Term.Terminal.RelativeMove` | src/Terminal.cpp:564-599 | CUU and CUD keep the column and CUF and CUB keep the row. None of them changes the saved position, the wrap flag or the region. |
| `Term.Terminal.JumpMove` | src/Terminal.cpp:600-657 | CHA, HPA, HPR, HPB, VPA, VPR and VPB land inside the screen and change only the position. |
| `Findings.TabStopAsWritten` | src/Terminal.cpp:352 | HT as written goes to the next multiple of 8, whatever the row width. |
| `Findings.TabFromSlackColumn` | src/Terminal.cpp:351-353 | From the slack column of a row whose width is a multiple of 8, HT as written lands past the row array; the corrected stop stays. |
| `Findings.RestoreAsWritten` | src/Terminal.cpp:442-446 | DECRC as written takes the saved position unconditionally. |
| `Findings.RestoreBeforeSave` | src/Terminal.cpp:442-446 | Before any save, DECRC as written puts the cursor outside the grid; the corrected restore keeps it. |
| `Findings.DecstbmAsWritten` | src/Terminal.cpp:1038-1057 | DECSTBM as written orders two values but does not bound them. |
| `Findings.DecstbmOutside` | src/Terminal.cpp:1045-1056 | `ESC [ 0 ; 0 r` and `ESC [ 1 ; 99 r` put the region outside a 24-row screen as written, and inside it corrected. |
| `Findings.WriteColumnAsWritten` | src/Terminal.cpp:162-168 | Without autowrap, the written column as written is the cursor column, even the slack one. |
| `Findings.NoWrapWritesPastRow` | src/Terminal.cpp:162-177 | Three writes from the last column without autowrap reach past the row array as written; the corrected column stays visible. |
| `Findings.IchClearEndAsWritten` | src/Terminal.cpp:562 | ICH as written clears `n` cells from the cursor. |
| `Findings.IchClearsPastRow` | src/Terminal.cpp:555-563 | `ESC [ 3 @` on the last column clears past the row array as written; the corrected ICH keeps the slack cell. |
| `Findings.EraseToCursorIndexAsWritten` | src/Terminal.cpp:719-720 | The last map index ED 1 and EL 1 mark as written lies on the cursor row for a visible column, and is the next row's first index from the slack column. |
| `Findings.EraseToSlackPastMap` | src/Terminal.cpp:719-722 | From the slack column of the last row, ED 1 as written marks one past the map; the corrected erase stops at the last visible column. |
| `Findings.InsertLinePassAsWritten` | src/Terminal.cpp:758-765 | One IL pass on row references as written keeps the row count. |
| `Findings.DeleteLinePassAsWritten` | src/Terminal.cpp:773-780 | One DL pass on row references as written keeps the row count. |
| `Findings.LinesBelowRegionAlias` | src/Terminal.cpp:755-783 | With the cursor below the region, one IL or DL pass as written makes two rows share one array and loses another. |
| `Findings.ControlBackspaceAsWritten` | src/Terminal.cpp:523-525 | BS as written dequeues whenever a digit is pending, failing exactly on an empty queue. |
| `Findings.BackspaceOnEmptyQueue` | src/Terminal.cpp:523-525 | `ESC [ 5 BS` dequeues from an empty queue as written; the corrected BS leaves the parser alone. |
| `Findings.PrefixReadsPastRow` | src/Terminal.cpp:227-229 | With `h` on the last column and `t` in the slack cell, the prefix test as written reads past the row; the corrected test matches nothing there. |
| `Findings.CursorDownAsWritten` | src/Terminal.cpp:571-577 | CUD in 32-bit arithmetic stays inside the grid while the sum does not overflow. |
| `Findings.CursorDownWraps` | src/Terminal.cpp:571-577 | `ESC [ 2147483647 B` on row 1 wraps the row to -2^31 as written; the corrected motion stops at the last row. |
| `Findings.PrefixAtAsWritten` | src/Terminal.cpp:227-229 | The test as written reads past the row only when the protocol does not fit. When it fits, it gives the same answer as the corrected comparison. |
| `View.IndexFromPoint` | src/View_p.cpp:90-105 | The index is always inside the grid, and for a point inside the view it names the cell whose pixel rectangle holds the point. |
| `View.PointFromIndex` | src/View_p.cpp:107-120 | The point lies inside the view, one past the last cell at most, and is the cell's top-left pixel when the cell coordinates are in range. |
| `View.PointRoundTrip` | src/View_p.cpp:90-120 | The top-left pixel of a visible cell maps back to that cell's index. |
| `View.CharacterFromKeyPress` | src/View_p.cpp:193-227 | Without Control, 0 and not ok. Without Shift, ok exactly for keys from `@` to `_`, and the result is `key - '@'` in 0..31. With Shift, 2, 6, `-` and `/` give NUL, 0x1e, 0x1f and nothing. |
| `View.ControlCharactersTyped` | src/View_p.cpp:222-226 | Every control character 0..31 is typed by exactly one key with Control held. |
| `View.JumpDigit` | src/View_p.cpp:377-393 | The jump digit is one of 1, 4, 5 and 6. |
| `View.JumpKeyBytes` | src/View_p.cpp:374-396 | PageUp, PageDown, Home and End send `ESC [ 5 ~`, `ESC [ 6 ~`, `ESC [ 1 ~` and `ESC [ 4 ~`, and every other key sends nothing. |
| `View.JumpKeysDistinct` | src/View_p.cpp:374-396 | Different jump keys send different sequences, and each brings the terminal's parser back to Normal. |
| `View.SelectionRange` | src/View_p.cpp:769-777 | No range exactly for an empty or unset selection. Otherwise a positive length: the selection itself when forwards, and the same cells counted forwards when backwards. |
| `View.SelectionEitherWay` | src/View_p.cpp:773-777 | Selecting the same cells forwards or backwards gives the same range. |
| `View.WordStart` | src/View_p.cpp:174-181 | The run of word cells ending at the click starts here, and cannot be widened to the left. |
| `View.WordEnd` | src/View_p.cpp:183-190 | The run of word cells from a column ends here, and cannot be widened to the right within the visible columns. |
| `View.WordAroundIsMaximal` | src/View_p.cpp:171-191 | A clicked word cell lies inside the selected word, and the word is maximal on both sides. |
| `View.ViewPrivate.constructor` | src/View_p.cpp:38-39 | A new view has no selection. |
| `View.ViewPrivate.SelectWordAround` | src/View_p.cpp:171-191 | On a word cell the start moves to the word's first cell; otherwise it is kept. The length grows by the number of word cells from there, without being reset. |
| `View.ViewPrivate.Selection` | src/View_p.cpp:767-779 | Empty with nothing retagged for an empty or unset selection; otherwise the terminal's text of the normalised range. |
| `View.Clamp` | src/View_p.cpp:92-117 | The result lies in `[0, hi]`, and a value already inside is kept. |

## Left out

- I/O and Qt wiring are not modelled: `startConnection`, `closeConnection`, `setConnection`, the `_view` redraw calls and `qApp->beep`. Replies to the host are the ghost log `sent`. The view's extend-top, extend-bottom, beep and data-processed notifications are the ghost log `events`.
- `encoding`, `setEncoding` and the Big5/GBK tables are foreign code and data. stringFromIndex takes the pair decode as a parameter `decode`, applied to the 32-bit pair code. Whether that code lies inside the table is not modelled.
- The getters and setters `cursorRow`, `setCursorRow`, `cursorColumn`, `setCursorColumn`, `hasMessage`, `setHasMessage`, `setView` and `connection` are plain field accesses. They are not separate members. The message flag is a field that BEL sets.
- Reads of memory the source never initialises become constructor parameters (`Term.Uninitialised`): `_hasWrapped`, `_hasMessage`, the background and reverse flag clearAll first reads, the slack cells, and the double-byte bits of the attribute clearAll builds for `_emptyAttr` (the model takes them as `NotDouble`; visible cells are retagged after each chunk).
- Geometry is not part of this model (`BBS::SizeRowCount` and `SizeColumnCount`). `rows` and `columns` are constructor parameters with at least one row and two columns.
- The view's own `row` and `column` are taken to be the terminal's.
- `isAlphanumeric` is not part of this model. It is a parameter of SelectWordAround.
- Painting, the context menu and its URL heuristics, the preedit holder, and the view's `moveCursorTo`, arrow and delete key handlers are UI code and are not modelled. So is `src/SharedMenuBar.cpp`.
- The bit packing of `CellAttribute` is modelled as a record.
- Term.Terminal.ProcessIncomingData: states the final parser state, post-processing and the growth of the logs, not the grid as a function of the chunk. Each handler it calls states its own grid effect.
- Term.Terminal.StepByte: states only what one turn preserves (the state the rest of the chunk leads to, log growth), as the loop invariant needs.
- Term.Terminal.PostProcessRows: the dirty map is stated only to gain flags. UpdateUrlStateForRow states which flags it sets, row by row.
- Csi.CursorForward: computed in unbounded arithmetic. The 32-bit wrap shown for CUD in the findings affects `_cursorX + p` of CUF in the same way; it is not modelled separately.
- Csi.CursorNextLine: computed in unbounded arithmetic. The wrap of CNL's `_cursorY + p` is not modelled separately.
- `ESC H` (HTS), REP and TBC do nothing in the source, and do nothing in the model.
- Csi.CupTarget: computed in unbounded arithmetic. With origin mode on, the row is offset by the region top (src/Terminal.cpp:699); that sum would wrap in 32 bits for a row parameter near 2^31, and the wrap is not modelled.
- Term.Terminal.HandleControlCursorJump: HPR's column sum (src/Terminal.cpp:630) and VPR's row sum (src/Terminal.cpp:643) are unbounded. Their 32-bit wrap, shown for CUD under "Findings", is not modelled.
- Term.Terminal.HandleControlCup: moves to `Csi.CupTarget` and inherits its unbounded origin offset.
- Screen.InsertChars: computed in unbounded arithmetic. ICH's `_cursorX + p - 1` (src/Terminal.cpp:557, 562) wraps in 32 bits for a count near 2^31, after which the source's shift loop runs past column 0; the model instead shifts nothing and clears to the end of the row. The wrap is not modelled.
- Term.Terminal.HandleControlIch: uses `Screen.InsertChars` and inherits its unbounded clear end.
- Findings.IchClearEndAsWritten: `x + n - 1` is unbounded, so its `e - x + 1 == n` does not hold of the source for a count near 2^31, where the sum wraps.
- Findings.DecstbmAsWritten: `small - 1` (src/Terminal.cpp:1055) is unbounded. For a first value of 2^31, which reaches the queue as -2^31, the source's difference wraps to a large positive row and the region is not ordered; the model does not capture that.

## Findings

| source | as written | input that shows it | evidently intended | confidence | as-written member | corrected member |
|---|---|---|---|---|---|---|
| src/Terminal.cpp:351-353 | HT sets the column to the next multiple of 8 with no bound | HT on the slack column of an 80-column row: column 88, and the next write indexes past the 81-cell row | the tab stop never passes the slack column | not executed | `Findings.TabFromSlackColumn` | `Screen.TabStop` |
| src/Terminal.cpp:442-446 | DECRC restores the saved position without checking that one was saved | `ESC 8` before any `ESC 7`: the cursor becomes (-1, -1) | restore only a saved position, as RCP does | not executed | `Findings.RestoreBeforeSave` | `Screen.Restored` |
| src/Terminal.cpp:1038-1060 | DECSTBM takes two values without bounding them | `ESC [ 0 ; 0 r` gives region (-1, -1) and sends the cursor to row -1; `ESC [ 1 ; 99 r` on 24 rows gives bottom row 98 | the region stays inside the screen | not executed | `Findings.DecstbmOutside` | `Csi.Decstbm` |
| src/Terminal.cpp:152-178 | without autowrap a write from the slack column writes there and moves further right | autowrap off, three bytes from the last column: the second goes into the slack cell, the third to column `columns + 1` | the cursor stays on the last visible column | not executed | `Findings.NoWrapWritesPastRow` | `Screen.WriteColumn` |
| src/Terminal.cpp:555-563 | ICH clears `n` cells from the cursor whatever the room left | `ESC [ 3 @` on the last column clears columns up to `columns + 1` | the cleared span ends at the last visible column | not executed | `Findings.IchClearsPastRow` | `Screen.InsertChars` |
| src/Terminal.cpp:719-722 | ED 1 and EL 1 clear up to the cursor column, the slack one included | cursor on the slack column of the last row, `ESC [ 1 J`: marks index `rows * columns`, past the map | the erase stops at the last visible column | not executed | `Findings.EraseToSlackPastMap` | `Screen.EraseAbove` |
| src/Terminal.cpp:755-783 | IL and DL rotate rows between the cursor row and the region bottom even when the cursor is below it | region 0..9, cursor on row 15, `ESC [ L`: rows 15 and 9 share one array and the array of row 15 is lost | leave the grid alone outside the region | not executed | `Findings.LinesBelowRegionAlias` | `Term.Terminal.HandleControlIl` |
| src/Terminal.cpp:523-525 | BS inside a control sequence dequeues whenever a digit is pending | `ESC [ 5 BS`: dequeue from an empty queue | drop the head only when there is one | not executed | `Findings.BackspaceOnEmptyQueue` | `Parsing.ControlBackspace` |
| src/Terminal.cpp:227-229 | the protocol prefix test reads cells past the end of the row | `h` on the last column and `t` in the slack cell (put there without autowrap): the test for `http://` reads the cell after the slack one | a prefix that does not fit does not match | not executed | `Findings.PrefixReadsPastRow` | `Tagging.PrefixAt` |
| src/Terminal.cpp:571-577 | CUD adds the count in 32-bit arithmetic before clamping | `ESC [ 2147483647 B` on row 1: the row wraps to -2^31 and passes both bounds tests | the row stops at the last row | not executed | `Findings.CursorDownWraps` | `Csi.CursorDown` |
