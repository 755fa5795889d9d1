/** The two per-row post-processors run after every batch of host bytes:
    double-byte lead/trail tagging and URL-span flagging. */
module Tagging {
  import opened Cells

  // ---------------------------------------------------------------------
  // Double-byte tagging
  // ---------------------------------------------------------------------

  /** The tag the row scan gives cell `i`: a byte above 0x7f that does not
      follow a lead is a lead, the cell after a lead is its trail, anything
      else is untagged. The scan starts afresh at column 0 of every row. */
  function DbState(row: seq<Cell>, i: int): (t: int)
    requires 0 <= i < |row|
    ensures t == NotDouble || t == LeadByte || t == TrailByte
    ensures t == LeadByte ==> row[i].byte > 0x7f
    ensures t == TrailByte ==> i > 0 && row[i - 1].byte > 0x7f
    decreases i
  {
    if i > 0 && DbState(row, i - 1) == LeadByte then TrailByte
    else if row[i].byte > 0x7f then LeadByte
    else NotDouble
  }

  /** The tags depend on the bytes only (never on stored attributes). */
  lemma {:induction false} DbStateOfBytes(row: seq<Cell>, other: seq<Cell>, i: int)
    requires 0 <= i < |row| && i < |other|
    requires forall k :: 0 <= k <= i ==> row[k].byte == other[k].byte
    ensures DbState(row, i) == DbState(other, i)
  {
    if i > 0 {
      DbStateOfBytes(row, other, i - 1);
    }
  }

  /** A run of high bytes that starts after an untagged or trail cell is
      split into lead/trail pairs from its first byte on. */
  lemma {:induction false} DbPairsInRun(row: seq<Cell>, j: int, i: int)
    requires 0 <= j <= i < |row|
    requires forall k :: j <= k <= i ==> row[k].byte > 0x7f
    requires j == 0 || DbState(row, j - 1) != LeadByte
    ensures DbState(row, i) == if (i - j) % 2 == 0 then LeadByte else TrailByte
    decreases i
  {
    if i > j {
      DbPairsInRun(row, j, i - 1);
    }
  }

  /** A row of plain ASCII bytes carries no double-byte tag. */
  lemma {:induction false} AsciiRowUntagged(row: seq<Cell>, i: int)
    requires 0 <= i < |row|
    requires forall k :: 0 <= k <= i ==> row[k].byte <= 0x7f
    ensures DbState(row, i) == NotDouble
  {
    if i > 0 {
      AsciiRowUntagged(row, i - 1);
    }
  }

  /** The row with the tag of each of its first `n` cells recomputed; bytes
      and every other attribute are kept. */
  function Retag(row: seq<Cell>, n: int): (r: seq<Cell>)
    ensures |r| == |row|
  {
    seq(|row|, x requires 0 <= x < |row| =>
      if x < n then row[x].(attr := row[x].attr.(doubleByte := DbState(row, x))) else row[x])
  }

  /** Re-tagging keeps every byte and every attribute but the tag; the
      first `n` cells get the tag of the scan, the rest are kept whole. */
  lemma RetagCells(row: seq<Cell>, n: int)
    ensures forall x :: 0 <= x < |row| ==>
              Retag(row, n)[x].byte == row[x].byte &&
              Retag(row, n)[x].attr.(doubleByte := row[x].attr.doubleByte) == row[x].attr
    ensures forall x :: 0 <= x < |row| && x < n ==> Retag(row, n)[x].attr.doubleByte == DbState(row, x)
    ensures forall x :: 0 <= x < |row| && n <= x ==> Retag(row, n)[x] == row[x]
  {
  }

  /** Tagging twice is tagging once, so re-tagging a row before reading it
      (as text extraction does) changes nothing on an up-to-date row. */
  lemma RetagIdempotent(row: seq<Cell>, n: int)
    ensures Retag(Retag(row, n), n) == Retag(row, n)
  {
    var once := Retag(row, n);
    forall x | 0 <= x < |row| && x < n
      ensures DbState(once, x) == DbState(row, x)
    {
      DbStateOfBytes(once, row, x);
    }
  }

  // ---------------------------------------------------------------------
  // URL flagging
  // ---------------------------------------------------------------------

  /** The protocol prefixes that open a URL span. */
  const Protocols: seq<string> :=
    ["http://", "https://", "ftp://", "telnet://", "bbs://", "ssh://", "mailto:"]

  /** Protocol `p` is spelt out by the cells from `i` on. A cell past the end
      of the row array matches nothing (see the finding on the prefix test). */
  predicate PrefixAt(row: seq<Cell>, i: int, p: string)
    ensures PrefixAt(row, i, p) && p != [] ==> 0 <= i < |row| && row[i].byte == p[0] as int
  {
    0 <= i && i + |p| <= |row| && forall s :: 0 <= s < |p| ==> row[i + s].byte == p[s] as int
  }

  /** Some protocol prefix starts at cell `i`. */
  predicate StartsUrl(row: seq<Cell>, i: int)
    ensures StartsUrl(row, i) ==> 0 <= i && i + 6 <= |row|
  {
    exists k :: 0 <= k < |Protocols| && PrefixAt(row, i, Protocols[k])
  }

  /** The bytes that end a URL span: control bytes, space, bytes above `~`
      and the closing parenthesis. */
  predicate EndsUrl(b: Byte)
    ensures !EndsUrl(b) ==> '!' as int <= b <= '~' as int
  {
    b < 0x21 || b > 0x7e || b == ')' as int
  }

  /** The url flag the scan of updateUrlStateForRow gives cell `i`, `seed`
      being the flag of the last visible cell of the row above. */
  function UrlFlag(seed: bool, row: seq<Cell>, i: int): bool
    requires 0 <= i < |row|
    decreases i
  {
    var before := if i == 0 then seed else UrlFlag(seed, row, i - 1);
    if before then !EndsUrl(row[i].byte) else StartsUrl(row, i)
  }

  /** No cell in `(j, i]` ends a URL. */
  ghost predicate Continues(row: seq<Cell>, j: int, i: int)
  {
    forall k :: j < k <= i && 0 <= k < |row| ==> !EndsUrl(row[k].byte)
  }

  /** The first letter of every protocol is a printable byte that does not
      end a URL. */
  lemma PrefixStartIsUrlByte(row: seq<Cell>, i: int)
    requires 0 <= i < |row| && StartsUrl(row, i)
    ensures !EndsUrl(row[i].byte)
  {
    var k :| 0 <= k < |Protocols| && PrefixAt(row, i, Protocols[k]);
    assert row[i].byte == Protocols[k][0] as int;
  }

  /** A cell is flagged exactly when a protocol prefix starts at or before it
      (or the span comes over from the row above) and no byte since then
      ended the span. */
  lemma {:induction false} UrlFlagIff(seed: bool, row: seq<Cell>, i: int)
    requires 0 <= i < |row|
    ensures UrlFlag(seed, row, i) <==>
            ((seed && !EndsUrl(row[0].byte) && Continues(row, 0, i)) ||
             (exists j :: 0 <= j <= i && StartsUrl(row, j) && Continues(row, j, i)))
    decreases i
  {
    if StartsUrl(row, i) {
      PrefixStartIsUrlByte(row, i);
    }
    if i == 0 {
      if StartsUrl(row, 0) {
        assert Continues(row, 0, 0);
      }
    } else {
      UrlFlagIff(seed, row, i - 1);
      var prev := UrlFlag(seed, row, i - 1);
      if prev {
        if !EndsUrl(row[i].byte) {
          if seed && !EndsUrl(row[0].byte) && Continues(row, 0, i - 1) {
            assert Continues(row, 0, i);
          } else {
            var j :| 0 <= j <= i - 1 && StartsUrl(row, j) && Continues(row, j, i - 1);
            assert Continues(row, j, i);
          }
        } else {
          assert !Continues(row, 0, i);
          forall j | 0 <= j <= i && StartsUrl(row, j) ensures !Continues(row, j, i) {
            if j == i {
              PrefixStartIsUrlByte(row, i);
            }
          }
        }
      } else {
        if StartsUrl(row, i) {
          assert Continues(row, i, i);
        } else {
          assert !(seed && !EndsUrl(row[0].byte) && Continues(row, 0, i));
          forall j | 0 <= j <= i && StartsUrl(row, j) ensures !Continues(row, j, i) {
            if j < i {
              assert Continues(row, j, i) ==> Continues(row, j, i - 1);
            }
          }
        }
      }
    }
  }
  /** The seed of row `y`'s URL scan: the flag of the last visible cell of
      the row above (none for the top row). */
  function UrlSeed(g: seq<seq<Cell>>, y: int, columns: int): bool
    requires 0 <= y < |g| && columns >= 1
    requires y > 0 ==> columns - 1 < |g[y - 1]|
  {
    y > 0 && g[y - 1][columns - 1].attr.isUrl
  }

  /** The row with the url flag of each of its first `n` cells recomputed;
      bytes and every other attribute are kept. */
  function Reflag(row: seq<Cell>, seed: bool, n: int): (r: seq<Cell>)
    ensures |r| == |row|
    ensures forall x :: 0 <= x < |row| ==> r[x].byte == row[x].byte
    ensures forall x :: 0 <= x < |row| ==> r[x].attr.doubleByte == row[x].attr.doubleByte
  {
    seq(|row|, x requires 0 <= x < |row| =>
      if x < n then row[x].(attr := row[x].attr.(isUrl := UrlFlag(seed, row, x))) else row[x])
  }

  /** A prefix test reads bytes only. */
  lemma StartsUrlOfBytes(row: seq<Cell>, other: seq<Cell>, i: int)
    requires |row| == |other| && forall k :: 0 <= k < |row| ==> row[k].byte == other[k].byte
    ensures StartsUrl(row, i) == StartsUrl(other, i)
  {
    if StartsUrl(row, i) {
      var k :| 0 <= k < |Protocols| && PrefixAt(row, i, Protocols[k]);
      assert PrefixAt(other, i, Protocols[k]);
    }
    if StartsUrl(other, i) {
      var k :| 0 <= k < |Protocols| && PrefixAt(other, i, Protocols[k]);
      assert PrefixAt(row, i, Protocols[k]);
    }
  }

  /** The url flags depend on the bytes and the seed only. */
  lemma {:induction false} UrlFlagOfBytes(seed: bool, row: seq<Cell>, other: seq<Cell>, i: int)
    requires 0 <= i < |row| == |other|
    requires forall k :: 0 <= k < |row| ==> row[k].byte == other[k].byte
    ensures UrlFlag(seed, row, i) == UrlFlag(seed, other, i)
    decreases i
  {
    StartsUrlOfBytes(row, other, i);
    if i > 0 {
      UrlFlagOfBytes(seed, row, other, i - 1);
    }
  }

  /** Tagging then flagging a row leaves it consistent: every visible cell
      carries the tag and the flag its bytes call for, so the two passes do
      not disturb each other and running them again changes nothing. */
  lemma RowPostProcessed(row: seq<Cell>, seed: bool, n: int)
    requires 0 <= n <= |row|
    ensures var t := Reflag(Retag(row, n), seed, n);
            forall x :: 0 <= x < n ==>
              t[x].attr.doubleByte == DbState(t, x) && t[x].attr.isUrl == UrlFlag(seed, t, x)
  {
    var tagged := Retag(row, n);
    var t := Reflag(tagged, seed, n);
    forall x | 0 <= x < n
      ensures t[x].attr.doubleByte == DbState(t, x) && t[x].attr.isUrl == UrlFlag(seed, t, x)
    {
      DbStateOfBytes(t, row, x);
      UrlFlagOfBytes(seed, t, tagged, x);
    }
  }

  /** Row `r` of grid `g` is post-processed: each of its first `columns`
      cells carries the double-byte tag and the url flag (seeded from the
      row above) its bytes call for. */
  ghost predicate RowTagged(g: seq<seq<Cell>>, r: int, columns: int)
  {
    0 <= r < |g| && 1 <= columns <= |g[r]| && (r > 0 ==> columns <= |g[r - 1]|) &&
    forall x :: 0 <= x < columns ==>
      g[r][x].attr.doubleByte == DbState(g[r], x) &&
      g[r][x].attr.isUrl == UrlFlag(UrlSeed(g, r, columns), g[r], x)
  }

  /** Whether a row is post-processed depends only on it and the row above. */
  lemma RowTaggedFrame(g: seq<seq<Cell>>, h: seq<seq<Cell>>, r: int, columns: int)
    requires 0 <= r < |g| == |h| && g[r] == h[r] && (r > 0 ==> g[r - 1] == h[r - 1])
    ensures RowTagged(g, r, columns) == RowTagged(h, r, columns)
  {
  }

  /** Rows of `cur` before `y` are the rows of `g` re-tagged and re-flagged,
      and post-processed; the others are still those of `g`. */
  ghost predicate TaggedUpTo(cur: seq<seq<Cell>>, g: seq<seq<Cell>>, y: int, columns: int)
  {
    |cur| == |g| && 1 <= columns &&
    (forall r :: 0 <= r < |g| ==> columns <= |cur[r]|) &&
    (forall r :: 0 <= r < |g| ==>
       cur[r] == if r < y then Reflag(Retag(g[r], columns), UrlSeed(cur, r, columns), columns) else g[r]) &&
    (forall r :: 0 <= r < y ==> RowTagged(cur, r, columns))
  }

  /** The row just post-processed is consistent, reading its seed from the
      row above, which the step does not touch. */
  lemma ProcessedRowTagged(c0: seq<seq<Cell>>, c1: seq<seq<Cell>>, y: int, columns: int)
    requires 0 <= y < |c0| && 1 <= columns <= |c0[y]| && (y > 0 ==> columns <= |c0[y - 1]|)
    requires c1 == c0[y := Reflag(Retag(c0[y], columns), UrlSeed(c0, y, columns), columns)]
    ensures RowTagged(c1, y, columns)
  {
    RowPostProcessed(c0[y], UrlSeed(c0, y, columns), columns);
    assert UrlSeed(c1, y, columns) == UrlSeed(c0, y, columns);
  }

  /** Post-processing row `y` extends the prefix of post-processed rows by
      one: the rows above keep their cells and their seeds. */
  lemma TaggedStep(c0: seq<seq<Cell>>, c1: seq<seq<Cell>>, g: seq<seq<Cell>>, y: int, columns: int)
    requires 0 <= y < |g| && TaggedUpTo(c0, g, y, columns) && columns <= |c0[y]|
    requires c1 == c0[y := Reflag(Retag(c0[y], columns), UrlSeed(c0, y, columns), columns)]
    ensures TaggedUpTo(c1, g, y + 1, columns)
  {
    ProcessedRowTagged(c0, c1, y, columns);
    forall r | 0 <= r < |g| && r != y
      ensures c1[r] == if r < y + 1 then Reflag(Retag(g[r], columns), UrlSeed(c1, r, columns), columns) else g[r]
    {
      if r < y {
        assert UrlSeed(c1, r, columns) == UrlSeed(c0, r, columns);
      }
    }
    forall r | 0 <= r < y
      ensures RowTagged(c1, r, columns)
    {
      RowTaggedFrame(c0, c1, r, columns);
    }
  }
}
