/** The byte-level grammar the terminal follows: the codes it reacts to, the
    four parser states and how each byte moves between them, the control
    sequence parameter registers and the SM/RM mode runs. Everything here is
    a value; the terminal class applies it to its fields. */
module Parsing {
  import opened Cells
  import opened Csi

  // C0 control bytes.
  const NUL: Byte := 0x00
  const ETX: Byte := 0x03
  const EOT: Byte := 0x04
  const ENQ: Byte := 0x05
  const ACK: Byte := 0x06
  const BEL: Byte := 0x07
  const BS: Byte := 0x08
  const HT: Byte := 0x09
  const LF: Byte := 0x0a
  const VT: Byte := 0x0b
  const FF: Byte := 0x0c
  const CR: Byte := 0x0d
  const SO: Byte := 0x0e
  const SI: Byte := 0x0f
  const DLE: Byte := 0x10
  const ETB: Byte := 0x17
  const CAN: Byte := 0x18
  const EM: Byte := 0x19
  const SUB: Byte := 0x1a
  const ESC: Byte := 0x1b
  const FS: Byte := 0x1c
  const US: Byte := 0x1f
  const DEL: Byte := 0x7f

  // Final bytes of two-byte escape sequences.
  const EscCsi: Byte := '[' as int
  const EscRi: Byte := 'M' as int
  const EscInd: Byte := 'D' as int
  const EscDecsc: Byte := '7' as int
  const EscDecrc: Byte := '8' as int
  const EscHash: Byte := '#' as int
  /** The byte after `ESC #` that asks for DECALN. */
  const HashDecaln: Byte := '8' as int
  const EscG0: Byte := '(' as int
  const EscG1: Byte := ')' as int
  const EscAppKeypad: Byte := '=' as int
  const EscNumKeypad: Byte := '>' as int
  const EscNel: Byte := 'E' as int
  const EscHts: Byte := 'H' as int
  const EscRis: Byte := 'c' as int

  // Final bytes of control sequences.
  const CsiIch: Byte := '@' as int
  const CsiCuu: Byte := 'A' as int
  const CsiCud: Byte := 'B' as int
  const CsiCuf: Byte := 'C' as int
  const CsiCub: Byte := 'D' as int
  const CsiCnl: Byte := 'E' as int
  const CsiCpl: Byte := 'F' as int
  const CsiCha: Byte := 'G' as int
  const CsiCup: Byte := 'H' as int
  const CsiEd: Byte := 'J' as int
  const CsiEl: Byte := 'K' as int
  const CsiIl: Byte := 'L' as int
  const CsiDl: Byte := 'M' as int
  const CsiDch: Byte := 'P' as int
  const CsiHpa: Byte := '`' as int
  const CsiHpr: Byte := 'a' as int
  const CsiRep: Byte := 'b' as int
  const CsiDa: Byte := 'c' as int
  const CsiVpa: Byte := 'd' as int
  const CsiVpr: Byte := 'e' as int
  const CsiHvp: Byte := 'f' as int
  const CsiTbc: Byte := 'g' as int
  const CsiSm: Byte := 'h' as int
  const CsiHpb: Byte := 'j' as int
  const CsiVpb: Byte := 'k' as int
  const CsiRm: Byte := 'l' as int
  const CsiSgr: Byte := 'm' as int
  const CsiDsr: Byte := 'n' as int
  const CsiDecstbm: Byte := 'r' as int
  const CsiScp: Byte := 's' as int
  const CsiRcp: Byte := 'u' as int

  /** The finals whose handler may change the grid or the dirty map. */
  predicate EditsGrid(c: Byte)
    ensures EditsGrid(c) ==> !MovesOrReports(c) && !StaysInControl(c)
  {
    c == CsiIch || c == CsiEd || c == CsiEl || c == CsiIl || c == CsiDl ||
    c == CsiDch || c == CsiSm || c == CsiRm
  }

  /** The finals whose handler moves the cursor, sets the region or the
      rendition, or replies; they leave the grid alone. */
  predicate MovesOrReports(c: Byte)
    ensures MovesOrReports(c) ==> !StaysInControl(c)
  {
    c == CsiCuu || c == CsiCud || c == CsiCnl || c == CsiCpl || c == CsiCuf || c == CsiCub ||
    c == CsiCha || c == CsiHpa || c == CsiHpr || c == CsiHpb || c == CsiVpa || c == CsiVpr ||
    c == CsiVpb || c == CsiCup || c == CsiHvp || c == CsiDa || c == CsiSgr || c == CsiDsr ||
    c == CsiDecstbm || c == CsiScp || c == CsiRcp
  }

  /** Bytes the Normal state ignores outright. */
  predicate IgnoredInNormal(c: Byte)
    ensures IgnoredInNormal(c) ==> c < 0x20 || c == DEL
  {
    c == NUL || c == ETX || c == EOT || c == ACK || c == SO || c == SI ||
    (DLE <= c <= ETB) || c == CAN || c == SUB || c == EM ||
    (FS <= c <= US) || c == DEL
  }

  /** Bytes the Normal state writes into the grid: everything it neither
      ignores nor acts on. */
  predicate Printable(c: Byte)
    ensures Printable(c) <==> (0x20 <= c && c != DEL) || c == 0x01 || c == 0x02
  {
    !IgnoredInNormal(c) && c != ENQ && c != BEL && c != BS && c != HT &&
    c != LF && c != VT && c != FF && c != CR && c != ESC
  }

  /** The parameter bytes of a control sequence, `0` to `?`. */
  predicate ParameterByte(c: Byte)
  {
    '0' as int <= c <= '?' as int
  }

  predicate DigitByte(c: Byte)
  {
    ParameterByte(c) && c <= '9' as int
  }

  /** A run of parameter bytes. */
  predicate ParameterBytes(cs: seq<Byte>)
  {
    forall k :: 0 <= k < |cs| ==> ParameterByte(cs[k])
  }

  /** A run of digit bytes. */
  predicate DigitBytes(cs: seq<Byte>)
  {
    forall k :: 0 <= k < |cs| ==> DigitByte(cs[k])
  }

  /** Bytes a control sequence absorbs without ending. */
  predicate StaysInControl(c: Byte)
    ensures '@' as int <= c ==> !StaysInControl(c)
  {
    ParameterByte(c) || c == BS || c == VT || c == CR
  }

  // ---------------------------------------------------------------------
  // Parser states
  // ---------------------------------------------------------------------

  datatype ParseState = Normal | Escape | Control | Scs

  /** The state after one byte. */
  function NextState(s: ParseState, c: Byte): (t: ParseState)
    ensures t == Control ==> (s == Escape && c == EscCsi) || (s == Control && StaysInControl(c))
    ensures s == Scs ==> t == Normal
  {
    match s
    case Normal => if c == ESC then Escape else Normal
    case Escape =>
      if c == ESC then Escape
      else if c == EscCsi then Control
      else if c == EscG0 || c == EscG1 then Scs
      else Normal
    case Control => if StaysInControl(c) then Control else Normal
    case Scs => Normal
  }

  /** The state after a chunk of bytes. `ESC # 8` inside one chunk consumes
      the `8` together with the `#`. */
  function StateAfter(s: ParseState, bytes: seq<Byte>): (t: ParseState)
    ensures bytes == [] ==> t == s
    ensures s == Normal && (forall k :: 0 <= k < |bytes| ==> bytes[k] != ESC) ==> t == Normal
    decreases |bytes|
  {
    if bytes == [] then s
    else if s == Escape && bytes[0] == EscHash && |bytes| >= 2 && bytes[1] == HashDecaln then
      StateAfter(Normal, bytes[2..])
    else StateAfter(NextState(s, bytes[0]), bytes[1..])
  }

  /** The parser can stop at any chunk boundary: the state after two chunks
      fed one after the other is the state after their concatenation. (A
      `#` ending one chunk and an `8` starting the next leave the same
      state; only the grid differs, see DECALN.) */
  lemma {:induction false} StateAfterAppend(s: ParseState, a: seq<Byte>, b: seq<Byte>)
    ensures StateAfter(s, a + b) == StateAfter(StateAfter(s, a), b)
    decreases |a|
  {
    if a == [] {
      assert a + b == b;
    } else if s == Escape && a[0] == EscHash && |a| >= 2 && a[1] == HashDecaln {
      assert (a + b)[2..] == a[2..] + b;
      StateAfterAppend(Normal, a[2..], b);
    } else if s == Escape && a[0] == EscHash && |a| == 1 && b != [] && b[0] == HashDecaln {
      // one chunk: `#8` skipped; two chunks: `#` then `8` in Normal
      assert (a + b)[2..] == b[1..];
      assert StateAfter(s, a) == Normal;
      assert StateAfter(Normal, b) == StateAfter(NextState(Normal, b[0]), b[1..]);
    } else {
      assert (a + b)[0] == a[0] && (a + b)[1..] == a[1..] + b;
      StateAfterAppend(NextState(s, a[0]), a[1..], b);
    }
  }

  /** The control-sequence registers: parser state, argument queue, digit
      buffer (only its emptiness matters) and the unsigned 32-bit
      accumulator of the parameter being read. */
  datatype Parser = Parser(state: ParseState, csArg: seq<int>, csBuf: seq<int>, csTemp: int)

  const FreshParser: Parser := Parser(Normal, [], [], 0)

  /** One parameter byte: a digit extends the accumulator, `?` queues the
      private marker -1, any other parameter byte (`;` in practice) queues
      the accumulated value (the buffer has just received the byte, so it
      is never empty there). The digit buffer records that a value is
      pending. */
  function ParamStep(p: Parser, c: Byte): (r: Parser)
    requires ParameterByte(c) && 0 <= p.csTemp < TwoTo32
    ensures 0 <= r.csTemp < TwoTo32 && r.state == p.state
  {
    var buf := p.csBuf + [c];
    if DigitByte(c) then p.(csBuf := buf, csTemp := AccumulateDigit(p.csTemp, c - '0' as int))
    else if c == '?' as int then p.(csArg := p.csArg + [-1], csTemp := 0, csBuf := [])
    else p.(csArg := p.csArg + [AsInt32(p.csTemp)], csTemp := 0, csBuf := [])
  }

  /** Parameter bytes fed one at a time. */
  function ParamRun(p: Parser, cs: seq<Byte>): (r: Parser)
    requires ParameterBytes(cs)
    requires 0 <= p.csTemp < TwoTo32
    ensures 0 <= r.csTemp < TwoTo32 && r.state == p.state
    decreases |cs|
  {
    if cs == [] then p else ParamRun(ParamStep(p, cs[0]), cs[1..])
  }

  /** The digit values of a run of digit bytes. */
  function DigitValues(ds: seq<Byte>): (vs: seq<int>)
    requires DigitBytes(ds)
    ensures |vs| == |ds| && forall k :: 0 <= k < |ds| ==> 0 <= vs[k] <= 9
  {
    var vs := seq(|ds|, k requires 0 <= k < |ds| => ds[k] - '0' as int);
    assert forall k :: 0 <= k < |ds| ==> vs[k] == ds[k] - '0' as int;
    vs
  }

  /** Digits extend the accumulator one decimal place each (modulo 2^32)
      and join the buffer; the argument queue is untouched. */
  lemma {:induction false} ParamRunDigits(p: Parser, ds: seq<Byte>)
    requires DigitBytes(ds)
    requires 0 <= p.csTemp < TwoTo32
    ensures ParamRun(p, ds).csArg == p.csArg
    ensures ParamRun(p, ds).csTemp == Accumulated(p.csTemp, DigitValues(ds))
    ensures ParamRun(p, ds).csBuf == p.csBuf + ds
    decreases |ds|
  {
    if ds == [] {
      assert p.csBuf + ds == p.csBuf;
    } else {
      var q := ParamStep(p, ds[0]);
      ParamRunDigits(q, ds[1..]);
      AccumulatedCons(p.csTemp, ds[0] - '0' as int, DigitValues(ds[1..]));
      assert DigitValues(ds) == [ds[0] - '0' as int] + DigitValues(ds[1..]);
      assert q.csBuf + ds[1..] == p.csBuf + ds;
    }
  }

  /** Accumulation read from the front: the first digit goes in first. */
  lemma {:induction false} AccumulatedCons(acc: int, d: int, ds: seq<int>)
    requires 0 <= acc < TwoTo32 && 0 <= d <= 9
    requires forall k :: 0 <= k < |ds| ==> 0 <= ds[k] <= 9
    ensures Accumulated(acc, [d] + ds) == Accumulated(AccumulateDigit(acc, d), ds)
    decreases |ds|
  {
    if ds == [] {
      assert ([d] + ds)[..0] == [];
    } else {
      var init := ds[..|ds| - 1];
      AccumulatedCons(acc, d, init);
      assert ([d] + ds)[..|[d] + ds| - 1] == [d] + init;
    }
  }

  /** A parameter written in decimal and closed by `;` joins the queue as
      its value modulo 2^32 read as a signed 32-bit number, and the
      registers are cleared for the next parameter. */
  lemma ParameterThenSeparator(p: Parser, ds: seq<Byte>)
    requires DigitBytes(ds)
    requires p.csBuf == [] && p.csTemp == 0
    ensures ParameterBytes(ds + [';' as int])
    ensures ParamRun(p, ds + [';' as int]) ==
            p.(csArg := p.csArg + [AsInt32(DecimalValue(DigitValues(ds)) % TwoTo32)])
  {
    ParamRunAppend(p, ds, [';' as int]);
    ParamRunDigits(p, ds);
    var q := ParamRun(p, ds);
    AccumulatedIsDecimalMod(DigitValues(ds));
    assert q.csTemp == DecimalValue(DigitValues(ds)) % TwoTo32;
    assert q == p.(csBuf := ds, csTemp := q.csTemp);
    var r := ParamStep(q, ';' as int);
    assert r == q.(csArg := q.csArg + [AsInt32(q.csTemp)], csTemp := 0, csBuf := []);
    assert [';' as int][1..] == [];
    assert ParamRun(q, [';' as int]) == ParamRun(r, []);
  }

  /** Feeding two runs of parameter bytes is feeding their concatenation. */
  lemma {:induction false} ParamRunAppend(p: Parser, a: seq<Byte>, b: seq<Byte>)
    requires ParameterBytes(a) && ParameterBytes(b)
    requires 0 <= p.csTemp < TwoTo32
    ensures ParameterBytes(a + b)
    ensures ParamRun(p, a + b) == ParamRun(ParamRun(p, a), b)
    decreases |a|
  {
    if a == [] {
      assert a + b == b;
    } else {
      assert (a + b)[0] == a[0] && (a + b)[1..] == a[1..] + b;
      ParamRunAppend(ParamStep(p, a[0]), a[1..], b);
    }
  }

  /** The queue handed to a control function: the pending parameter, if
      any, flushed onto the argument queue. */
  function Flushed(p: Parser): (args: seq<int>)
    requires 0 <= p.csTemp < TwoTo32
    ensures p.csBuf == [] ==> args == p.csArg
  {
    if p.csBuf != [] then p.csArg + [AsInt32(p.csTemp)] else p.csArg
  }

  /** BS inside a control sequence: while a parameter is pending the head of
      the argument queue is dropped; an empty queue is left alone (see the
      finding on BS). */
  function ControlBackspace(p: Parser): (r: Parser)
    ensures r.state == p.state && r.csBuf == p.csBuf && r.csTemp == p.csTemp
    ensures p.csBuf == [] || p.csArg == [] ==> r == p
    ensures p.csBuf != [] && p.csArg != [] ==> [p.csArg[0]] + r.csArg == p.csArg
  {
    if p.csBuf != [] && p.csArg != [] then p.(csArg := p.csArg[1..]) else p
  }

  // ---------------------------------------------------------------------
  // SM / RM
  // ---------------------------------------------------------------------

  /** The five terminal modes. */
  datatype Modes = Modes(screenReverse: bool, originRelative: bool, autowrap: bool,
                         lnm: bool, irm: bool)

  /** The modes a fresh terminal starts with. */
  const InitialModes: Modes := Modes(false, false, true, true, false)

  /** The result of a mode run: the modes, whether DECCOLM (private 3) asked
      for a clear (which also resets the region and origin mode), and
      whether DECSCNM (private 5) flipped the screen. */
  datatype ModeRun = ModeRun(modes: Modes, clear: bool, flip: bool)

  /** One ANSI mode set (`on` true) or reset: 20 is LNM, inverted (set mode 20
      clears the line-feed flag), 4 is IRM; the others are accepted and
      ignored. */
  function AnsiMode(m: Modes, p: int, on: bool): (r: Modes)
    ensures r.(lnm := m.lnm, irm := m.irm) == m
    ensures p == 20 ==> r.lnm == !on
    ensures p == 4 ==> r.irm == on
    ensures p != 20 && p != 4 ==> r == m
  {
    if p == 20 then m.(lnm := !on)
    else if p == 4 then m.(irm := on)
    else m
  }

  /** One private (DEC) mode. 3 (DECCOLM) clears and drops origin mode, 5
      (DECSCNM) flips the screen when it changes, 6 is origin mode, 7 is
      autowrap. */
  function PrivateMode(r: ModeRun, q: int, on: bool): (res: ModeRun)
    ensures res.modes.lnm == r.modes.lnm && res.modes.irm == r.modes.irm
    ensures res.clear != r.clear ==> q == 3 && !res.modes.originRelative
    ensures res.modes.screenReverse != r.modes.screenReverse ==> q == 5 && res.flip && res.modes.screenReverse == on
    ensures q != 3 && q != 5 && q != 6 && q != 7 ==> res == r
  {
    if q == 3 then r.(modes := r.modes.(originRelative := false), clear := true)
    else if q == 5 then
      (if r.modes.screenReverse != on then r.(modes := r.modes.(screenReverse := on), flip := true) else r)
    else if q == 6 then r.(modes := r.modes.(originRelative := on))
    else if q == 7 then r.(modes := r.modes.(autowrap := on))
    else r
  }

  /** The queue consumed by handleControlSm (`on` true) or handleControlRm: a
      -1 marker followed by exactly one value is a private mode; a marker
      followed by anything else is skipped and the rest read as ANSI modes. */
  function RunModes(r: ModeRun, args: seq<int>, on: bool): (res: ModeRun)
    ensures (forall k :: 0 <= k < |args| ==> args[k] != -1) ==>
              res.clear == r.clear && res.flip == r.flip &&
              res.modes.(lnm := r.modes.lnm, irm := r.modes.irm) == r.modes
    ensures res.modes.screenReverse != r.modes.screenReverse ==> res.flip
    decreases |args|
  {
    if args == [] then r
    else if args[0] == -1 then
      (if |args| == 2 then PrivateMode(r, args[1], on) else RunModes(r, args[1..], on))
    else RunModes(r.(modes := AnsiMode(r.modes, args[0], on)), args[1..], on)
  }

  /** A run ends in a clear only with origin mode off, so handleControlSm's
      extra origin test before clearing never fails; and one run never both
      clears and flips the screen. */
  lemma {:induction false} RunModesClear(r: ModeRun, args: seq<int>, on: bool)
    requires !r.clear && !r.flip
    ensures RunModes(r, args, on).clear ==> !RunModes(r, args, on).modes.originRelative
    ensures !(RunModes(r, args, on).clear && RunModes(r, args, on).flip)
    decreases |args|
  {
    if args != [] && !(args[0] == -1 && |args| == 2) {
      if args[0] == -1 {
        RunModesClear(r, args[1..], on);
      } else {
        RunModesClear(r.(modes := AnsiMode(r.modes, args[0], on)), args[1..], on);
      }
    }
  }

  /** The five mode flags, by name. */
  datatype ModeFlag = ScreenReverseFlag | OriginFlag | AutowrapFlag | LnmFlag | IrmFlag

  /** The value of one flag. */
  function Flag(m: Modes, f: ModeFlag): bool
  {
    match f
    case ScreenReverseFlag => m.screenReverse
    case OriginFlag => m.originRelative
    case AutowrapFlag => m.autowrap
    case LnmFlag => m.lnm
    case IrmFlag => m.irm
  }

  /** Two mode sets that agree on every flag are equal. */
  lemma FlagsDetermine(m1: Modes, m2: Modes)
    requires forall f :: Flag(m1, f) == Flag(m2, f)
    ensures m1 == m2
  {
    assert Flag(m1, ScreenReverseFlag) == Flag(m2, ScreenReverseFlag);
    assert Flag(m1, OriginFlag) == Flag(m2, OriginFlag);
    assert Flag(m1, AutowrapFlag) == Flag(m2, AutowrapFlag);
    assert Flag(m1, LnmFlag) == Flag(m2, LnmFlag);
    assert Flag(m1, IrmFlag) == Flag(m2, IrmFlag);
  }

  /** What a mode run does to one flag: leave it, or set it to a value. */
  datatype FlagWrite = Keep | SetTo(value: bool)

  /** The flag after a write. */
  function Written(w: FlagWrite, before: bool): bool
  {
    match w
    case Keep => before
    case SetTo(v) => v
  }

  /** The write one ANSI mode makes to flag `f`. */
  function AnsiWrite(p: int, on: bool, f: ModeFlag): FlagWrite
  {
    if p == 20 && f == LnmFlag then SetTo(!on)
    else if p == 4 && f == IrmFlag then SetTo(on)
    else Keep
  }

  /** The write one private mode makes to flag `f`. */
  function PrivateWrite(q: int, on: bool, f: ModeFlag): FlagWrite
  {
    if q == 3 && f == OriginFlag then SetTo(false)
    else if q == 5 && f == ScreenReverseFlag then SetTo(on)
    else if q == 6 && f == OriginFlag then SetTo(on)
    else if q == 7 && f == AutowrapFlag then SetTo(on)
    else Keep
  }

  /** The last write a mode queue makes to flag `f`, read the way RunModes
      reads the queue. */
  function LastWrite(args: seq<int>, on: bool, f: ModeFlag): FlagWrite
    decreases |args|
  {
    if args == [] then Keep
    else if args[0] == -1 then
      (if |args| == 2 then PrivateWrite(args[1], on, f) else LastWrite(args[1..], on, f))
    else if LastWrite(args[1..], on, f) != Keep then LastWrite(args[1..], on, f)
    else AnsiWrite(args[0], on, f)
  }

  /** A mode run is a sequence of flag writes in which the last write to a
      flag wins: each flag ends as the queue's last write to it, or as it
      was when the queue never names it. */
  lemma {:induction false} RunModesFlags(r: ModeRun, args: seq<int>, on: bool, f: ModeFlag)
    ensures Flag(RunModes(r, args, on).modes, f) == Written(LastWrite(args, on, f), Flag(r.modes, f))
    decreases |args|
  {
    if args != [] {
      if args[0] == -1 {
        if |args| == 2 {
          PrivateModeFlag(r, args[1], on, f);
        } else {
          RunModesFlags(r, args[1..], on, f);
        }
      } else {
        RunModesFlags(r.(modes := AnsiMode(r.modes, args[0], on)), args[1..], on, f);
        AnsiModeFlag(r.modes, args[0], on, f);
      }
    }
  }

  /** One ANSI mode writes the flag `AnsiWrite` names. */
  lemma AnsiModeFlag(m: Modes, p: int, on: bool, f: ModeFlag)
    ensures Flag(AnsiMode(m, p, on), f) == Written(AnsiWrite(p, on, f), Flag(m, f))
  {
  }

  /** One private mode writes the flag `PrivateWrite` names. */
  lemma PrivateModeFlag(r: ModeRun, q: int, on: bool, f: ModeFlag)
    ensures Flag(PrivateMode(r, q, on).modes, f) == Written(PrivateWrite(q, on, f), Flag(r.modes, f))
  {
  }

  /** Which flags a queue writes does not depend on whether it is set or
      reset. */
  lemma {:induction false} LastWriteSameFlags(args: seq<int>, f: ModeFlag)
    ensures (LastWrite(args, true, f) == Keep) == (LastWrite(args, false, f) == Keep)
    decreases |args|
  {
    if args != [] && !(args[0] == -1 && |args| == 2) {
      LastWriteSameFlags(args[1..], f);
    }
  }

  /** SM of a queue followed by RM of the same queue leaves the modes RM of
      that queue alone would leave, and the other way round: the second run
      overwrites every flag the first one touched. */
  lemma SetThenReset(r: ModeRun, args: seq<int>)
    ensures RunModes(RunModes(r, args, true), args, false).modes == RunModes(r, args, false).modes
    ensures RunModes(RunModes(r, args, false), args, true).modes == RunModes(r, args, true).modes
  {
    forall f: ModeFlag
      ensures Flag(RunModes(RunModes(r, args, true), args, false).modes, f) == Flag(RunModes(r, args, false).modes, f)
      ensures Flag(RunModes(RunModes(r, args, false), args, true).modes, f) == Flag(RunModes(r, args, true).modes, f)
    {
      LastWriteSameFlags(args, f);
      RunModesFlags(r, args, true, f);
      RunModesFlags(r, args, false, f);
      RunModesFlags(RunModes(r, args, true), args, false, f);
      RunModesFlags(RunModes(r, args, false), args, true, f);
    }
    FlagsDetermine(RunModes(RunModes(r, args, true), args, false).modes, RunModes(r, args, false).modes);
    FlagsDetermine(RunModes(RunModes(r, args, false), args, true).modes, RunModes(r, args, true).modes);
  }
}
