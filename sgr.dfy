/** The SGR ("Select Graphic Rendition", section 8.3.117 of ECMA-48)
    commands the renderer emits for a cell mode, their parameter text, how
    a terminal reads that text back, and what the commands do to the
    terminal's rendition. */
module Sgr {
  import opened Common
  import opened Palette
  import opened Modes

  /** One SGR command: a single numeric parameter, or the five parameters
      `38;2;r;g;b` / `48;2;r;g;b` that select a 24-bit colour. */
  datatype Command = Code(n: byte) | Fg24(fg: Rgb) | Bg24(bg: Rgb)

  /** The parameters of one command. */
  function Numbers(cmd: Command): (ns: seq<byte>)
    ensures 1 <= |ns| <= 5
  {
    match cmd
    case Code(n) => [n]
    case Fg24(c) => [38, 2, c.r, c.g, c.b]
    case Bg24(c) => [48, 2, c.r, c.g, c.b]
  }

  function Flatten(cmds: seq<Command>): (ns: seq<byte>)
    ensures |ns| <= 5 * |cmds|
    ensures |ns| >= |cmds|
  {
    if cmds == [] then [] else Numbers(cmds[0]) + Flatten(cmds[1..])
  }

  lemma {:induction false} FlattenAppend(a: seq<Command>, b: seq<Command>)
    ensures Flatten(a + b) == Flatten(a) + Flatten(b)
  {
    if a == [] {
      assert a + b == b;
    } else {
      assert (a + b)[0] == a[0];
      assert (a + b)[1..] == a[1..] + b;
      FlattenAppend(a[1..], b);
    }
  }

  /** The parameters as text: the decimal numerals (`amp_number_table`)
      separated by ';'. */
  function CodesText(ns: seq<byte>): (s: string)
    ensures |ns| <= |s| <= 4 * |ns|
  {
    if |ns| == 0 then ""
    else if |ns| == 1 then NumberText(ns[0])
    else NumberText(ns[0]) + ";" + CodesText(ns[1..])
  }

  lemma {:induction false} CodesTextAppend(a: seq<byte>, b: seq<byte>)
    requires a != [] && b != []
    ensures CodesText(a + b) == CodesText(a) + ";" + CodesText(b)
  {
    assert (a + b)[1..] == a[1..] + b;
    if |a| > 1 {
      CodesTextAppend(a[1..], b);
    }
  }

  /** The parameter text holds digits and separators only. */
  lemma {:induction false} CodesTextChars(ns: seq<byte>)
    ensures forall i :: 0 <= i < |CodesText(ns)| ==> IsDigit(CodesText(ns)[i]) || CodesText(ns)[i] == ';'
  {
    if |ns| > 0 {
      NumberTextIsDecimal(ns[0]);
    }
    if |ns| > 1 {
      CodesTextChars(ns[1..]);
    }
  }

  function ParamText(cmds: seq<Command>): string
  {
    CodesText(Flatten(cmds))
  }

  /** The control sequence introducer `ESC [`. */
  const CSI: string := [0x1B as char, '[']

  /** The escape sequence for a run of commands: `ESC [ params m`, and
      nothing at all for no command. */
  function SgrText(cmds: seq<Command>): (s: string)
    ensures cmds == [] <==> s == []
    ensures cmds != [] ==> |s| == |ParamText(cmds)| + 3
  {
    if cmds == [] then "" else CSI + ParamText(cmds) + "m"
  }

  lemma ParamTextAppend(a: seq<Command>, b: seq<Command>)
    requires a != [] && b != []
    ensures ParamText(a + b) == ParamText(a) + ";" + ParamText(b)
  {
    FlattenAppend(a, b);
    CodesTextAppend(Flatten(a), Flatten(b));
  }

  lemma ParamTextHasNoNul(cmds: seq<Command>)
    ensures NUL !in ParamText(cmds)
  {
    CodesTextChars(Flatten(cmds));
  }

  // Commands for one mode (amp.h:1254-1457).

  /** `options[]` of `amp_mode_to_ans`: the decoration codes in the order
      0, 8, 2, 3, 4, 5, 9, each present when its flag is. */
  function Options(m: Mode): (opts: seq<Option<byte>>)
    ensures |opts| == 7
  {
    [ if m.reset then Some(0) else None,
      if m.hidden then Some(8) else None,
      if m.faint then Some(2) else None,
      if m.italic then Some(3) else None,
      if m.underline then Some(4) else None,
      if m.blinking then Some(5) else None,
      if m.strikethrough then Some(9) else None ]
  }

  /** The codes of the options present among the first `k`. */
  function Chosen(opts: seq<Option<byte>>, k: nat): (cmds: seq<Command>)
    requires k <= |opts|
    ensures |cmds| <= k
    ensures forall i :: 0 <= i < |cmds| ==> cmds[i].Code? && Some(cmds[i].n) in opts[..k]
  {
    if k == 0 then []
    else
      var rest := Chosen(opts, k - 1);
      assert opts[..k - 1] <= opts[..k];
      rest + (if opts[k - 1].Some? then [Code(opts[k - 1].value)] else [])
  }

  /** A code is chosen exactly when its option is present. */
  lemma {:induction false} ChosenHas(opts: seq<Option<byte>>, k: nat, v: byte)
    requires k <= |opts|
    ensures Code(v) in Chosen(opts, k) <==> Some(v) in opts[..k]
  {
    if k > 0 {
      ChosenHas(opts, k - 1, v);
      assert opts[..k] == opts[..k - 1] + [opts[k - 1]];
    }
  }

  /** Whether a mode asks for the decoration with code `v` (or, for 0, a
      reset). */
  predicate AsksFor(m: Mode, v: byte)
  {
    if v == 0 then m.reset
    else if v == 8 then m.hidden
    else if v == 2 then m.faint
    else if v == 3 then m.italic
    else if v == 4 then m.underline
    else if v == 5 then m.blinking
    else if v == 9 then m.strikethrough
    else false
  }

  /** Each option stands for one field of the mode. */
  lemma OptionsHas(m: Mode, v: byte)
    ensures Some(v) in Options(m) <==> AsksFor(m, v)
  {
    var opts := Options(m);
    if AsksFor(m, v) {
      assert opts[if v == 0 then 0 else if v == 8 then 1 else if v == 9 then 6 else v] == Some(v);
    }
  }

  /** With at most one option present, at most one code is chosen. */
  lemma {:induction false} ChosenOfOne(opts: seq<Option<byte>>, k: nat, j: nat)
    requires k <= |opts|
    requires forall i :: 0 <= i < |opts| && i != j ==> opts[i].None?
    ensures |Chosen(opts, k)| <= (if j < k then 1 else 0)
  {
    if k > 0 {
      ChosenOfOne(opts, k - 1, j);
    }
  }

  function DecorationCmds(m: Mode): (cmds: seq<Command>)
    ensures |cmds| <= 7
    ensures forall i :: 0 <= i < |cmds| ==> cmds[i].Code? && cmds[i].n in {0, 2, 3, 4, 5, 8, 9}
  {
    var opts := Options(m);
    assert opts[..7] == opts;
    Chosen(opts, 7)
  }

  /** The rows of the 16-colour tables: rows 9 to 16 are the bright
      colours, and the codes repeat 30-37 (40-47) over each half. */
  function FgCode(i: nat): byte
    requires 1 <= i < MAX_COLOR
  {
    30 + (i - 1) % 8
  }

  function BgCode(i: nat): byte
    requires 1 <= i < MAX_COLOR
  {
    40 + (i - 1) % 8
  }

  predicate IsBright(i: nat)
  {
    i >= 9
  }

  lemma FgTableRow(i: nat)
    requires 1 <= i < MAX_COLOR
    ensures FgTable()[i].index == i && FgTable()[i].bright == IsBright(i)
    ensures FgTable()[i].code == NumberText(FgCode(i))
  {
    if i <= 8 {
      FgTableHalf(i, 1, false);
    } else {
      FgTableHalf(i, 9, true);
    }
  }

  lemma FgTableHalf(i: nat, first: nat, bright: bool)
    requires first == 1 || first == 9
    requires first <= i < first + 8 && bright == (first == 9)
    ensures FgTable()[i].index == i && FgTable()[i].bright == bright
    ensures FgTable()[i].code == ['3', Digit(i - first)]
  {
  }

  lemma BgTableRow(i: nat)
    requires 1 <= i < MAX_COLOR
    ensures BgTable()[i].index == i && BgTable()[i].bright == IsBright(i)
    ensures BgTable()[i].code == NumberText(BgCode(i))
  {
    if i <= 8 {
      BgTableHalf(i, 1, false);
    } else {
      BgTableHalf(i, 9, true);
    }
  }

  lemma BgTableHalf(i: nat, first: nat, bright: bool)
    requires first == 1 || first == 9
    requires first <= i < first + 8 && bright == (first == 9)
    ensures BgTable()[i].index == i && BgTable()[i].bright == bright
    ensures BgTable()[i].code == ['4', Digit(i - first)]
  {
  }

  /** The rows `amp_find_rgb16` picks for a colour. */
  function FgRow(c: Rgb): (i: nat)
    ensures 1 <= i < MAX_COLOR
  {
    CodeTableIsCodeTable('3');
    NearestIsLowestNearest(FgTable(), c, 0);
    Nearest(FgTable(), c)
  }

  function BgRow(c: Rgb): (i: nat)
    ensures 1 <= i < MAX_COLOR
  {
    CodeTableIsCodeTable('4');
    NearestIsLowestNearest(BgTable(), c, 0);
    Nearest(BgTable(), c)
  }

  /** The colour commands with the 24-bit palette (amp.h:1289-1370). */
  function Colors24(m: Mode): (cmds: seq<Command>)
    ensures |cmds| <= 2 && |Flatten(cmds)| <= 10
    ensures forall i :: 0 <= i < |cmds| ==> !cmds[i].Code?
  {
    (if m.fgSet then [Fg24(m.fg)] else []) + (if m.bgSet then [Bg24(m.bg)] else [])
  }

  /** Whether the 16-colour rendering swaps the channels: the background
      is set and nearest to a bright colour (amp.h:1372-1390). */
  predicate BrightBg(m: Mode)
  {
    m.bgSet && IsBright(BgRow(m.bg))
  }

  /** The mode after the swap of `amp_mode_to_ans`: a bright background
      becomes the foreground, and the old foreground (with its flag) the
      background. */
  function Swapped(m: Mode): Mode
  {
    if BrightBg(m) then m.(fg := m.bg, bg := m.fg, fgSet := true, bgSet := m.fgSet) else m
  }

  /** The foreground commands of the 16-colour rendering: `1` (bold)
      before a bright colour, then the colour's code. */
  function Fg16(c: Rgb): (cmds: seq<Command>)
    ensures 1 <= |cmds| <= 2
    ensures forall i :: 0 <= i < |cmds| ==> cmds[i].Code? && (cmds[i].n == 1 || 30 <= cmds[i].n <= 37)
  {
    var row := FgRow(c);
    (if IsBright(row) then [Code(1)] else []) + [Code(FgCode(row))]
  }

  /** The codes of the 16-colour rendering: bold, reverse video and the
      foreground and background colour codes. */
  predicate IsColor16Code(n: byte)
  {
    n == 1 || n == 7 || 30 <= n <= 37 || 40 <= n <= 47
  }

  /** The colour commands with the 16-colour palette (amp.h:1371-1432):
      `7` (reverse video) when swapped, then the foreground's and the
      background's commands. */
  function Colors16(m: Mode): (cmds: seq<Command>)
    ensures |cmds| <= 4
    ensures forall i :: 0 <= i < |cmds| ==> cmds[i].Code? && IsColor16Code(cmds[i].n)
  {
    (if BrightBg(m) then [Code(7)] else []) + ChannelCmds(Swapped(m))
  }

  /** The foreground's and the background's commands, once swapped. */
  function ChannelCmds(s: Mode): (cmds: seq<Command>)
    ensures |cmds| <= 3
    ensures forall i :: 0 <= i < |cmds| ==> cmds[i].Code? && IsColor16Code(cmds[i].n)
  {
    (if s.fgSet then Fg16(s.fg) else []) + (if s.bgSet then [Code(BgCode(BgRow(s.bg)))] else [])
  }

  function ColorCmds(m: Mode, pal: Pal): seq<Command>
  {
    if pal == Pal24Bit then Colors24(m) else Colors16(m)
  }

  /** Every command `amp_mode_to_ans` emits for a mode, in order. */
  function Cmds(m: Mode, pal: Pal): seq<Command>
  {
    DecorationCmds(m) + ColorCmds(m, pal)
  }

  /** Single-code commands have one parameter each. */
  lemma {:induction false} FlattenOfCodes(cmds: seq<Command>)
    requires forall i :: 0 <= i < |cmds| ==> cmds[i].Code?
    ensures |Flatten(cmds)| == |cmds|
  {
    if cmds != [] {
      FlattenOfCodes(cmds[1..]);
    }
  }

  /** At most 17 parameters: the text always fits the library's 256-byte
      scratch buffers. */
  lemma CmdsBound(m: Mode, pal: Pal)
    ensures |Flatten(Cmds(m, pal))| <= 17
    ensures |ParamText(Cmds(m, pal))| <= 68
  {
    var d := DecorationCmds(m);
    var c := ColorCmds(m, pal);
    FlattenAppend(d, c);
    FlattenOfCodes(d);
    if pal != Pal24Bit {
      FlattenOfCodes(c);
    }
  }

  /** No command of a mode is the bare code 38 or 48, which a terminal
      would read as the start of a colour. */
  predicate WellFormed(cmds: seq<Command>)
  {
    forall i :: 0 <= i < |cmds| && cmds[i].Code? ==> cmds[i].n != 38 && cmds[i].n != 48
  }

  lemma WellFormedAppend(a: seq<Command>, b: seq<Command>)
    requires WellFormed(a) && WellFormed(b)
    ensures WellFormed(a + b)
  {
  }

  lemma CmdsWellFormed(m: Mode, pal: Pal)
    ensures WellFormed(Cmds(m, pal))
  {
    WellFormedAppend(DecorationCmds(m), ColorCmds(m, pal));
  }

  // Updates from one mode to the next (amp.h:1459-1579).

  /** The previous mode has a decoration or a colour that the next one
      lacks: only a full reset can take it away. */
  predicate Dropped(prev: Mode, next: Mode): (d: bool)
    ensures prev == next ==> !d
    ensures !prev.fgSet && !prev.bgSet && DecorationCount(prev) == 0 ==> !d
  {
    || (prev.hidden && !next.hidden) || (prev.faint && !next.faint)
    || (prev.italic && !next.italic) || (prev.underline && !next.underline)
    || (prev.blinking && !next.blinking) || (prev.strikethrough && !next.strikethrough)
    || (prev.fgSet && !next.fgSet) || (prev.bgSet && !next.bgSet)
  }

  /** Entry `i` of `modes[]` of `amp_mode_update_to_ans`: one mode per
      newly set decoration, then one carrying the next mode's colours,
      with each channel's flag given by `fg`/`bg`. */
  function Part(prev: Mode, next: Mode, fg: bool, bg: bool, i: nat): (p: Mode)
    requires i < 7
    ensures !p.reset && !p.broken
    ensures i < 6 ==> !p.fgSet && !p.bgSet && DecorationCount(p) <= 1
    ensures i == 6 ==> DecorationCount(p) == 0
  {
    if i == 0 then Plain.(hidden := !prev.hidden && next.hidden)
    else if i == 1 then Plain.(faint := !prev.faint && next.faint)
    else if i == 2 then Plain.(italic := !prev.italic && next.italic)
    else if i == 3 then Plain.(underline := !prev.underline && next.underline)
    else if i == 4 then Plain.(blinking := !prev.blinking && next.blinking)
    else if i == 5 then Plain.(strikethrough := !prev.strikethrough && next.strikethrough)
    else Plain.(fg := next.fg, bg := next.bg, fgSet := fg, bgSet := bg)
  }

  /** The number of decorations a mode has. */
  function DecorationCount(m: Mode): nat
  {
    (if m.hidden then 1 else 0) + (if m.faint then 1 else 0) + (if m.italic then 1 else 0)
    + (if m.underline then 1 else 0) + (if m.blinking then 1 else 0) + (if m.strikethrough then 1 else 0)
  }

  /** The number of options present among the first `k`. */
  function Present(opts: seq<Option<byte>>, k: nat): nat
    requires k <= |opts|
  {
    if k == 0 then 0 else Present(opts, k - 1) + (if opts[k - 1].Some? then 1 else 0)
  }

  lemma {:induction false} ChosenCount(opts: seq<Option<byte>>, k: nat)
    requires k <= |opts|
    ensures |Chosen(opts, k)| == Present(opts, k)
  {
    if k > 0 {
      ChosenCount(opts, k - 1);
    }
  }

  /** One code per decoration, and one for a reset. */
  lemma DecorationCmdsCount(m: Mode)
    ensures |DecorationCmds(m)| == (if m.reset then 1 else 0) + DecorationCount(m)
  {
    var opts := Options(m);
    ChosenCount(opts, 7);
    assert Present(opts, 1) == (if m.reset then 1 else 0);
    assert Present(opts, 2) == Present(opts, 1) + (if m.hidden then 1 else 0);
    assert Present(opts, 3) == Present(opts, 2) + (if m.faint then 1 else 0);
    assert Present(opts, 4) == Present(opts, 3) + (if m.italic then 1 else 0);
    assert Present(opts, 5) == Present(opts, 4) + (if m.underline then 1 else 0);
    assert Present(opts, 6) == Present(opts, 5) + (if m.blinking then 1 else 0);
    assert Present(opts, 7) == Present(opts, 6) + (if m.strikethrough then 1 else 0);
  }

  /** Whether each channel enters the colour part, as the library decides
      it (amp.h:1525-1536): only when it was not set before. */
  function NewColorsAsWritten(prev: Mode, next: Mode): (bool, bool)
  {
    (!prev.fgSet && next.fgSet, !prev.bgSet && next.bgSet)
  }

  /** The decision corrected: a channel enters when it is set now and was
      either unset or of another colour before. */
  function NewColors(prev: Mode, next: Mode): (bool, bool)
  {
    (next.fgSet && (!prev.fgSet || prev.fg != next.fg), next.bgSet && (!prev.bgSet || prev.bg != next.bg))
  }

  /** The commands of the first `k` parts, in order. */
  function Joined(prev: Mode, next: Mode, fg: bool, bg: bool, pal: Pal, k: nat): seq<Command>
    requires k <= 7
  {
    if k == 0 then [] else Joined(prev, next, fg, bg, pal, k - 1) + Cmds(Part(prev, next, fg, bg, k - 1), pal)
  }

  /** The commands `amp_mode_update_to_ans` emits, the colour part's
      flags being `colors`: the next mode in full after a reset when
      something was dropped, and the parts' commands otherwise. */
  function UpdateWith(prev: Mode, next: Mode, pal: Pal, colors: (bool, bool)): seq<Command>
  {
    if Dropped(prev, next) then Cmds(next.(reset := true), pal)
    else Joined(prev, next, colors.0, colors.1, pal, 7)
  }

  /** The commands of `amp_mode_update_to_ans` as the library computes
      them: a channel set in both modes is left out of the colour part,
      even when its colour changes. */
  function UpdateCmdsAsWritten(prev: Mode, next: Mode, pal: Pal): (r: seq<Command>)
    ensures (prev.fgSet && next.fgSet ==> prev.fg == next.fg) && (prev.bgSet && next.bgSet ==> prev.bg == next.bg)
      ==> r == UpdateCmds(prev, next, pal)
  {
    UpdateWith(prev, next, pal, NewColorsAsWritten(prev, next))
  }

  /** The same update with the corrected colour decision `NewColors`. */
  function UpdateCmds(prev: Mode, next: Mode, pal: Pal): seq<Command>
  {
    UpdateWith(prev, next, pal, NewColors(prev, next))
  }

  /** A decoration part has at most one parameter. */
  lemma DecorationPartBound(prev: Mode, next: Mode, fg: bool, bg: bool, pal: Pal, i: nat)
    requires i < 6
    ensures |Flatten(Cmds(Part(prev, next, fg, bg, i), pal))| <= 1
  {
    var p := Part(prev, next, fg, bg, i);
    assert ColorCmds(p, pal) == [];
    DecorationCmdsCount(p);
    FlattenOfCodes(DecorationCmds(p));
    assert Cmds(p, pal) == DecorationCmds(p);
  }

  /** The decoration parts have at most one parameter each. */
  lemma {:induction false} DecorationPartsBound(prev: Mode, next: Mode, fg: bool, bg: bool, pal: Pal, k: nat)
    requires k <= 6
    ensures |Flatten(Joined(prev, next, fg, bg, pal, k))| <= k
  {
    if k > 0 {
      DecorationPartsBound(prev, next, fg, bg, pal, k - 1);
      FlattenAppend(Joined(prev, next, fg, bg, pal, k - 1), Cmds(Part(prev, next, fg, bg, k - 1), pal));
      DecorationPartBound(prev, next, fg, bg, pal, k - 1);
    }
  }

  /** All seven parts: at most 23 parameters. */
  lemma JoinedBound(prev: Mode, next: Mode, fg: bool, bg: bool, pal: Pal)
    ensures |Flatten(Joined(prev, next, fg, bg, pal, 7))| <= 23
  {
    DecorationPartsBound(prev, next, fg, bg, pal, 6);
    FlattenAppend(Joined(prev, next, fg, bg, pal, 6), Cmds(Part(prev, next, fg, bg, 6), pal));
    CmdsBound(Part(prev, next, fg, bg, 6), pal);
  }

  /** Every update text fits the 256-byte buffers it passes through. */
  lemma UpdateBound(prev: Mode, next: Mode, pal: Pal, colors: (bool, bool))
    ensures |ParamText(UpdateWith(prev, next, pal, colors))| <= 92
  {
    if Dropped(prev, next) {
      CmdsBound(next.(reset := true), pal);
    } else {
      JoinedBound(prev, next, colors.0, colors.1, pal);
    }
  }

  /** A mode's commands hold a decoration code exactly when the mode asks
      for that decoration. */
  lemma DecorationCmdsHas(m: Mode, v: byte)
    ensures Code(v) in DecorationCmds(m) <==> AsksFor(m, v)
  {
    var opts := Options(m);
    assert opts[..7] == opts;
    ChosenHas(opts, 7, v);
    OptionsHas(m, v);
  }

  /** A mode's commands start with a reset exactly when it asks for one. */
  lemma ResetCode(m: Mode, pal: Pal)
    ensures Code(0) in Cmds(m, pal) <==> m.reset
  {
    DecorationCmdsHas(m, 0);
    assert Code(0) !in ColorCmds(m, pal);
  }

  /** The parts never reset. */
  lemma {:induction false} JoinedHasNoReset(prev: Mode, next: Mode, fg: bool, bg: bool, pal: Pal, k: nat)
    requires k <= 7
    ensures Code(0) !in Joined(prev, next, fg, bg, pal, k)
  {
    if k > 0 {
      JoinedHasNoReset(prev, next, fg, bg, pal, k - 1);
      ResetCode(Part(prev, next, fg, bg, k - 1), pal);
    }
  }

  /** An update resets the terminal exactly when the next mode drops
      something the previous one had (amp.h:1463-1476). */
  lemma ResetIffDropped(prev: Mode, next: Mode, pal: Pal, colors: (bool, bool))
    ensures Code(0) in UpdateWith(prev, next, pal, colors) <==> Dropped(prev, next)
  {
    if Dropped(prev, next) {
      ResetCode(next.(reset := true), pal);
    } else {
      JoinedHasNoReset(prev, next, colors.0, colors.1, pal, 7);
    }
  }

  /** A mode that asks for nothing emits nothing. */
  lemma NoCmds(m: Mode, pal: Pal)
    requires !m.reset && DecorationCount(m) == 0 && !m.fgSet && !m.bgSet
    ensures Cmds(m, pal) == []
  {
    DecorationCmdsCount(m);
  }

  /** Whether `next` has no decoration that `prev` lacks. */
  predicate NoNewDecorations(prev: Mode, next: Mode)
  {
    && (next.hidden ==> prev.hidden) && (next.faint ==> prev.faint)
    && (next.italic ==> prev.italic) && (next.underline ==> prev.underline)
    && (next.blinking ==> prev.blinking) && (next.strikethrough ==> prev.strikethrough)
  }

  /** With no new decoration and no colour flagged, the parts are all
      empty. */
  lemma {:induction false} JoinedEmpty(prev: Mode, next: Mode, pal: Pal, k: nat)
    requires k <= 7 && NoNewDecorations(prev, next)
    ensures Joined(prev, next, false, false, pal, k) == []
  {
    if k > 0 {
      JoinedEmpty(prev, next, pal, k - 1);
      NoCmds(Part(prev, next, false, false, k - 1), pal);
    }
  }

  /** Moving to the mode already shown emits nothing, as written and
      corrected alike. */
  lemma IdenticalModesEmitNothing(m: Mode, pal: Pal)
    ensures UpdateCmds(m, m, pal) == []
    ensures UpdateCmdsAsWritten(m, m, pal) == []
  {
    JoinedEmpty(m, m, pal, 7);
  }

  /** Update commands never hold a bare 38 or 48 either. */
  lemma {:induction false} JoinedWellFormed(prev: Mode, next: Mode, fg: bool, bg: bool, pal: Pal, k: nat)
    requires k <= 7
    ensures WellFormed(Joined(prev, next, fg, bg, pal, k))
  {
    if k > 0 {
      JoinedWellFormed(prev, next, fg, bg, pal, k - 1);
      CmdsWellFormed(Part(prev, next, fg, bg, k - 1), pal);
      WellFormedAppend(Joined(prev, next, fg, bg, pal, k - 1), Cmds(Part(prev, next, fg, bg, k - 1), pal));
    }
  }

  lemma UpdateWellFormed(prev: Mode, next: Mode, pal: Pal, colors: (bool, bool))
    ensures WellFormed(UpdateWith(prev, next, pal, colors))
  {
    if Dropped(prev, next) {
      CmdsWellFormed(next.(reset := true), pal);
    } else {
      JoinedWellFormed(prev, next, colors.0, colors.1, pal, 7);
    }
  }
}
