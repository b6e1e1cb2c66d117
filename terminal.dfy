/** The terminal's side of the escape sequences: reading an SGR sequence
    back into commands (its parameters are decimal numbers separated by
    ';', section 5.4.2 of ECMA-48), and the graphic rendition the commands
    select (section 8.3.117 of ECMA-48; the 24-bit colour form `38;2;r;g;b`
    is that of ITU-T T.416). */
module Terminal {
  import opened Common
  import opened Palette
  import opened Modes
  import opened Sgr

  // Reading the parameter text back.

  /** The position of the first ';' in `s`. */
  function FirstSemicolon(s: string): (i: nat)
    requires ';' in s
    ensures i < |s| && s[i] == ';' && ';' !in s[..i]
  {
    if s[0] == ';' then 0
    else
      var j := FirstSemicolon(s[1..]);
      assert s[..j + 1] == [s[0]] + s[1..][..j];
      j + 1
  }

  /** The fields of a parameter string. */
  function Fields(s: string): (fs: seq<string>)
    ensures |fs| >= 1
    decreases |s|
  {
    if ';' in s then
      var i := FirstSemicolon(s);
      [s[..i]] + Fields(s[i + 1..])
    else [s]
  }

  /** A ';' with none before it is the first. */
  lemma {:induction false} FirstSemicolonIs(s: string, j: nat)
    requires j < |s| && s[j] == ';' && ';' !in s[..j]
    ensures FirstSemicolon(s) == j
  {
    if j > 0 {
      assert s[0] == s[..j][0];
      assert s[1..][..j - 1] == s[..j][1..];
      FirstSemicolonIs(s[1..], j - 1);
    }
  }

  lemma FieldsOfJoin(t: string, u: string)
    requires ';' !in t
    ensures Fields(t + ";" + u) == [t] + Fields(u)
  {
    var s := t + ";" + u;
    assert s[..|t|] == t && s[|t|] == ';';
    FirstSemicolonIs(s, |t|);
    assert s[|t| + 1..] == u;
  }

  /** The numerals of a run of parameters. */
  function Numerals(ns: seq<byte>): (fs: seq<string>)
    ensures |fs| == |ns|
  {
    if ns == [] then [] else [NumberText(ns[0])] + Numerals(ns[1..])
  }

  lemma NumberTextHasNoSemicolon(n: byte)
    ensures ';' !in NumberText(n)
  {
    NumberTextIsDecimal(n);
  }

  lemma {:induction false} FieldsOfCodesText(ns: seq<byte>)
    requires ns != []
    ensures Fields(CodesText(ns)) == Numerals(ns)
  {
    NumberTextHasNoSemicolon(ns[0]);
    if |ns| == 1 {
      assert CodesText(ns) == NumberText(ns[0]);
    } else {
      FieldsOfJoin(NumberText(ns[0]), CodesText(ns[1..]));
      FieldsOfCodesText(ns[1..]);
    }
  }

  /** The value of a field: its decimal value, or -1 when it is not a
      numeral. */
  function FieldValue(f: string): int
  {
    if f != [] && forall i :: 0 <= i < |f| ==> IsDigit(f[i]) then DecimalValue(f) else -1
  }

  function Values(fs: seq<string>): (vs: seq<int>)
    ensures |vs| == |fs|
  {
    if fs == [] then [] else [FieldValue(fs[0])] + Values(fs[1..])
  }

  lemma {:induction false} ValuesOfNumerals(ns: seq<byte>)
    ensures Values(Numerals(ns)) == ns
  {
    if ns != [] {
      NumberTextIsDecimal(ns[0]);
      ValuesOfNumerals(ns[1..]);
    }
  }

  function IsByte(v: int): bool
  {
    0 <= v < 256
  }

  /** Parameters grouped into commands: `38;2;r;g;b` and `48;2;r;g;b` are
      one colour each, every other value in 0..255 is one code, and values
      that are not parameters are skipped. */
  function Group(vs: seq<int>): seq<Command>
    decreases |vs|
  {
    if vs == [] then []
    else if (vs[0] == 38 || vs[0] == 48) && |vs| >= 5 && vs[1] == 2
         && IsByte(vs[2]) && IsByte(vs[3]) && IsByte(vs[4]) then
      var c := Rgb(vs[2], vs[3], vs[4]);
      [if vs[0] == 38 then Fg24(c) else Bg24(c)] + Group(vs[5..])
    else if IsByte(vs[0]) then [Code(vs[0])] + Group(vs[1..])
    else Group(vs[1..])
  }

  /** A command's parameters, followed by anything, are read as that
      command first. */
  lemma GroupNumbers(cmd: Command, rest: seq<int>)
    requires WellFormed([cmd])
    ensures Group(Numbers(cmd) + rest) == [cmd] + Group(rest)
  {
    var vs: seq<int> := Numbers(cmd) + rest;
    assert [cmd][0] == cmd;
    match cmd
    case Code(n) =>
      assert vs[0] == n && vs[1..] == rest;
    case Fg24(c) =>
      assert vs[..5] == [38, 2, c.r, c.g, c.b] && vs[5..] == rest;
    case Bg24(c) =>
      assert vs[..5] == [48, 2, c.r, c.g, c.b] && vs[5..] == rest;
  }

  lemma {:induction false} GroupFlatten(cmds: seq<Command>)
    requires WellFormed(cmds)
    ensures Group(Flatten(cmds)) == cmds
    decreases |cmds|
  {
    if cmds != [] {
      assert WellFormed([cmds[0]]) && WellFormed(cmds[1..]);
      GroupNumbers(cmds[0], Flatten(cmds[1..]));
      GroupFlatten(cmds[1..]);
      assert cmds == [cmds[0]] + cmds[1..];
    }
  }

  /** The commands a terminal reads from a parameter string. */
  function DecodeParams(s: string): seq<Command>
  {
    Group(Values(Fields(s)))
  }

  /** The commands a terminal reads from an escape sequence `ESC [ ... m`,
      if it is one. */
  function ParseSgr(s: string): Option<seq<Command>>
  {
    if |s| >= 3 && s[..2] == CSI && s[|s| - 1] == 'm' then Some(DecodeParams(s[2..|s| - 1]))
    else None
  }

  /** Reading back the parameter text gives the commands written. */
  lemma DecodeParamText(cmds: seq<Command>)
    requires cmds != [] && WellFormed(cmds)
    ensures DecodeParams(ParamText(cmds)) == cmds
  {
    var ns := Flatten(cmds);
    assert ns != [] by {
      assert ns == Numbers(cmds[0]) + Flatten(cmds[1..]);
    }
    FieldsOfCodesText(ns);
    ValuesOfNumerals(ns);
    GroupFlatten(cmds);
  }

  /** An escape sequence reads back as the commands written. */
  lemma ParseSgrText(cmds: seq<Command>)
    requires cmds != [] && WellFormed(cmds)
    ensures ParseSgr(SgrText(cmds)) == Some(cmds)
  {
    var s := SgrText(cmds);
    assert s[..2] == CSI && s[2..|s| - 1] == ParamText(cmds);
    DecodeParamText(cmds);
  }

  /** The escape sequence of a mode reads back as the mode's commands. */
  lemma SgrRoundTrip(m: Mode, pal: Pal)
    requires Cmds(m, pal) != []
    ensures ParseSgr(SgrText(Cmds(m, pal))) == Some(Cmds(m, pal))
  {
    CmdsWellFormed(m, pal);
    ParseSgrText(Cmds(m, pal));
  }

  /** The escape sequence between two modes reads back as its commands,
      as the library computes them and with the corrected colour
      decision. */
  lemma UpdateRoundTrip(prev: Mode, next: Mode, pal: Pal)
    ensures var cmds := UpdateCmdsAsWritten(prev, next, pal);
      cmds != [] ==> ParseSgr(SgrText(cmds)) == Some(cmds)
    ensures var cmds := UpdateCmds(prev, next, pal);
      cmds != [] ==> ParseSgr(SgrText(cmds)) == Some(cmds)
  {
    UpdateWellFormed(prev, next, pal, NewColorsAsWritten(prev, next));
    if UpdateCmdsAsWritten(prev, next, pal) != [] {
      ParseSgrText(UpdateCmdsAsWritten(prev, next, pal));
    }
    UpdateWellFormed(prev, next, pal, NewColors(prev, next));
    if UpdateCmds(prev, next, pal) != [] {
      ParseSgrText(UpdateCmds(prev, next, pal));
    }
  }

  // The rendition the commands select.

  /** A colour as the terminal holds it: one of the eight colours of
      codes 30-37/40-47, or a 24-bit one. */
  datatype Color = Named(index: nat) | Rgb24(rgb: Rgb)

  datatype Rendition = Rendition(
    fg: Option<Color>, bg: Option<Color>,
    bold: bool, faint: bool, italic: bool, underline: bool,
    blinking: bool, reverse: bool, hidden: bool, strikethrough: bool)

  /** The rendition after `ESC [ 0 m`. */
  const Default: Rendition := Rendition(None, None, false, false, false, false, false, false, false, false)

  function Step(r: Rendition, cmd: Command): Rendition
  {
    match cmd
    case Fg24(c) => r.(fg := Some(Rgb24(c)))
    case Bg24(c) => r.(bg := Some(Rgb24(c)))
    case Code(n) =>
      if n == 0 then Default
      else if n == 1 then r.(bold := true)
      else if n == 2 then r.(faint := true)
      else if n == 3 then r.(italic := true)
      else if n == 4 then r.(underline := true)
      else if n == 5 then r.(blinking := true)
      else if n == 7 then r.(reverse := true)
      else if n == 8 then r.(hidden := true)
      else if n == 9 then r.(strikethrough := true)
      else if 30 <= n <= 37 then r.(fg := Some(Named(n - 30)))
      else if 40 <= n <= 47 then r.(bg := Some(Named(n - 40)))
      else r
  }

  function Apply(r: Rendition, cmds: seq<Command>): Rendition
    decreases |cmds|
  {
    if cmds == [] then r else Apply(Step(r, cmds[0]), cmds[1..])
  }

  lemma {:induction false} ApplyAppend(r: Rendition, a: seq<Command>, b: seq<Command>)
    ensures Apply(r, a + b) == Apply(Apply(r, a), b)
    decreases |a|
  {
    if a == [] {
      assert a + b == b;
    } else {
      assert (a + b)[0] == a[0] && (a + b)[1..] == a[1..] + b;
      ApplyAppend(Step(r, a[0]), a[1..], b);
    }
  }

  /** How a cell of mode `m` should look with the 24-bit palette. */
  function Shown(m: Mode): Rendition
  {
    Rendition(
      if m.fgSet then Some(Rgb24(m.fg)) else None,
      if m.bgSet then Some(Rgb24(m.bg)) else None,
      false, m.faint, m.italic, m.underline, m.blinking, false, m.hidden, m.strikethrough)
  }

  /** What the commands of a mode do to a rendition with the 24-bit
      palette: a reset first when the mode asks for one, then each
      decoration and colour of the mode switched on, the rest kept. */
  function Effect(r: Rendition, m: Mode): Rendition
  {
    var s := if m.reset then Default else r;
    s.(fg := if m.fgSet then Some(Rgb24(m.fg)) else s.fg,
       bg := if m.bgSet then Some(Rgb24(m.bg)) else s.bg,
       faint := s.faint || m.faint, italic := s.italic || m.italic,
       underline := s.underline || m.underline, blinking := s.blinking || m.blinking,
       hidden := s.hidden || m.hidden, strikethrough := s.strikethrough || m.strikethrough)
  }

  /** The codes chosen are the first option's, then those of the rest. */
  lemma {:induction false} ChosenSplit(opts: seq<Option<byte>>, k: nat)
    requires 1 <= k <= |opts|
    ensures Chosen(opts, k) == Chosen(opts, 1) + Chosen(opts[0 := None], k)
  {
    if k > 1 {
      ChosenSplit(opts, k - 1);
    }
  }

  /** The decorations a sequence of decoration codes switches on. */
  function Decorated(r: Rendition, cmds: seq<Command>): Rendition
  {
    r.(faint := r.faint || Code(2) in cmds, italic := r.italic || Code(3) in cmds,
       underline := r.underline || Code(4) in cmds, blinking := r.blinking || Code(5) in cmds,
       hidden := r.hidden || Code(8) in cmds, strikethrough := r.strikethrough || Code(9) in cmds)
  }

  lemma DecoratedStep(r: Rendition, c: Command, rest: seq<Command>)
    requires c.Code? && c.n in {2, 3, 4, 5, 8, 9}
    ensures Decorated(Step(r, c), rest) == Decorated(r, [c] + rest)
  {
  }

  /** Decoration codes switch their decorations on, in any order and
      number. */
  lemma {:induction false} ApplyDecorations(r: Rendition, cmds: seq<Command>)
    requires forall i :: 0 <= i < |cmds| ==> cmds[i].Code? && cmds[i].n in {2, 3, 4, 5, 8, 9}
    ensures Apply(r, cmds) == Decorated(r, cmds)
    decreases |cmds|
  {
    if cmds != [] {
      assert cmds == [cmds[0]] + cmds[1..];
      ApplyDecorations(Step(r, cmds[0]), cmds[1..]);
      DecoratedStep(r, cmds[0], cmds[1..]);
    } else {
      assert Decorated(r, cmds) == r;
    }
  }

  /** A mode's decoration codes: its reset, then the others. */
  lemma DecorationsSplit(m: Mode)
    ensures DecorationCmds(m) == Chosen(Options(m), 1) + Chosen(Options(m.(reset := false)), 7)
    ensures Apply(Default, Chosen(Options(m), 1)) == Default
    ensures forall r :: Apply(r, Chosen(Options(m), 1)) == if m.reset then Default else r
  {
    var opts := Options(m);
    assert opts[..7] == opts;
    assert opts[0 := None] == Options(m.(reset := false));
    ChosenSplit(opts, 7);
  }

  /** The codes of the decorations other than the reset are exactly those
      the mode asks for. */
  lemma OtherDecorations(m: Mode)
    ensures var cmds := Chosen(Options(m.(reset := false)), 7);
      && (forall i :: 0 <= i < |cmds| ==> cmds[i].Code? && cmds[i].n in {2, 3, 4, 5, 8, 9})
      && (Code(2) in cmds <==> m.faint) && (Code(3) in cmds <==> m.italic)
      && (Code(4) in cmds <==> m.underline) && (Code(5) in cmds <==> m.blinking)
      && (Code(8) in cmds <==> m.hidden) && (Code(9) in cmds <==> m.strikethrough)
  {
    var rest := Options(m.(reset := false));
    assert rest[..7] == rest;
    var cmds := Chosen(rest, 7);
    forall i | 0 <= i < |cmds|
      ensures cmds[i].Code? && cmds[i].n in {2, 3, 4, 5, 8, 9}
    {
      assert Some(cmds[i].n) in rest;
    }
    forall v: byte
      ensures Code(v) in cmds <==> AsksFor(m.(reset := false), v)
    {
      ChosenHas(rest, 7, v);
      OptionsHas(m.(reset := false), v);
    }
  }

  lemma DecoratedIsEffect(r: Rendition, m: Mode, cmds: seq<Command>)
    requires (Code(2) in cmds <==> m.faint) && (Code(3) in cmds <==> m.italic)
    requires (Code(4) in cmds <==> m.underline) && (Code(5) in cmds <==> m.blinking)
    requires (Code(8) in cmds <==> m.hidden) && (Code(9) in cmds <==> m.strikethrough)
    ensures Decorated(if m.reset then Default else r, cmds) == Effect(r, m.(fgSet := false, bgSet := false))
  {
  }

  lemma DecorationsApplied(r: Rendition, m: Mode)
    ensures Apply(r, DecorationCmds(m)) == Effect(r, m.(fgSet := false, bgSet := false))
  {
    var first := Chosen(Options(m), 1);
    var cmds := Chosen(Options(m.(reset := false)), 7);
    DecorationsSplit(m);
    var r0 := if m.reset then Default else r;
    ApplyAppend(r, first, cmds);
    assert Apply(r, first) == r0;
    OtherDecorations(m);
    ApplyDecorations(r0, cmds);
    DecoratedIsEffect(r, m, cmds);
  }

  lemma ColorsApplied(r: Rendition, m: Mode)
    ensures Apply(r, Colors24(m)) == r.(fg := if m.fgSet then Some(Rgb24(m.fg)) else r.fg,
                                        bg := if m.bgSet then Some(Rgb24(m.bg)) else r.bg)
  {
    ApplyAppend(r, if m.fgSet then [Fg24(m.fg)] else [], if m.bgSet then [Bg24(m.bg)] else []);
  }

  /** The commands of a mode have exactly the effect `Effect`. */
  lemma CmdsApplied(r: Rendition, m: Mode)
    ensures Apply(r, Cmds(m, Pal24Bit)) == Effect(r, m)
  {
    ApplyAppend(r, DecorationCmds(m), Colors24(m));
    DecorationsApplied(r, m);
    ColorsApplied(Apply(r, DecorationCmds(m)), m);
  }

  /** After a reset the terminal shows the mode, whatever it showed
      before. */
  lemma ShownAfterReset(r: Rendition, m: Mode)
    ensures Apply(r, Cmds(m.(reset := true), Pal24Bit)) == Shown(m)
  {
    CmdsApplied(r, m.(reset := true));
  }

  /** From the default rendition a mode needs no reset. */
  lemma ShownFromDefault(m: Mode)
    requires !m.reset
    ensures Apply(Default, Cmds(m, Pal24Bit)) == Shown(m)
  {
    CmdsApplied(Default, m);
  }

  /** What the terminal shows after the first `k` parts of an update from
      `prev` to `next`: the decorations of the first `k` parts as in
      `next`, everything else as in `prev`. */
  function Partial(prev: Mode, next: Mode, k: nat): Rendition
  {
    Shown(prev).(
      hidden := if k > 0 then next.hidden else prev.hidden,
      faint := if k > 1 then next.faint else prev.faint,
      italic := if k > 2 then next.italic else prev.italic,
      underline := if k > 3 then next.underline else prev.underline,
      blinking := if k > 4 then next.blinking else prev.blinking,
      strikethrough := if k > 5 then next.strikethrough else prev.strikethrough)
  }

  /** Each decoration part switches on its decoration when it is new,
      whatever colours the terminal shows. */
  lemma PartStep(prev: Mode, next: Mode, fg: bool, bg: bool, k: nat, c: Option<Color>, d: Option<Color>)
    requires !Dropped(prev, next) && k < 6
    ensures Effect(Partial(prev, next, k).(fg := c, bg := d), Part(prev, next, fg, bg, k))
      == Partial(prev, next, k + 1).(fg := c, bg := d)
  {
  }

  /** The decoration parts of an update, carried out on a terminal that
      shows `prev`'s decorations, add the new ones and leave the colours. */
  lemma {:induction false} JoinedShown(r: Rendition, prev: Mode, next: Mode, fg: bool, bg: bool, k: nat)
    requires !Dropped(prev, next) && k <= 6
    requires r == Shown(prev).(fg := r.fg, bg := r.bg)
    ensures Apply(r, Joined(prev, next, fg, bg, Pal24Bit, k)) == Partial(prev, next, k).(fg := r.fg, bg := r.bg)
  {
    if k > 0 {
      JoinedShown(r, prev, next, fg, bg, k - 1);
      var p := Part(prev, next, fg, bg, k - 1);
      ApplyAppend(r, Joined(prev, next, fg, bg, Pal24Bit, k - 1), Cmds(p, Pal24Bit));
      CmdsApplied(Partial(prev, next, k - 1).(fg := r.fg, bg := r.bg), p);
      PartStep(prev, next, fg, bg, k - 1, r.fg, r.bg);
    }
  }

  /** The colour part completes the update: a channel it leaves out was
      already showing the right colour, or none. */
  lemma ColorPartShown(prev: Mode, next: Mode)
    requires !Dropped(prev, next)
    ensures var (fg, bg) := NewColors(prev, next);
      Effect(Partial(prev, next, 6), Part(prev, next, fg, bg, 6)) == Shown(next)
  {
  }

  /** The update takes the terminal from showing `prev` to showing
      `next`, with the corrected colour decision. */
  lemma UpdateShown(prev: Mode, next: Mode)
    ensures Apply(Shown(prev), UpdateCmds(prev, next, Pal24Bit)) == Shown(next)
  {
    if Dropped(prev, next) {
      ShownAfterReset(Shown(prev), next);
    } else {
      var (fg, bg) := NewColors(prev, next);
      AllPartsShown(Shown(prev), prev, next, fg, bg);
      assert Partial(prev, next, 6).(fg := Shown(prev).fg, bg := Shown(prev).bg) == Partial(prev, next, 6);
      ColorPartShown(prev, next);
    }
  }

  /** The terminal shows `m`, except that the colours of the channels `m`
      sets may be other ones. */
  predicate ShowsUpToColors(r: Rendition, m: Mode)
  {
    && r == Shown(m).(fg := r.fg, bg := r.bg)
    && (r.fg.Some? <==> m.fgSet) && (r.bg.Some? <==> m.bgSet)
  }

  /** What the update as the library computes it shows, from a terminal
      that shows `prev` up to its colours. */
  function AsWrittenShown(r: Rendition, prev: Mode, next: Mode): Rendition
  {
    if Dropped(prev, next) then Shown(next)
    else Shown(next).(fg := if prev.fgSet then r.fg else Shown(next).fg,
                      bg := if prev.bgSet then r.bg else Shown(next).bg)
  }

  /** The update as the library computes it, on a terminal that shows
      `prev` up to its colours: after a reset the terminal shows `next`;
      otherwise it shows `next`, except that a channel `prev` already set
      keeps the colour the terminal had. */
  lemma UpdateShownAsWritten(r: Rendition, prev: Mode, next: Mode)
    requires ShowsUpToColors(r, prev)
    ensures Apply(r, UpdateCmdsAsWritten(prev, next, Pal24Bit)) == AsWrittenShown(r, prev, next)
    ensures ShowsUpToColors(AsWrittenShown(r, prev, next), next)
  {
    if Dropped(prev, next) {
      ShownAfterReset(r, next);
    } else {
      var (fg, bg) := NewColorsAsWritten(prev, next);
      AllPartsShown(r, prev, next, fg, bg);
      ColorPartAsWritten(r, prev, next);
    }
  }

  /** All seven parts: the decorations, then the colour part. */
  lemma AllPartsShown(r: Rendition, prev: Mode, next: Mode, fg: bool, bg: bool)
    requires !Dropped(prev, next)
    requires r == Shown(prev).(fg := r.fg, bg := r.bg)
    ensures Apply(r, Joined(prev, next, fg, bg, Pal24Bit, 7))
      == Effect(Partial(prev, next, 6).(fg := r.fg, bg := r.bg), Part(prev, next, fg, bg, 6))
  {
    var p := Part(prev, next, fg, bg, 6);
    JoinedShown(r, prev, next, fg, bg, 6);
    ApplyAppend(r, Joined(prev, next, fg, bg, Pal24Bit, 6), Cmds(p, Pal24Bit));
    CmdsApplied(Partial(prev, next, 6).(fg := r.fg, bg := r.bg), p);
  }

  /** The colour part as the library computes it: it sets only the
      channels `prev` did not set. */
  lemma ColorPartAsWritten(r: Rendition, prev: Mode, next: Mode)
    requires ShowsUpToColors(r, prev) && !Dropped(prev, next)
    ensures var (fg, bg) := NewColorsAsWritten(prev, next);
      Effect(Partial(prev, next, 6).(fg := r.fg, bg := r.bg), Part(prev, next, fg, bg, 6))
        == AsWrittenShown(r, prev, next)
  {
  }

  /** As written, the update from a red to a blue foreground emits
      nothing, so the terminal goes on showing red. */
  lemma AsWrittenKeepsOldColor()
    ensures var prev := Plain.(fg := Rgb(255, 0, 0), fgSet := true);
      var next := Plain.(fg := Rgb(0, 0, 255), fgSet := true);
      && UpdateCmdsAsWritten(prev, next, Pal24Bit) == []
      && Apply(Shown(prev), UpdateCmdsAsWritten(prev, next, Pal24Bit)) != Shown(next)
  {
    var prev := Plain.(fg := Rgb(255, 0, 0), fgSet := true);
    var next := Plain.(fg := Rgb(0, 0, 255), fgSet := true);
    JoinedEmpty(prev, next, Pal24Bit, 7);
  }
}
