/** Rows and whole canvases as terminal text (amp.h:1203-1234,
    1581-1680): each cell's glyph after the escape sequence that changes
    the terminal from the previous cell's mode to its own. */
module Screen {
  import opened Common
  import opened StrBuf
  import opened Palette
  import opened Modes
  import opened Sgr
  import opened Cells
  import opened Canvas
  import opened Render
  import opened Terminal

  /** The text a cell shows: its glyph, or a space for a cell with no glyph
      or an empty one (amp.h:1211-1217, 1609-1615). */
  function GlyphText(g: Grid, x: nat, y: nat): (t: string)
    requires Valid(g)
    ensures 1 <= |t| < GLYPH_SIZE && NUL !in t
  {
    match GetGlyph(g, x, y)
    case None => " "
    case Some(s) =>
      if s == [] then " "
      else
        GlyphIsOneCharacter(g, x, y);
        Chars(s)
  }

  /** A cell as the renderers read it: its mode and the text it shows. */
  datatype Cell = Cell(mode: Mode, glyph: string)

  /** Cells 0 up to `x` of row `y`. */
  function RowCells(g: Grid, x: nat, y: nat): (cs: seq<Cell>)
    requires Valid(g)
    ensures |cs| == x
  {
    if x == 0 then [] else RowCells(g, x - 1, y) + [CellAt(g, x - 1, y, LAYERS)]
  }

  /** How many calls down `CellAt` and `CellText` reach their definitions:
      proofs that only move whole rows of text around then leave the
      canvas decoding and the escape sequences of each cell folded, and
      `RowCellsAt` and `CellTextIs` unfold them where they are needed. */
  const LAYERS: nat := 3

  /** Cell `(x, y)` as the renderers read it. */
  function CellAt(g: Grid, x: nat, y: nat, layer: nat): Cell
    requires Valid(g)
  {
    if layer == 0 then Cell(GetMode(g, x, y), GlyphText(g, x, y)) else CellAt(g, x, y, layer - 1)
  }

  lemma {:induction false} RowCellsAt(g: Grid, x: nat, y: nat, i: nat)
    requires Valid(g) && i < x
    ensures RowCells(g, x, y)[i] == Cell(GetMode(g, i, y), GlyphText(g, i, y))
  {
    if i < x - 1 {
      RowCellsAt(g, x - 1, y, i);
    } else {
      assert CellAt(g, i, y, 1) == CellAt(g, i, y, 0);
      assert CellAt(g, i, y, 3) == CellAt(g, i, y, 2) == CellAt(g, i, y, 1);
    }
  }

  /** The mode the terminal is in before cell `x` of a row started at
      `x0`: the zero mode at the start, the previous cell's after that. */
  function ModeBefore(cs: seq<Cell>, x0: nat, x: nat): Mode
    requires x0 < x ==> x <= |cs|
  {
    if x <= x0 then Plain else cs[x - 1].mode
  }

  /** The commands `amp_mode_update_to_ans` gives before cell `x`. */
  function CellCmds(cs: seq<Cell>, pal: Pal, x0: nat, x: nat): seq<Command>
    requires x < |cs|
  {
    UpdateCmdsAsWritten(ModeBefore(cs, x0, x), cs[x].mode, pal)
  }

  /** The text of cells `x0` up to `x`: each cell's glyph after the escape
      sequence that brings the terminal to the cell's mode. */
  function Prefix(cs: seq<Cell>, pal: Pal, x0: nat, x: nat): string
    requires x0 <= x && (x0 < x ==> x <= |cs|)
    decreases x - x0
  {
    if x == x0 then ""
    else Prefix(cs, pal, x0, x - 1) + CellText(cs, pal, x0, x - 1, LAYERS)
  }

  /** The text of cell `x`: the escape sequence that brings the terminal
      from the previous cell's mode to the cell's, then its glyph. */
  function CellText(cs: seq<Cell>, pal: Pal, x0: nat, x: nat, layer: nat): string
    requires x < |cs|
  {
    if layer == 0 then SgrText(CellCmds(cs, pal, x0, x)) + cs[x].glyph
    else CellText(cs, pal, x0, x, layer - 1)
  }

  lemma CellTextIs(cs: seq<Cell>, pal: Pal, x0: nat, x: nat)
    requires x < |cs|
    ensures CellText(cs, pal, x0, x, LAYERS) == SgrText(CellCmds(cs, pal, x0, x)) + cs[x].glyph
  {
    assert CellText(cs, pal, x0, x, 1) == CellText(cs, pal, x0, x, 0);
    assert CellText(cs, pal, x0, x, 3) == CellText(cs, pal, x0, x, 2) == CellText(cs, pal, x0, x, 1);
  }

  /** The column after the last one `amp_row_cut_to_ans` renders: the
      canvas width for a zero `width`, otherwise `x + width` computed in
      32 bits and capped at the canvas width. */
  function EndX(ampWidth: nat, x: nat, width: nat): (e: nat)
    requires ampWidth < UINT32_LIMIT && x < UINT32_LIMIT && width < UINT32_LIMIT
    ensures e <= ampWidth
    ensures width == 0 ==> e == ampWidth
    ensures 0 < width && x + width < UINT32_LIMIT ==>
      e == if x + width > ampWidth then ampWidth else x + width
  {
    if width == 0 then ampWidth
    else
      // The sum wraps around at 2^32 once.
      var end := if x + width >= UINT32_LIMIT then x + width - UINT32_LIMIT else x + width;
      if end > ampWidth then ampWidth else end
  }

  /** The escape sequence that ends every row: a full reset. */
  const RESET: string := CSI + "0m"

  /** The text of `amp_row_cut_to_ans`: cells `x` up to `EndX`, then the
      reset. */
  function RowCutText(g: Grid, x: nat, y: nat, width: nat): string
    requires Valid(g) && x < UINT32_LIMIT && width < UINT32_LIMIT
  {
    var e := EndX(g.width, x, width);
    Prefix(RowCells(g, e, y), g.palette, x, if e < x then x else e) + RESET
  }

  /** The text of `amp_row_to_ans`: the whole row. */
  function RowText(g: Grid, y: nat): string
    requires Valid(g)
  {
    RowCutText(g, 0, y, g.width)
  }

  /** The text of the first `k` rows of `amp_to_ans`, each but the last
      row of the canvas followed by a line break. */
  function Rows(g: Grid, k: nat): string
    requires Valid(g) && k <= g.height
  {
    if k == 0 then ""
    else Rows(g, k - 1) + RowText(g, k - 1) + LineEnd(g.height, k - 1)
  }

  /** The line break after row `y`, none after the last row. */
  function LineEnd(height: nat, y: nat): string
  {
    if y + 1 < height then "\r\n" else ""
  }

  /** The text of `amp_to_ans`. */
  function ScreenText(g: Grid): string
    requires Valid(g)
  {
    Rows(g, g.height)
  }

  /** The glyphs of the first `x` cells. */
  function Glyphs(cs: seq<Cell>, x: nat): string
    requires x <= |cs|
  {
    if x == 0 then "" else Glyphs(cs, x - 1) + cs[x - 1].glyph
  }

  /** The text of `amp_glyph_row_to_str`. */
  function GlyphRowText(g: Grid, y: nat): string
    requires Valid(g)
  {
    Glyphs(RowCells(g, g.width, y), g.width)
  }

  /** An escape sequence holds no terminator. */
  lemma SgrTextHasNoNul(cmds: seq<Command>)
    ensures NUL !in SgrText(cmds)
  {
    ParamTextHasNoNul(cmds);
  }

  /** Every update sequence fits the 256-character `mode_ans` buffer. */
  lemma UpdateTextFits(prev: Mode, next: Mode, pal: Pal)
    ensures |SgrText(UpdateCmdsAsWritten(prev, next, pal))| < 256
  {
    UpdateBound(prev, next, pal, NewColorsAsWritten(prev, next));
  }

  /** Appends the escape sequence from `prev` to `next`, rendered first
      into the local buffer `mode_ans`, when it is not empty
      (amp.h:1597-1606). */
  method UpdateToAns(prev: Mode, next: Mode, pal: Pal, modeAns: array<char>,
                     dst: array<char>, at: nat, used: nat, ghost text: string)
    returns (used': nat, ghost text': string)
    requires modeAns != dst && modeAns.Length == 256
    requires used == |text| && (text == [] || Holds(dst[..], at, text))
    modifies modeAns, dst
    ensures text' == text + SgrText(UpdateCmdsAsWritten(prev, next, pal)) && used' == |text'|
    ensures text' == [] || Holds(dst[..], at, text')
    ensures SameBefore(old(dst[..]), dst[..], at)
  {
    ghost var sgr := SgrText(UpdateCmdsAsWritten(prev, next, pal));
    var k := ModeUpdateToAns(prev, next, pal, modeAns, 0);
    used', text' := used, text;
    if k != 0 {
      UpdateTextFits(prev, next, pal);
      SgrTextHasNoNul(UpdateCmdsAsWritten(prev, next, pal));
      CStrOfHolds(modeAns[..], sgr);
      var e := Emit(dst, at, used', text', CStr(modeAns[..]));
      used', text' := used' + e, text' + sgr;
    } else {
      assert text + sgr == text;
    }
  }

  /** Appends a cell's glyph, or a space (amp.h:1608-1620). */
  method GlyphToAns(g: Grid, x: nat, y: nat, dst: array<char>, at: nat, used: nat, ghost text: string)
    returns (used': nat, ghost text': string)
    requires Valid(g)
    requires used == |text| && (text == [] || Holds(dst[..], at, text))
    modifies dst
    ensures text' == text + GlyphText(g, x, y) && used' == |text'|
    ensures Holds(dst[..], at, text')
    ensures SameBefore(old(dst[..]), dst[..], at)
  {
    var glyph := GetGlyph(g, x, y);
    var piece := if glyph.None? || glyph.value == [] then " " else Chars(glyph.value);
    var e := Emit(dst, at, used, text, piece);
    used', text' := used + e, text + piece;
  }

  /** One pass of the loop of `amp_row_cut_to_ans` (amp.h:1593-1620): the
      sequence from the previous cell's mode to cell `i`'s, then its
      glyph; `prev'` is cell `i`'s mode. */
  method CellToAns(g: Grid, x0: nat, i: nat, y: nat, ghost cells: seq<Cell>, prev: Mode,
                   modeAns: array<char>, dst: array<char>, at: nat, used: nat, ghost text: string)
    returns (i': nat, prev': Mode, used': nat, ghost text': string)
    requires Valid(g) && x0 <= i < |cells| && modeAns != dst && modeAns.Length == 256
    requires cells[i] == Cell(GetMode(g, i, y), GlyphText(g, i, y))
    requires prev == ModeBefore(cells, x0, i)
    requires text == Prefix(cells, g.palette, x0, i) && used == |text|
    requires text == [] || Holds(dst[..], at, text)
    modifies modeAns, dst
    ensures i' == i + 1
    ensures prev' == ModeBefore(cells, x0, i')
    ensures text' == Prefix(cells, g.palette, x0, i') && used' == |text'|
    ensures Holds(dst[..], at, text')
    ensures SameBefore(old(dst[..]), dst[..], at)
  {
    PrefixStep(cells, g.palette, x0, i);
    prev', used', text' := ModeGlyphToAns(g, i, y, prev, modeAns, dst, at, used, text);
    i' := i + 1;
  }

  /** The update from `prev` to cell `i`'s mode, then the cell's glyph. */
  method ModeGlyphToAns(g: Grid, i: nat, y: nat, prev: Mode,
                        modeAns: array<char>, dst: array<char>, at: nat, used: nat, ghost text: string)
    returns (next: Mode, used': nat, ghost text': string)
    requires Valid(g) && modeAns != dst && modeAns.Length == 256
    requires used == |text| && (text == [] || Holds(dst[..], at, text))
    modifies modeAns, dst
    ensures next == GetMode(g, i, y)
    ensures text' == text + (SgrText(UpdateCmdsAsWritten(prev, next, g.palette)) + GlyphText(g, i, y))
    ensures used' == |text'|
    ensures Holds(dst[..], at, text')
    ensures SameBefore(old(dst[..]), dst[..], at)
  {
    next := GetMode(g, i, y);
    ghost var sgr := SgrText(UpdateCmdsAsWritten(prev, next, g.palette));
    ghost var glyph := GlyphText(g, i, y);
    used', text' := UpdateToAns(prev, next, g.palette, modeAns, dst, at, used, text);
    used', text' := GlyphToAns(g, i, y, dst, at, used', text');
    Assoc(text, sgr, glyph);
  }

  lemma Assoc(a: string, b: string, c: string)
    ensures a + b + c == a + (b + c)
  {
  }

  lemma PrefixStep(cs: seq<Cell>, pal: Pal, x0: nat, i: nat)
    requires x0 <= i < |cs|
    ensures Prefix(cs, pal, x0, i + 1)
      == Prefix(cs, pal, x0, i) + (SgrText(UpdateCmdsAsWritten(ModeBefore(cs, x0, i), cs[i].mode, pal)) + cs[i].glyph)
    ensures ModeBefore(cs, x0, i + 1) == cs[i].mode
  {
    CellTextIs(cs, pal, x0, i);
  }

  /** `amp_row_cut_to_ans` (amp.h:1581-1640): cells `x` up to `EndX` of
      row `y`, each after the sequence that changes the terminal from the
      previous cell's mode (the zero mode for the first) to its own, then
      a full reset. The closing test for an empty result is left out: the
      reset makes the result at least 4 characters long. */
  method RowCutToAns(g: Grid, x: nat, y: nat, width: nat, dst: array<char>, at: nat) returns (n: nat)
    requires Valid(g) && x < UINT32_LIMIT && y < UINT32_LIMIT && width < UINT32_LIMIT
    modifies dst
    ensures n == |RowCutText(g, x, y, width)|
    ensures Holds(dst[..], at, RowCutText(g, x, y, width))
    ensures SameBefore(old(dst[..]), dst[..], at)
  {
    var endX := EndX(g.width, x, width);
    var stop := if endX < x then x else endX;
    ghost var text;
    n, text := CellsToAns(g, x, y, endX, stop, RowCells(g, endX, y), dst, at);
    var e := Emit(dst, at, n, text, RESET);
    n := n + e;
  }

  /** The loop of `amp_row_cut_to_ans` (amp.h:1593-1620) over cells `x`
      up to `stop` of `cells`. */
  method CellsToAns(g: Grid, x: nat, y: nat, endX: nat, stop: nat, ghost cells: seq<Cell>,
                    dst: array<char>, at: nat)
    returns (n: nat, ghost text: string)
    requires Valid(g) && x <= stop && (x < stop ==> stop <= endX)
    requires cells == RowCells(g, endX, y)
    modifies dst
    ensures text == Prefix(cells, g.palette, x, stop) && n == |text|
    ensures text == [] || Holds(dst[..], at, text)
    ensures SameBefore(old(dst[..]), dst[..], at)
  {
    var modeAns := new char[256];
    var prev := Plain;
    text := [];
    n := 0;
    var i := x;
    while i < stop
      invariant x <= i <= stop
      invariant prev == ModeBefore(cells, x, i)
      invariant text == Prefix(cells, g.palette, x, i) && n == |text|
      invariant text == [] || Holds(dst[..], at, text)
      invariant SameBefore(old(dst[..]), dst[..], at)
    {
      RowCellsAt(g, endX, y, i);
      i, prev, n, text := CellToAns(g, x, i, y, cells, prev, modeAns, dst, at, n, text);
    }
  }

  /** `amp_row_to_ans` (amp.h:1642-1651). */
  method RowToAns(g: Grid, y: nat, dst: array<char>, at: nat) returns (n: nat)
    requires Valid(g) && y < UINT32_LIMIT
    modifies dst
    ensures n == |RowText(g, y)|
    ensures Holds(dst[..], at, RowText(g, y))
    ensures SameBefore(old(dst[..]), dst[..], at)
  {
    n := RowCutToAns(g, 0, y, g.width, dst, at);
  }

  /** The closing test of `amp_to_ans` and `amp_glyph_row_to_str`: with
      nothing appended, a terminator at `at` when there is room for it. */
  method Terminate(dst: array<char>, at: nat, used: nat, ghost text: string)
    requires used == |text| && (text == [] || Holds(dst[..], at, text))
    modifies dst
    ensures Holds(dst[..], at, text)
    ensures SameBefore(old(dst[..]), dst[..], at)
  {
    if used == 0 && SubSize(dst.Length, at) != 0 {
      dst[at] := NUL;
    }
  }

  /** One pass of the loop of `amp_to_ans` (amp.h:1663-1673): row `y`,
      then a line break unless it is the last row. */
  method RowStepToAns(g: Grid, y: nat, dst: array<char>, at: nat, used: nat, ghost text: string)
    returns (y': nat, used': nat, ghost text': string)
    requires Valid(g) && y < g.height
    requires text == Rows(g, y) && used == |text|
    requires text == [] || Holds(dst[..], at, text)
    modifies dst
    ensures y' == y + 1
    ensures text' == Rows(g, y') && used' == |text'|
    ensures Holds(dst[..], at, text')
    ensures SameBefore(old(dst[..]), dst[..], at)
  {
    used', text' := AppendRow(g, y, dst, at, used, text);
    used', text' := EmitNonEmpty(dst, at, used', text', LineEnd(g.height, y));
    RowsStep(g, y, text, RowText(g, y));
    y' := y + 1;
  }

  /** Appends `src` unless it is empty. */
  method EmitNonEmpty(dst: array<char>, at: nat, used: nat, ghost text: string, src: string)
    returns (used': nat, ghost text': string)
    requires NUL !in src
    requires used == |text| && Holds(dst[..], at, text)
    modifies dst
    ensures text' == text + src && used' == |text'|
    ensures Holds(dst[..], at, text')
    ensures SameBefore(old(dst[..]), dst[..], at)
  {
    if src != "" {
      var k := Emit(dst, at, used, text, src);
      used', text' := used + k, text + src;
    } else {
      assert text + src == text;
      used', text' := used, text;
    }
  }

  /** Row `y` after the text already at `at`. */
  method AppendRow(g: Grid, y: nat, dst: array<char>, at: nat, used: nat, ghost text: string)
    returns (used': nat, ghost text': string)
    requires Valid(g) && y < UINT32_LIMIT
    requires used == |text| && (text == [] || Holds(dst[..], at, text))
    modifies dst
    ensures text' == text + RowText(g, y) && used' == |text'|
    ensures Holds(dst[..], at, text')
    ensures SameBefore(old(dst[..]), dst[..], at)
  {
    ghost var row := RowText(g, y);
    ghost var before := dst[..];
    var k := RowToAns(g, y, dst, at + used);
    HoldsConcat(before, dst[..], at, text, row);
    used', text' := used + k, text + row;
  }

  lemma RowsStep(g: Grid, y: nat, text: string, row: string)
    requires Valid(g) && y < g.height
    requires text == Rows(g, y) && row == RowText(g, y)
    ensures Rows(g, y + 1) == text + row + LineEnd(g.height, y)
  {
  }

  /** `amp_to_ans` (amp.h:1658-1680): the rows one below the other, with
      a terminator at `at` when the canvas has no row and there is room
      for one. */
  method ToAns(g: Grid, dst: array<char>, at: nat) returns (n: nat)
    requires Valid(g)
    modifies dst
    ensures n == |ScreenText(g)|
    ensures Holds(dst[..], at, ScreenText(g))
    ensures SameBefore(old(dst[..]), dst[..], at)
  {
    ghost var text: string := [];
    n := 0;
    var y := 0;
    while y < g.height
      invariant y <= g.height
      invariant text == Rows(g, y) && n == |text|
      invariant text == [] || Holds(dst[..], at, text)
      invariant SameBefore(old(dst[..]), dst[..], at)
    {
      y, n, text := RowStepToAns(g, y, dst, at, n, text);
    }
    Terminate(dst, at, n, text);
  }

  /** One pass of the loop of `amp_glyph_row_to_str` (amp.h:1209-1218). */
  method GlyphCellToAns(g: Grid, x: nat, y: nat, ghost cells: seq<Cell>,
                        dst: array<char>, at: nat, used: nat, ghost text: string)
    returns (used': nat, ghost text': string)
    requires Valid(g) && x < |cells| && cells[x].glyph == GlyphText(g, x, y)
    requires text == Glyphs(cells, x) && used == |text|
    requires text == [] || Holds(dst[..], at, text)
    modifies dst
    ensures text' == Glyphs(cells, x + 1) && used' == |text'|
    ensures Holds(dst[..], at, text')
    ensures SameBefore(old(dst[..]), dst[..], at)
  {
    used', text' := GlyphToAns(g, x, y, dst, at, used, text);
  }

  /** `amp_glyph_row_to_str` (amp.h:1203-1234): the glyphs of row `y`,
      with a terminator at `at` when the canvas has no column and there is
      room for one. */
  method GlyphRowToStr(g: Grid, y: nat, dst: array<char>, at: nat) returns (n: nat)
    requires Valid(g) && y < UINT32_LIMIT
    modifies dst
    ensures n == |GlyphRowText(g, y)|
    ensures Holds(dst[..], at, GlyphRowText(g, y))
    ensures SameBefore(old(dst[..]), dst[..], at)
  {
    ghost var cells := RowCells(g, g.width, y);
    ghost var text: string := [];
    n := 0;
    for x := 0 to g.width
      invariant text == Glyphs(cells, x) && n == |text|
      invariant text == [] || Holds(dst[..], at, text)
      invariant SameBefore(old(dst[..]), dst[..], at)
    {
      RowCellsAt(g, g.width, y, x);
      n, text := GlyphCellToAns(g, x, y, cells, dst, at, n, text);
    }
    Terminate(dst, at, n, text);
  }

  // What the rendered text does.

  /** The commands of the escape sequences of cells `x0` up to `x`, in
      order, as the library renders them. */
  function RowCmds(cs: seq<Cell>, pal: Pal, x0: nat, x: nat): seq<Command>
    requires x0 <= x <= |cs|
    decreases x - x0
  {
    if x == x0 then [] else RowCmds(cs, pal, x0, x - 1) + CellCmdsAt(cs, pal, x0, x - 1, LAYERS)
  }

  /** `CellCmds`, folded `layer` times as `CellText` is. */
  function CellCmdsAt(cs: seq<Cell>, pal: Pal, x0: nat, x: nat, layer: nat): seq<Command>
    requires x < |cs|
  {
    if layer == 0 then CellCmds(cs, pal, x0, x) else CellCmdsAt(cs, pal, x0, x, layer - 1)
  }

  lemma CellCmdsIs(cs: seq<Cell>, pal: Pal, x0: nat, x: nat)
    requires x < |cs|
    ensures CellCmdsAt(cs, pal, x0, x, LAYERS) == CellCmds(cs, pal, x0, x)
  {
    assert CellCmdsAt(cs, pal, x0, x, 1) == CellCmdsAt(cs, pal, x0, x, 0);
    assert CellCmdsAt(cs, pal, x0, x, 3) == CellCmdsAt(cs, pal, x0, x, 2) == CellCmdsAt(cs, pal, x0, x, 1);
  }

  /** The first cell of the run of cells up to `x` over which the library
      emits no foreground colour: the run starts after a cell without one,
      or at a reset. */
  function FgRunStart(cs: seq<Cell>, x0: nat, x: nat): (j: nat)
    requires x0 <= x < |cs|
    ensures x0 <= j <= x
    ensures cs[j].mode.fgSet == cs[x].mode.fgSet
    ensures cs[x].mode.fgSet ==> forall i :: j <= i <= x ==> cs[i].mode.fgSet
    decreases x - x0
  {
    if x == x0 || !cs[x - 1].mode.fgSet || Dropped(cs[x - 1].mode, cs[x].mode) then x
    else FgRunStart(cs, x0, x - 1)
  }

  /** The same for the background. */
  function BgRunStart(cs: seq<Cell>, x0: nat, x: nat): (j: nat)
    requires x0 <= x < |cs|
    ensures x0 <= j <= x
    ensures cs[j].mode.bgSet == cs[x].mode.bgSet
    ensures cs[x].mode.bgSet ==> forall i :: j <= i <= x ==> cs[i].mode.bgSet
    decreases x - x0
  {
    if x == x0 || !cs[x - 1].mode.bgSet || Dropped(cs[x - 1].mode, cs[x].mode) then x
    else BgRunStart(cs, x0, x - 1)
  }

  /** Cell `x` in its decorations and set channels, each set channel in
      the colour of the first cell of its run. */
  function RunShown(cs: seq<Cell>, x0: nat, x: nat): Rendition
    requires x0 <= x < |cs|
  {
    Shown(cs[x].mode).(fg := Shown(cs[FgRunStart(cs, x0, x)].mode).fg,
                       bg := Shown(cs[BgRunStart(cs, x0, x)].mode).bg)
  }

  /** With the 24-bit palette, a terminal that starts a row in its default
      rendition and carries out the row's escape sequences as the library
      renders them shows cell `x` in the cell's decorations and set
      channels, but each set channel in the colour of the first cell of its
      run: a colour that changes within a run is not shown. */
  lemma {:induction false} RowShowsAsWritten(cs: seq<Cell>, x0: nat, x: nat)
    requires x0 <= x < |cs|
    ensures Apply(Default, RowCmds(cs, Pal24Bit, x0, x + 1)) == RunShown(cs, x0, x)
  {
    RowShowsBefore(cs, x0, x + 1);
  }

  /** `RowShowsAsWritten` by induction, for the cells before `x`. */
  lemma {:induction false} RowShowsBefore(cs: seq<Cell>, x0: nat, x: nat)
    requires x0 < x <= |cs|
    ensures Apply(Default, RowCmds(cs, Pal24Bit, x0, x)) == RunShown(cs, x0, x - 1)
    decreases x - x0
  {
    if x - 1 == x0 {
      RowShowsFirst(cs, x0, x);
    } else {
      RowShowsBefore(cs, x0, x - 1);
      RowShowsNext(cs, x0, x);
    }
  }

  lemma RowShowsFirst(cs: seq<Cell>, x0: nat, x: nat)
    requires x == x0 + 1 <= |cs|
    ensures Apply(Default, RowCmds(cs, Pal24Bit, x0, x)) == RunShown(cs, x0, x - 1)
  {
    RowCmdsNext(cs, Pal24Bit, x0, x0);
    RunStart(cs, x0);
    ApplyThen(RowCmds(cs, Pal24Bit, x0, x0), CellCmdsAt(cs, Pal24Bit, x0, x0, LAYERS), Default, RunShown(cs, x0, x0));
  }

  /** The step of `RowShowsBefore`. */
  lemma RowShowsNext(cs: seq<Cell>, x0: nat, x: nat)
    requires x0 + 1 < x <= |cs|
    requires Apply(Default, RowCmds(cs, Pal24Bit, x0, x - 1)) == RunShown(cs, x0, x - 1 - 1)
    ensures Apply(Default, RowCmds(cs, Pal24Bit, x0, x)) == RunShown(cs, x0, x - 1)
  {
    var y := x - 1;
    RowCmdsNext(cs, Pal24Bit, x0, y);
    RunNext(cs, x0, y);
    ApplyThen(RowCmds(cs, Pal24Bit, x0, y), CellCmdsAt(cs, Pal24Bit, x0, y, LAYERS),
              RunShown(cs, x0, y - 1), RunShown(cs, x0, y));
  }

  lemma RowCmdsNext(cs: seq<Cell>, pal: Pal, x0: nat, x: nat)
    requires x0 <= x < |cs|
    ensures RowCmds(cs, pal, x0, x + 1) == RowCmds(cs, pal, x0, x) + CellCmdsAt(cs, pal, x0, x, LAYERS)
  {
  }

  lemma ApplyThen(a: seq<Command>, b: seq<Command>, r: Rendition, s: Rendition)
    requires Apply(Default, a) == r && Apply(r, b) == s
    ensures Apply(Default, a + b) == s
  {
    ApplyAppend(Default, a, b);
  }

  /** The update before cell `x` takes the terminal from showing cell
      `x - 1` as `RunShown` says to showing cell `x` so. */
  lemma RunNext(cs: seq<Cell>, x0: nat, x: nat)
    requires x0 < x < |cs|
    ensures Apply(RunShown(cs, x0, x - 1), CellCmdsAt(cs, Pal24Bit, x0, x, LAYERS)) == RunShown(cs, x0, x)
  {
    CellCmdsIs(cs, Pal24Bit, x0, x);
    RunShownShows(cs, x0, x - 1);
    UpdateShownAsWritten(RunShown(cs, x0, x - 1), cs[x - 1].mode, cs[x].mode);
    RunStep(cs, x0, x);
  }

  /** The first cell of a row is shown in its own mode. */
  lemma RunStart(cs: seq<Cell>, x0: nat)
    requires x0 < |cs|
    ensures Apply(Default, CellCmdsAt(cs, Pal24Bit, x0, x0, LAYERS)) == RunShown(cs, x0, x0)
  {
    CellCmdsIs(cs, Pal24Bit, x0, x0);
    assert ShowsUpToColors(Default, Plain);
    assert Default == Shown(Plain);
    UpdateShownAsWritten(Default, Plain, cs[x0].mode);
  }

  lemma RunShownShows(cs: seq<Cell>, x0: nat, x: nat)
    requires x0 <= x < |cs|
    ensures ShowsUpToColors(RunShown(cs, x0, x), cs[x].mode)
  {
  }

  /** The step of `RowShowsAsWritten`: the update from cell `x - 1` to
      cell `x` keeps the colours of the runs that go on. */
  lemma RunStep(cs: seq<Cell>, x0: nat, x: nat)
    requires x0 < x < |cs|
    ensures AsWrittenShown(RunShown(cs, x0, x - 1), cs[x - 1].mode, cs[x].mode) == RunShown(cs, x0, x)
  {
    if !Dropped(cs[x - 1].mode, cs[x].mode) {
      assert FgRunStart(cs, x0, x) == if cs[x - 1].mode.fgSet then FgRunStart(cs, x0, x - 1) else x;
      assert BgRunStart(cs, x0, x) == if cs[x - 1].mode.bgSet then BgRunStart(cs, x0, x - 1) else x;
    }
  }

  /** On a canvas with the 24-bit palette, rendering row `y` as the library
      does leaves cell `x` shown in its own decorations, and in its own
      colours when it starts the runs of its set channels. */
  lemma CanvasRowAsWritten(g: Grid, x: nat, y: nat)
    requires Valid(g) && g.palette == Pal24Bit && x < g.width
    ensures var cs := RowCells(g, g.width, y);
      var r := Apply(Default, RowCmds(cs, g.palette, 0, x + 1));
      && ShowsUpToColors(r, GetMode(g, x, y))
      && (FgRunStart(cs, 0, x) == x ==> r.fg == Shown(GetMode(g, x, y)).fg)
      && (BgRunStart(cs, 0, x) == x ==> r.bg == Shown(GetMode(g, x, y)).bg)
  {
    RowShowsAsWritten(RowCells(g, g.width, y), 0, x);
    RowCellsAt(g, g.width, y, x);
  }

  /** The commands that bring the terminal to cell `x`'s mode, with the
      corrected colour decision, folded `layer` times as `CellCmdsAt` is. */
  function CorrectedCellCmds(cs: seq<Cell>, pal: Pal, x0: nat, x: nat, layer: nat): seq<Command>
    requires x < |cs|
  {
    if layer == 0 then UpdateCmds(ModeBefore(cs, x0, x), cs[x].mode, pal)
    else CorrectedCellCmds(cs, pal, x0, x, layer - 1)
  }

  /** The commands of cells `x0` up to `x` with the corrected colour
      decision. */
  function CorrectedRowCmds(cs: seq<Cell>, pal: Pal, x0: nat, x: nat): seq<Command>
    requires x0 <= x <= |cs|
    decreases x - x0
  {
    if x == x0 then [] else CorrectedRowCmds(cs, pal, x0, x - 1) + CorrectedCellCmds(cs, pal, x0, x - 1, LAYERS)
  }

  /** With the 24-bit palette and the corrected colour decision, a
      terminal that starts a row in its default rendition and carries out
      the row's escape sequences shows each cell in the cell's own mode. */
  lemma RowShowsCells(cs: seq<Cell>, x0: nat, x: nat)
    requires x0 <= x < |cs|
    ensures Apply(Default, CorrectedRowCmds(cs, Pal24Bit, x0, x + 1)) == Shown(cs[x].mode)
  {
    RowShowsPrev(cs, x0, x + 1);
  }

  /** `RowShowsCells` by induction: after the commands of the cells before
      `x`, the terminal shows the mode of the cell before `x`. */
  lemma {:induction false} RowShowsPrev(cs: seq<Cell>, x0: nat, x: nat)
    requires x0 <= x <= |cs|
    ensures Apply(Default, CorrectedRowCmds(cs, Pal24Bit, x0, x)) == Shown(ModeBefore(cs, x0, x))
    decreases x - x0
  {
    if x == x0 {
      assert CorrectedRowCmds(cs, Pal24Bit, x0, x) == [];
      assert Default == Shown(Plain);
    } else {
      RowShowsPrev(cs, x0, x - 1);
      ShowNextCell(cs, x0, x);
    }
  }

  /** The step of `RowShowsPrev`, one cell further. */
  lemma ShowNextCell(cs: seq<Cell>, x0: nat, x: nat)
    requires x0 < x <= |cs|
    requires Apply(Default, CorrectedRowCmds(cs, Pal24Bit, x0, x - 1)) == Shown(ModeBefore(cs, x0, x - 1))
    ensures Apply(Default, CorrectedRowCmds(cs, Pal24Bit, x0, x)) == Shown(ModeBefore(cs, x0, x))
  {
    var y := x - 1;
    CorrectedRowCmdsNext(cs, Pal24Bit, x0, y);
    ShowStep(cs, x0, y);
    ApplyThen(CorrectedRowCmds(cs, Pal24Bit, x0, y), CorrectedCellCmds(cs, Pal24Bit, x0, y, LAYERS),
              Shown(ModeBefore(cs, x0, y)), Shown(cs[y].mode));
  }

  lemma CorrectedRowCmdsNext(cs: seq<Cell>, pal: Pal, x0: nat, x: nat)
    requires x0 <= x < |cs|
    ensures CorrectedRowCmds(cs, pal, x0, x + 1)
      == CorrectedRowCmds(cs, pal, x0, x) + CorrectedCellCmds(cs, pal, x0, x, LAYERS)
  {
  }

  /** On a canvas with the 24-bit palette, rendering row `y` with the
      corrected colour decision leaves each of its cells shown in the
      cell's mode. */
  lemma CanvasRowShown(g: Grid, x: nat, y: nat)
    requires Valid(g) && g.palette == Pal24Bit && x < g.width
    ensures Apply(Default, CorrectedRowCmds(RowCells(g, g.width, y), g.palette, 0, x + 1)) == Shown(GetMode(g, x, y))
  {
    RowShowsCells(RowCells(g, g.width, y), 0, x);
    RowCellsAt(g, g.width, y, x);
  }

  /** The step of `RowShowsPrev`: a terminal that shows the mode before
      cell `x` shows cell `x`'s mode after the corrected update to it. */
  lemma ShowStep(cs: seq<Cell>, x0: nat, x: nat)
    requires x < |cs|
    ensures Apply(Shown(ModeBefore(cs, x0, x)), CorrectedCellCmds(cs, Pal24Bit, x0, x, LAYERS)) == Shown(cs[x].mode)
  {
    assert CorrectedCellCmds(cs, Pal24Bit, x0, x, 1) == CorrectedCellCmds(cs, Pal24Bit, x0, x, 0);
    assert CorrectedCellCmds(cs, Pal24Bit, x0, x, 3) == CorrectedCellCmds(cs, Pal24Bit, x0, x, 2)
      == CorrectedCellCmds(cs, Pal24Bit, x0, x, 1);
    UpdateShown(ModeBefore(cs, x0, x), cs[x].mode);
  }

  /** A row whose cells all have the zero mode renders as its glyphs: no
      escape sequence at all. */
  lemma {:induction false} PlainPrefix(cs: seq<Cell>, pal: Pal, x: nat)
    requires x <= |cs|
    requires forall i :: 0 <= i < |cs| ==> cs[i].mode == Plain
    ensures Prefix(cs, pal, 0, x) == Glyphs(cs, x)
  {
    if x > 0 {
      PlainPrefix(cs, pal, x - 1);
      PlainCellText(cs, pal, x - 1);
    }
  }

  /** A cell in the zero mode after one in the zero mode gives only its
      glyph. */
  lemma PlainCellText(cs: seq<Cell>, pal: Pal, x: nat)
    requires x < |cs| && ModeBefore(cs, 0, x) == Plain && cs[x].mode == Plain
    ensures CellText(cs, pal, 0, x, LAYERS) == cs[x].glyph
  {
    CellTextIs(cs, pal, 0, x);
    PlainCell(ModeBefore(cs, 0, x), cs[x].mode, pal);
    SkipEmpty([], SgrText(CellCmds(cs, pal, 0, x)), cs[x].glyph);
  }

  /** When every cell of row `y` has the zero mode, `amp_row_to_ans` gives
      the text of `amp_glyph_row_to_str` followed by the reset. */
  lemma PlainRow(g: Grid, y: nat)
    requires Valid(g)
    requires forall x :: 0 <= x < g.width ==> GetMode(g, x, y) == Plain
    ensures RowText(g, y) == GlyphRowText(g, y) + RESET
  {
    var cs := RowCells(g, g.width, y);
    forall i | 0 <= i < |cs|
      ensures cs[i].mode == Plain
    {
      RowCellsAt(g, g.width, y, i);
    }
    PlainPrefix(cs, g.palette, g.width);
  }

  lemma SkipEmpty(a: string, e: string, b: string)
    requires e == []
    ensures a + e + b == a + b
  {
  }

  lemma PlainCell(prev: Mode, next: Mode, pal: Pal)
    requires prev == Plain && next == Plain
    ensures SgrText(UpdateCmdsAsWritten(prev, next, pal)) == []
    ensures SgrText(UpdateCmds(prev, next, pal)) == []
  {
    IdenticalModesEmitNothing(Plain, pal);
  }

  /** Every cell gives one to four characters. */
  lemma {:induction false} GlyphsLength(g: Grid, x: nat, y: nat)
    requires Valid(g)
    ensures x <= |Glyphs(RowCells(g, x, y), x)| <= 4 * x
  {
    if x > 0 {
      var cs := RowCells(g, x, y);
      GlyphsLength(g, x - 1, y);
      RowCellsAt(g, x, y, x - 1);
      GlyphsOfPrefix(cs, RowCells(g, x - 1, y), x - 1);
    }
  }

  /** `Glyphs` reads only the cells it covers. */
  lemma {:induction false} GlyphsOfPrefix(cs: seq<Cell>, ds: seq<Cell>, x: nat)
    requires x <= |ds| <= |cs| && ds == cs[..|ds|]
    ensures Glyphs(cs, x) == Glyphs(ds, x)
  {
    if x > 0 {
      GlyphsOfPrefix(cs, ds, x - 1);
    }
  }
}
