/** `amp_draw_multiline_text_clip` and `amp_draw_multiline_text`: a text is
    split into lines at line breaks; a line no wider than the maximum width
    takes one row, and a wider one is wrapped, its first piece drawn on one
    row and the rest after the spaces at the cut drawn below as a text of
    its own. The number of rows used is returned. */
module Multiline {
  import opened Common
  import opened Utf8
  import opened Styles
  import opened Cells
  import opened Canvas
  import opened Segments
  import opened Layout

  /** Where `amp_str_seg_skip_wrap` cuts the line of `lineSize` bytes at
      `line` for a maximum width `w`. */
  function ClipEnd(s: seq<byte>, line: nat, lineSize: nat, w: nat): (p: nat)
    ensures line <= p <= line + lineSize
  {
    WrapFrom(s, line, line + lineSize, w, line, 0)
  }

  /** The rest of a wrapped line (amp.h:1152-1162): it starts after the
      cut and the spaces that follow it, and is there only when the cut
      left something and more than spaces follow. */
  function Trail(s: seq<byte>, line: nat, lineSize: nat, clipEnd: nat): (t: Option<(nat, nat)>)
    requires line <= clipEnd <= line + lineSize
    ensures t.Some? ==> clipEnd <= t.value.0 && t.value.0 + t.value.1 == line + lineSize && t.value.1 > 0
    ensures t.Some? <==> clipEnd < line + lineSize && SpacesEnd(s, clipEnd, line + lineSize) < line + lineSize
  {
    var clipSize := clipEnd - line;
    var spaceEnd := SpacesEnd(s, clipEnd, clipEnd + SubSize(lineSize, clipSize));
    var trailSize := SubSize(lineSize, clipSize + (spaceEnd - clipEnd));
    if clipSize < lineSize && trailSize > 0 then Some((spaceEnd, trailSize)) else None
  }

  /** A line is wrapped when it is wider than `w`. */
  predicate Wide(s: seq<byte>, line: nat, lineSize: nat, w: nat)
  {
    LinesWidth(s, line, line + lineSize) > w
  }

  /** A wrapped line is cut after at least one character, so the rest of
      it is strictly shorter than the line: the recursion at amp.h:1163
      ends whenever `w` is at least 1. */
  lemma TrailIsShorter(s: seq<byte>, line: nat, lineSize: nat, w: nat)
    requires 1 <= w && At(s, line) != 0 && Wide(s, line, lineSize, w)
    ensures line < ClipEnd(s, line, lineSize, w)
    ensures var t := Trail(s, line, lineSize, ClipEnd(s, line, lineSize, w));
      t.Some? ==> line < t.value.0 && t.value.1 < lineSize
  {
    assert lineSize > 0;
    WrapAdvances(s, line, line + lineSize, w, line, 0);
  }

  // Counting rows

  /** The rows the lines from `line` on take, for the text of `size` bytes
      at `at` (the loop at amp.h:1128-1188). */
  function TextRows(s: seq<byte>, w: nat, at: nat, size: nat, line: nat): nat
    requires 1 <= w && at <= line
    decreases size, 1, at + size - line, 1
  {
    if At(s, line) == 0 || line >= at + size then 0 else LinesRows(s, w, at, size, line)
  }

  /** The rows of the line at `line` and of the lines after it. */
  function LinesRows(s: seq<byte>, w: nat, at: nat, size: nat, line: nat): nat
    requires 1 <= w && at <= line < at + size && At(s, line) != 0
    decreases size, 1, at + size - line, 0
  {
    NextLineAdvances(s, line, at + size);
    var lineSize := LineEnd(s, line, at + size) - line;
    LineRows(s, w, line, lineSize) + TextRows(s, w, at, size, NextLine(s, line, at + size))
  }

  /** The rows one line takes (amp.h:1137-1181): one, and below it the
      rows of the rest of the line when it is wrapped. */
  function LineRows(s: seq<byte>, w: nat, line: nat, lineSize: nat): nat
    requires 1 <= w && At(s, line) != 0
    decreases lineSize, 0, 0, 1
  {
    if !Wide(s, line, lineSize, w) then 1 else WrappedRows(s, w, line, lineSize)
  }

  /** The rows of a wrapped line. */
  function WrappedRows(s: seq<byte>, w: nat, line: nat, lineSize: nat): nat
    requires 1 <= w && At(s, line) != 0 && Wide(s, line, lineSize, w)
    decreases lineSize, 0, 0, 0
  {
    TrailIsShorter(s, line, lineSize, w);
    match Trail(s, line, lineSize, ClipEnd(s, line, lineSize, w))
    case None => 1
    case Some((start, size)) => 1 + TextRows(s, w, start, size, start)
  }

  /** Every line takes at least one row. */
  lemma {:induction false} RowsCoverLines(s: seq<byte>, w: nat, at: nat, size: nat, line: nat)
    requires 1 <= w && at <= line
    ensures TextRows(s, w, at, size, line) >= LineCount(s, line, at + size)
    decreases at + size - line
  {
    if At(s, line) != 0 && line < at + size {
      NextLineAdvances(s, line, at + size);
      var lineSize := LineEnd(s, line, at + size) - line;
      var next := NextLine(s, line, at + size);
      assert TextRows(s, w, at, size, line) == LineRows(s, w, line, lineSize) + TextRows(s, w, at, size, next);
      assert LineCount(s, line, at + size) == 1 + LineCount(s, next, at + size);
      RowsCoverLines(s, w, at, size, next);
    }
  }

  /** A text no wider than `w` takes exactly one row per line. */
  lemma {:induction false} NarrowRows(s: seq<byte>, w: nat, at: nat, size: nat, line: nat)
    requires 1 <= w && at <= line && LinesWidth(s, line, at + size) <= w
    ensures TextRows(s, w, at, size, line) == LineCount(s, line, at + size)
    decreases at + size - line
  {
    if At(s, line) != 0 && line < at + size {
      NextLineAdvances(s, line, at + size);
      var lineSize := LineEnd(s, line, at + size) - line;
      var next := NextLine(s, line, at + size);
      OneLineWidth(s, line, at + size);
      assert LinesWidth(s, line, at + size) == Max(LineWidth(s, line, at + size), LinesWidth(s, next, at + size));
      assert !Wide(s, line, lineSize, w);
      assert LineRows(s, w, line, lineSize) == 1;
      assert TextRows(s, w, at, size, line) == 1 + TextRows(s, w, at, size, next);
      assert LineCount(s, line, at + size) == 1 + LineCount(s, next, at + size);
      NarrowRows(s, w, at, size, next);
    }
  }

  /** A text that is one plain word takes the rows of that one line. */
  lemma WordText(s: seq<byte>, w: nat, at: nat, size: nat)
    requires 1 <= w && 1 <= size && PlainWord(s, at, at + size)
    ensures TextRows(s, w, at, size, at) == LineRows(s, w, at, size)
  {
    PlainWordLine(s, at, at + size);
    assert 0x20 < At(s, at) < 0x80;
    assert TextRows(s, w, at, size, at) == LineRows(s, w, at, size) + TextRows(s, w, at, size, at + size);
  }

  /** A plain word longer than `w` is cut after `w` characters. */
  lemma WordCut(s: seq<byte>, w: nat, line: nat, n: nat)
    requires 1 <= w < n && PlainWord(s, line, line + n)
    ensures Wide(s, line, n, w) && ClipEnd(s, line, n, w) == line + w
  {
    PlainWordWidth(s, line, line + n);
    PlainWordRun(s, line, line + n);
    PlainWordCount(s, line, n);
    PlainWordSymbols(s, line, line + n, w);
  }

  /** After the cut, the rest of the word follows at once. */
  lemma WordTrail(s: seq<byte>, w: nat, line: nat, n: nat)
    requires 1 <= w < n && PlainWord(s, line, line + n)
    ensures Trail(s, line, n, line + w) == Some((line + w, n - w))
    ensures PlainWord(s, line + w, (line + w) + (n - w))
  {
    assert PlainWord(s, line + w, (line + w) + (n - w));
    PlainWordRun(s, line + w, line + n);
  }

  /** The rows of a plain word longer than `w`: one, then those of the
      word without its first `w` characters. */
  lemma WordRowsStep(s: seq<byte>, w: nat, line: nat, n: nat)
    requires 1 <= w < n && PlainWord(s, line, line + n)
    ensures PlainWord(s, line + w, (line + w) + (n - w))
    ensures LineRows(s, w, line, n) == 1 + LineRows(s, w, line + w, n - w)
  {
    assert 0x20 < At(s, line) < 0x80;
    WordCut(s, w, line, n);
    WordTrail(s, w, line, n);
    WordText(s, w, line + w, n - w);
    assert LineRows(s, w, line, n) == WrappedRows(s, w, line, n);
  }

  /** A plain word of `n` characters is cut every `w` characters: it takes
      `n / w` rows, rounded up. */
  lemma {:induction false} WordRows(s: seq<byte>, w: nat, line: nat, n: nat)
    requires 1 <= w && 1 <= n && PlainWord(s, line, line + n)
    ensures LineRows(s, w, line, n) == (n + w - 1) / w
    decreases n
  {
    if n <= w {
      assert 0x20 < At(s, line) < 0x80;
      PlainWordWidth(s, line, line + n);
      CeilOne(n, w);
    } else {
      WordRowsStep(s, w, line, n);
      WordRows(s, w, line + w, n - w);
      CeilStep(n, w);
    }
  }

  lemma CeilOne(n: nat, w: nat)
    requires 1 <= n <= w
    ensures (n + w - 1) / w == 1
  {
    DivMod(n + w - 1, w, 1, n - 1);
  }

  lemma CeilStep(n: nat, w: nat)
    requires 1 <= w < n
    ensures (n + w - 1) / w == 1 + ((n - w) + w - 1) / w
  {
    var q, r := (n - 1) / w, (n - 1) % w;
    DivMod(n - 1, w, q, r);
    DivMod(n + w - 1, w, q + 1, r);
  }

  /** Ten letters `a` at a maximum width of 4 take three rows. */
  lemma TenLettersInFourColumns()
    ensures var s: seq<byte> := seq(10, _ => 'a' as byte);
      |CString(s)| == 10 && TextRows(s, 4, 0, 10, 0) == 3
  {
    var s: seq<byte> := seq(10, _ => 'a' as byte);
    CStringLength(s, 10);
    WordText(s, 4, 0, 10);
    WordRows(s, 4, 0, 10);
  }

  // Drawing

  /** The canvas after drawing the lines from `line` on, the first of them
      on row `y`. */
  function TextDrawn(g: Grid, style: Style, x: int, y: int, w: nat, align: Align, s: seq<byte>,
                     at: nat, size: nat, line: nat): (r: Grid)
    requires Valid(g) && 1 <= w && at <= line
    ensures Valid(r) && r.width == g.width && r.height == g.height
    decreases size, 1, at + size - line, 1
  {
    if At(s, line) == 0 || line >= at + size then g
    else LinesDrawn(g, style, x, y, w, align, s, at, size, line)
  }

  /** The line at `line`, then the lines after it below its rows. */
  function LinesDrawn(g: Grid, style: Style, x: int, y: int, w: nat, align: Align, s: seq<byte>,
                      at: nat, size: nat, line: nat): (r: Grid)
    requires Valid(g) && 1 <= w && at <= line < at + size && At(s, line) != 0
    ensures Valid(r) && r.width == g.width && r.height == g.height
    decreases size, 1, at + size - line, 0
  {
    NextLineAdvances(s, line, at + size);
    var lineSize := LineEnd(s, line, at + size) - line;
    var g' := LineDrawn(g, style, x, y, w, align, s, line, lineSize);
    TextDrawn(g', style, x, y + LineRows(s, w, line, lineSize), w, align, s, at, size, NextLine(s, line, at + size))
  }

  /** The canvas after drawing one line on row `y`, and the rest of it
      below when it is wrapped. */
  function LineDrawn(g: Grid, style: Style, x: int, y: int, w: nat, align: Align, s: seq<byte>,
                     line: nat, lineSize: nat): (r: Grid)
    requires Valid(g) && 1 <= w && At(s, line) != 0
    ensures Valid(r) && r.width == g.width && r.height == g.height
    decreases lineSize, 0, 0, 1
  {
    if !Wide(s, line, lineSize, w) then TextClip(g, style, x, y, align, s, line, lineSize)
    else WrappedDrawn(g, style, x, y, w, align, s, line, lineSize)
  }

  /** The canvas after drawing a wrapped line. */
  function WrappedDrawn(g: Grid, style: Style, x: int, y: int, w: nat, align: Align, s: seq<byte>,
                        line: nat, lineSize: nat): (r: Grid)
    requires Valid(g) && 1 <= w && At(s, line) != 0 && Wide(s, line, lineSize, w)
    ensures Valid(r) && r.width == g.width && r.height == g.height
    decreases lineSize, 0, 0, 0
  {
    TrailIsShorter(s, line, lineSize, w);
    var clipEnd := ClipEnd(s, line, lineSize, w);
    var g' := TextClip(g, style, x, y, align, s, line, clipEnd - line);
    match Trail(s, line, lineSize, clipEnd)
    case None => g'
    case Some((start, size)) => TextDrawn(g', style, x, y + 1, w, align, s, start, size, start)
  }

  /** A wrapped line: its first piece on row `y`, then the rest, if any,
      from row `y + 1`. */
  lemma WideLine(g: Grid, style: Style, x: int, y: int, w: nat, align: Align, s: seq<byte>,
                 line: nat, lineSize: nat)
    requires Valid(g) && 1 <= w && At(s, line) != 0 && Wide(s, line, lineSize, w)
    ensures var clipEnd := ClipEnd(s, line, lineSize, w);
      var g' := TextClip(g, style, x, y, align, s, line, clipEnd - line);
      var t := Trail(s, line, lineSize, clipEnd);
      && line < clipEnd
      && (t.None? ==> LineDrawn(g, style, x, y, w, align, s, line, lineSize) == g'
                      && LineRows(s, w, line, lineSize) == 1)
      && (t.Some? ==> t.value.1 < lineSize
                      && LineDrawn(g, style, x, y, w, align, s, line, lineSize)
                         == TextDrawn(g', style, x, y + 1, w, align, s, t.value.0, t.value.1, t.value.0)
                      && LineRows(s, w, line, lineSize) == 1 + TextRows(s, w, t.value.0, t.value.1, t.value.0))
  {
    TrailIsShorter(s, line, lineSize, w);
  }

  /** One turn of the loop over lines: the line at `line` takes `rows`
      rows, and the lines after it start at `next`. */
  lemma TextStep(s: seq<byte>, w: nat, at: nat, size: nat, line: nat, lineSize: nat, next: nat, rows: nat)
    requires 1 <= w && at <= line && At(s, line) != 0 && line < at + size
    requires var end := line + SubSize(size, line - at);
      lineSize == LineEnd(s, line, end) - line && next == NextLine(s, line, end)
    requires rows == LineRows(s, w, line, lineSize)
    ensures line < next
    ensures TextRows(s, w, at, size, line) == rows + TextRows(s, w, at, size, next)
  {
    assert line + SubSize(size, line - at) == at + size;
    NextLineAdvances(s, line, at + size);
  }

  /** On the canvas, that line is drawn from row `y` and the lines after
      it below its rows. */
  lemma DrawStep(g: Grid, g': Grid, style: Style, x: int, y: int, w: nat, align: Align, s: seq<byte>,
                 at: nat, size: nat, line: nat, lineSize: nat, next: nat, rows: nat)
    requires Valid(g) && 1 <= w && at <= line && At(s, line) != 0 && line < at + size
    requires var end := line + SubSize(size, line - at);
      lineSize == LineEnd(s, line, end) - line && next == NextLine(s, line, end)
    requires rows == LineRows(s, w, line, lineSize)
    requires g' == LineDrawn(g, style, x, y, w, align, s, line, lineSize)
    ensures TextDrawn(g, style, x, y, w, align, s, at, size, line)
      == TextDrawn(g', style, x, y + rows, w, align, s, at, size, next)
  {
    assert line + SubSize(size, line - at) == at + size;
    NextLineAdvances(s, line, at + size);
  }

  // What the drawing changes

  /** Drawing the text changes only the rows it counts: every cell above
      row `y`, or at or below row `y` plus the returned count, keeps its
      glyph (`TextKeepsGlyph`) and its mode (`TextKeepsMode`); the other
      lemmas here are the steps of the induction. */
  lemma {:induction false} TextKeepsGlyph(g: Grid, style: Style, x: int, y: int, w: nat, align: Align, s: seq<byte>,
                                    at: nat, size: nat, line: nat, x': nat, y': nat)
    requires Valid(g) && 1 <= w && at <= line
    requires y' < y || y' >= y + TextRows(s, w, at, size, line)
    ensures GetGlyph(TextDrawn(g, style, x, y, w, align, s, at, size, line), x', y') == GetGlyph(g, x', y')
    decreases size, 1, at + size - line, 1
  {
    if At(s, line) != 0 && line < at + size {
      var end := line + SubSize(size, line - at);
      var lineSize := LineEnd(s, line, end) - line;
      var next := NextLine(s, line, end);
      var rows := LineRows(s, w, line, lineSize);
      var g' := LineDrawn(g, style, x, y, w, align, s, line, lineSize);
      TextStep(s, w, at, size, line, lineSize, next, rows);
      DrawStep(g, g', style, x, y, w, align, s, at, size, line, lineSize, next, rows);
      LineKeepsGlyph(g, style, x, y, w, align, s, line, lineSize, x', y');
      TextKeepsGlyph(g', style, x, y + rows, w, align, s, at, size, next, x', y');
    }
  }

  lemma {:induction false} LineKeepsGlyph(g: Grid, style: Style, x: int, y: int, w: nat, align: Align, s: seq<byte>,
                                    line: nat, lineSize: nat, x': nat, y': nat)
    requires Valid(g) && 1 <= w && At(s, line) != 0
    requires y' < y || y' >= y + LineRows(s, w, line, lineSize)
    ensures GetGlyph(LineDrawn(g, style, x, y, w, align, s, line, lineSize), x', y') == GetGlyph(g, x', y')
    decreases lineSize, 0, 0, 2
  {
    if !Wide(s, line, lineSize, w) {
      TextClipOffRow(g, style, x, y, align, s, line, lineSize, x', y');
    } else {
      WrappedKeepsGlyph(g, style, x, y, w, align, s, line, lineSize, x', y');
    }
  }

  lemma {:induction false} WrappedKeepsGlyph(g: Grid, style: Style, x: int, y: int, w: nat, align: Align, s: seq<byte>,
                                       line: nat, lineSize: nat, x': nat, y': nat)
    requires Valid(g) && 1 <= w && At(s, line) != 0 && Wide(s, line, lineSize, w)
    requires y' < y || y' >= y + WrappedRows(s, w, line, lineSize)
    ensures GetGlyph(WrappedDrawn(g, style, x, y, w, align, s, line, lineSize), x', y') == GetGlyph(g, x', y')
    decreases lineSize, 0, 0, 1
  {
    WrappedSplit(g, style, x, y, w, align, s, line, lineSize);
    var clipEnd := ClipEnd(s, line, lineSize, w);
    TextClipOffRow(g, style, x, y, align, s, line, clipEnd - line, x', y');
    if Trail(s, line, lineSize, clipEnd).Some? {
      TrailKeepsGlyph(g, style, x, y, w, align, s, line, lineSize, x', y');
    }
  }

  lemma {:induction false} TrailKeepsGlyph(g: Grid, style: Style, x: int, y: int, w: nat, align: Align, s: seq<byte>,
                                     line: nat, lineSize: nat, x': nat, y': nat)
    requires Valid(g) && 1 <= w && At(s, line) != 0 && Wide(s, line, lineSize, w)
    requires Trail(s, line, lineSize, ClipEnd(s, line, lineSize, w)).Some?
    requires y' < y + 1 || y' >= y + WrappedRows(s, w, line, lineSize)
    ensures var g' := TextClip(g, style, x, y, align, s, line, ClipEnd(s, line, lineSize, w) - line);
      GetGlyph(WrappedDrawn(g, style, x, y, w, align, s, line, lineSize), x', y') == GetGlyph(g', x', y')
    decreases lineSize, 0, 0, 0
  {
    WrappedSplit(g, style, x, y, w, align, s, line, lineSize);
    var clipEnd := ClipEnd(s, line, lineSize, w);
    var t := Trail(s, line, lineSize, clipEnd).value;
    TextKeepsGlyph(TextClip(g, style, x, y, align, s, line, clipEnd - line), style, x, y + 1, w, align, s,
                   t.0, t.1, t.0, x', y');
  }

  /** A wrapped line: its first piece on row `y`, then the trail, if any,
      drawn as text from the row below. */
  lemma WrappedSplit(g: Grid, style: Style, x: int, y: int, w: nat, align: Align, s: seq<byte>,
                     line: nat, lineSize: nat)
    requires Valid(g) && 1 <= w && At(s, line) != 0 && Wide(s, line, lineSize, w)
    ensures var clipEnd := ClipEnd(s, line, lineSize, w);
      var g' := TextClip(g, style, x, y, align, s, line, clipEnd - line);
      var t := Trail(s, line, lineSize, clipEnd);
      && line < clipEnd
      && (t.None? ==> WrappedDrawn(g, style, x, y, w, align, s, line, lineSize) == g'
                      && WrappedRows(s, w, line, lineSize) == 1)
      && (t.Some? ==> line < t.value.0 && t.value.1 < lineSize
                      && WrappedDrawn(g, style, x, y, w, align, s, line, lineSize)
                         == TextDrawn(g', style, x, y + 1, w, align, s, t.value.0, t.value.1, t.value.0)
                      && WrappedRows(s, w, line, lineSize) == 1 + TextRows(s, w, t.value.0, t.value.1, t.value.0))
  {
    TrailIsShorter(s, line, lineSize, w);
  }

  /** Drawing a piece of text on row `y` leaves every other row alone. */
  lemma TextClipOffRow(g: Grid, style: Style, x: int, y: int, align: Align, s: seq<byte>, at: nat, size: nat,
                       x': nat, y': nat)
    requires Valid(g) && y' != y
    ensures var r := TextClip(g, style, x, y, align, s, at, size);
      GetGlyph(r, x', y') == GetGlyph(g, x', y') && GetMode(r, x', y') == GetMode(g, x', y')
  {
    TextClipFrame(g, style, x, y, align, s, at, size, x', y');
  }

  lemma {:induction false} TextKeepsMode(g: Grid, style: Style, x: int, y: int, w: nat, align: Align, s: seq<byte>,
                                    at: nat, size: nat, line: nat, x': nat, y': nat)
    requires Valid(g) && 1 <= w && at <= line
    requires y' < y || y' >= y + TextRows(s, w, at, size, line)
    ensures GetMode(TextDrawn(g, style, x, y, w, align, s, at, size, line), x', y') == GetMode(g, x', y')
    decreases size, 1, at + size - line, 1
  {
    if At(s, line) != 0 && line < at + size {
      var end := line + SubSize(size, line - at);
      var lineSize := LineEnd(s, line, end) - line;
      var next := NextLine(s, line, end);
      var rows := LineRows(s, w, line, lineSize);
      var g' := LineDrawn(g, style, x, y, w, align, s, line, lineSize);
      TextStep(s, w, at, size, line, lineSize, next, rows);
      DrawStep(g, g', style, x, y, w, align, s, at, size, line, lineSize, next, rows);
      LineKeepsMode(g, style, x, y, w, align, s, line, lineSize, x', y');
      TextKeepsMode(g', style, x, y + rows, w, align, s, at, size, next, x', y');
    }
  }

  lemma {:induction false} LineKeepsMode(g: Grid, style: Style, x: int, y: int, w: nat, align: Align, s: seq<byte>,
                                    line: nat, lineSize: nat, x': nat, y': nat)
    requires Valid(g) && 1 <= w && At(s, line) != 0
    requires y' < y || y' >= y + LineRows(s, w, line, lineSize)
    ensures GetMode(LineDrawn(g, style, x, y, w, align, s, line, lineSize), x', y') == GetMode(g, x', y')
    decreases lineSize, 0, 0, 2
  {
    if !Wide(s, line, lineSize, w) {
      TextClipOffRow(g, style, x, y, align, s, line, lineSize, x', y');
    } else {
      WrappedKeepsMode(g, style, x, y, w, align, s, line, lineSize, x', y');
    }
  }

  lemma {:induction false} WrappedKeepsMode(g: Grid, style: Style, x: int, y: int, w: nat, align: Align, s: seq<byte>,
                                       line: nat, lineSize: nat, x': nat, y': nat)
    requires Valid(g) && 1 <= w && At(s, line) != 0 && Wide(s, line, lineSize, w)
    requires y' < y || y' >= y + WrappedRows(s, w, line, lineSize)
    ensures GetMode(WrappedDrawn(g, style, x, y, w, align, s, line, lineSize), x', y') == GetMode(g, x', y')
    decreases lineSize, 0, 0, 1
  {
    WrappedSplit(g, style, x, y, w, align, s, line, lineSize);
    var clipEnd := ClipEnd(s, line, lineSize, w);
    TextClipOffRow(g, style, x, y, align, s, line, clipEnd - line, x', y');
    if Trail(s, line, lineSize, clipEnd).Some? {
      TrailKeepsMode(g, style, x, y, w, align, s, line, lineSize, x', y');
    }
  }

  lemma {:induction false} TrailKeepsMode(g: Grid, style: Style, x: int, y: int, w: nat, align: Align, s: seq<byte>,
                                     line: nat, lineSize: nat, x': nat, y': nat)
    requires Valid(g) && 1 <= w && At(s, line) != 0 && Wide(s, line, lineSize, w)
    requires Trail(s, line, lineSize, ClipEnd(s, line, lineSize, w)).Some?
    requires y' < y + 1 || y' >= y + WrappedRows(s, w, line, lineSize)
    ensures var g' := TextClip(g, style, x, y, align, s, line, ClipEnd(s, line, lineSize, w) - line);
      GetMode(WrappedDrawn(g, style, x, y, w, align, s, line, lineSize), x', y') == GetMode(g', x', y')
    decreases lineSize, 0, 0, 0
  {
    WrappedSplit(g, style, x, y, w, align, s, line, lineSize);
    var clipEnd := ClipEnd(s, line, lineSize, w);
    var g' := TextClip(g, style, x, y, align, s, line, clipEnd - line);
    var t := Trail(s, line, lineSize, clipEnd).value;
    TextKeepsMode(g', style, x, y + 1, w, align, s, t.0, t.1, t.0, x', y');
  }

  /** `amp_draw_multiline_text_clip` (amp.h:1119-1191). The C function
      keeps the row offset `y` and the count `line_count` apart, but they
      always hold the same value, so one variable serves for both. Its
      test that the next line starts after the current one always holds,
      as `NextLineAdvances` shows, so the loop leaves it out. */
  method DrawMultilineTextClip(amp: Amp, style: Style, x: int, y: int, w: nat, align: Align,
                               s: seq<byte>, at: nat, size: nat)
    returns (count: nat)
    requires amp.Valid() && 1 <= w < UINT32_LIMIT
    modifies amp.glyph, amp.mode
    ensures amp.Valid()
    ensures count == TextRows(s, w, at, size, at)
    ensures amp.State() == TextDrawn(old(amp.State()), style, x, y, w, align, s, at, size, at)
    decreases size, 1
  {
    count := 0;
    var line := at;
    while At(s, line) != 0 && line < at + size
      invariant amp.Valid() && at <= line
      invariant count + TextRows(s, w, at, size, line) == TextRows(s, w, at, size, at)
      invariant TextDrawn(amp.State(), style, x, y + count, w, align, s, at, size, line)
        == TextDrawn(old(amp.State()), style, x, y, w, align, s, at, size, at)
      decreases at + size - line
    {
      var next, lineSize := FirstLineSize(s, line, SubSize(size, line - at));
      ghost var g := amp.State();
      var rows := DrawLine(amp, style, x, y + count, w, align, s, line, lineSize);
      LoopStep(old(amp.State()), g, amp.State(), style, x, y, w, align, s, at, size, line, lineSize, next, rows, count);
      count := count + rows;
      line := next;
    }
  }

  /** One turn of that loop keeps its invariant: the rows counted and the
      text still to draw below them add up to the whole text. */
  lemma LoopStep(g0: Grid, g: Grid, g': Grid, style: Style, x: int, y: int, w: nat, align: Align, s: seq<byte>,
                 at: nat, size: nat, line: nat, lineSize: nat, next: nat, rows: nat, count: nat)
    requires Valid(g0) && Valid(g) && 1 <= w && at <= line && At(s, line) != 0 && line < at + size
    requires var end := line + SubSize(size, line - at);
      lineSize == LineEnd(s, line, end) - line && next == NextLine(s, line, end)
    requires rows == LineRows(s, w, line, lineSize)
    requires g' == LineDrawn(g, style, x, y + count, w, align, s, line, lineSize)
    requires count + TextRows(s, w, at, size, line) == TextRows(s, w, at, size, at)
    requires TextDrawn(g, style, x, y + count, w, align, s, at, size, line)
      == TextDrawn(g0, style, x, y, w, align, s, at, size, at)
    ensures at <= line < next
    ensures count + rows + TextRows(s, w, at, size, next) == TextRows(s, w, at, size, at)
    ensures TextDrawn(g', style, x, y + (count + rows), w, align, s, at, size, next)
      == TextDrawn(g0, style, x, y, w, align, s, at, size, at)
  {
    TextStep(s, w, at, size, line, lineSize, next, rows);
    DrawStep(g, g', style, x, y + count, w, align, s, at, size, line, lineSize, next, rows);
    assert y + (count + rows) == (y + count) + rows;
  }

  /** The body of that loop for one line: the line, or its first piece and
      below it the rest as a text of its own. */
  method DrawLine(amp: Amp, style: Style, x: int, y: int, w: nat, align: Align,
                  s: seq<byte>, line: nat, lineSize: nat)
    returns (rows: nat)
    requires amp.Valid() && 1 <= w < UINT32_LIMIT && At(s, line) != 0
    modifies amp.glyph, amp.mode
    ensures amp.Valid()
    ensures rows == LineRows(s, w, line, lineSize)
    ensures amp.State() == LineDrawn(old(amp.State()), style, x, y, w, align, s, line, lineSize)
    decreases lineSize, 0
  {
    var lineWidth := SegWidth(s, line, lineSize);
    if lineWidth > w {
      WideLine(amp.State(), style, x, y, w, align, s, line, lineSize);
      var clipEnd := SkipWrap(s, line, lineSize, w);
      var clipSize := clipEnd - line;
      DrawTextClip(amp, style, x, y, align, s, line, clipSize);
      rows := 1;
      if clipSize < lineSize {
        var spaceEnd := SkipSpaces(s, clipEnd, SubSize(lineSize, clipSize));
        var spaceSize := spaceEnd - clipEnd;
        var trailSize := SubSize(lineSize, clipSize + spaceSize);
        ghost var trail: Option<(nat, nat)> := if trailSize > 0 then Some((spaceEnd, trailSize)) else None;
        assert Trail(s, line, lineSize, clipEnd) == trail;
        if trailSize > 0 {
          var extra := DrawMultilineTextClip(amp, style, x, y + 1, w, align, s, spaceEnd, trailSize);
          rows := rows + extra;
        }
      }
    } else {
      DrawTextClip(amp, style, x, y, align, s, line, lineSize);
      rows := 1;
    }
  }

  /** `amp_draw_multiline_text` (amp.h:1193-1201): the whole C string. */
  method DrawMultilineText(amp: Amp, style: Style, x: int, y: int, w: nat, align: Align, s: seq<byte>)
    returns (count: nat)
    requires amp.Valid() && 1 <= w < UINT32_LIMIT
    modifies amp.glyph, amp.mode
    ensures amp.Valid()
    ensures count == TextRows(s, w, 0, |CString(s)|, 0)
    ensures amp.State() == TextDrawn(old(amp.State()), style, x, y, w, align, s, 0, |CString(s)|, 0)
  {
    count := DrawMultilineTextClip(amp, style, x, y, w, align, s, 0, |CString(s)|);
  }
}
