/** Text on the canvas: `amp_draw_text_clip` and `amp_draw_text`, which
    draw one row of characters aligned on a column. The effect on the
    canvas is given as functions of its contents; the methods, which take
    the canvas object as the C functions do, are proved to leave exactly
    those contents. */
module Layout {
  import opened Common
  import opened Utf8
  import opened Styles
  import opened Cells
  import opened Canvas
  import opened Segments

  /** `AMP_ALIGN` (amp.h:100-104). */
  datatype Align = Left | Center | Right

  /** The column the first character goes to (amp.h:1086-1091), for a text
      `width` characters wide meant to start, be centred or end at `x`. */
  function StartColumn(x: int, width: nat, align: Align): (x0: int)
    ensures align == Left ==> x0 == x
    ensures align == Right ==> x0 + width - 1 == x
    ensures align == Center ==> x0 + width / 2 == x
  {
    match align
    case Left => x
    case Right => (x - width) + 1
    case Center => x - width / 2
  }

  // One row

  /** The bytes `amp_draw_glyph` can read from `s + off`: it
      measures at most 5 and decodes from those. */
  function Window(s: seq<byte>, off: nat): (w: seq<byte>)
    ensures |w| == GLYPH_SIZE && w[0] == At(s, off)
  {
    [At(s, off), At(s, off + 1), At(s, off + 2), At(s, off + 3), At(s, off + 4)]
  }

  /** The window starts with the character the text has at `off`. */
  lemma SizeInWindow(s: seq<byte>, off: nat, n: nat)
    ensures CodePointSize(Window(s, off), 0, n) == CodePointSize(s, off, n)
  {
    var w := Window(s, off);
    assert At(w, 0) == At(s, off) && At(w, 1) == At(s, off + 1);
    assert At(w, 2) == At(s, off + 2) && At(w, 3) == At(s, off + 3);
  }

  /** How many glyphs the loop of `amp_draw_text_clip` may draw from
      column `x`: it stops after drawing in the last column of the canvas,
      or after its first glyph when that is already at or past it. */
  function Room(x: int, width: nat): (n: nat)
    ensures n >= 1
    ensures x + 1 < width ==> n == width - x
  {
    if x + 1 >= width then 1 else width - x
  }

  /** The windows the loop of `amp_draw_text_clip` (amp.h:1093-1109) hands
      to `amp_draw_glyph`, one per column, from the character at `off` of
      the text at `at`: it stops at the terminator, at a character that is
      malformed or runs past `size`, and when no room is left. */
  function Pieces(s: seq<byte>, at: nat, off: nat, size: nat, room: nat): (ws: seq<seq<byte>>)
    requires at <= off
    decreases |s| - off
  {
    if room == 0 || At(s, off) == 0 then []
    else
      var cpsz := CodePointSize(s, off, SubSize(size, off - at));
      if cpsz < 0 then [] else [Window(s, off)] + Pieces(s, at, off + cpsz, size, room - 1)
  }

  /** The glyphs `ws` drawn one per column from `x` on row `y`. */
  function Paint(g: Grid, style: Style, x: int, y: int, ws: seq<seq<byte>>): (r: Grid)
    requires Valid(g)
    ensures Valid(r) && r.width == g.width && r.height == g.height
    ensures |r.glyphs| == |g.glyphs|
    decreases |ws|, 1
  {
    if ws == [] then g else PaintNext(g, style, x, y, ws)
  }

  /** Painting a glyph and the rest after it. */
  function PaintNext(g: Grid, style: Style, x: int, y: int, ws: seq<seq<byte>>): (r: Grid)
    requires Valid(g) && ws != []
    ensures Valid(r) && r.width == g.width && r.height == g.height
    ensures |r.glyphs| == |g.glyphs|
    decreases |ws|, 0
  {
    Paint(Cells.DrawGlyph(g, style, x, y, ws[0]), style, x + 1, y, ws[1..])
  }

  /** Painting a glyph in front of others draws it first, then the others
      from the next column. */
  lemma PaintCons(g: Grid, style: Style, x: int, y: int, w: seq<byte>, rest: seq<seq<byte>>)
    requires Valid(g)
    ensures Paint(g, style, x, y, [w] + rest) == Paint(Cells.DrawGlyph(g, style, x, y, w), style, x + 1, y, rest)
  {
    assert ([w] + rest)[1..] == rest;
  }

  /** `amp_draw_text_clip` (amp.h:1076-1110): nothing on a row outside the
      canvas; otherwise the characters among the first `size` bytes, one
      per column from the aligned start. The width used to align is the
      count of characters cut to 32 bits. */
  function TextClip(g: Grid, style: Style, x: int, y: int, align: Align, s: seq<byte>, at: nat, size: nat): (r: Grid)
    requires Valid(g)
    ensures Valid(r) && r.width == g.width && r.height == g.height
    ensures |r.glyphs| == |g.glyphs|
    ensures !(0 <= y < g.height) ==> r == g
  {
    if y < 0 || y >= g.height then g
    else
      var x0 := StartColumn(x, CodePoints(s, at, size) % UINT32_LIMIT, align);
      Paint(g, style, x0, y, Pieces(s, at, at, size, Room(x0, g.width)))
  }

  /** As many glyphs are drawn as the text has characters within `size`,
      unless the room runs out first. */
  lemma {:induction false} PiecesCount(s: seq<byte>, at: nat, off: nat, size: nat, room: nat)
    requires at <= off
    ensures var n := CodePoints(s, off, SubSize(size, off - at));
      |Pieces(s, at, off, size, room)| == if n < room then n else room
    decreases |s| - off
  {
    var n := SubSize(size, off - at);
    if room > 0 && At(s, off) != 0 {
      var cpsz := CodePointSize(s, off, n);
      if cpsz >= 0 {
        CountFirst(s, off, n);
        assert SubSize(size, off + cpsz - at) == n - cpsz;
        PiecesCount(s, at, off + cpsz, size, room - 1);
      }
    }
  }

  /** Glyph `k` is the window at the `k`-th character after `off`. */
  lemma {:induction false} PiecesAt(s: seq<byte>, at: nat, off: nat, size: nat, room: nat, k: nat)
    requires at <= off <= at + size && k < |Pieces(s, at, off, size, room)|
    ensures Pieces(s, at, off, size, room)[k] == Window(s, SymbolsEnd(s, off, at + size, k))
    decreases k
  {
    var n := at + size - off;
    var cpsz := CodePointSize(s, off, n);
    CountFirst(s, off, n);
    assert SubSize(size, off - at) == n;
    var rest := Pieces(s, at, off + cpsz, size, room - 1);
    assert Pieces(s, at, off, size, room) == [Window(s, off)] + rest;
    if k > 0 {
      assert SkipSymbol(s, off, n) == off + cpsz;
      PiecesAt(s, at, off + cpsz, size, room - 1, k - 1);
    }
  }

  /** The window at a well-formed character holds a glyph
      `amp_draw_glyph` stores. */
  lemma WindowOfCharacter(s: seq<byte>, off: nat, n: nat)
    requires CodePointSize(s, off, n) >= 1
    ensures DrawnGlyph(Window(s, off)).Some?
  {
    SizeInWindow(s, off, n);
    DrawnGlyphOfCharacter(Window(s, off), n);
  }

  /** Painting leaves the glyph of every cell left of `x`, right of the
      last glyph, or on another row as it was. */
  lemma {:induction false} PaintKeepsGlyph(g: Grid, style: Style, x: int, y: int, ws: seq<seq<byte>>, x': nat, y': nat)
    requires Valid(g)
    requires y' != y || x' < x || x' >= x + |ws|
    ensures GetGlyph(Paint(g, style, x, y, ws), x', y') == GetGlyph(g, x', y')
    decreases |ws|, 1
  {
    if ws != [] {
      PaintNextKeepsGlyph(g, style, x, y, ws, x', y');
    }
  }

  lemma {:induction false} PaintNextKeepsGlyph(g: Grid, style: Style, x: int, y: int, ws: seq<seq<byte>>, x': nat, y': nat)
    requires Valid(g) && ws != []
    requires y' != y || x' < x || x' >= x + |ws|
    ensures GetGlyph(PaintNext(g, style, x, y, ws), x', y') == GetGlyph(g, x', y')
    decreases |ws|, 0
  {
    DrawGlyphKeepsGlyph(g, style, x, y, ws[0], x', y');
    PaintKeepsGlyph(Cells.DrawGlyph(g, style, x, y, ws[0]), style, x + 1, y, ws[1..], x', y');
  }

  /** The same holds for the mode of those cells. */
  lemma {:induction false} PaintKeepsMode(g: Grid, style: Style, x: int, y: int, ws: seq<seq<byte>>, x': nat, y': nat)
    requires Valid(g)
    requires y' != y || x' < x || x' >= x + |ws|
    ensures GetMode(Paint(g, style, x, y, ws), x', y') == GetMode(g, x', y')
    decreases |ws|, 1
  {
    if ws != [] {
      PaintNextKeepsMode(g, style, x, y, ws, x', y');
    }
  }

  lemma {:induction false} PaintNextKeepsMode(g: Grid, style: Style, x: int, y: int, ws: seq<seq<byte>>, x': nat, y': nat)
    requires Valid(g) && ws != []
    requires y' != y || x' < x || x' >= x + |ws|
    ensures GetMode(PaintNext(g, style, x, y, ws), x', y') == GetMode(g, x', y')
    decreases |ws|, 0
  {
    DrawGlyphKeepsMode(g, style, x, y, ws[0], x', y');
    PaintKeepsMode(Cells.DrawGlyph(g, style, x, y, ws[0]), style, x + 1, y, ws[1..], x', y');
  }

  /** Glyph `k`, when it is a character, is stored in column `x + k`
      whenever that column is on the canvas. */
  lemma {:induction false} PaintStores(g: Grid, style: Style, x: int, y: int, ws: seq<seq<byte>>, k: nat)
    requires Valid(g) && 0 <= y < g.height && k < |ws| && 0 <= x + k < g.width
    requires CellIndex(g.width, g.height, x + k, y) < CellCount(g) && DrawnGlyph(ws[k]).Some?
    ensures GetGlyph(Paint(g, style, x, y, ws), x + k, y) == DrawnGlyph(ws[k])
    decreases |ws|, 1
  {
    PaintNextStores(g, style, x, y, ws, k);
  }

  /** The step of `PaintStores`. */
  lemma {:induction false} PaintNextStores(g: Grid, style: Style, x: int, y: int, ws: seq<seq<byte>>, k: nat)
    requires Valid(g) && 0 <= y < g.height && k < |ws| && 0 <= x + k < g.width
    requires CellIndex(g.width, g.height, x + k, y) < CellCount(g) && DrawnGlyph(ws[k]).Some?
    ensures GetGlyph(PaintNext(g, style, x, y, ws), x + k, y) == DrawnGlyph(ws[k])
    decreases |ws|, 0
  {
    if k == 0 {
      assert x + k == x;
      PaintStoresFirst(g, style, x, y, ws);
    } else {
      assert (x + 1) + (k - 1) == x + k && ws[1..][k - 1] == ws[k];
      PaintStores(Cells.DrawGlyph(g, style, x, y, ws[0]), style, x + 1, y, ws[1..], k - 1);
    }
  }

  /** The first glyph is stored in column `x`. */
  lemma PaintStoresFirst(g: Grid, style: Style, x: int, y: int, ws: seq<seq<byte>>)
    requires Valid(g) && 0 <= y < g.height && ws != [] && 0 <= x < g.width
    requires CellIndex(g.width, g.height, x, y) < CellCount(g) && DrawnGlyph(ws[0]).Some?
    ensures GetGlyph(PaintNext(g, style, x, y, ws), x, y) == DrawnGlyph(ws[0])
  {
    var w := ws[0];
    DrawGlyphStores(g, style, x, y, w);
    PaintKeepsGlyph(Cells.DrawGlyph(g, style, x, y, w), style, x + 1, y, ws[1..], x, y);
  }

  /** That cell then carries the style's decorations. */
  lemma {:induction false} PaintStyles(g: Grid, style: Style, x: int, y: int, ws: seq<seq<byte>>, k: nat)
    requires Valid(g) && 0 <= y < g.height && k < |ws| && 0 <= x + k < g.width
    requires CellIndex(g.width, g.height, x + k, y) < CellCount(g) && DrawnGlyph(ws[k]).Some?
    ensures GetStyle(Paint(g, style, x, y, ws), x + k, y) == style & DECORATIONS
    decreases |ws|, 1
  {
    PaintNextStyles(g, style, x, y, ws, k);
  }

  /** The step of `PaintStyles`. */
  lemma {:induction false} PaintNextStyles(g: Grid, style: Style, x: int, y: int, ws: seq<seq<byte>>, k: nat)
    requires Valid(g) && 0 <= y < g.height && k < |ws| && 0 <= x + k < g.width
    requires CellIndex(g.width, g.height, x + k, y) < CellCount(g) && DrawnGlyph(ws[k]).Some?
    ensures GetStyle(PaintNext(g, style, x, y, ws), x + k, y) == style & DECORATIONS
    decreases |ws|, 0
  {
    if k == 0 {
      assert x + k == x;
      PaintStylesFirst(g, style, x, y, ws);
    } else {
      assert (x + 1) + (k - 1) == x + k && ws[1..][k - 1] == ws[k];
      PaintStyles(Cells.DrawGlyph(g, style, x, y, ws[0]), style, x + 1, y, ws[1..], k - 1);
    }
  }

  /** The first glyph's cell keeps the mode drawing that glyph gave it. */
  lemma PaintModeFirst(g: Grid, style: Style, x: int, y: int, ws: seq<seq<byte>>)
    requires Valid(g) && ws != [] && 0 <= x && 0 <= y
    ensures GetMode(PaintNext(g, style, x, y, ws), x, y) == GetMode(Cells.DrawGlyph(g, style, x, y, ws[0]), x, y)
  {
    PaintKeepsMode(Cells.DrawGlyph(g, style, x, y, ws[0]), style, x + 1, y, ws[1..], x, y);
  }

  /** The first glyph's cell carries the style's decorations. */
  lemma PaintStylesFirst(g: Grid, style: Style, x: int, y: int, ws: seq<seq<byte>>)
    requires Valid(g) && 0 <= y < g.height && ws != [] && 0 <= x < g.width
    requires CellIndex(g.width, g.height, x, y) < CellCount(g) && DrawnGlyph(ws[0]).Some?
    ensures GetStyle(PaintNext(g, style, x, y, ws), x, y) == style & DECORATIONS
  {
    var g' := Cells.DrawGlyph(g, style, x, y, ws[0]);
    var r := PaintNext(g, style, x, y, ws);
    PaintModeFirst(g, style, x, y, ws);
    DrawGlyphStyles(g, style, x, y, ws[0]);
    SameModeSameStyle(r, g', x, y);
  }

  /** Nothing outside the text's own columns of its own row changes. */
  lemma TextClipFrame(g: Grid, style: Style, x: int, y: int, align: Align, s: seq<byte>, at: nat, size: nat,
                      x': nat, y': nat)
    requires Valid(g)
    requires var x0 := StartColumn(x, CodePoints(s, at, size) % UINT32_LIMIT, align);
      y' != y || x' < x0 || x' >= x0 + CodePoints(s, at, size)
    ensures var r := TextClip(g, style, x, y, align, s, at, size);
      GetGlyph(r, x', y') == GetGlyph(g, x', y') && GetMode(r, x', y') == GetMode(g, x', y')
  {
    if 0 <= y < g.height {
      var x0 := StartColumn(x, CodePoints(s, at, size) % UINT32_LIMIT, align);
      var ws := Pieces(s, at, at, size, Room(x0, g.width));
      PiecesCount(s, at, at, size, Room(x0, g.width));
      PaintKeepsGlyph(g, style, x0, y, ws, x', y');
      PaintKeepsMode(g, style, x0, y, ws, x', y');
    }
  }

  /** Character `k` of the text lands in column `x0 + k` from the aligned
      start `x0`, when that column is on the canvas. */
  lemma TextClipPlaces(g: Grid, style: Style, x: int, y: int, align: Align, s: seq<byte>, at: nat, size: nat,
                       k: nat)
    requires Valid(g) && 0 <= y < g.height && k < CodePoints(s, at, size)
    requires var x0 := StartColumn(x, CodePoints(s, at, size) % UINT32_LIMIT, align);
      0 <= x0 + k < g.width && CellIndex(g.width, g.height, x0 + k, y) < CellCount(g)
    ensures var x0 := StartColumn(x, CodePoints(s, at, size) % UINT32_LIMIT, align);
      var p := SymbolsEnd(s, at, at + size, k);
      var r := TextClip(g, style, x, y, align, s, at, size);
      && DrawnGlyph(Window(s, p)).Some?
      && GetGlyph(r, x0 + k, y) == DrawnGlyph(Window(s, p))
      && GetStyle(r, x0 + k, y) == style & DECORATIONS
  {
    var x0 := StartColumn(x, CodePoints(s, at, size) % UINT32_LIMIT, align);
    var ws := Pieces(s, at, at, size, Room(x0, g.width));
    PieceOfText(s, at, size, Room(x0, g.width), k);
    PaintStores(g, style, x0, y, ws, k);
    PaintStyles(g, style, x0, y, ws, k);
  }

  /** Among the pieces cut from the text, piece `k` is the window at its
      `k`-th character, and that window holds a glyph. */
  lemma PieceOfText(s: seq<byte>, at: nat, size: nat, room: nat, k: nat)
    requires k < CodePoints(s, at, size) && k < room
    ensures var ws := Pieces(s, at, at, size, room);
      var p := SymbolsEnd(s, at, at + size, k);
      && k < |ws| && ws[k] == Window(s, p) && DrawnGlyph(ws[k]).Some?
  {
    PiecesCount(s, at, at, size, room);
    assert SubSize(size, 0) == size;
    PiecesAt(s, at, at, size, room, k);
    var p := SymbolsEnd(s, at, at + size, k);
    SymbolAtIsCharacter(s, at, at + size, k);
    WindowOfCharacter(s, p, at + size - p);
  }

  /** Right-aligned text ends at `x`: its last character is drawn there and
      nothing right of `x` changes. */
  lemma RightAlignedEndsAt(g: Grid, style: Style, x: nat, y: nat, s: seq<byte>, at: nat, size: nat, x': nat)
    requires Valid(g) && x < g.width && y < g.height && CellIndex(g.width, g.height, x, y) < CellCount(g)
    requires 1 <= CodePoints(s, at, size) < UINT32_LIMIT && x' > x
    ensures var w := CodePoints(s, at, size);
      var r := TextClip(g, style, x, y, Right, s, at, size);
      && GetGlyph(r, x, y) == DrawnGlyph(Window(s, SymbolsEnd(s, at, at + size, w - 1)))
      && GetGlyph(r, x', y) == GetGlyph(g, x', y)
  {
    var w := CodePoints(s, at, size);
    var x0 := StartColumn(x, w % UINT32_LIMIT, Right);
    assert w % UINT32_LIMIT == w && x0 + (w - 1) == x;
    TextClipPlaces(g, style, x, y, Right, s, at, size, w - 1);
    TextClipFrame(g, style, x, y, Right, s, at, size, x', y);
  }

  /** Centred text puts its middle character (the later one of two) at
      `x`. */
  lemma CenteredAt(g: Grid, style: Style, x: nat, y: nat, s: seq<byte>, at: nat, size: nat)
    requires Valid(g) && x < g.width && y < g.height && CellIndex(g.width, g.height, x, y) < CellCount(g)
    requires 1 <= CodePoints(s, at, size) < UINT32_LIMIT
    ensures var w := CodePoints(s, at, size);
      var r := TextClip(g, style, x, y, Center, s, at, size);
      GetGlyph(r, x, y) == DrawnGlyph(Window(s, SymbolsEnd(s, at, at + size, w / 2)))
  {
    var w := CodePoints(s, at, size);
    var x0 := StartColumn(x, w % UINT32_LIMIT, Center);
    assert w % UINT32_LIMIT == w && x0 + w / 2 == x;
    TextClipPlaces(g, style, x, y, Center, s, at, size, w / 2);
  }

  /** `amp_draw_text_clip` (amp.h:1076-1110) on the text at offset `at`. */
  method DrawTextClip(amp: Amp, style: Style, x: int, y: int, align: Align, s: seq<byte>, at: nat, size: nat)
    requires amp.Valid()
    modifies amp.glyph, amp.mode
    ensures amp.Valid()
    ensures amp.State() == TextClip(old(amp.State()), style, x, y, align, s, at, size)
  {
    // The further test against `UINT32_MAX` is implied by the height being
    // 32-bit.
    if y < 0 || y >= amp.height {
      return;
    }
    var count := CodePointCount(s, at, size);
    var textWidth := count % UINT32_LIMIT;
    var col := x;
    if align == Right {
      col := (col - textWidth) + 1;
    } else if align == Center {
      col := col - textWidth / 2;
    }
    DrawRow(amp, style, col, y, s, at, size);
  }

  /** The loop of `amp_draw_text_clip` (amp.h:1093-1109), from column `x`. */
  method DrawRow(amp: Amp, style: Style, x: int, y: int, s: seq<byte>, at: nat, size: nat)
    requires amp.Valid()
    modifies amp.glyph, amp.mode
    ensures amp.Valid()
    ensures amp.State() == Paint(old(amp.State()), style, x, y, Pieces(s, at, at, size, Room(x, amp.width)))
  {
    var col := x;
    var off := at;
    while At(s, off) != 0
      invariant amp.Valid() && at <= off
      invariant Paint(amp.State(), style, col, y, Pieces(s, at, off, size, Room(col, amp.width)))
        == Paint(old(amp.State()), style, x, y, Pieces(s, at, at, size, Room(x, amp.width)))
      decreases |s| - off
    {
      var cpsz := CodePointSize(s, off, SubSize(size, off - at));
      if cpsz < 0 {
        break;
      }
      ghost var rest := Pieces(s, at, off + cpsz, size, Room(col, amp.width) - 1);
      assert Pieces(s, at, off, size, Room(col, amp.width)) == [Window(s, off)] + rest;
      PaintCons(amp.State(), style, col, y, Window(s, off), rest);
      amp.DrawGlyph(style, col, y, Window(s, off));
      col := col + 1;
      if col >= amp.width {
        break;
      }
      off := off + cpsz;
    }
  }

  /** `amp_draw_text` (amp.h:1112-1117): the whole C string. */
  method DrawText(amp: Amp, style: Style, x: int, y: int, align: Align, s: seq<byte>)
    requires amp.Valid()
    modifies amp.glyph, amp.mode
    ensures amp.Valid()
    ensures amp.State() == TextClip(old(amp.State()), style, x, y, align, s, 0, |CString(s)|)
  {
    DrawTextClip(amp, style, x, y, align, s, 0, |CString(s)|);
  }
}
