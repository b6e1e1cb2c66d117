/** The canvas contents as a value: the glyph array (5 bytes per cell) and
    the mode array (7 bytes per cell), addressed row-major, with the pure
    queries of the library over them and the effect of each write. */
module Cells {
  import opened Common
  import opened Utf8
  import opened Palette
  import opened Modes
  import opened Styles

  /** `AMP_CELL_GLYPH_SIZE`: up to 4 bytes of UTF-8 and a terminator. */
  const GLYPH_SIZE: nat := 5

  /** `AMP_CELL_SIZE`: glyph and mode bytes of one cell. */
  const CELL_SIZE: nat := 12

  /** The state of a `struct amp_type`: its dimensions, its palette, and the
      contents of its glyph and mode arrays. */
  datatype Grid = Grid(width: nat, height: nat, palette: Pal, glyphs: seq<byte>, modes: seq<byte>)

  /** The number of cells the arrays hold. */
  function CellCount(g: Grid): nat
  {
    |g.glyphs| / GLYPH_SIZE
  }

  /** The 5 glyph bytes of cell `c`. */
  function Slot(glyphs: seq<byte>, c: nat): seq<byte>
    requires GLYPH_SIZE * c + GLYPH_SIZE <= |glyphs|
  {
    glyphs[GLYPH_SIZE * c .. GLYPH_SIZE * c + GLYPH_SIZE]
  }

  /** A glyph slot holds a C string of at most 4 bytes that is empty or one
      well-formed UTF-8 character. */
  predicate SlotOk(slot: seq<byte>)
    requires |slot| == GLYPH_SIZE
  {
    var k := |CString(slot)|;
    k < GLYPH_SIZE && (k == 0 || Utf8Char(slot[..k]))
  }

  /** What `amp_init` sets up and every operation keeps: 32-bit dimensions,
      whole cells in both arrays, no more cells than the canvas has, and
      every glyph slot well formed. */
  predicate Valid(g: Grid)
  {
    && g.width < UINT32_LIMIT && g.height < UINT32_LIMIT
    && |g.glyphs| % GLYPH_SIZE == 0
    && |g.modes| == CellCount(g) * MODE_SIZE
    && CellCount(g) <= g.width * g.height
    && forall c :: 0 <= c < CellCount(g) ==> SlotOk(Slot(g.glyphs, c))
  }

  /** `amp_get_cell_index` (amp.h:747-755): the row-major index of a cell,
      or -1 outside the canvas. */
  function CellIndex(width: nat, height: nat, x: int, y: int): (i: int)
    ensures i == -1 <==> !(0 <= x < width && 0 <= y < height)
    ensures i >= 0 ==> i < width * height
  {
    if x < 0 || y < 0 || x >= width || y >= height then -1
    else
      RowsBelow(width, height, y);
      y * width + x
  }

  lemma RowsBelow(width: nat, height: nat, y: nat)
    requires y < height
    ensures y * width + width <= width * height
  {
    assert (height - y) * width >= width by {
      if width > 0 { MulMono(height - y, width); }
    }
  }

  /** The index determines the cell: column and row come back as remainder
      and quotient by the width. */
  lemma CellIndexInverse(width: nat, height: nat, x: int, y: int)
    requires CellIndex(width, height, x, y) >= 0
    ensures var i := CellIndex(width, height, x, y); i % width == x && i / width == y
  {
    DivMod(y * width + x, width, y, x);
  }

  lemma CellIndexInjective(width: nat, height: nat, x: int, y: int, x': int, y': int)
    requires CellIndex(width, height, x, y) >= 0
    requires CellIndex(width, height, x, y) == CellIndex(width, height, x', y')
    ensures x == x' && y == y'
  {
    CellIndexInverse(width, height, x, y);
    CellIndexInverse(width, height, x', y');
  }

  /** Offset of the cell's glyph slot, when the cell exists and lies within
      the glyph array (amp.h:822-831). */
  function GlyphOffset(g: Grid, x: int, y: int): (off: Option<nat>)
    ensures off.Some? ==> off.value % GLYPH_SIZE == 0
  {
    var i := CellIndex(g.width, g.height, x, y);
    if i < 0 || i * GLYPH_SIZE >= |g.glyphs| then None else Some(i * GLYPH_SIZE)
  }

  /** Offset of the cell's mode record, when the cell exists and lies within
      the mode array (amp.h:891-899). */
  function ModeOffset(g: Grid, x: int, y: int): (off: Option<nat>)
    ensures off.Some? ==> off.value % MODE_SIZE == 0 && off.value < |g.modes|
  {
    var i := CellIndex(g.width, g.height, x, y);
    if i < 0 || i * MODE_SIZE >= |g.modes| then None else Some(i * MODE_SIZE)
  }

  /** The two bounds checks agree: a cell has a glyph slot exactly when it
      has a mode record, and both are within the arrays. */
  lemma OffsetsAgree(g: Grid, x: int, y: int)
    requires Valid(g)
    ensures var i := CellIndex(g.width, g.height, x, y);
      && (GlyphOffset(g, x, y).Some? <==> 0 <= i < CellCount(g))
      && (ModeOffset(g, x, y).Some? <==> 0 <= i < CellCount(g))
      && (GlyphOffset(g, x, y).Some? ==> GlyphOffset(g, x, y).value + GLYPH_SIZE <= |g.glyphs|)
      && (ModeOffset(g, x, y).Some? ==> ModeOffset(g, x, y).value + MODE_SIZE <= |g.modes|)
  {
  }

  /** `amp_get_glyph` (amp.h:819-836): the C string stored at the cell, or
      null. */
  function GetGlyph(g: Grid, x: nat, y: nat): (r: Option<seq<byte>>)
    requires Valid(g)
    ensures r.Some? <==> 0 <= CellIndex(g.width, g.height, x, y) < CellCount(g)
    ensures r.Some? ==> 0 !in r.value
  {
    OffsetsAgree(g, x, y);
    match GlyphOffset(g, x, y)
    case None => None
    case Some(off) => Some(CString(g.glyphs[off..]))
  }

  /** The string read at a cell ends inside its slot, and is empty or one
      well-formed UTF-8 character. */
  lemma GlyphIsOneCharacter(g: Grid, x: nat, y: nat)
    requires Valid(g) && GetGlyph(g, x, y).Some?
    ensures 0 <= GLYPH_SIZE * CellIndex(g.width, g.height, x, y) + GLYPH_SIZE <= |g.glyphs|
    ensures var s := GetGlyph(g, x, y).value;
      && s == CString(Slot(g.glyphs, CellIndex(g.width, g.height, x, y)))
      && |s| < GLYPH_SIZE && (s == [] || Utf8Char(s))
  {
    var off := GlyphOffset(g, x, y).value;
    var c := CellIndex(g.width, g.height, x, y);
    OffsetsAgree(g, x, y);
    var t := g.glyphs[off..];
    var slot := Slot(g.glyphs, c);
    assert t[..GLYPH_SIZE] == slot;
    assert SlotOk(slot);
    CStringOfPrefix(t, GLYPH_SIZE);
  }

  /** `amp_get_mode` (amp.h:906-927): the mode stored at the cell, or the
      broken sentinel. */
  function GetMode(g: Grid, x: nat, y: nat): (m: Mode)
    requires Valid(g)
    ensures !m.reset
  {
    match ModeOffset(g, x, y)
    case None => BrokenCell
    case Some(off) => Deserialize(g.modes[off..off + MODE_SIZE])
  }

  /** `amp_set_mode` (amp.h:886-904): stores the mode's record at the cell;
      false, and nothing written, when the cell does not exist. */
  function SetMode(g: Grid, x: nat, y: nat, m: Mode): (r: (Grid, bool))
    requires Valid(g)
    ensures Valid(r.0) && r.0.glyphs == g.glyphs
    ensures r.1 <==> ModeOffset(g, x, y).Some?
    ensures !r.1 ==> r.0 == g
  {
    match ModeOffset(g, x, y)
    case None => (g, false)
    case Some(off) =>
      OffsetsAgree(g, x, y);
      (g.(modes := Splice(g.modes, off, Pack(m))), true)
  }

  /** Reading a cell after `amp_set_mode` gives the mode written, less the
      flags that are not stored; writing outside the canvas fails and the
      cell reads as broken. */
  lemma SetModeThenGetMode(g: Grid, x: nat, y: nat, m: Mode)
    requires Valid(g)
    ensures var (g', ok) := SetMode(g, x, y, m);
      && (ok ==> GetMode(g', x, y) == m.(broken := false, reset := false))
      && (!ok ==> GetMode(g, x, y) == BrokenCell)
  {
    DeserializePack(m);
  }

  /** `amp_set_mode` leaves every other cell's mode as it was. */
  lemma SetModeElsewhere(g: Grid, x: nat, y: nat, m: Mode, x': nat, y': nat)
    requires Valid(g) && (x', y') != (x, y)
    ensures GetMode(SetMode(g, x, y, m).0, x', y') == GetMode(g, x', y')
  {
    var (g', ok) := SetMode(g, x, y, m);
    if ok && ModeOffset(g, x', y').Some? {
      OffsetsAgree(g, x, y);
      OffsetsAgree(g, x', y');
      var off := ModeOffset(g, x, y).value;
      var off' := ModeOffset(g, x', y').value;
      if CellIndex(g.width, g.height, x', y') == CellIndex(g.width, g.height, x, y) {
        CellIndexInjective(g.width, g.height, x, y, x', y');
      }
      SpliceElsewhere(g.modes, off, Pack(m), off', off' + MODE_SIZE);
    }
  }

  /** The bytes `amp_put_glyph` collects from its argument: the C string's
      bytes, at most 5 of them, zero padded. */
  function GlyphData(glyph: seq<byte>): seq<byte>
  {
    Take(CString(glyph), GLYPH_SIZE)
  }

  /** `amp_put_glyph` (amp.h:838-884): stores the first code point of a
      C string of at most 4 bytes, and a terminator, at the start of the
      cell's slot; the rest of the slot keeps its bytes. Returns the slot's
      offset, or null when the cell does not exist, no terminator occurs
      within 5 bytes, or the first code point is malformed. */
  function PutGlyph(g: Grid, glyph: seq<byte>, x: nat, y: nat): (r: (Grid, Option<nat>))
    requires Valid(g)
    ensures r.1.Some? <==>
      && GlyphOffset(g, x, y).Some?
      && |CString(glyph)| < GLYPH_SIZE
      && CodePointSize(GlyphData(glyph), 0, |CString(glyph)| + 1) >= 0
    ensures r.1.None? ==> r.0 == g
    ensures r.1.Some? ==> r.1 == GlyphOffset(g, x, y)
    ensures r.0.modes == g.modes && |r.0.glyphs| == |g.glyphs|
    ensures r.0.width == g.width && r.0.height == g.height && r.0.palette == g.palette
  {
    match GlyphOffset(g, x, y)
    case None => (g, None)
    case Some(off) =>
      var len := |CString(glyph)|;
      if len >= GLYPH_SIZE then (g, None)
      else
        var data := GlyphData(glyph);
        var cpsz := CodePointSize(data, 0, len + 1);
        if cpsz < 0 then (g, None)
        else
          var k := if cpsz < len then cpsz else len;
          OffsetsAgree(g, x, y);
          (g.(glyphs := Splice(g.glyphs, off, data[..k] + [0])), Some(off))
  }

  /** What `amp_put_glyph` stores: the leading code point of the string,
      which is empty exactly when the string is. */
  function FirstCodePoint(glyph: seq<byte>): (r: seq<byte>)
    ensures |r| < GLYPH_SIZE && r <= CString(glyph)
  {
    var len := |CString(glyph)|;
    var cpsz := CodePointSize(GlyphData(glyph), 0, len + 1);
    if 0 <= cpsz <= len then CString(glyph)[..cpsz] else []
  }

  /** No byte of a well-formed character that is not NUL is a terminator. */
  lemma NoNulInCharacter(b: seq<byte>)
    requires Utf8Char(b) && b[0] != 0
    ensures 0 !in b
  {
  }

  /** The size `amp_put_glyph` measures never reaches past the string: the
      character it finds is a prefix of the string. */
  lemma {:induction false} SizeWithinString(glyph: seq<byte>)
    requires |CString(glyph)| < GLYPH_SIZE
    ensures var len := |CString(glyph)|; var cpsz := CodePointSize(GlyphData(glyph), 0, len + 1);
      && (cpsz >= 0 ==> cpsz <= len)
      && (cpsz == 0 <==> len == 0)
      && (cpsz >= 1 ==> Utf8Char(CString(glyph)[..cpsz]))
      && (cpsz >= 0 ==> GlyphData(glyph)[..cpsz] == CString(glyph)[..cpsz])
  {
    var len := |CString(glyph)|;
    var data := GlyphData(glyph);
    var cpsz := CodePointSize(data, 0, len + 1);
    assert At(data, len) == 0;
    if cpsz >= 1 {
      AcceptedIsUtf8Char(data, len + 1);
      var t := Take(data, cpsz);
      NoNulInCharacter(t);
      assert forall i :: 0 <= i < cpsz ==> At(data, i) == t[i];
      assert cpsz <= len;
      assert t == CString(glyph)[..cpsz];
    }
  }

  /** After `amp_put_glyph` succeeds the cell reads as the first code
      point of the string. */
  lemma PutGlyphThenGetGlyph(g: Grid, glyph: seq<byte>, x: nat, y: nat)
    requires Valid(g)
    requires PutGlyph(g, glyph, x, y).1.Some?
    ensures var g' := PutGlyph(g, glyph, x, y).0;
      Valid(g') && GetGlyph(g', x, y) == Some(FirstCodePoint(glyph))
  {
    PutGlyphSlot(g, glyph, x, y);
    PutGlyphKeepsValid(g, glyph, x, y);
  }

  /** After `amp_put_glyph` succeeds the cell's slot holds the stored
      character and a terminator. */
  lemma PutGlyphSlot(g: Grid, glyph: seq<byte>, x: nat, y: nat)
    requires Valid(g)
    requires PutGlyph(g, glyph, x, y).1.Some?
    ensures var g' := PutGlyph(g, glyph, x, y).0;
      var c := CellIndex(g.width, g.height, x, y);
      && 0 <= c < CellCount(g)
      && CString(Slot(g'.glyphs, c)) == FirstCodePoint(glyph)
      && CString(g'.glyphs[GlyphOffset(g, x, y).value..]) == FirstCodePoint(glyph)
  {
    OffsetsAgree(g, x, y);
    PutGlyphWrites(g, glyph, x, y);
    var c := CellIndex(g.width, g.height, x, y);
    StoredSlot(g.glyphs, c, FirstCodePoint(glyph));
  }

  /** A string shorter than a slot written with its terminator at the start
      of slot `c` is the C string of that slot, and of the rest of the
      array from there. */
  lemma StoredSlot(glyphs: seq<byte>, c: nat, w: seq<byte>)
    requires 0 !in w && |w| < GLYPH_SIZE && GLYPH_SIZE * c + GLYPH_SIZE <= |glyphs|
    ensures var s' := Splice(glyphs, GLYPH_SIZE * c, w + [0]);
      CString(Slot(s', c)) == w && CString(s'[GLYPH_SIZE * c..]) == w
  {
    var off := GLYPH_SIZE * c;
    var s' := Splice(glyphs, off, w + [0]);
    StoredString(glyphs, off, w, GLYPH_SIZE);
    assert s'[off..][..GLYPH_SIZE] == s'[off..off + GLYPH_SIZE];
    CStringOfPrefix(s'[off..], GLYPH_SIZE);
  }

  /** A successful `amp_put_glyph` writes the first code point and a
      terminator at the slot's offset, and nothing else. */
  lemma PutGlyphWrites(g: Grid, glyph: seq<byte>, x: nat, y: nat)
    requires Valid(g)
    requires PutGlyph(g, glyph, x, y).1.Some?
    ensures 0 !in FirstCodePoint(glyph) && |FirstCodePoint(glyph)| < GLYPH_SIZE
    ensures GlyphOffset(g, x, y).value + GLYPH_SIZE <= |g.glyphs|
    ensures PutGlyph(g, glyph, x, y).0 ==
      g.(glyphs := Splice(g.glyphs, GlyphOffset(g, x, y).value, FirstCodePoint(glyph) + [0]))
  {
    OffsetsAgree(g, x, y);
    SizeWithinString(glyph);
  }

  /** A terminated string written at `off` reads back from any window
      that starts at `off` and holds it. */
  lemma StoredString(s: seq<byte>, off: nat, w: seq<byte>, n: nat)
    requires 0 !in w && off + |w| + 1 <= off + n <= |s|
    ensures CString(Splice(s, off, w + [0])[off..off + n]) == w
  {
    var t := Splice(s, off, w + [0])[off..off + n];
    assert t[..|w| + 1] == w + [0];
    CStringOf(w);
    CStringOfPrefix(t, |w| + 1);
  }

  /** A successful `amp_put_glyph` leaves every other cell's slot as it
      was. */
  lemma PutGlyphElsewhere(g: Grid, glyph: seq<byte>, x: nat, y: nat)
    requires Valid(g)
    requires PutGlyph(g, glyph, x, y).1.Some?
    ensures var g' := PutGlyph(g, glyph, x, y).0;
      forall c :: 0 <= c < CellCount(g) && c != CellIndex(g.width, g.height, x, y) ==>
        Slot(g'.glyphs, c) == Slot(g.glyphs, c)
  {
    PutGlyphWrites(g, glyph, x, y);
    OtherSlotsKept(g.glyphs, CellIndex(g.width, g.height, x, y), FirstCodePoint(glyph) + [0]);
  }

  /** A successful `amp_put_glyph` keeps the canvas well formed. */
  lemma PutGlyphKeepsValid(g: Grid, glyph: seq<byte>, x: nat, y: nat)
    requires Valid(g)
    requires PutGlyph(g, glyph, x, y).1.Some?
    ensures Valid(PutGlyph(g, glyph, x, y).0)
  {
    var g' := PutGlyph(g, glyph, x, y).0;
    var off := GlyphOffset(g, x, y).value;
    PutGlyphWrites(g, glyph, x, y);
    var w := FirstCodePoint(glyph);
    var t := CellIndex(g.width, g.height, x, y);
    PutGlyphElsewhere(g, glyph, x, y);
    assert SlotOk(Slot(g'.glyphs, t)) by {
      PutGlyphSlot(g, glyph, x, y);
      FirstCodePointIsCharacter(glyph);
    }
    assert CellCount(g') == CellCount(g);
    forall c | 0 <= c < CellCount(g')
      ensures SlotOk(Slot(g'.glyphs, c))
    {
      if c != t {
        assert SlotOk(Slot(g.glyphs, c));
      }
    }
  }

  /** Writing at most one slot's worth of bytes at the start of slot `t`
      leaves every other slot as it was. */
  lemma OtherSlotsKept(glyphs: seq<byte>, t: nat, w: seq<byte>)
    requires GLYPH_SIZE * t + GLYPH_SIZE <= |glyphs| && |w| <= GLYPH_SIZE
    ensures forall c :: 0 <= c && GLYPH_SIZE * c + GLYPH_SIZE <= |glyphs| && c != t ==>
      Slot(Splice(glyphs, GLYPH_SIZE * t, w), c) == Slot(glyphs, c)
  {
    forall c | 0 <= c && GLYPH_SIZE * c + GLYPH_SIZE <= |glyphs| && c != t
      ensures Slot(Splice(glyphs, GLYPH_SIZE * t, w), c) == Slot(glyphs, c)
    {
      SpliceElsewhere(glyphs, GLYPH_SIZE * t, w, GLYPH_SIZE * c, GLYPH_SIZE * c + GLYPH_SIZE);
    }
  }

  /** What is stored is empty exactly for the empty string, and is
      otherwise one well-formed character. */
  lemma FirstCodePointIsCharacter(glyph: seq<byte>)
    requires |CString(glyph)| < GLYPH_SIZE
    requires CodePointSize(GlyphData(glyph), 0, |CString(glyph)| + 1) >= 0
    ensures FirstCodePoint(glyph) == [] <==> CString(glyph) == []
    ensures FirstCodePoint(glyph) != [] ==> Utf8Char(FirstCodePoint(glyph))
  {
    SizeWithinString(glyph);
  }

  /** A string without terminators, terminated, reads back as itself. */
  lemma {:induction false} CStringOf(s: seq<byte>)
    requires 0 !in s
    ensures CString(s + [0]) == s
  {
    if s != [] {
      assert (s + [0])[1..] == s[1..] + [0];
      CStringOf(s[1..]);
    }
  }

  /** `amp_put_style` followed by `amp_set_mode` (amp.h:944-1041): the
      cell's mode resolved against the style and stored back. */
  function PutStyle(g: Grid, style: Style, x: nat, y: nat): (r: (Grid, bool))
    requires Valid(g)
    ensures Valid(r.0) && r.0.glyphs == g.glyphs
    ensures r.1 <==> ModeOffset(g, x, y).Some?
  {
    SetMode(g, x, y, Resolve(GetMode(g, x, y), style))
  }

  /** `amp_get_style` (amp.h:929-942). */
  function GetStyle(g: Grid, x: nat, y: nat): (s: Style)
    requires Valid(g)
    ensures s & DECORATIONS == s
  {
    Decorations(GetMode(g, x, y))
  }

  /** The style read back after `amp_put_style` is exactly the decoration
      bits written, never a colour bit, and the colours are the style's
      resolved colours. */
  lemma PutStyleThenGetStyle(g: Grid, style: Style, x: nat, y: nat)
    requires Valid(g) && ModeOffset(g, x, y).Some?
    ensures var g' := PutStyle(g, style, x, y).0;
      && GetStyle(g', x, y) == style & DECORATIONS
      && GetMode(g', x, y) == Resolve(GetMode(g, x, y), style).(broken := false)
  {
    var m := Resolve(GetMode(g, x, y), style);
    SetModeThenGetMode(g, x, y, m);
    DecorationsOfResolve(GetMode(g, x, y), style);
  }

  /** The style is read from the mode alone. */
  lemma SameModeSameStyle(g: Grid, h: Grid, x: nat, y: nat)
    requires Valid(g) && Valid(h) && GetMode(g, x, y) == GetMode(h, x, y)
    ensures GetStyle(g, x, y) == GetStyle(h, x, y)
  {
  }

  /** `isprint` in the C locale. */
  predicate IsPrint(b: byte)
  {
    0x20 <= b <= 0x7E
  }

  /** The glyph `amp_draw_glyph` hands to `amp_put_glyph` (amp.h:1050-1070):
      the first code point among the first 5 bytes of the string, with a
      single non-printable byte replaced by '?'; none when that code point
      is malformed or the string is empty. */
  function DrawnGlyph(s: seq<byte>): (r: Option<seq<byte>>)
    ensures r.Some? ==> 1 <= |r.value| < GLYPH_SIZE
    ensures At(s, 0) == 0 ==> r.None?
  {
    var size := if |CString(s)| < GLYPH_SIZE then |CString(s)| else GLYPH_SIZE;
    var cpsz := CodePointSize(s, 0, size);
    if cpsz < 0 || cpsz >= GLYPH_SIZE then None
    else
      var glyph := Take(s, cpsz);
      if cpsz == 1 && !IsPrint(glyph[0]) then Some(['?' as byte]) else Some(glyph)
  }

  /** What is drawn is one well-formed character taken from the start of
      the string, or '?' in place of a control byte. */
  lemma DrawnGlyphIsOneCharacter(s: seq<byte>)
    requires DrawnGlyph(s).Some?
    ensures var d := DrawnGlyph(s).value;
      && 1 <= |d| < GLYPH_SIZE && 0 !in d && Utf8Char(d)
      && (d == ['?' as byte] || d == Take(s, |d|))
      && (|d| == 1 ==> IsPrint(d[0]))
  {
    var size := if |CString(s)| < GLYPH_SIZE then |CString(s)| else GLYPH_SIZE;
    AcceptedIsUtf8Char(s, size);
  }

  /** A string that starts with a well-formed character, wherever its
      limit lies, has a glyph to draw. */
  lemma DrawnGlyphOfCharacter(s: seq<byte>, n: nat)
    requires CodePointSize(s, 0, n) >= 1
    ensures DrawnGlyph(s).Some?
  {
    var c := CodePointSize(s, 0, n);
    if c >= 2 {
      WideCharBytes(s, 0, n);
    }
    CStringAtLeast(s, c);
    var size := if |CString(s)| < GLYPH_SIZE then |CString(s)| else GLYPH_SIZE;
    SizeWithinLimit(s, 0, n, size);
  }

  /** `amp_draw_glyph` (amp.h:1043-1074): outside the canvas, or for an
      empty or malformed string, nothing happens; otherwise the glyph is
      stored and the style applied. */
  function DrawGlyph(g: Grid, style: Style, x: int, y: int, s: seq<byte>): (r: Grid)
    requires Valid(g)
    ensures Valid(r) && r.width == g.width && r.height == g.height && r.palette == g.palette
    ensures !(0 <= x < g.width && 0 <= y < g.height) || DrawnGlyph(s).None? ==> r == g
  {
    if x < 0 || x >= g.width || y < 0 || y >= g.height then g
    else
      match DrawnGlyph(s)
      case None => g
      case Some(glyph) =>
        var g1 := PutGlyph(g, glyph, x, y);
        if g1.1.Some? then
          PutGlyphKeepsValid(g, glyph, x, y);
          PutStyle(g1.0, style, x, y).0
        else PutStyle(g1.0, style, x, y).0
  }

  /** A glyph `amp_draw_glyph` hands on is stored unchanged. */
  lemma DrawnGlyphIsStored(glyph: seq<byte>)
    requires 1 <= |glyph| < GLYPH_SIZE && 0 !in glyph && Utf8Char(glyph)
    ensures CString(glyph) == glyph
    ensures CodePointSize(GlyphData(glyph), 0, |glyph| + 1) == |glyph|
    ensures FirstCodePoint(glyph) == glyph
  {
    var k := |glyph|;
    assert CString(glyph) == glyph;
    var data := GlyphData(glyph);
    assert Take(data, k) == glyph;
    Utf8CharIsAccepted(data, k + 1, k);
  }

  /** Drawing a glyph inside the canvas, when the string starts with a
      well-formed character, leaves that character (or '?') in the cell. */
  lemma DrawGlyphStores(g: Grid, style: Style, x: nat, y: nat, s: seq<byte>)
    requires Valid(g) && x < g.width && y < g.height && DrawnGlyph(s).Some?
    requires CellIndex(g.width, g.height, x, y) < CellCount(g)
    ensures GetGlyph(DrawGlyph(g, style, x, y, s), x, y) == DrawnGlyph(s)
  {
    var glyph := DrawnGlyph(s).value;
    DrawnGlyphIsOneCharacter(s);
    DrawnGlyphIsStored(glyph);
    OffsetsAgree(g, x, y);
    PutGlyphThenGetGlyph(g, glyph, x, y);
  }

  /** Drawing a glyph inside the canvas leaves the style's decorations in
      the cell's mode. */
  lemma DrawGlyphStyles(g: Grid, style: Style, x: nat, y: nat, s: seq<byte>)
    requires Valid(g) && x < g.width && y < g.height && DrawnGlyph(s).Some?
    requires CellIndex(g.width, g.height, x, y) < CellCount(g)
    ensures GetStyle(DrawGlyph(g, style, x, y, s), x, y) == style & DECORATIONS
  {
    var glyph := DrawnGlyph(s).value;
    var (g1, stored) := PutGlyph(g, glyph, x, y);
    if stored.Some? {
      PutGlyphKeepsValid(g, glyph, x, y);
    }
    OffsetsAgree(g, x, y);
    assert ModeOffset(g1, x, y) == ModeOffset(g, x, y);
    assert DrawGlyph(g, style, x, y, s) == PutStyle(g1, style, x, y).0;
    PutStyleThenGetStyle(g1, style, x, y);
  }

  /** `amp_draw_glyph` changes no other cell's glyph. */
  lemma DrawGlyphKeepsGlyph(g: Grid, style: Style, x: int, y: int, s: seq<byte>, x': nat, y': nat)
    requires Valid(g) && (x', y') != (x, y)
    ensures GetGlyph(DrawGlyph(g, style, x, y, s), x', y') == GetGlyph(g, x', y')
  {
    if 0 <= x < g.width && 0 <= y < g.height && DrawnGlyph(s).Some? {
      var glyph := DrawnGlyph(s).value;
      PutAndStyleElsewhere(g, glyph, style, x, y, x', y');
      assert DrawGlyph(g, style, x, y, s) == PutStyle(PutGlyph(g, glyph, x, y).0, style, x, y).0;
    }
  }

  /** Nor any other cell's mode. */
  lemma DrawGlyphKeepsMode(g: Grid, style: Style, x: int, y: int, s: seq<byte>, x': nat, y': nat)
    requires Valid(g) && (x', y') != (x, y)
    ensures GetMode(DrawGlyph(g, style, x, y, s), x', y') == GetMode(g, x', y')
  {
    if 0 <= x < g.width && 0 <= y < g.height && DrawnGlyph(s).Some? {
      var glyph := DrawnGlyph(s).value;
      PutAndStyleElsewhere(g, glyph, style, x, y, x', y');
      assert DrawGlyph(g, style, x, y, s) == PutStyle(PutGlyph(g, glyph, x, y).0, style, x, y).0;
    }
  }

  /** Storing a glyph at one cell and styling it leaves every other cell as
      it was. */
  lemma PutAndStyleElsewhere(g: Grid, glyph: seq<byte>, style: Style, x: nat, y: nat, x': nat, y': nat)
    requires Valid(g) && (x', y') != (x, y)
    ensures var g1 := PutGlyph(g, glyph, x, y).0;
      && Valid(g1)
      && GetGlyph(PutStyle(g1, style, x, y).0, x', y') == GetGlyph(g, x', y')
      && GetMode(PutStyle(g1, style, x, y).0, x', y') == GetMode(g, x', y')
  {
    var (g1, stored) := PutGlyph(g, glyph, x, y);
    if stored.Some? {
      GlyphKept(g, glyph, x, y, x', y');
    }
    var m := Resolve(GetMode(g1, x, y), style);
    SetModeElsewhere(g1, x, y, m, x', y');
    var r := SetMode(g1, x, y, m).0;
    assert r.glyphs == g1.glyphs && r.width == g1.width && r.height == g1.height;
  }

  /** A successful `amp_put_glyph` leaves the string read at every other
      cell as it was. */
  lemma GlyphKept(g: Grid, glyph: seq<byte>, x: nat, y: nat, x': nat, y': nat)
    requires Valid(g) && PutGlyph(g, glyph, x, y).1.Some? && (x', y') != (x, y)
    ensures var g1 := PutGlyph(g, glyph, x, y).0;
      Valid(g1) && GetGlyph(g1, x', y') == GetGlyph(g, x', y')
  {
    var g1 := PutGlyph(g, glyph, x, y).0;
    PutGlyphKeepsValid(g, glyph, x, y);
    OffsetsAgree(g, x', y');
    if GetGlyph(g, x', y').Some? {
      OffsetsAgree(g, x, y);
      var c, c' := CellIndex(g.width, g.height, x, y), CellIndex(g.width, g.height, x', y');
      if c == c' {
        CellIndexInjective(g.width, g.height, x, y, x', y');
      }
      PutGlyphElsewhere(g, glyph, x, y);
      SameSlotSameGlyph(g, g1, x', y');
    }
  }

  /** Two canvases of the same shape whose slot at a cell agrees read the
      same string there. */
  lemma SameSlotSameGlyph(g: Grid, h: Grid, x: nat, y: nat)
    requires Valid(g) && Valid(h) && GetGlyph(g, x, y).Some?
    requires g.width == h.width && g.height == h.height && |g.glyphs| == |h.glyphs|
    requires var c := CellIndex(g.width, g.height, x, y);
      0 <= c < CellCount(g) && Slot(g.glyphs, c) == Slot(h.glyphs, c)
    ensures GetGlyph(h, x, y) == GetGlyph(g, x, y)
  {
    GlyphIsOneCharacter(g, x, y);
    GlyphIsOneCharacter(h, x, y);
  }

  /** Every byte is zero, as `memset(.., 0, ..)` leaves it. */
  predicate Zeroed(s: seq<byte>)
  {
    forall i :: 0 <= i < |s| ==> s[i] == 0
  }

  /** A zeroed grid of whole cells is well formed. */
  lemma ZeroedIsValid(g: Grid)
    requires g.width < UINT32_LIMIT && g.height < UINT32_LIMIT
    requires |g.glyphs| % GLYPH_SIZE == 0 && |g.modes| == CellCount(g) * MODE_SIZE
    requires CellCount(g) <= g.width * g.height
    requires Zeroed(g.glyphs)
    ensures Valid(g)
  {
    forall c | 0 <= c < CellCount(g)
      ensures SlotOk(Slot(g.glyphs, c))
    {
      assert Slot(g.glyphs, c)[0] == 0;
    }
  }

  /** On a cleared canvas every cell that exists reads as an empty glyph
      with no colour and no decoration. */
  lemma ClearedCell(g: Grid, x: nat, y: nat)
    requires Valid(g) && Zeroed(g.glyphs) && Zeroed(g.modes)
    ensures GetGlyph(g, x, y) == if GlyphOffset(g, x, y).Some? then Some([]) else None
    ensures GetMode(g, x, y) == if ModeOffset(g, x, y).Some? then Plain else BrokenCell
  {
    OffsetsAgree(g, x, y);
    if GlyphOffset(g, x, y).Some? {
      var off := GlyphOffset(g, x, y).value;
      assert g.glyphs[off..][0] == 0;
    }
    if ModeOffset(g, x, y).Some? {
      var off := ModeOffset(g, x, y).value;
      var rec := g.modes[off..off + MODE_SIZE];
      forall j | 0 <= j < MODE_SIZE
        ensures rec[j] == 0
      {
        assert rec[j] == g.modes[off + j];
      }
      assert rec[0] == 0 && rec[1] == 0 && rec[2] == 0 && rec[3] == 0;
      assert rec[4] == 0 && rec[5] == 0 && rec[6] == 0;
    }
  }
}
