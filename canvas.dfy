/** `struct amp_type` as an object: the canvas dimensions, the palette, and
    the glyph and mode arrays that the drawing operations update in place.
    Each operation is proved to leave the state that the corresponding
    function of `Cells` describes. */
module Canvas {
  import opened Common
  import opened Utf8
  import opened Palette
  import opened Modes
  import opened Styles
  import opened Cells

  class Amp {
    const width: nat
    const height: nat
    var palette: Pal
    var glyph: array<byte>
    var mode: array<byte>

    /** The contents of the object, as a value. */
    function State(): Grid
      reads this, glyph, mode
    {
      Grid(width, height, palette, glyph[..], mode[..])
    }

    ghost predicate Valid()
      reads this, glyph, mode
    {
      glyph != mode && Cells.Valid(State())
    }

    constructor Make(w: nat, h: nat, pal: Pal, glyphSize: nat, modeSize: nat)
      ensures width == w && height == h && palette == pal
      ensures glyph.Length == glyphSize && mode.Length == modeSize
      ensures fresh(glyph) && fresh(mode) && glyph != mode
    {
      width, height, palette := w, h, pal;
      glyph := new byte[glyphSize];
      mode := new byte[modeSize];
    }

    /** `amp_init` (amp.h:714-736): `12 * width * height` bytes are needed
        (a `size_t` product, so it wraps); the cells that fit in the smaller
        of that and the buffer are laid out, 5 glyph bytes and 7 mode bytes
        each, and cleared. The buffer itself is two fresh arrays here. */
    static method Init(w: nat, h: nat, pal: Pal, bufSize: nat) returns (amp: Amp, required: nat)
      requires w < UINT32_LIMIT && h < UINT32_LIMIT && bufSize < SIZE_LIMIT
      ensures required == (CELL_SIZE * w * h) % SIZE_LIMIT
      ensures fresh(amp) && fresh(amp.glyph) && fresh(amp.mode) && amp.Valid()
      ensures var cells := (if bufSize < required then bufSize else required) / CELL_SIZE;
        && amp.glyph.Length == cells * GLYPH_SIZE && amp.mode.Length == cells * MODE_SIZE
      ensures amp.width == w && amp.height == h && amp.palette == pal
      ensures Zeroed(amp.glyph[..]) && Zeroed(amp.mode[..])
    {
      required := (CELL_SIZE * w * h) % SIZE_LIMIT;
      var cells := (if bufSize < required then bufSize else required) / CELL_SIZE;
      assert cells <= w * h by {
        assert required <= CELL_SIZE * (w * h);
      }
      amp := new Amp.Make(w, h, pal, cells * GLYPH_SIZE, cells * MODE_SIZE);
      amp.Clear();
      assert CellCount(amp.State()) == cells;
      ZeroedIsValid(amp.State());
    }

    /** `amp_clear` (amp.h:738-741): zeroes both arrays. */
    method Clear()
      requires glyph != mode
      modifies glyph, mode
      ensures Zeroed(glyph[..]) && Zeroed(mode[..])
    {
      var i := 0;
      while i < glyph.Length
        invariant 0 <= i <= glyph.Length
        invariant forall k :: 0 <= k < i ==> glyph[k] == 0
      {
        glyph[i] := 0;
        i := i + 1;
      }
      i := 0;
      while i < mode.Length
        invariant 0 <= i <= mode.Length
        invariant forall k :: 0 <= k < i ==> mode[k] == 0
        invariant Zeroed(glyph[..])
      {
        mode[i] := 0;
        i := i + 1;
      }
    }

    /** `amp_set_palette` (amp.h:743-745). */
    method SetPalette(pal: Pal)
      requires Valid()
      modifies this
      ensures Valid() && State() == old(State()).(palette := pal)
    {
      palette := pal;
    }

    /** `amp_put_glyph` (amp.h:838-884). */
    method PutGlyph(str: seq<byte>, x: nat, y: nat) returns (r: Option<nat>)
      requires Valid()
      modifies glyph
      ensures Valid()
      ensures (State(), r) == Cells.PutGlyph(old(State()), str, x, y)
    {
      ghost var g := State();
      var index := CellIndex(width, height, x, y);
      if index < 0 || index * GLYPH_SIZE >= glyph.Length {
        return None;
      }
      var data, n := GlyphToStore(str);
      if n == 0 {
        return None;
      }
      var off := index * GLYPH_SIZE;
      OffsetsAgree(g, x, y);
      Copy(glyph, off, data, n);
      r := Some(off);
      PutGlyphWrites(g, str, x, y);
      PutGlyphKeepsValid(g, str, x, y);
    }

    /** The part of `amp_put_glyph` that fills its 5-byte buffer
        (amp.h:851-876): the string's first code point and a terminator, as
        `n` bytes; `n` is 0 when the string has no terminator within 5
        bytes or starts with a malformed code point. */
    static method GlyphToStore(str: seq<byte>) returns (data: array<byte>, n: nat)
      ensures fresh(data) && n <= data.Length
      ensures n > 0 <==>
        |CString(str)| < GLYPH_SIZE && CodePointSize(GlyphData(str), 0, |CString(str)| + 1) >= 0
      ensures n > 0 ==> data[..n] == FirstCodePoint(str) + [0]
    {
      var len;
      data, len := ReadGlyph(str);
      if len >= GLYPH_SIZE {
        return data, 0;
      }
      var cpsz := CodePointSize(data[..], 0, len + 1);
      // amp.h:868 also rejects sizes above 4, which `CodePointSize` never returns.
      if cpsz < 0 {
        return data, 0;
      }
      SizeWithinString(str);
      if cpsz < len {
        data[cpsz] := 0;
        len := cpsz;
      }
      assert data[..len + 1] == FirstCodePoint(str) + [0];
      n := len + 1;
    }

    /** The loop of `amp_put_glyph` that collects the string's bytes, up to
        and including its terminator, into a zeroed 5-byte buffer: `len` is
        the string's length when it is shorter than 5, and 5 otherwise. */
    static method ReadGlyph(str: seq<byte>) returns (data: array<byte>, len: nat)
      ensures fresh(data) && data.Length == GLYPH_SIZE && len <= GLYPH_SIZE
      ensures len < GLYPH_SIZE ==> len == |CString(str)| && data[..] == GlyphData(str)
      ensures len == GLYPH_SIZE ==> |CString(str)| >= GLYPH_SIZE
    {
      data := new byte[GLYPH_SIZE](_ => 0);
      len := 0;
      while len < GLYPH_SIZE
        invariant 0 <= len <= GLYPH_SIZE
        invariant forall k :: 0 <= k < len ==> data[k] == At(str, k) && At(str, k) != 0
        invariant forall k :: len <= k < GLYPH_SIZE ==> data[k] == 0
      {
        data[len] := At(str, len);
        if data[len] == 0 {
          break;
        }
        len := len + 1;
      }
      if len < GLYPH_SIZE {
        CStringLength(str, len);
        assert data[..] == GlyphData(str);
      } else {
        CStringAtLeast(str, GLYPH_SIZE);
      }
    }

    /** `memcpy(dst + off, src, n)`. */
    static method Copy(dst: array<byte>, off: nat, src: array<byte>, n: nat)
      requires n <= src.Length && off + n <= dst.Length && dst != src
      modifies dst
      ensures dst[..] == Splice(old(dst[..]), off, src[..n])
    {
      var j := 0;
      while j < n
        invariant 0 <= j <= n
        invariant dst[..] == Splice(old(dst[..]), off, src[..j])
      {
        dst[off + j] := src[j];
        assert src[..j + 1] == src[..j] + [src[j]];
        j := j + 1;
      }
    }

    /** `amp_set_mode` (amp.h:886-904). */
    method SetMode(x: nat, y: nat, m: Mode) returns (ok: bool)
      requires Valid()
      modifies mode
      ensures Valid()
      ensures (State(), ok) == Cells.SetMode(old(State()), x, y, m)
    {
      ghost var g := State();
      var index := CellIndex(width, height, x, y);
      if index < 0 || index * MODE_SIZE >= mode.Length {
        return false;
      }
      OffsetsAgree(g, x, y);
      ok := Serialize(m, mode, index * MODE_SIZE, MODE_SIZE);
    }

    /** `amp_put_style` (amp.h:944-1041): the background channel first,
        then the foreground, then the decorations, stored with
        `amp_set_mode`. */
    method PutStyle(style: Style, x: nat, y: nat) returns (ok: bool)
      requires Valid()
      modifies mode
      ensures Valid()
      ensures (State(), ok) == Cells.PutStyle(old(State()), style, x, y)
    {
      var m := GetMode(State(), x, y);
      var bgSet, bg := PutChannel(style, Bg, m.bg);
      var fgSet, fg := PutChannel(style, Fg, m.fg);
      var m' := m.(bg := bg, bgSet := bgSet, fg := fg, fgSet := fgSet,
                   hidden := style & HIDDEN != 0, faint := style & FAINT != 0,
                   italic := style & ITALIC != 0, underline := style & UNDERLINE != 0,
                   blinking := style & BLINKING != 0, strikethrough := style & STRIKETHROUGH != 0);
      assert m' == Resolve(m, style);
      ok := SetMode(x, y, m');
    }

    /** `amp_draw_glyph` (amp.h:1043-1074). */
    method DrawGlyph(style: Style, x: int, y: int, str: seq<byte>)
      requires Valid()
      modifies glyph, mode
      ensures Valid()
      ensures State() == Cells.DrawGlyph(old(State()), style, x, y, str)
    {
      // The further test against `UINT32_MAX` is implied by the width and
      // height being 32-bit.
      if x < 0 || x >= width || y < 0 || y >= height {
        return;
      }
      var drawn := GlyphToDraw(str);
      if drawn.None? {
        return;
      }
      var _ := PutGlyph(drawn.value, x, y);
      var _ := PutStyle(style, x, y);
    }

    /** The part of `amp_draw_glyph` that builds the glyph in a zeroed
        5-byte buffer (amp.h:1050-1070): the string's first code point,
        with a lone non-printable byte replaced by '?'. */
    static method GlyphToDraw(str: seq<byte>) returns (r: Option<seq<byte>>)
      ensures r == DrawnGlyph(str)
    {
      var size := MeasureGlyph(str);
      var cpsz := CodePointSize(str, 0, size);
      // amp.h:1062 also rejects sizes of 5 and more, which `CodePointSize`
      // never returns.
      if cpsz < 0 {
        return None;
      }
      var data := new byte[GLYPH_SIZE](_ => 0);
      var i := 0;
      while i < cpsz
        invariant 0 <= i <= cpsz
        invariant forall k :: 0 <= k < i ==> data[k] == At(str, k)
      {
        data[i] := At(str, i);
        i := i + 1;
      }
      assert data[..cpsz] == Take(str, cpsz);
      if cpsz == 1 && !IsPrint(data[0]) {
        data[0] := '?' as byte;
        assert data[..cpsz] == ['?' as byte];
      }
      r := Some(data[..cpsz]);
    }

    /** The loop of `amp_draw_glyph` that measures the string, stopping at
        5 bytes. */
    static method MeasureGlyph(str: seq<byte>) returns (size: nat)
      ensures size == if |CString(str)| < GLYPH_SIZE then |CString(str)| else GLYPH_SIZE
    {
      size := 0;
      while At(str, size) != 0
        invariant 0 <= size < GLYPH_SIZE
        invariant forall k :: 0 <= k < size ==> At(str, k) != 0
        decreases GLYPH_SIZE - size
      {
        if size + 1 >= GLYPH_SIZE {
          size := size + 1;
          CStringAtLeast(str, GLYPH_SIZE);
          return;
        }
        size := size + 1;
      }
      CStringLength(str, size);
    }
  }
}
