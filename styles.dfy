/** Styles (`AMP_STYLE`): a 64-bit set of decoration bits and named colour
    bits for the foreground and background, and how a style becomes a cell
    mode. */
module Styles {
  import opened Common
  import opened Palette
  import opened Modes

  type Style = bv64

  const HIDDEN: Style := 1
  const FAINT: Style := 2
  const ITALIC: Style := 4
  const UNDERLINE: Style := 8
  const BLINKING: Style := 16
  const STRIKETHROUGH: Style := 32

  /** The six decoration bits. */
  const DECORATIONS: Style := 0x3F

  datatype Channel = Fg | Bg

  /** The style bit of entry `i` of the `AMP_COLOR` enumeration for a
      channel: `AMP_FG_NONE`, `AMP_FG_BLACK` .. `AMP_FG_WHITE` are bits 6 to
      22 and `AMP_BG_NONE`, `AMP_BG_BLACK` .. `AMP_BG_WHITE` bits 24 to 40
      (amp.h:72-93). */
  function ColorBit(ch: Channel, i: nat): Style
    requires i < MAX_COLOR
  {
    var fg: Style :=
      if i == 0 then 0x40 else if i == 1 then 0x80 else if i == 2 then 0x100
      else if i == 3 then 0x200 else if i == 4 then 0x400 else if i == 5 then 0x800
      else if i == 6 then 0x1000 else if i == 7 then 0x2000 else if i == 8 then 0x4000
      else if i == 9 then 0x8000 else if i == 10 then 0x1_0000 else if i == 11 then 0x2_0000
      else if i == 12 then 0x4_0000 else if i == 13 then 0x8_0000 else if i == 14 then 0x10_0000
      else if i == 15 then 0x20_0000 else 0x40_0000;
    if ch == Fg then fg else fg << 18
  }

  /** `fg_colors` / `bg_colors` of `amp_put_style`: the NONE bit and the 16
      colour bits of the channel (amp.h:945-957). */
  function ColorMask(ch: Channel): Style
  {
    if ch == Fg then 0x7F_FFC0 else 0x1_FFFF_00_0000
  }

  /** Which entries of the colour table a style names for a channel. */
  function Picks(style: Style, ch: Channel): (p: seq<bool>)
    ensures |p| == MAX_COLOR
  {
    seq(MAX_COLOR, i requires 0 <= i < MAX_COLOR => style & ColorBit(ch, i) != 0)
  }

  /** Running sums of the channels of the colours selected so far. */
  datatype Sum = Sum(r: nat, g: nat, b: nat, count: nat)

  /** The sums and the count over the colours `1..k-1` picked: the
      accumulation loop of `amp_put_style`. */
  function Total(picks: seq<bool>, k: nat): (t: Sum)
    requires k <= |picks| && k <= MAX_COLOR
    ensures t.r <= 255 * t.count && t.g <= 255 * t.count && t.b <= 255 * t.count
  {
    if k <= 1 then Sum(0, 0, 0, 0)
    else
      var t := Total(picks, k - 1);
      if picks[k - 1] then
        var c := NamedColor(k - 1);
        Sum(t.r + c.r, t.g + c.g, t.b + c.b, t.count + 1)
      else t
  }

  lemma MeanBound(sum: nat, count: nat)
    requires count > 0 && sum <= 255 * count
    ensures sum / count <= 255
  {
  }

  /** The colour a channel takes: each component the truncated mean of
      that component over the colours picked. */
  function Mean(picks: seq<bool>): Rgb
    requires |picks| == MAX_COLOR && Total(picks, MAX_COLOR).count > 0
  {
    MeanOf(Total(picks, MAX_COLOR))
  }

  function MeanOf(t: Sum): Rgb
    requires t.count > 0
    requires t.r <= 255 * t.count && t.g <= 255 * t.count && t.b <= 255 * t.count
  {
    MeanBound(t.r, t.count);
    MeanBound(t.g, t.count);
    MeanBound(t.b, t.count);
    Rgb(t.r / t.count, t.g / t.count, t.b / t.count)
  }

  /** The count is 0 exactly when no colour below `k` is picked. */
  lemma {:induction false} CountZero(picks: seq<bool>, k: nat)
    requires k <= |picks| && k <= MAX_COLOR
    ensures Total(picks, k).count == 0 <==> forall i :: 1 <= i < k ==> !picks[i]
  {
    if k > 1 {
      CountZero(picks, k - 1);
    }
  }

  /** The style names a colour for the channel: some bit of the channel's
      group is set, and it is not the NONE bit (amp.h:961-996). */
  predicate NamesColor(style: Style, ch: Channel)
  {
    style & ColorMask(ch) != 0 && style & ColorBit(ch, 0) == 0
  }

  /** A style that names the channel without its NONE bit picks at least
      one colour, so the division in `amp_put_style` is by a positive
      count. */
  lemma SomeColorPicked(style: Style, ch: Channel)
    requires style & ColorMask(ch) != 0 && style & ColorBit(ch, 0) == 0
    ensures Total(Picks(style, ch), MAX_COLOR).count > 0
  {
    var p := Picks(style, ch);
    CountZero(p, MAX_COLOR);
    if Total(p, MAX_COLOR).count == 0 {
      NoPickNoColor(style, ch);
    }
  }

  /** A style that picks no colour of a channel has, of the channel's
      bits, at most the NONE bit. */
  lemma NoPickNoColor(style: Style, ch: Channel)
    requires forall i :: 1 <= i < MAX_COLOR ==> !Picks(style, ch)[i]
    ensures style & ColorMask(ch) == style & ColorBit(ch, 0)
  {
    var p := Picks(style, ch);
    forall i | 1 <= i < MAX_COLOR
      ensures style & ColorBit(ch, i) == 0
    {
      assert !p[i];
    }
    MaskOfBits(style, ch);
  }

  /** The channel mask is the union of the channel's 17 bits. */
  lemma MaskOfBits(style: Style, ch: Channel)
    requires forall i :: 1 <= i < MAX_COLOR ==> style & ColorBit(ch, i) == 0
    ensures style & ColorMask(ch) == style & ColorBit(ch, 0)
  {
    var s := if ch == Fg then style else style >> 18;
    assert s & 0x80 == 0 && s & 0x100 == 0 && s & 0x200 == 0 && s & 0x400 == 0 by {
      assert style & ColorBit(ch, 1) == 0 && style & ColorBit(ch, 2) == 0;
      assert style & ColorBit(ch, 3) == 0 && style & ColorBit(ch, 4) == 0;
    }
    assert s & 0x800 == 0 && s & 0x1000 == 0 && s & 0x2000 == 0 && s & 0x4000 == 0 by {
      assert style & ColorBit(ch, 5) == 0 && style & ColorBit(ch, 6) == 0;
      assert style & ColorBit(ch, 7) == 0 && style & ColorBit(ch, 8) == 0;
    }
    assert s & 0x8000 == 0 && s & 0x1_0000 == 0 && s & 0x2_0000 == 0 && s & 0x4_0000 == 0 by {
      assert style & ColorBit(ch, 9) == 0 && style & ColorBit(ch, 10) == 0;
      assert style & ColorBit(ch, 11) == 0 && style & ColorBit(ch, 12) == 0;
    }
    assert s & 0x8_0000 == 0 && s & 0x10_0000 == 0 && s & 0x20_0000 == 0 && s & 0x40_0000 == 0 by {
      assert style & ColorBit(ch, 13) == 0 && style & ColorBit(ch, 14) == 0;
      assert style & ColorBit(ch, 15) == 0 && style & ColorBit(ch, 16) == 0;
    }
  }

  /** The colour and set-flag a channel ends with (amp.h:959-1032): a style
      without the channel's bits, or with its NONE bit, clears the flag and
      leaves the colour; otherwise the flag is set and the colour is the
      mean of the colours named. */
  function ResolveChannel(style: Style, ch: Channel, color: Rgb): (r: (bool, Rgb))
    ensures r.0 <==> NamesColor(style, ch)
    ensures !r.0 ==> r.1 == color
    ensures r.0 ==> Total(Picks(style, ch), MAX_COLOR).count > 0 && r.1 == Mean(Picks(style, ch))
  {
    if style & ColorMask(ch) != 0 then
      if style & ColorBit(ch, 0) != 0 then (false, color)
      else
        SomeColorPicked(style, ch);
        (true, Mean(Picks(style, ch)))
    else (false, color)
  }

  /** The mode `amp_put_style` stores over `m` (amp.h:929-1041): both
      channels resolved, decorations copied from the style bits, the rest
      of `m` kept. */
  function Resolve(m: Mode, style: Style): (r: Mode)
    ensures r.fgSet <==> NamesColor(style, Fg)
    ensures r.bgSet <==> NamesColor(style, Bg)
    ensures r.reset == m.reset && r.broken == m.broken
  {
    var b := ResolveChannel(style, Bg, m.bg);
    var f := ResolveChannel(style, Fg, m.fg);
    m.(fg := f.1, bg := b.1, fgSet := f.0, bgSet := b.0,
       hidden := style & HIDDEN != 0, faint := style & FAINT != 0,
       italic := style & ITALIC != 0, underline := style & UNDERLINE != 0,
       blinking := style & BLINKING != 0, strikethrough := style & STRIKETHROUGH != 0)
  }

  /** The style bits `amp_get_style` reports for a mode (amp.h:929-942):
      the decorations only. */
  function Decorations(m: Mode): (s: Style)
    ensures s & DECORATIONS == s
  {
    (if m.hidden then HIDDEN else 0) | (if m.faint then FAINT else 0) |
    (if m.italic then ITALIC else 0) | (if m.underline then UNDERLINE else 0) |
    (if m.blinking then BLINKING else 0) | (if m.strikethrough then STRIKETHROUGH else 0)
  }

  /** Reading the style back after resolving a style gives exactly the
      decoration bits written, and no colour bit. */
  lemma DecorationsOfResolve(m: Mode, style: Style)
    ensures Decorations(Resolve(m, style)) == style & DECORATIONS
  {
  }

  /** Naming a single colour of a channel stores that colour exactly: the
      mean of one colour is the colour itself. */
  lemma SingleColor(style: Style, ch: Channel, i: nat)
    requires 1 <= i < MAX_COLOR
    requires style & ColorMask(ch) != 0 && style & ColorBit(ch, 0) == 0
    requires forall j :: 1 <= j < MAX_COLOR ==> (Picks(style, ch)[j] <==> j == i)
    ensures ResolveChannel(style, ch, Rgb(0, 0, 0)) == (true, LookupColor(i))
  {
    SingleTotal(Picks(style, ch), i, MAX_COLOR);
  }

  lemma {:induction false} SingleTotal(picks: seq<bool>, i: nat, k: nat)
    requires 1 <= i < MAX_COLOR && k <= MAX_COLOR == |picks|
    requires forall j :: 1 <= j < MAX_COLOR ==> (picks[j] <==> j == i)
    ensures var c := NamedColor(i);
      Total(picks, k) == if k <= i then Sum(0, 0, 0, 0) else Sum(c.r, c.g, c.b, 1)
  {
    if k > 1 {
      SingleTotal(picks, i, k - 1);
    }
  }

  /** The accumulation loop of `amp_put_style` for one channel: the sums
      and the count over the colours picked (amp.h:967-978 and 1004-1015). */
  method SumPicked(picks: seq<bool>) returns (t: Sum)
    requires |picks| == MAX_COLOR
    ensures t == Total(picks, MAX_COLOR)
  {
    var r: nat, g: nat, b: nat, colors: nat := 0, 0, 0, 0;
    for i := 1 to MAX_COLOR
      invariant Total(picks, i) == Sum(r, g, b, colors)
    {
      if picks[i] {
        var row := NamedColor(i);
        r, g, b := r + row.r, g + row.g, b + row.b;
        colors := colors + 1;
      }
    }
    t := Sum(r, g, b, colors);
  }

  /** The colour `amp_put_style` computes for a channel the style names:
      the sums, then the truncating divisions (amp.h:964-987 and
      1001-1024). */
  method MeanColor(style: Style, ch: Channel) returns (c: Rgb)
    requires style & ColorMask(ch) != 0 && style & ColorBit(ch, 0) == 0
    ensures Total(Picks(style, ch), MAX_COLOR).count > 0 && c == Mean(Picks(style, ch))
  {
    SomeColorPicked(style, ch);
    var t := SumPicked(Picks(style, ch));
    c := MeanOf(t);
  }

  /** One channel's block of `amp_put_style` (amp.h:959-996 for the
      background, 998-1032 for the foreground). */
  method PutChannel(style: Style, ch: Channel, color: Rgb) returns (isSet: bool, c: Rgb)
    ensures (isSet, c) == ResolveChannel(style, ch, color)
  {
    c := color;
    if style & ColorMask(ch) != 0 {
      if style & ColorBit(ch, 0) != 0 {
        isSet := false;
      } else {
        isSet := true;
        c := MeanColor(style, ch);
        ResolvedColor(style, ch, color);
      }
    } else {
      isSet := false;
    }
  }

  lemma ResolvedColor(style: Style, ch: Channel, color: Rgb)
    requires style & ColorMask(ch) != 0 && style & ColorBit(ch, 0) == 0
    ensures Total(Picks(style, ch), MAX_COLOR).count > 0
    ensures ResolveChannel(style, ch, color) == (true, Mean(Picks(style, ch)))
  {
    SomeColorPicked(style, ch);
  }
}
