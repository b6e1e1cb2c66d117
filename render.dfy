/** The ANSI renderer (amp.h:1203-1680): escape sequences for cell modes,
    and rows and whole canvases as text for a terminal. Every output goes to
    a character buffer `dst` from position `at` on, with the room
    `SubSize(dst.Length, at)` that is left there (the C pointer
    `ans_dst + at` and its size); each method returns the length the text
    would have had with room to spare, and the buffer holds that text in
    the sense of `StrBuf.Holds`. */
module Render {
  import opened Common
  import opened StrBuf
  import opened Palette
  import opened Modes
  import opened Sgr
  import opened Cells
  import opened Canvas

  /** The text of `piece` after `text`, joined by ';' when `text` is not
      empty: how each parameter enters the local `ans` buffer. */
  function Then(text: string, piece: string): (r: string)
    ensures text == [] ==> r == piece
    ensures text != [] ==> r == text + ";" + piece
  {
    if text == [] then piece else text + ";" + piece
  }

  lemma ThenAppend(text: string, a: string, b: string)
    ensures Then(text, a) + b == Then(text, a + b)
  {
    if text != [] {
      assert text + ";" + a + b == text + ";" + (a + b);
    }
  }

  /** The parameter text is empty exactly for no command. */
  lemma ParamTextEmpty(cmds: seq<Command>)
    ensures ParamText(cmds) == [] <==> cmds == []
  {
  }

  /** One more command's parameters join the text with a ';'. */
  lemma ParamTextSnoc(a: seq<Command>, b: seq<Command>)
    requires b != []
    ensures ParamText(a + b) == Then(ParamText(a), ParamText(b))
  {
    if a == [] {
      assert a + b == b;
    } else {
      ParamTextAppend(a, b);
    }
  }

  /** The text of the escape sequence around a parameter text. */
  function Wrapped(text: string): (r: string)
    ensures text == [] ==> r == []
    ensures text != [] ==> r == CSI + text + "m"
  {
    if text == [] then [] else CSI + text + "m"
  }

  /** Appends `piece` to the local buffer `ans`, after a ';' when `ans`
      already holds something. */
  method Put(ans: array<char>, used: nat, ghost text: string, piece: string)
    returns (used': nat, ghost text': string)
    requires NUL !in piece
    requires used == |text| && (text == [] || Holds(ans[..], 0, text))
    modifies ans
    ensures text' == Then(text, piece) && used' == |text'|
    ensures Holds(ans[..], 0, text')
  {
    used', text' := used, text;
    if used' != 0 {
      var k := Emit(ans, 0, used', text', ";");
      used', text' := used' + k, text' + ";";
    }
    var k := Emit(ans, 0, used', text', piece);
    used', text' := used' + k, text' + piece;
  }

  /** The end of `amp_mode_to_ans` and `amp_mode_update_to_ans`: `ESC [`,
      the parameters collected in `ans`, and `m`; or, with no parameter, a
      terminator at `at` when there is room for it. */
  method WrapSgr(ans: array<char>, used: nat, ghost text: string, dst: array<char>, at: nat)
    returns (n: nat)
    requires ans != dst
    requires used == |text| && (text == [] || Holds(ans[..], 0, text))
    requires |text| < ans.Length && NUL !in text
    modifies dst
    ensures n == |Wrapped(text)|
    ensures Holds(dst[..], at, Wrapped(text))
    ensures SameBefore(old(dst[..]), dst[..], at)
  {
    if used != 0 {
      CStrOfHolds(ans[..], text);
      ghost var d0 := dst[..];
      n := Emit(dst, at, 0, [], CSI);
      assert [] + CSI == CSI;
      ghost var d1 := dst[..];
      var k := Emit(dst, at, n, CSI, CStr(ans[..]));
      n := n + k;
      ghost var d2 := dst[..];
      k := Emit(dst, at, n, CSI + text, "m");
      n := n + k;
      assert SameBefore(d0, dst[..], at);
    } else {
      if at < dst.Length {
        dst[at] := NUL;
      }
      n := 0;
    }
  }

  /** The first loop of `amp_mode_to_ans` (amp.h:1261-1285): the codes of
      the options present, in the order of `options[]`. */
  method DecorationsToAns(m: Mode, ans: array<char>) returns (used: nat, ghost text: string)
    modifies ans
    ensures text == ParamText(DecorationCmds(m)) && used == |text|
    ensures text == [] || Holds(ans[..], 0, text)
  {
    var opts := Options(m);
    used, text := 0, [];
    for i := 0 to 7
      invariant text == ParamText(Chosen(opts, i)) && used == |text|
      invariant text == [] || Holds(ans[..], 0, text)
    {
      if opts[i].Some? {
        assert Chosen(opts, i + 1) == Chosen(opts, i) + [Code(opts[i].value)];
        ParamTextSnoc(Chosen(opts, i), [Code(opts[i].value)]);
        CodeText(opts[i].value);
        used, text := Put(ans, used, text, NumberText(opts[i].value));
      } else {
        assert Chosen(opts, i + 1) == Chosen(opts, i) + [] == Chosen(opts, i);
      }
    }
    assert opts[..7] == opts;
  }

  /** The parameters of a 24-bit colour, `38;2;r;g;b` or `48;2;r;g;b`. */
  lemma Rgb24Text(c: Rgb)
    ensures ParamText([Fg24(c)]) == "38;2;" + NumberText(c.r) + ";" + NumberText(c.g) + ";" + NumberText(c.b)
    ensures ParamText([Bg24(c)]) == "48;2;" + NumberText(c.r) + ";" + NumberText(c.g) + ";" + NumberText(c.b)
  {
    var r, g, b := NumberText(c.r), NumberText(c.g), NumberText(c.b);
    assert Flatten([Fg24(c)]) == [38, 2, c.r, c.g, c.b] by {
      assert Flatten([Fg24(c)]) == Numbers(Fg24(c)) + Flatten([]);
    }
    assert Flatten([Bg24(c)]) == [48, 2, c.r, c.g, c.b] by {
      assert Flatten([Bg24(c)]) == Numbers(Bg24(c)) + Flatten([]);
    }
    LeadText(38, c);
    LeadText(48, c);
    assert NumberText(38) + ";2;" == "38;2;";
    assert NumberText(48) + ";2;" == "48;2;";
  }

  lemma LeadText(lead: byte, c: Rgb)
    ensures CodesText([lead, 2, c.r, c.g, c.b])
      == NumberText(lead) + ";2;" + NumberText(c.r) + ";" + NumberText(c.g) + ";" + NumberText(c.b)
  {
    var r, g, b := NumberText(c.r), NumberText(c.g), NumberText(c.b);
    var gb := CodesText([c.g, c.b]);
    var rgb := CodesText([c.r, c.g, c.b]);
    var two := CodesText([2, c.r, c.g, c.b]);
    assert gb == g + ";" + b by {
      CodesTextStep([c.g, c.b]);
    }
    assert rgb == r + ";" + gb by {
      CodesTextStep([c.r, c.g, c.b]);
    }
    assert two == "2" + ";" + rgb by {
      CodesTextStep([2, c.r, c.g, c.b]);
    }
    CodesTextStep([lead, 2, c.r, c.g, c.b]);
  }

  lemma CodesTextStep(s: seq<byte>)
    requires |s| >= 2
    ensures CodesText(s) == NumberText(s[0]) + ";" + CodesText(s[1..])
  {
  }

  /** One 24-bit colour (amp.h:1289-1369): the lead `38;2;` or `48;2;`
      after a separator, the red numeral straight after it, then green and
      blue each after a separator. */
  method RgbToAns(ans: array<char>, used: nat, ghost text: string, lead: string, c: Rgb)
    returns (used': nat, ghost text': string)
    requires used == |text| && (text == [] || Holds(ans[..], 0, text))
    requires lead != [] && NUL !in lead
    modifies ans
    ensures text' == Then(text, lead + NumberText(c.r) + ";" + NumberText(c.g) + ";" + NumberText(c.b))
    ensures used' == |text'| && Holds(ans[..], 0, text')
  {
    var r, g, b := NumberText(c.r), NumberText(c.g), NumberText(c.b);
    used', text' := Put(ans, used, text, lead);
    var k := Emit(ans, 0, used', text', r);
    used', text' := used' + k, text' + r;
    ThenAppend(text, lead, r);
    used', text' := Put(ans, used', text', g);
    ThenAppend(text, lead + r, ";" + g);
    assert text' == Then(text, lead + r + ";" + g);
    used', text' := Put(ans, used', text', b);
    ThenAppend(text, lead + r + ";" + g, ";" + b);
  }

  /** One channel of the 24-bit branch after the commands `done`. */
  method Channel24ToAns(ans: array<char>, used: nat, ghost text: string, ghost done: seq<Command>,
                        lead: string, ghost cmd: Command, c: Rgb)
    returns (used': nat, ghost text': string)
    requires text == ParamText(done) && used == |text|
    requires text == [] || Holds(ans[..], 0, text)
    requires (lead == "38;2;" && cmd == Fg24(c)) || (lead == "48;2;" && cmd == Bg24(c))
    modifies ans
    ensures text' == ParamText(done + [cmd]) && used' == |text'|
    ensures Holds(ans[..], 0, text')
  {
    Rgb24Text(c);
    ParamTextSnoc(done, [cmd]);
    used', text' := RgbToAns(ans, used, text, lead, c);
  }

  /** The 24-bit branch of `amp_mode_to_ans` (amp.h:1289-1370). */
  method Colors24ToAns(m: Mode, ans: array<char>, used: nat, ghost text: string, ghost cmds: seq<Command>)
    returns (used': nat, ghost text': string)
    requires text == ParamText(cmds) && used == |text|
    requires text == [] || Holds(ans[..], 0, text)
    modifies ans
    ensures text' == ParamText(cmds + Colors24(m)) && used' == |text'|
    ensures text' == [] || Holds(ans[..], 0, text')
  {
    used', text' := used, text;
    ghost var d1 := cmds;
    if m.fgSet {
      used', text' := Channel24ToAns(ans, used', text', d1, "38;2;", Fg24(m.fg), m.fg);
      d1 := d1 + [Fg24(m.fg)];
    }
    ghost var d2 := d1;
    if m.bgSet {
      used', text' := Channel24ToAns(ans, used', text', d1, "48;2;", Bg24(m.bg), m.bg);
      d2 := d1 + [Bg24(m.bg)];
    }
    Colors24Sum(m, cmds, d1, d2);
  }

  lemma Colors24Sum(m: Mode, cmds: seq<Command>, d1: seq<Command>, d2: seq<Command>)
    requires d1 == if m.fgSet then cmds + [Fg24(m.fg)] else cmds
    requires d2 == if m.bgSet then d1 + [Bg24(m.bg)] else d1
    ensures d2 == cmds + Colors24(m)
  {
  }

  /** The parameter of a single code is its numeral. */
  lemma CodeText(v: byte)
    ensures ParamText([Code(v)]) == NumberText(v)
  {
    assert Flatten([Code(v)]) == [v] by {
      assert Flatten([Code(v)]) == Numbers(Code(v)) + Flatten([]);
    }
  }

  /** One code after the commands `done`. */
  method CodeToAns(ans: array<char>, used: nat, ghost text: string, ghost done: seq<Command>, code: string, ghost v: byte)
    returns (used': nat, ghost text': string)
    requires text == ParamText(done) && used == |text|
    requires text == [] || Holds(ans[..], 0, text)
    requires code == NumberText(v)
    modifies ans
    ensures text' == ParamText(done + [Code(v)]) && used' == |text'|
    ensures Holds(ans[..], 0, text')
  {
    ParamTextSnoc(done, [Code(v)]);
    CodeText(v);
    used', text' := Put(ans, used, text, code);
  }

  /** The start of the 16-colour branch (amp.h:1372-1390): a background
      nearest to a bright colour is shown in reverse video, `7`, with the
      channels swapped. */
  method SwapToAns(m: Mode, ans: array<char>, used: nat, ghost text: string, ghost cmds: seq<Command>)
    returns (mm: Mode, used': nat, ghost text': string)
    requires text == ParamText(cmds) && used == |text|
    requires text == [] || Holds(ans[..], 0, text)
    modifies ans
    ensures mm == Swapped(m)
    ensures text' == ParamText(cmds + (if BrightBg(m) then [Code(7)] else [])) && used' == |text'|
    ensures text' == [] || Holds(ans[..], 0, text')
  {
    mm, used', text' := m, used, text;
    if mm.bgSet {
      var row := FindRgb16(BgTable(), mm.bg);
      BgTableRow(BgRow(m.bg));
      if row.bright {
        var buf := mm.bg;
        mm := mm.(bg := mm.fg, fg := buf, bgSet := mm.fgSet, fgSet := true);
        used', text' := CodeToAns(ans, used', text', cmds, "7", 7);
        return;
      }
    }
    assert cmds + [] == cmds;
  }

  /** The foreground of the 16-colour branch (amp.h:1393-1418): `1` for a
      bright row, then the row's code. */
  method Fg16ToAns(c: Rgb, ans: array<char>, used: nat, ghost text: string, ghost cmds: seq<Command>)
    returns (used': nat, ghost text': string)
    requires text == ParamText(cmds) && used == |text|
    requires text == [] || Holds(ans[..], 0, text)
    modifies ans
    ensures text' == ParamText(cmds + Fg16(c)) && used' == |text'|
    ensures Holds(ans[..], 0, text')
  {
    used', text' := used, text;
    var row := FindRgb16(FgTable(), c);
    FgTableRow(FgRow(c));
    ghost var d1 := cmds;
    if row.bright {
      used', text' := CodeToAns(ans, used', text', d1, "1", 1);
      d1 := d1 + [Code(1)];
    }
    used', text' := CodeToAns(ans, used', text', d1, row.code, FgCode(FgRow(c)));
    Fg16Sum(c, cmds, d1);
  }

  lemma Fg16Sum(c: Rgb, cmds: seq<Command>, d1: seq<Command>)
    requires d1 == if IsBright(FgRow(c)) then cmds + [Code(1)] else cmds
    ensures d1 + [Code(FgCode(FgRow(c)))] == cmds + Fg16(c)
  {
  }

  /** The background of the 16-colour branch (amp.h:1420-1431). */
  method Bg16ToAns(c: Rgb, ans: array<char>, used: nat, ghost text: string, ghost cmds: seq<Command>)
    returns (used': nat, ghost text': string)
    requires text == ParamText(cmds) && used == |text|
    requires text == [] || Holds(ans[..], 0, text)
    modifies ans
    ensures text' == ParamText(cmds + [Code(BgCode(BgRow(c)))]) && used' == |text'|
    ensures Holds(ans[..], 0, text')
  {
    var row := FindRgb16(BgTable(), c);
    BgTableRow(BgRow(c));
    used', text' := CodeToAns(ans, used, text, cmds, row.code, BgCode(BgRow(c)));
  }

  /** The commands that `SwappedToAns` has emitted after its two steps
      add up to `ChannelCmds`. */
  lemma ChannelCmdsSum(mm: Mode, cmds: seq<Command>, d2: seq<Command>)
    requires d2 == if mm.fgSet then cmds + Fg16(mm.fg) else cmds
    ensures (if mm.bgSet then d2 + [Code(BgCode(BgRow(mm.bg)))] else d2) == cmds + ChannelCmds(mm)
  {
  }

  /** The commands that `Colors16ToAns` has emitted add up to `Colors16`. */
  lemma Colors16Sum(m: Mode, cmds: seq<Command>, d1: seq<Command>)
    requires d1 == cmds + (if BrightBg(m) then [Code(7)] else [])
    ensures d1 + ChannelCmds(Swapped(m)) == cmds + Colors16(m)
  {
  }

  /** The 16-colour branch of `amp_mode_to_ans` (amp.h:1371-1432). */
  method Colors16ToAns(m: Mode, ans: array<char>, used: nat, ghost text: string, ghost cmds: seq<Command>)
    returns (used': nat, ghost text': string)
    requires text == ParamText(cmds) && used == |text|
    requires text == [] || Holds(ans[..], 0, text)
    modifies ans
    ensures text' == ParamText(cmds + Colors16(m)) && used' == |text'|
    ensures text' == [] || Holds(ans[..], 0, text')
  {
    var mm;
    mm, used', text' := SwapToAns(m, ans, used, text, cmds);
    ghost var d1 := cmds + (if BrightBg(m) then [Code(7)] else []);
    used', text' := SwappedToAns(mm, ans, used', text', d1);
    Colors16Sum(m, cmds, d1);
  }

  /** The two channels of the 16-colour branch, after the swap. */
  method SwappedToAns(mm: Mode, ans: array<char>, used: nat, ghost text: string, ghost cmds: seq<Command>)
    returns (used': nat, ghost text': string)
    requires text == ParamText(cmds) && used == |text|
    requires text == [] || Holds(ans[..], 0, text)
    modifies ans
    ensures text' == ParamText(cmds + ChannelCmds(mm)) && used' == |text'|
    ensures text' == [] || Holds(ans[..], 0, text')
  {
    used', text' := FgPartToAns(mm, ans, used, text, cmds);
    ghost var d2 := if mm.fgSet then cmds + Fg16(mm.fg) else cmds;
    used', text' := BgPartToAns(mm, ans, used', text', d2);
    ChannelCmdsSum(mm, cmds, d2);
  }

  /** The foreground of the 16-colour branch, when it is set. */
  method FgPartToAns(mm: Mode, ans: array<char>, used: nat, ghost text: string, ghost cmds: seq<Command>)
    returns (used': nat, ghost text': string)
    requires text == ParamText(cmds) && used == |text|
    requires text == [] || Holds(ans[..], 0, text)
    modifies ans
    ensures text' == ParamText(if mm.fgSet then cmds + Fg16(mm.fg) else cmds) && used' == |text'|
    ensures text' == [] || Holds(ans[..], 0, text')
  {
    used', text' := used, text;
    if mm.fgSet {
      used', text' := Fg16ToAns(mm.fg, ans, used, text, cmds);
    }
  }

  /** The background of the 16-colour branch, when it is set. */
  method BgPartToAns(mm: Mode, ans: array<char>, used: nat, ghost text: string, ghost cmds: seq<Command>)
    returns (used': nat, ghost text': string)
    requires text == ParamText(cmds) && used == |text|
    requires text == [] || Holds(ans[..], 0, text)
    modifies ans
    ensures text' == ParamText(if mm.bgSet then cmds + [Code(BgCode(BgRow(mm.bg)))] else cmds) && used' == |text'|
    ensures text' == [] || Holds(ans[..], 0, text')
  {
    used', text' := used, text;
    if mm.bgSet {
      used', text' := Bg16ToAns(mm.bg, ans, used, text, cmds);
    }
  }

  /** `amp_mode_to_ans` (amp.h:1254-1457): the escape sequence that sets
      up mode `m` with palette `pal`. */
  method ModeToAns(m: Mode, pal: Pal, dst: array<char>, at: nat) returns (n: nat)
    modifies dst
    ensures n == |SgrText(Cmds(m, pal))|
    ensures Holds(dst[..], at, SgrText(Cmds(m, pal)))
    ensures SameBefore(old(dst[..]), dst[..], at)
  {
    var ans := new char[256];
    var used;
    ghost var text;
    used, text := DecorationsToAns(m, ans);
    if pal == Pal24Bit {
      used, text := Colors24ToAns(m, ans, used, text, DecorationCmds(m));
    } else {
      used, text := Colors16ToAns(m, ans, used, text, DecorationCmds(m));
    }
    CmdsBound(m, pal);
    ParamTextHasNoNul(Cmds(m, pal));
    ParamTextEmpty(Cmds(m, pal));
    n := WrapSgr(ans, used, text, dst, at);
  }

  /** A buffer holding an escape sequence `ESC [ p m`, with its `m`
      overwritten by a terminator, reads as `p` from its third character
      on. */
  lemma StripSgr(buf: seq<char>, p: string)
    requires |p| + 3 < |buf| && NUL !in p
    requires Holds(buf, 0, CSI + p + "m")
    ensures CStr(buf[|p| + 2 := NUL][2..]) == p
  {
    var s := buf[|p| + 2 := NUL][2..];
    MatchIff(buf, 0, CSI + p + "m", |p| + 3);
    assert buf[..|p| + 3] == CSI + p + "m";
    assert s[..|p|] == p;
    CStrOfTerminated(s, p);
  }

  /** One pass of the loop of `amp_mode_update_to_ans` (amp.h:1538-1555):
      `part` is rendered into `buf`; when that gave a sequence, its
      parameters, between `ESC [` and `m`, join `ans` after the commands
      `done`. */
  method PartToAns(part: Mode, pal: Pal, buf: array<char>, ans: array<char>, used: nat,
                   ghost text: string, ghost done: seq<Command>)
    returns (used': nat, ghost text': string)
    requires buf != ans && buf.Length == 256
    requires text == ParamText(done) && used == |text|
    requires text == [] || Holds(ans[..], 0, text)
    modifies buf, ans
    ensures text' == ParamText(done + Cmds(part, pal)) && used' == |text'|
    ensures text' == [] || Holds(ans[..], 0, text')
  {
    ghost var cmds := Cmds(part, pal);
    CmdsBound(part, pal);
    ParamTextHasNoNul(cmds);
    ParamTextEmpty(cmds);
    var size := ModeToAns(part, pal, buf, 0);
    used', text' := PieceToAns(buf, size, ParamText(cmds), ans, used, text);
    if cmds == [] {
      assert done + cmds == done;
    } else {
      ParamTextSnoc(done, cmds);
    }
  }

  /** The rest of that pass, once `buf` holds the escape sequence with the
      parameter text `p` (or nothing, when `p` is empty): the sequence is cut
      at its `m` and what lies after `ESC [` is appended to `ans`. */
  method PieceToAns(buf: array<char>, size: nat, ghost p: string, ans: array<char>, used: nat,
                    ghost text: string)
    returns (used': nat, ghost text': string)
    requires buf != ans && buf.Length == 256
    requires NUL !in p && |p| <= 68
    requires size == (if p == [] then 0 else |p| + 3)
    requires p != [] ==> Holds(buf[..], 0, CSI + p + "m")
    requires used == |text| && (text == [] || Holds(ans[..], 0, text))
    modifies buf, ans
    ensures text' == (if p == [] then text else Then(text, p)) && used' == |text'|
    ensures text' == [] || Holds(ans[..], 0, text')
  {
    if 3 < size < buf.Length {
      StripSgr(buf[..], p);
      buf[size - 1] := NUL;
      used', text' := Put(ans, used, text, CStr(buf[2..]));
    } else {
      used', text' := used, text;
    }
  }

  /** `amp_mode_update_to_ans` (amp.h:1459-1579): the escape sequence
      that takes the terminal from `prev` to `next`. The colour part
      carries a channel only when `prev` did not have it set
      (`NewColorsAsWritten`). */
  method ModeUpdateToAns(prev: Mode, next: Mode, pal: Pal, dst: array<char>, at: nat) returns (n: nat)
    modifies dst
    ensures n == |SgrText(UpdateCmdsAsWritten(prev, next, pal))|
    ensures Holds(dst[..], at, SgrText(UpdateCmdsAsWritten(prev, next, pal)))
    ensures SameBefore(old(dst[..]), dst[..], at)
  {
    if Dropped(prev, next) {
      n := ModeToAns(next.(reset := true), pal, dst, at);
      return;
    }
    var ans := new char[256];
    var (fg, bg) := NewColorsAsWritten(prev, next);
    var used;
    ghost var text;
    used, text := PartsToAns(prev, next, fg, bg, pal, ans);
    ghost var cmds := UpdateCmdsAsWritten(prev, next, pal);
    UpdateBound(prev, next, pal, NewColorsAsWritten(prev, next));
    ParamTextHasNoNul(cmds);
    ParamTextEmpty(cmds);
    n := WrapSgr(ans, used, text, dst, at);
  }

  /** The loop of `amp_mode_update_to_ans` (amp.h:1538-1555): the parts
      of the update joined into `ans`. */
  method PartsToAns(prev: Mode, next: Mode, fg: bool, bg: bool, pal: Pal, ans: array<char>)
    returns (used: nat, ghost text: string)
    requires ans.Length == 256
    modifies ans
    ensures text == ParamText(Joined(prev, next, fg, bg, pal, 7)) && used == |text|
    ensures text == [] || Holds(ans[..], 0, text)
  {
    var buf := new char[256];
    used, text := 0, [];
    for i := 0 to 7
      invariant text == ParamText(Joined(prev, next, fg, bg, pal, i)) && used == |text|
      invariant text == [] || Holds(ans[..], 0, text)
    {
      used, text := PartToAns(Part(prev, next, fg, bg, i), pal, buf, ans, used, text,
                              Joined(prev, next, fg, bg, pal, i));
    }
  }
}
