/** The string scanners `amp_str_seg_*` (amp.h:1789-1988), which split a
    text into lines, runs of spaces, words and spans that fit a width.
    A scanned string is a pointer and a size; here it is the bytes `s`
    (read through `At`, so the terminator lies past them), the offset `at`
    that the C string starts at, and the offset `end`, `at + size`, that
    the scan may not reach. Each scanner returns the offset its result
    points at. */
module Segments {
  import opened Common
  import opened Utf8

  const LF: byte := 10
  const CR: byte := 13
  const SPACE: byte := 32

  predicate IsBreak(b: byte)
  {
    b == LF || b == CR
  }

  /** The byte that completes a two-byte line break starting with `b`. */
  function Partner(b: byte): byte
  {
    if b == LF then CR else LF
  }

  function Max(a: nat, b: nat): nat
  {
    if a > b then a else b
  }

  // Lines

  /** Where the line that starts at `i` ends: at the first terminator or
      line break, or at `end`. */
  function LineEnd(s: seq<byte>, i: nat, end: nat): (n: nat)
    requires i <= end
    ensures i <= n <= end
    ensures n == end || At(s, n) == 0 || IsBreak(At(s, n))
    decreases end - i
  {
    if i == end || At(s, i) == 0 || IsBreak(At(s, i)) then i else LineEnd(s, i + 1, end)
  }

  /** The line holds no terminator and no break: it ends at the first. */
  lemma {:induction false} LineEndIsFirst(s: seq<byte>, i: nat, end: nat, k: nat)
    requires i <= end && i <= k < LineEnd(s, i, end)
    ensures At(s, k) != 0 && !IsBreak(At(s, k))
    decreases end - i
  {
    if k > i {
      LineEndIsFirst(s, i + 1, end, k);
    }
  }

  /** Where the next line starts: past the break that ends the line at `i`,
      where `\r\n` and `\n\r` are one break. The byte after a break is read
      even when it lies at `end` (amp.h:1814). */
  function NextLine(s: seq<byte>, i: nat, end: nat): (next: nat)
    requires i <= end
    ensures var n := LineEnd(s, i, end);
      && n <= next <= n + 2
      && (next == n <==> n == end || At(s, n) == 0)
      && (next == n + 2 <==> n < end && {At(s, n), At(s, n + 1)} == {LF, CR})
  {
    var n := LineEnd(s, i, end);
    if n < end && IsBreak(At(s, n)) then
      if At(s, n + 1) == Partner(At(s, n)) then n + 2 else n + 1
    else n
  }

  /** A line that ends at a break is followed by another line start, and
      one break is consumed: `\n\n` ends two lines. */
  lemma NextLineAdvances(s: seq<byte>, i: nat, end: nat)
    requires i < end && At(s, i) != 0
    ensures i < NextLine(s, i, end) <= end + 1
  {
  }

  /** `amp_str_seg_first_line_size` (amp.h:1789-1827): the size of the
      first line and the start of the next one. */
  method FirstLineSize(s: seq<byte>, at: nat, size: nat) returns (next: nat, lineSize: nat)
    ensures lineSize == LineEnd(s, at, at + size) - at
    ensures next == NextLine(s, at, at + size)
  {
    var found: Option<nat> := None;
    var after: byte := 0;
    var p := at;
    while At(s, p) != 0 && p < at + size
      invariant at <= p <= at + size
      invariant LineEnd(s, p, at + size) == LineEnd(s, at, at + size)
      decreases at + size - p
    {
      if At(s, p) == LF {
        found, after := Some(p), CR;
        break;
      } else if At(s, p) == CR {
        found, after := Some(p), LF;
        break;
      }
      p := p + 1;
    }
    if found.Some? {
      if At(s, p + 1) == after {
        p := p + 2;
      } else {
        p := p + 1;
      }
    }
    lineSize := if found.Some? then found.value - at else p - at;
    next := p;
  }

  // Characters

  /** `amp_str_seg_skip_utf8_symbol` (amp.h:1829-1846): past one
      well-formed character, or past one byte of a malformed one; nowhere
      at the terminator or when `size` is 0. */
  function SkipSymbol(s: seq<byte>, i: nat, size: nat): (p: nat)
    ensures p == i <==> size == 0 || At(s, i) == 0
    ensures i <= p <= i + size && p <= i + 4
    ensures p > i + 1 ==> p - i == CodePointSize(s, i, size)
  {
    if size == 0 then i
    else
      var sz := CodePointSize(s, i, size);
      if sz == 0 then i
      else if sz < 0 then i + 1
      else i + sz
  }

  /** A step of more than one byte never passes an ASCII byte. */
  lemma WideSymbolBytes(s: seq<byte>, i: nat, size: nat)
    requires SkipSymbol(s, i, size) > i + 1
    ensures forall k :: i <= k < SkipSymbol(s, i, size) ==> At(s, k) >= 0x80
  {
    WideCharBytes(s, i, size);
  }

  // Spaces and words

  /** The end of the run of spaces at `i`. */
  function SpacesEnd(s: seq<byte>, i: nat, end: nat): (n: nat)
    requires i <= end
    ensures i <= n <= end
    ensures n == end || At(s, n) != SPACE
    decreases end - i
  {
    if i == end || At(s, i) != SPACE then i else SpacesEnd(s, i + 1, end)
  }

  /** The run holds only spaces: it ends at the first other byte. */
  lemma {:induction false} SpacesEndIsFirst(s: seq<byte>, i: nat, end: nat, k: nat)
    requires i <= end && i <= k < SpacesEnd(s, i, end)
    ensures At(s, k) == SPACE
    decreases end - i
  {
    if k > i {
      SpacesEndIsFirst(s, i + 1, end, k);
    }
  }

  /** The end of the word at `i`: the first space or terminator, or `end`. */
  function WordEnd(s: seq<byte>, i: nat, end: nat): (n: nat)
    requires i <= end
    ensures i <= n <= end
    ensures n == end || At(s, n) == 0 || At(s, n) == SPACE
    decreases end - i
  {
    if i == end || At(s, i) == 0 || At(s, i) == SPACE then i else WordEnd(s, i + 1, end)
  }

  /** The word holds no terminator and no space: it ends at the first. */
  lemma {:induction false} WordEndIsFirst(s: seq<byte>, i: nat, end: nat, k: nat)
    requires i <= end && i <= k < WordEnd(s, i, end)
    ensures At(s, k) != 0 && At(s, k) != SPACE
    decreases end - i
  {
    if k > i {
      WordEndIsFirst(s, i + 1, end, k);
    }
  }

  /** A word goes on across bytes that are neither terminators nor spaces. */
  lemma {:induction false} WordEndFrom(s: seq<byte>, i: nat, j: nat, end: nat)
    requires i <= j <= end
    requires forall k :: i <= k < j ==> At(s, k) != 0 && At(s, k) != SPACE
    ensures WordEnd(s, i, end) == WordEnd(s, j, end)
    decreases j - i
  {
    if i < j {
      WordEndFrom(s, i + 1, j, end);
    }
  }

  /** `amp_str_seg_skip_spaces` (amp.h:1872-1896). It steps character by
      character and stops at one whose last byte is not a space; since the
      bytes of a longer character all have their top bit set, that is the
      first byte that is not a space. */
  method SkipSpaces(s: seq<byte>, at: nat, size: nat) returns (p: nat)
    ensures p == SpacesEnd(s, at, at + size)
  {
    p := at;
    while At(s, p) != 0 && p < at + size
      invariant at <= p <= at + size
      invariant SpacesEnd(s, p, at + size) == SpacesEnd(s, at, at + size)
      decreases at + size - p
    {
      var next := SkipSymbol(s, p, at + size - p);
      if next == p {
        break;
      }
      if next > p + 1 {
        WideSymbolBytes(s, p, at + size - p);
      }
      next := next - 1;
      if At(s, next) != SPACE {
        return;
      }
      p := next + 1;
    }
  }

  /** `amp_str_seg_skip_word` (amp.h:1898-1926): nothing when the string
      starts with a space, otherwise up to the first space or terminator;
      again the character steps never cross a space. */
  method SkipWord(s: seq<byte>, at: nat, size: nat) returns (p: nat)
    ensures p == WordEnd(s, at, at + size)
  {
    p := SkipSpaces(s, at, size);
    if p != at {
      return at;
    }
    while At(s, p) != 0 && p < at + size
      invariant at <= p <= at + size
      invariant WordEnd(s, p, at + size) == WordEnd(s, at, at + size)
      decreases at + size - p
    {
      var next := SkipSymbol(s, p, at + size - p);
      if next == p {
        return;
      }
      if next > p + 1 {
        WideSymbolBytes(s, p, at + size - p);
        WordEndFrom(s, p, next, at + size);
      }
      next := next - 1;
      if At(s, next) == SPACE {
        return;
      }
      p := next + 1;
    }
  }

  // Widths

  /** The offset past `k` characters from `i`, or fewer when the
      terminator or `end` comes first; a malformed byte counts as one. */
  function SymbolsEnd(s: seq<byte>, i: nat, end: nat, k: nat): (p: nat)
    requires i <= end
    ensures i <= p <= end
    ensures k > 0 && i < end && At(s, i) != 0 ==> p > i
    decreases end - i
  {
    if At(s, i) == 0 || i >= end || k == 0 then i
    else SymbolsEnd(s, SkipSymbol(s, i, end - i), end, k - 1)
  }

  /** `amp_str_seg_skip_width` (amp.h:1928-1951). */
  method SkipWidth(s: seq<byte>, at: nat, size: nat, maxWidth: nat) returns (p: nat)
    ensures p == SymbolsEnd(s, at, at + size, maxWidth)
  {
    p := at;
    var width := 0;
    while At(s, p) != 0 && p < at + size
      invariant at <= p <= at + size && width <= maxWidth
      invariant SymbolsEnd(s, p, at + size, maxWidth - width) == SymbolsEnd(s, at, at + size, maxWidth)
      decreases at + size - p
    {
      if width >= maxWidth {
        break;
      }
      width := width + 1;
      var next := SkipSymbol(s, p, at + size - p);
      if next == p {
        break;
      }
      p := next;
    }
  }

  /** Skipping `k` characters of a text that has at least `k` well-formed
      ones passes exactly `k` of them. */
  lemma {:induction false} SymbolsCount(s: seq<byte>, i: nat, end: nat, k: nat)
    requires i <= end && k <= CodePoints(s, i, end - i)
    ensures CodePoints(s, i, SymbolsEnd(s, i, end, k) - i) == k
    decreases end - i
  {
    if k > 0 {
      var j := SkipSymbol(s, i, end - i);
      CountStep(s, i, end);
      var p := SymbolsEnd(s, j, end, k - 1);
      SymbolsCount(s, j, end, k - 1);
      CountStepWithin(s, i, end, p);
    }
  }

  /** The `k`-th character of a text with more than `k` of them is well
      formed. */
  lemma {:induction false} SymbolAtIsCharacter(s: seq<byte>, i: nat, end: nat, k: nat)
    requires i <= end && k < CodePoints(s, i, end - i)
    ensures var p := SymbolsEnd(s, i, end, k);
      p < end && CodePointSize(s, p, end - p) >= 1
    decreases k
  {
    CountStep(s, i, end);
    if k > 0 {
      SymbolAtIsCharacter(s, SkipSymbol(s, i, end - i), end, k - 1);
    }
  }

  /** The first character of a text that has one is well formed, and the
      count goes on after it. */
  lemma CountStep(s: seq<byte>, i: nat, end: nat)
    requires i <= end && CodePoints(s, i, end - i) > 0
    ensures At(s, i) != 0 && i < end
    ensures var j := SkipSymbol(s, i, end - i);
      && i < j <= end
      && j - i == CodePointSize(s, i, end - i)
      && CodePoints(s, i, end - i) == 1 + CodePoints(s, j, end - j)
  {
  }

  /** The same holds with the limit cut anywhere after that character. */
  lemma CountStepWithin(s: seq<byte>, i: nat, end: nat, m: nat)
    requires i <= end && CodePoints(s, i, end - i) > 0
    requires SkipSymbol(s, i, end - i) <= m
    ensures var j := SkipSymbol(s, i, end - i);
      CodePoints(s, i, m - i) == 1 + CodePoints(s, j, m - j)
  {
    CountStep(s, i, end);
    SizeWithinLimit(s, i, end - i, m - i);
  }

  // Wrapping

  /** The run `amp_str_seg_skip_wrap` measures in one step: the spaces at
      `i` and the word after them. */
  function RunEnd(s: seq<byte>, i: nat, end: nat): (n: nat)
    requires i <= end
    ensures i <= n <= end
    ensures i < end && At(s, i) != 0 ==> i < n
    ensures n == end || At(s, n) == 0 || At(s, n) == SPACE
  {
    WordEnd(s, SpacesEnd(s, i, end), end)
  }

  /** The run at `p` as `amp_str_seg_skip_wrap` finds it (amp.h:1961-1965):
      the spaces, then the word after them. */
  method NextRun(s: seq<byte>, p: nat, end: nat) returns (next: nat)
    requires p <= end
    ensures next == RunEnd(s, p, end)
  {
    next := SkipSpaces(s, p, end - p);
    next := SkipWord(s, next, end - next);
  }

  /** The loop of `amp_str_seg_skip_wrap` (amp.h:1953-1986) from the run at
      `off`, with `width` characters already taken: it takes whole runs
      while their widths add up to at most `wrap`. A run that does not fit
      ends the span there; when nothing has been measured yet, the span is
      cut instead after `wrap` characters from `start`, the string's own
      start. */
  function WrapFrom(s: seq<byte>, start: nat, end: nat, wrap: nat, off: nat, width: nat): (p: nat)
    requires start <= off <= end
    ensures start <= p <= end
    decreases end - off
  {
    if At(s, off) == 0 || off >= end then off
    else
      var next := RunEnd(s, off, end);
      var w := width + CodePoints(s, off, next - off);
      if w > wrap then
        if width == 0 then SymbolsEnd(s, start, end, wrap) else off
      else WrapFrom(s, start, end, wrap, next, w)
  }

  /** `amp_str_seg_skip_wrap` (amp.h:1953-1986). */
  method SkipWrap(s: seq<byte>, at: nat, size: nat, wrap: nat) returns (p: nat)
    ensures p == WrapFrom(s, at, at + size, wrap, at, 0)
  {
    p := at;
    var width: nat := 0;
    while At(s, p) != 0 && p < at + size
      invariant at <= p <= at + size
      invariant WrapFrom(s, at, at + size, wrap, p, width) == WrapFrom(s, at, at + size, wrap, at, 0)
      decreases at + size - p
    {
      var next := NextRun(s, p, at + size);
      if next == p {
        break;
      }
      var add := CodePointCount(s, p, next - p);
      var nextWidth := width + add;
      if nextWidth > wrap {
        if width == 0 {
          p := SkipWidth(s, at, size, wrap);
          return;
        }
        break;
      }
      WrapStep(s, at, at + size, wrap, p, width, next, nextWidth);
      width := nextWidth;
      p := next;
    }
  }

  /** A run that fits is taken whole and the wrap goes on after it. */
  lemma WrapStep(s: seq<byte>, start: nat, end: nat, wrap: nat, off: nat, width: nat, next: nat, w: nat)
    requires start <= off < end && At(s, off) != 0
    requires next == RunEnd(s, off, end) && w == width + CodePoints(s, off, next - off) && w <= wrap
    ensures WrapFrom(s, start, end, wrap, off, width) == WrapFrom(s, start, end, wrap, next, w)
  {
  }

  /** `j` is reached from `i` by whole runs. */
  predicate Chain(s: seq<byte>, i: nat, j: nat, end: nat)
    requires i <= j <= end
    decreases j - i
  {
    i == j || (var n := RunEnd(s, i, end); i < n <= j && Chain(s, n, j, end))
  }

  /** The widths of the runs from `i` up to `j`, each counted on its own as
      `amp_str_seg_skip_wrap` counts them. */
  function RunsWidth(s: seq<byte>, i: nat, j: nat, end: nat): nat
    requires i <= j <= end
    decreases j - i
  {
    if i == j then 0
    else
      var n := RunEnd(s, i, end);
      if i < n <= j then CodePoints(s, i, n - i) + RunsWidth(s, n, j, end) else 0
  }

  /** The wrap is greedy: unless it cuts a run, it ends after whole runs
      whose widths fit in `wrap`, and either the text ends there or the
      next run would not fit. */
  lemma {:induction false} WrapIsGreedy(s: seq<byte>, start: nat, end: nat, wrap: nat, off: nat, width: nat)
    requires start <= off <= end && width <= wrap
    ensures var p := WrapFrom(s, start, end, wrap, off, width);
      || p == SymbolsEnd(s, start, end, wrap)
      || (&& off <= p
          && Chain(s, off, p, end)
          && width + RunsWidth(s, off, p, end) <= wrap
          && (p == end || At(s, p) == 0 || width + RunsWidth(s, off, RunEnd(s, p, end), end) > wrap))
    decreases end - off
  {
    if At(s, off) != 0 && off < end {
      var next := RunEnd(s, off, end);
      var w := width + CodePoints(s, off, next - off);
      if w <= wrap {
        WrapIsGreedy(s, start, end, wrap, next, w);
      }
    }
  }

  /** A wrap ends at a word boundary (a space, the terminator or the end)
      unless it cuts a run. */
  lemma {:induction false} WrapAtBoundary(s: seq<byte>, start: nat, end: nat, wrap: nat, off: nat, width: nat)
    requires start <= off <= end
    requires off == start || off == end || At(s, off) == 0 || At(s, off) == SPACE
    requires width > 0 ==> off > start
    ensures var p := WrapFrom(s, start, end, wrap, off, width);
      p == SymbolsEnd(s, start, end, wrap) || p == end || At(s, p) == 0 || At(s, p) == SPACE
    decreases end - off
  {
    if At(s, off) != 0 && off < end {
      var next := RunEnd(s, off, end);
      var w := width + CodePoints(s, off, next - off);
      if w <= wrap {
        WrapAtBoundary(s, start, end, wrap, next, w);
      }
    }
  }

  /** When the first run alone is wider than `wrap`, the span is cut after
      exactly `wrap` characters. */
  lemma WrapHardSplit(s: seq<byte>, at: nat, end: nat, wrap: nat)
    requires at < end && At(s, at) != 0
    requires CodePoints(s, at, RunEnd(s, at, end) - at) > wrap
    ensures WrapFrom(s, at, end, wrap, at, 0) == SymbolsEnd(s, at, end, wrap)
    ensures CodePoints(s, at, WrapFrom(s, at, end, wrap, at, 0) - at) == wrap
  {
    CountWithinLimit(s, at, RunEnd(s, at, end) - at, end - at);
    SymbolsCount(s, at, end, wrap);
  }

  /** A wrap of at least one character always makes progress on a text
      that is not empty, so a caller that wraps repeatedly terminates. */
  lemma {:induction false} WrapAdvances(s: seq<byte>, start: nat, end: nat, wrap: nat, off: nat, width: nat)
    requires start <= off <= end && wrap >= 1
    requires start < end && At(s, start) != 0
    requires off == start ==> width == 0
    ensures WrapFrom(s, start, end, wrap, off, width) > start
    decreases end - off
  {
    if At(s, off) != 0 && off < end {
      var next := RunEnd(s, off, end);
      var w := width + CodePoints(s, off, next - off);
      if w <= wrap {
        WrapAdvances(s, start, end, wrap, next, w);
      }
    }
  }

  // Widths

  /** The width `amp_str_seg_width` reports for the lines from `i`: the
      largest count of characters on one line. */
  function LinesWidth(s: seq<byte>, i: nat, end: nat): nat
    decreases end - i
  {
    if At(s, i) == 0 || i >= end then 0
    else
      NextLineAdvances(s, i, end);
      Max(LineWidth(s, i, end), LinesWidth(s, NextLine(s, i, end), end))
  }

  /** `amp_str_seg_width` (amp.h:1848-1870). Its test that the next line
      starts after the current one always holds, as `NextLineAdvances`
      shows, so the loop leaves it out. */
  method SegWidth(s: seq<byte>, at: nat, size: nat) returns (width: nat)
    ensures width == LinesWidth(s, at, at + size)
  {
    width := 0;
    var p := at;
    while At(s, p) != 0 && p < at + size
      invariant at <= p <= at + size + 1
      invariant Max(width, LinesWidth(s, p, at + size)) == LinesWidth(s, at, at + size)
      decreases at + size + 1 - p
    {
      var next, lineSize := FirstLineSize(s, p, at + size - p);
      var lineWidth := CodePointCount(s, p, lineSize);
      width := Max(width, lineWidth);
      NextLineAdvances(s, p, at + size);
      p := next;
    }
  }

  /** The start of the line `k` lines after the one at `i`, if there is
      one. */
  function NthLine(s: seq<byte>, i: nat, end: nat, k: nat): (r: Option<nat>)
    ensures r.Some? ==> i <= r.value < end && At(s, r.value) != 0
    decreases end - i
  {
    if At(s, i) == 0 || i >= end then None
    else if k == 0 then Some(i)
    else
      NextLineAdvances(s, i, end);
      NthLine(s, NextLine(s, i, end), end, k - 1)
  }

  /** The count of characters on the line at `j`. */
  function LineWidth(s: seq<byte>, j: nat, end: nat): nat
    requires j <= end
  {
    CodePoints(s, j, LineEnd(s, j, end) - j)
  }

  /** No line of the text is wider than the text. */
  lemma {:induction false} LineNoWider(s: seq<byte>, i: nat, end: nat, k: nat)
    requires NthLine(s, i, end, k).Some?
    ensures var j := NthLine(s, i, end, k).value;
      j < end && LineWidth(s, j, end) <= LinesWidth(s, i, end)
    decreases k
  {
    if k > 0 {
      NextLineAdvances(s, i, end);
      LineNoWider(s, NextLine(s, i, end), end, k - 1);
    }
  }

  /** Some line of a text with characters is as wide as the text. */
  lemma {:induction false} WidestLineExists(s: seq<byte>, i: nat, end: nat)
    requires LinesWidth(s, i, end) > 0
    ensures exists k: nat ::
      (NthLine(s, i, end, k).Some? &&
       LineWidth(s, NthLine(s, i, end, k).value, end) == LinesWidth(s, i, end))
    decreases end - i
  {
    NextLineAdvances(s, i, end);
    var next := NextLine(s, i, end);
    if LineWidth(s, i, end) < LinesWidth(s, next, end) {
      WidestLineExists(s, next, end);
      var k: nat :| NthLine(s, next, end, k).Some? &&
        LineWidth(s, NthLine(s, next, end, k).value, end) == LinesWidth(s, next, end);
      assert NthLine(s, i, end, k + 1) == NthLine(s, next, end, k);
    } else {
      assert NthLine(s, i, end, 0) == Some(i);
    }
  }

  /** The number of lines from the one at `i`. */
  function LineCount(s: seq<byte>, i: nat, end: nat): nat
    decreases end - i
  {
    if At(s, i) == 0 || i >= end then 0
    else
      NextLineAdvances(s, i, end);
      1 + LineCount(s, NextLine(s, i, end), end)
  }

  /** Scanning a line again, up to its own end, finds the same end. */
  lemma {:induction false} LineEndAgain(s: seq<byte>, i: nat, end: nat)
    requires i <= end
    ensures LineEnd(s, i, LineEnd(s, i, end)) == LineEnd(s, i, end)
    decreases end - i
  {
    if i < end && At(s, i) != 0 && !IsBreak(At(s, i)) {
      LineEndAgain(s, i + 1, end);
      var n := LineEnd(s, i, end);
      if i < n {
        assert LineEnd(s, i, n) == LineEnd(s, i + 1, n);
      }
    }
  }

  /** Taken on its own, one line is as wide as its count of characters. */
  lemma OneLineWidth(s: seq<byte>, i: nat, end: nat)
    requires i <= end
    ensures LinesWidth(s, i, LineEnd(s, i, end)) == LineWidth(s, i, end)
  {
    var n := LineEnd(s, i, end);
    LineEndAgain(s, i, end);
    if At(s, i) != 0 && i < n {
      assert NextLine(s, i, n) == n;
      assert LinesWidth(s, n, n) == 0;
    }
  }

  // Plain words

  /** The bytes from `i` up to `j` are printable ASCII other than the
      space: one character each, and no break, space or terminator. */
  predicate PlainWord(s: seq<byte>, i: nat, j: nat)
  {
    forall k :: i <= k < j ==> 0x20 < At(s, k) < 0x80
  }

  /** A plain word of `n` bytes has `n` characters. */
  lemma {:induction false} PlainWordCount(s: seq<byte>, i: nat, n: nat)
    requires PlainWord(s, i, i + n)
    ensures CodePoints(s, i, n) == n
    decreases n
  {
    if n > 0 {
      assert 0x20 < At(s, i) < 0x80;
      assert CodePointSize(s, i, n) == 1;
      assert PlainWord(s, i + 1, (i + 1) + (n - 1));
      PlainWordCount(s, i + 1, n - 1);
    } else {
      assert CodePointSize(s, i, 0) == -1;
    }
  }

  /** Skipping `k` characters of a plain word skips `k` bytes. */
  lemma {:induction false} PlainWordSymbols(s: seq<byte>, i: nat, end: nat, k: nat)
    requires PlainWord(s, i, end) && i + k <= end
    ensures SymbolsEnd(s, i, end, k) == i + k
    decreases k
  {
    if k > 0 {
      assert 0x20 < At(s, i) < 0x80;
      assert SkipSymbol(s, i, end - i) == i + 1;
      assert PlainWord(s, i + 1, end);
      PlainWordSymbols(s, i + 1, end, k - 1);
    }
  }

  /** A plain word is one line with nothing after it. */
  lemma {:induction false} PlainWordLine(s: seq<byte>, i: nat, end: nat)
    requires i <= end && PlainWord(s, i, end)
    ensures LineEnd(s, i, end) == end && NextLine(s, i, end) == end
    decreases end - i
  {
    if i < end {
      assert 0x20 < At(s, i) < 0x80;
      assert PlainWord(s, i + 1, end);
      PlainWordLine(s, i + 1, end);
    }
  }

  /** A plain word is one run, without leading spaces. */
  lemma PlainWordRun(s: seq<byte>, i: nat, end: nat)
    requires i < end && PlainWord(s, i, end)
    ensures SpacesEnd(s, i, end) == i && RunEnd(s, i, end) == end
  {
    assert 0x20 < At(s, i) < 0x80;
    WordEndFrom(s, i, end, end);
  }

  /** A plain word is as wide as it is long. */
  lemma PlainWordWidth(s: seq<byte>, i: nat, end: nat)
    requires i <= end && PlainWord(s, i, end)
    ensures LinesWidth(s, i, end) == end - i
  {
    PlainWordLine(s, i, end);
    PlainWordCount(s, i, end - i);
    if i < end {
      assert 0x20 < At(s, i) < 0x80;
      assert LinesWidth(s, end, end) == 0;
    }
  }
}
