/** Colours: the 16 named colours with their RGB values, the tables of
    16-colour SGR codes, the nearest-colour search that maps an RGB value
    onto them, and the decimal texts of the values 0..255. */
module Palette {
  import opened Common

  /** `struct amp_color_type`. Building one is `amp_map_rgb` and reading
      its fields is `amp_unmap_rgb`. */
  datatype Rgb = Rgb(r: byte, g: byte, b: byte)

  /** `AMP_PALETTE`: render colours as the nearest of 16 SGR colour codes,
      or as 24-bit RGB codes. */
  datatype Pal = PalRgb16 | Pal24Bit

  /** `AMP_MAX_COLOR`: `AMP_COLOR_NONE` followed by the 16 named colours. */
  const MAX_COLOR: nat := 17

  /** `amp_color_table[i].color` for `AMP_COLOR_NONE` (index 0) and the 16
      named colours in the order of the `AMP_COLOR` enumeration
      (amp.h:269-398). */
  function NamedColor(i: nat): Rgb
    requires i < MAX_COLOR
  {
    match i
    case 0 => Rgb(0, 0, 0)
    case 1 => Rgb(0, 0, 0)
    case 2 => Rgb(128, 0, 0)
    case 3 => Rgb(0, 128, 0)
    case 4 => Rgb(128, 128, 0)
    case 5 => Rgb(0, 0, 128)
    case 6 => Rgb(128, 0, 128)
    case 7 => Rgb(0, 128, 128)
    case 8 => Rgb(128, 128, 128)
    case 9 => Rgb(64, 64, 64)
    case 10 => Rgb(255, 0, 0)
    case 11 => Rgb(0, 255, 0)
    case 12 => Rgb(255, 255, 0)
    case 13 => Rgb(0, 0, 255)
    case 14 => Rgb(255, 0, 255)
    case 15 => Rgb(0, 255, 255)
    case _ => Rgb(255, 255, 255)
  }

  /** `amp_lookup_color` (amp.h:1767-1773): the colour of a named colour,
      and black for `AMP_COLOR_NONE` and every index past the table. */
  function LookupColor(index: byte): (c: Rgb)
    ensures index == 0 || index >= MAX_COLOR ==> c == Rgb(0, 0, 0)
    ensures 0 < index < MAX_COLOR ==> c == NamedColor(index)
  {
    if index < MAX_COLOR then NamedColor(index) else NamedColor(0)
  }

  /** `struct amp_rgb16_type`: one row of a 16-colour code table. */
  datatype Rgb16 = Rgb16(code: string, color: Rgb, index: nat, bright: bool)

  /** Row `i` of a 16-colour code table whose codes begin with the digit
      `tens`: the `AMP_COLOR_NONE` row with no code, then the eight normal
      and the eight bright colours, each half with the codes `tens`0 to
      `tens`7 in colour order. */
  function CodeRow(tens: char, i: nat): Rgb16
    requires i < MAX_COLOR
  {
    if i == 0 then Rgb16("", NamedColor(0), 0, false)
    else Rgb16([tens, Digit((i - 1) % 8)], NamedColor(i), i, i >= 9)
  }

  function CodeTable(tens: char): (table: seq<Rgb16>)
    ensures |table| == MAX_COLOR
    ensures forall i :: 0 <= i < MAX_COLOR ==> table[i] == CodeRow(tens, i)
  {
    seq(MAX_COLOR, i requires 0 <= i < MAX_COLOR => CodeRow(tens, i))
  }

  /** `amp_rgb16_fg_table` (amp.h:400-502): codes 30-37, the second eight
      marked bright. */
  function FgTable(): seq<Rgb16>
  {
    CodeTable('3')
  }

  /** `amp_rgb16_bg_table` (amp.h:504-600): codes 40-47, the second eight
      marked bright. */
  function BgTable(): seq<Rgb16>
  {
    CodeTable('4')
  }

  /** A code table as the search expects it: row `i` describes colour `i`,
      and row 0 is the `AMP_COLOR_NONE` row the search skips. */
  predicate IsCodeTable(table: seq<Rgb16>)
  {
    |table| == MAX_COLOR && forall i :: 0 <= i < |table| ==> table[i].index == i
  }

  lemma CodeTableIsCodeTable(tens: char)
    ensures IsCodeTable(CodeTable(tens))
  {
  }

  /** Squared euclidean distance between two colours, every channel
      weighted alike. */
  function Distance(a: Rgb, b: Rgb): nat
  {
    var dr, dg, db := a.r - b.r, a.g - b.g, a.b - b.b;
    dr * dr + dg * dg + db * db
  }

  lemma DistancePositive(a: Rgb, b: Rgb)
    requires a != b
    ensures Distance(a, b) > 0
  {
    var dr, dg, db := a.r - b.r, a.g - b.g, a.b - b.b;
    assert dr * dr >= 0 && dg * dg >= 0 && db * db >= 0;
    if dr != 0 {
      assert dr * dr > 0;
    } else if dg != 0 {
      assert dg * dg > 0;
    } else {
      assert db * db > 0;
    }
  }

  /** The row among `1..k` nearest to `color`, the lowest such row when
      several are equally near. */
  function NearestBelow(table: seq<Rgb16>, color: Rgb, k: nat): (i: nat)
    requires 2 <= k <= |table|
    ensures 1 <= i < k
  {
    if k == 2 then 1
    else
      var best := NearestBelow(table, color, k - 1);
      if Distance(color, table[k - 1].color) < Distance(color, table[best].color) then k - 1
      else best
  }

  /** The row `amp_find_rgb16` picks. */
  function Nearest(table: seq<Rgb16>, color: Rgb): nat
    requires IsCodeTable(table)
  {
    NearestBelow(table, color, |table|)
  }

  /** Row `i` is the lowest named row at the least distance from `color`. */
  predicate LowestNearest(table: seq<Rgb16>, color: Rgb, i: nat)
  {
    && 1 <= i < |table|
    && (forall j :: 1 <= j < |table| ==> Distance(color, table[i].color) <= Distance(color, table[j].color))
    && (forall j :: 1 <= j < i ==> Distance(color, table[i].color) < Distance(color, table[j].color))
  }

  lemma {:induction false} NearestBelowIsLowest(table: seq<Rgb16>, color: Rgb, k: nat)
    requires 2 <= k <= |table|
    ensures LowestNearest(table[..k], color, NearestBelow(table, color, k))
  {
    if k > 2 {
      NearestBelowIsLowest(table, color, k - 1);
      assert table[..k - 1] == table[..k][..k - 1];
    }
  }

  /** The row picked is the nearest named colour, and among equally near
      ones the first: no other row has that property. */
  lemma NearestIsLowestNearest(table: seq<Rgb16>, color: Rgb, i: nat)
    requires IsCodeTable(table)
    ensures LowestNearest(table, color, Nearest(table, color))
    ensures LowestNearest(table, color, i) ==> i == Nearest(table, color)
  {
    NearestBelowIsLowest(table, color, |table|);
    assert table[..|table|] == table;
  }

  /** A named colour is its own nearest row. */
  lemma NamedColorIsItsOwnRow(table: seq<Rgb16>, i: nat)
    requires IsCodeTable(table) && 1 <= i < |table|
    requires forall j :: 1 <= j < i ==> table[j].color != table[i].color
    ensures Nearest(table, table[i].color) == i
  {
    var c := table[i].color;
    forall j | 1 <= j < |table|
      ensures Distance(c, c) <= Distance(c, table[j].color)
      ensures j < i ==> Distance(c, c) < Distance(c, table[j].color)
    {
      if j < i {
        DistancePositive(c, table[j].color);
      }
    }
    NearestIsLowestNearest(table, c, i);
  }

  /** `amp_find_rgb16` (amp.h:1737-1765): scans the table, skipping the
      `AMP_COLOR_NONE` row, and keeps the first row with a strictly
      smaller distance. */
  method FindRgb16(table: seq<Rgb16>, color: Rgb) returns (row: Rgb16)
    requires IsCodeTable(table)
    ensures row == table[Nearest(table, color)]
  {
    var bestD: Option<nat> := None;
    var best := 0;
    var i := 0;
    while i < |table|
      invariant 0 <= i <= |table|
      invariant i <= 1 ==> bestD == None
      invariant i >= 2 ==>
        best == NearestBelow(table, color, i) && bestD == Some(Distance(color, table[best].color))
    {
      if table[i].index != 0 {
        var d := Distance(color, table[i].color);
        if bestD.None? || d < bestD.value {
          bestD := Some(d);
          best := i;
        }
      }
      i := i + 1;
    }
    row := table[best];
  }

  /** `amp_number_table[n]` (amp.h:243-267): the decimal text of `n`, without leading
      zeros. */
  function NumberText(n: byte): (s: string)
    ensures 1 <= |s| <= 3
    ensures NUL !in s
  {
    if n < 10 then [Digit(n)]
    else if n < 100 then [Digit(n / 10), Digit(n % 10)]
    else [Digit(n / 100), Digit(n / 10 % 10), Digit(n % 10)]
  }

  function Digit(d: nat): char
    requires d < 10
  {
    ('0' as int + d) as char
  }

  predicate IsDigit(c: char)
  {
    '0' <= c <= '9'
  }

  /** The value of a text of decimal digits. */
  function DecimalValue(s: string): nat
    requires forall i :: 0 <= i < |s| ==> IsDigit(s[i])
  {
    if s == [] then 0 else DecimalValue(s[..|s| - 1]) * 10 + DigitValue(s[|s| - 1])
  }

  function DigitValue(c: char): nat
    requires IsDigit(c)
  {
    c as int - '0' as int
  }

  /** Each table entry is a decimal numeral for its index, with no leading
      zero: reading it back gives the index. */
  lemma NumberTextIsDecimal(n: byte)
    ensures forall i :: 0 <= i < |NumberText(n)| ==> IsDigit(NumberText(n)[i])
    ensures DecimalValue(NumberText(n)) == n
    ensures |NumberText(n)| > 1 ==> NumberText(n)[0] != '0'
  {
    if n >= 100 {
      DecimalOfThree(n / 100, n / 10 % 10, n % 10);
    } else if n >= 10 {
      DecimalOfTwo(n / 10, n % 10);
    } else {
      assert [Digit(n)][..0] == [];
    }
  }

  lemma DecimalOfTwo(a: nat, b: nat)
    requires a < 10 && b < 10
    ensures DecimalValue([Digit(a), Digit(b)]) == a * 10 + b
  {
    DigitValueOfDigit(a);
    DigitValueOfDigit(b);
    assert [Digit(a)][..0] == [];
    assert DecimalValue([Digit(a)]) == a;
    assert [Digit(a), Digit(b)][..1] == [Digit(a)];
  }

  lemma DigitValueOfDigit(d: nat)
    requires d < 10
    ensures IsDigit(Digit(d)) && DigitValue(Digit(d)) == d
  {
  }

  lemma DecimalOfThree(a: nat, b: nat, c: nat)
    requires a < 10 && b < 10 && c < 10
    ensures DecimalValue([Digit(a), Digit(b), Digit(c)]) == a * 100 + b * 10 + c
  {
    DigitValueOfDigit(c);
    assert [Digit(a), Digit(b), Digit(c)][..2] == [Digit(a), Digit(b)];
    DecimalOfTwo(a, b);
  }
}
