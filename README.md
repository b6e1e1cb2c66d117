# libamp canvas core in Dafny

This project models `amp.h`, the single-header C library of libamp. The
library keeps a text-mode canvas of cells. Each cell holds one UTF-8 character
(the glyph) and a display mode: foreground and background colours, their
set-flags, and six decorations. The library draws characters and aligned,
word-wrapped text into the canvas. It renders the canvas as text for a
terminal, using the Select Graphic Rendition control function (section
8.3.117 of ECMA-48).

The modules follow the parts of the header:

- `Common`: bytes and C strings.
  - A string is a `seq<byte>`, and `At(s, i)` reads 0 past its end, as a
    terminated C string would.
  - A pointer into a string is the pair (string, offset).
  - `CString` is the text up to the first NUL.
  - `SubSize` is `amp_sub_size`, a saturating subtraction.
- `Utf8`: the validator `amp_utf8_code_point_size` and the counter
  `amp_utf8_code_point_count`. Both are checked against the UTF8-char
  grammar of section 4 of RFC 3629, and against an encoder and decoder of
  scalar values.
- `Palette`: the named colours and the two 16-colour code tables.
  - `amp_find_rgb16`, the nearest-entry search.
  - `amp_number_table`, the decimal text of a byte.
- `Modes`: the mode record and its 7-byte cell form
  (`amp_mode_cell_serialize` and `amp_mode_cell_deserialize`).
- `Styles`: how `amp_put_style` turns a style bit set into a mode. Named
  colours on one channel are averaged with truncating division. Decoration
  bits are copied as they are.
- `Cells`: the canvas contents as a value (`Grid`, with its glyph and mode
  byte sequences), and every cell operation as a function on that value:
  - `amp_get_cell_index`, `amp_get_glyph` and `amp_put_glyph`;
  - `amp_get_mode` and `amp_set_mode`;
  - `amp_get_style` and `amp_put_style`;
  - `amp_draw_glyph`.
- `Canvas`: the canvas object `amp_type` as a class.
  - It holds the glyph array and the mode array, which `amp_init` and
    `amp_clear` zero.
  - Each method that changes a cell proves that the new contents are the
    `Cells` function of the old ones.
- `StrBuf`: `amp_str_append`, which copies a string into a buffer if it fits
  and otherwise clears the first byte. The `Holds` predicate says what a
  buffer contains after a run of appends: the whole text and its
  terminator, or, when the text did not fit, a terminated prefix.
- `Sgr`: the control sequences the renderer produces, as lists of
  parameter commands (`Code(n)`, `Fg24(c)`, `Bg24(c)`), together with:
  - their text (`ESC [` parameters `m`);
  - the command list of `amp_mode_to_ans`;
  - the list `amp_mode_update_to_ans` emits between two modes.
- `Render`: `amp_mode_to_ans` and `amp_mode_update_to_ans`, written as the
  appending code they are. Each is proved to leave in its buffer the `Sgr`
  text of the command list the library computes, and to return that text's
  length. For `amp_mode_update_to_ans` that list is the update as written
  (`Sgr.UpdateCmdsAsWritten`), whose colour part is the subject of the
  finding below.
- `Terminal`: a reader and a terminal for those sequences.
  - The reader parses the parameter string, as in section 5.4.2 of ECMA-48.
    The sub-parameters of codes 38 and 48 are read as in ITU-T T.416.
  - The terminal is a model of the graphic rendition those sequences set.
  - This module states what the renderer's output means: it parses back to
    the commands, and it shows the cell's mode.
- `Screen`: the row and canvas renderers, with their loops:
  - `amp_row_cut_to_ans`, `amp_row_to_ans` and `amp_to_ans`;
  - `amp_glyph_row_to_str`.
- `Segments`: the string scanners `amp_str_seg_*`. They cover line breaks,
  characters, spaces, words, widths and the greedy word wrap.
- `Layout`: `amp_draw_text_clip` and `amp_draw_text`. Text is placed left,
  centred or right of a column, with its width counted in code points.
- `Multiline`: `amp_draw_multiline_text_clip` and
  `amp_draw_multiline_text`. They break lines and wrap wide lines on later
  rows, and they return the number of rows drawn.

Every render function returns the length its output would have had, and
this does not depend on the buffer size. The render methods ensure this as
`n == |text|` together with `Holds(dst[..], at, text)`. Output buffers are
`array<char>`, and the `at` parameter is the C pointer's offset.

## Model

| member | source | states |
|---|---|---|
| Common.Drop | amp.h:757-817 | reading a string from an offset sees the same bytes as reading the original at that offset plus the index (pointer arithmetic `str + i`) |
| Common.Take | amp.h:851-860 | the first k bytes of a string, with zeros past its end, as a fixed-size copy sees them |
| Common.CString | amp.h:851-864 | the C string of a byte sequence is its longest NUL-free prefix, and the byte after it is the terminator |
| Common.SubSize | amp.h:1653-1656 | `amp_sub_size(a, b)` is a - b when that is not negative and 0 when it would underflow |
| Common.Chars | amp.h:1611-1623 | glyph bytes become output characters one for one, with the same code |
| Common.CStringOfPrefix | amp.h:851-864 | a terminator inside the first k bytes makes the C string of the whole equal to that of the prefix |
| Common.Splice | amp.h:877-881 | copying t at an offset (`memcpy`) yields t in that range and the old bytes everywhere else |
| Common.SpliceElsewhere | amp.h:877-881 | a copy leaves every range outside its target unchanged |
| Common.CStringLength | amp.h:1054-1058 | a string whose first NUL is at k has C length k |
| Common.CStringAtLeast | amp.h:1054-1058 | a string without NUL in its first k bytes has C length at least k |
| Utf8.XorTestIsContinuation | amp.h:769 | the test `(b ^ 0x80) < 0x40` holds exactly for continuation bytes 0x80-0xBF |
| Utf8.CodePointSize | amp.h:757-796 | the size lies in -1..4; it is 0 exactly when n > 0 and the first byte is NUL; a positive size never exceeds n |
| Utf8.AcceptedIsUtf8Char | amp.h:757-796 | every byte sequence the validator accepts (size >= 1) is a UTF8-char of RFC 3629 section 4: it rejects overlongs, surrogates and values above U+10FFFF |
| Utf8.Utf8CharIsAccepted | amp.h:757-796 | conversely, every UTF8-char of length k that fits in n bytes is accepted with size k |
| Utf8.WideCharBytes | amp.h:757-796 | every byte of a multi-byte character is at least 0x80 |
| Utf8.SizeWithinLimit | amp.h:757-796 | the size of an accepted character does not change when the limit grows |
| Utf8.SizeInSuffix | amp.h:757-796 | measuring at offset i equals measuring the suffix from i |
| Utf8.SizeOfPrefix | amp.h:757-796 | the size depends only on the character's own bytes |
| Utf8.Encode | amp.h:757-796 | the reference encoder of a scalar value yields 1 to 4 bytes |
| Utf8.EncodeRoundTrip | amp.h:757-796 | every scalar value encodes to a UTF8-char that decodes back to it |
| Utf8.DecodeRoundTrip | amp.h:757-796 | every UTF8-char decodes to a scalar value whose encoding is that char |
| Utf8.SizeOfEncoding | amp.h:757-796 | the validator measures the encoding of any non-NUL scalar value as its exact length, whatever follows |
| Utf8.CountFirst | amp.h:798-817 | the count is one for the first character plus the count after it |
| Utf8.CodePointsBound | amp.h:798-817 | there are never more characters than bytes |
| Utf8.CountWithinLimit | amp.h:798-817 | the count never falls when the limit grows |
| Utf8.CodePointCount | amp.h:798-817 | the loop counts the well-formed characters before the first NUL, malformed byte or the limit |
| Utf8.CountAfter | amp.h:798-817 | counting inside a concatenation past its first part counts the second part |
| Utf8.CountOfEncoding | amp.h:798-817 | the encoding of k non-NUL scalar values counts as k characters |
| Palette.LookupColor | amp.h:1767-1773 | a named colour's RGB from the table; black for index 0 and for an index past the table |
| Palette.CodeTable | amp.h:400-600 | each 16-colour table has 17 rows, row i holding colour i, its code and its brightness |
| Palette.CodeTableIsCodeTable | amp.h:400-600 | both code tables have the shape `amp_find_rgb16` relies on |
| Palette.DistancePositive | amp.h:1737-1765 | the squared distance of two different colours is positive |
| Palette.NearestBelow | amp.h:1737-1765 | the search over the first k rows picks a row in 1..k-1, never the NONE row |
| Palette.NearestBelowIsLowest | amp.h:1737-1765 | that row is the lowest-index row at the least unweighted squared distance |
| Palette.NearestIsLowestNearest | amp.h:1737-1765 | the search result is a lowest nearest row, and it is the only one |
| Palette.NamedColorIsItsOwnRow | amp.h:1737-1765 | a named colour that appears earlier in no row maps to its own row |
| Palette.FindRgb16 | amp.h:1737-1765 | the loop returns the table row of the lowest nearest entry |
| Palette.NumberText | amp.h:243-267 | the table text of a byte has 1 to 3 characters, none of them NUL |
| Palette.NumberTextIsDecimal | amp.h:243-267 | that text is all digits, has no leading zero, and its decimal value is the byte |
| Modes.Pack | amp.h:1710-1735 | the cell form of a mode is 7 bytes |
| Modes.Deserialize | amp.h:1682-1708 | a mode read from fewer than 7 bytes is broken, and one read from 7 is not; `reset` is never set |
| Modes.FlagsOfFlagByte | amp.h:1710-1735 | each of the eight flags goes to its own bit of the flag byte, fg first |
| Modes.DeserializePack | amp.h:1682-1735 | reading back a written mode gives its colours and eight flags, with `broken` and `reset` false |
| Modes.PackDeserialize | amp.h:1682-1735 | writing back a read record reproduces the 7 bytes exactly |
| Modes.FlagBitsOfFlags | amp.h:1682-1708 | a flag byte is determined by the eight flags read from it |
| Modes.ShortReadIsBroken | amp.h:1682-1708 | a short read gives a mode with only `broken` set among the flags |
| Modes.Serialize | amp.h:1710-1735 | it succeeds iff at least 7 bytes are available; then exactly the 7 cell bytes are replaced, and otherwise nothing is written |
| Styles.Picks | amp.h:959-1032 | which named colours of a channel a style selects, one flag per table row |
| Styles.Total | amp.h:967-978 | the sums of the picked colours' components stay within 255 times their count |
| Styles.CountZero | amp.h:967-978 | the count is zero iff no named colour is picked |
| Styles.SomeColorPicked | amp.h:959-1032 | a channel with a colour bit and without its NONE bit picks at least one colour |
| Styles.NoPickNoColor | amp.h:959-1032 | with no named colour picked, the channel's bits are at most its NONE bit |
| Styles.MaskOfBits | amp.h:959-1032 | the channel mask covers exactly the NONE bit and the 16 named colour bits |
| Styles.ResolveChannel | amp.h:959-1032 | a channel is set iff the style names one of its colours without its NONE bit; its colour is then the truncated mean of the picked colours, and otherwise the old colour stays |
| Styles.Decorations | amp.h:929-942 | the style read from a mode holds decoration bits only, never a colour bit |
| Styles.DecorationsOfResolve | amp.h:929-1041 | the decorations stored by a style are read back exactly |
| Styles.SingleColor | amp.h:959-1032 | a style naming one colour gives exactly that colour's RGB |
| Styles.SingleTotal | amp.h:967-978 | summing a single pick gives that colour's components and a count of 1 |
| Styles.SumPicked | amp.h:967-978 | the accumulation loop computes the sums and the count of the picked colours |
| Styles.MeanColor | amp.h:964-987 | the loop and divisions compute the truncated mean of the picked colours |
| Styles.Resolve | amp.h:929-1041 | a channel ends set iff the style names one of its colours without its NONE bit; `reset` and `broken` are kept |
| Styles.PutChannel | amp.h:959-1032 | one channel's block computes the set-flag and colour of `ResolveChannel` |
| Styles.ResolvedColor | amp.h:959-1032 | a named channel resolves to the mean of its picked colours |
| Cells.CellIndex | amp.h:747-755 | the index is -1 exactly for a cell outside width x height, and otherwise lies below width * height |
| Cells.CellIndexInverse | amp.h:747-755 | the index gives back the column (index mod width) and the row (index div width) |
| Cells.CellIndexInjective | amp.h:747-755 | two cells with the same index are the same cell |
| Cells.GlyphOffset | amp.h:822-831 | a cell's glyph slot starts at a multiple of 5 |
| Cells.OffsetsAgree | amp.h:819-831 | the glyph and mode slots exist exactly for cells whose index is below the stored cell count, and they lie inside their arrays |
| Cells.GlyphIsOneCharacter | amp.h:819-836 | a stored glyph is its slot's C string: empty, or a single UTF-8 character of at most 4 bytes |
| Cells.ModeOffset | amp.h:891-899 | a cell's mode record starts at a multiple of 7 inside the mode array |
| Cells.GetGlyph | amp.h:819-836 | a glyph is read iff the cell's index is below the stored cell count; the string read holds no NUL |
| Cells.GetMode | amp.h:906-927 | the read mode never has `reset` |
| Cells.SetMode | amp.h:886-904 | writing a mode succeeds iff the cell has a mode slot; a failed write changes nothing and glyphs never change |
| Cells.SetModeThenGetMode | amp.h:886-927 | a mode written is read back (not broken, not reset); a cell that cannot be written reads as the broken sentinel |
| Cells.SetModeElsewhere | amp.h:886-927 | writing one cell's mode leaves every other cell's mode unchanged |
| Cells.PutGlyph | amp.h:838-884 | storing succeeds iff the cell exists, the string has a NUL within 5 bytes and its first code point is valid; on failure nothing changes, and modes never change |
| Cells.NoNulInCharacter | amp.h:757-796 | a UTF-8 character with a non-NUL lead contains no NUL |
| Cells.SizeWithinString | amp.h:851-870 | the measured size never exceeds the string, is 0 only for the empty string, and covers a UTF-8 character of the string |
| Cells.PutGlyphThenGetGlyph | amp.h:819-884 | after a successful store the cell reads back as the string's first code point |
| Cells.PutGlyphSlot | amp.h:838-884 | the stored slot holds the first code point, and so does the returned pointer |
| Cells.StoredSlot | amp.h:872-881 | writing a character and its terminator into a slot makes the slot's C string that character |
| Cells.PutGlyphWrites | amp.h:872-881 | a successful store writes exactly the first code point and a terminator at the cell's offset |
| Cells.StoredString | amp.h:872-881 | the written bytes read back as the character within any window that holds the terminator |
| Cells.PutGlyphElsewhere | amp.h:838-884 | only the target cell's 5-byte slot changes |
| Cells.PutGlyphKeepsValid | amp.h:838-884 | every slot still holds one character or nothing after a store |
| Cells.OtherSlotsKept | amp.h:877-881 | a copy within one slot leaves all other slots unchanged |
| Cells.FirstCodePoint | amp.h:866-875 | the text stored for a string is a prefix of its C string, shorter than the 5-byte slot |
| Cells.FirstCodePointIsCharacter | amp.h:866-875 | the stored text is empty iff the string is, and otherwise one UTF-8 character |
| Cells.CStringOf | amp.h:872-881 | a NUL-free text with a terminator has that text as its C string |
| Cells.PutStyle | amp.h:944-1041 | storing a style succeeds iff the cell has a mode slot, and glyphs never change |
| Cells.GetStyle | amp.h:929-942 | the style read from a cell holds decoration bits only |
| Cells.PutStyleThenGetStyle | amp.h:929-1041 | after storing a style the cell reads back its decoration bits, and its mode is the old mode resolved by the style |
| Cells.SameModeSameStyle | amp.h:929-942 | the style read depends only on the cell's mode |
| Cells.DrawnGlyphIsOneCharacter | amp.h:1050-1070 | the glyph drawn is one printable or multi-byte UTF-8 character from the string's start, or '?' |
| Cells.DrawnGlyphOfCharacter | amp.h:1050-1070 | a string that starts with a valid character always draws a glyph |
| Cells.DrawnGlyph | amp.h:1050-1070 | the glyph drawn for a string has 1 to 4 bytes, and there is none for an empty string |
| Cells.DrawGlyph | amp.h:1043-1074 | drawing outside the canvas or with an invalid first character changes nothing |
| Cells.DrawnGlyphIsStored | amp.h:1072 | the glyph handed to `amp_put_glyph` is stored unchanged |
| Cells.DrawGlyphStores | amp.h:1043-1074 | a drawn cell reads back the drawn glyph |
| Cells.DrawGlyphStyles | amp.h:1043-1074 | a drawn cell reads back the style's decorations |
| Cells.DrawGlyphKeepsGlyph | amp.h:1043-1074 | drawing leaves every other cell's glyph unchanged |
| Cells.DrawGlyphKeepsMode | amp.h:1043-1074 | drawing leaves every other cell's mode unchanged |
| Cells.PutAndStyleElsewhere | amp.h:1072-1073 | a store followed by a style write at one cell leaves the glyph and mode of every other cell unchanged |
| Cells.GlyphKept | amp.h:838-884 | a successful store leaves other cells' glyphs as they were |
| Cells.SameSlotSameGlyph | amp.h:819-836 | a cell's glyph depends only on its slot |
| Cells.ZeroedIsValid | amp.h:714-741 | a zeroed glyph array is a valid canvas |
| Cells.ClearedCell | amp.h:738-741 | after clearing, an existing cell reads an empty glyph and the all-clear mode, and a missing cell reads nothing and the broken sentinel |
| Canvas.Amp.Make | amp.h:206-221 | a canvas object with fresh, separate glyph and mode arrays of the given sizes |
| Canvas.Amp.Init | amp.h:714-736 | returns 12 * width * height (mod 2^64) whatever the buffer size; keeps min(buffer, required) / 12 cells, all zeroed |
| Canvas.Amp.Clear | amp.h:738-741 | both arrays are zeroed |
| Canvas.Amp.SetPalette | amp.h:743-745 | only the palette changes |
| Canvas.Amp.PutGlyph | amp.h:838-884 | the arrays end as `Cells.PutGlyph` of the old contents, with the same result |
| Canvas.Amp.GlyphToStore | amp.h:851-875 | the bytes to store are the first code point and a terminator, and there are some iff the string is storable |
| Canvas.Amp.ReadGlyph | amp.h:851-864 | the copy loop reads the C length when it is below 5, with zeros after it, and otherwise reports 5 |
| Canvas.Amp.Copy | amp.h:877-881 | `memcpy` replaces exactly the target range |
| Canvas.Amp.SetMode | amp.h:886-904 | the arrays end as `Cells.SetMode` of the old contents, with the same result |
| Canvas.Amp.PutStyle | amp.h:944-1041 | the arrays end as `Cells.PutStyle` of the old contents, with the same result |
| Canvas.Amp.DrawGlyph | amp.h:1043-1074 | the arrays end as `Cells.DrawGlyph` of the old contents |
| Canvas.Amp.GlyphToDraw | amp.h:1051-1070 | the measured, checked and substituted glyph is `DrawnGlyph` of the string |
| Canvas.Amp.MeasureGlyph | amp.h:1051-1058 | the counting loop stops at the C length or at 5, whichever comes first |
| StrBuf.StrAppend | amp.h:1236-1252 | for a source C string (no NUL inside), returns its length whatever happens; a size of 0 writes nothing; a source that fits is copied with its terminator; otherwise the first byte is cleared and nothing else past the size changes |
| StrBuf.CopyChars | amp.h:1236-1252 | the copy loop writes the first k source characters at the offset and nothing else |
| StrBuf.MatchIff | amp.h:1236-1252 | a buffer matches a text iff it holds the text's characters at the offset |
| StrBuf.AppendOne | amp.h:1236-1252 | one append leaves the buffer holding the source text and keeps everything before the offset |
| StrBuf.HoldsConcat | amp.h:1236-1252 | holding t, then appending r after t, leaves the buffer holding t + r |
| StrBuf.HoldsConcatWhole | amp.h:1236-1252 | the same when t fitted whole |
| StrBuf.HoldsConcatCut | amp.h:1236-1252 | once a text was cut, any later append leaves the buffer holding the longer text |
| StrBuf.Emit | amp.h:1236-1252 | an append after `used` characters returns the source's length and leaves the buffer holding the joined text |
| StrBuf.CStr | amp.h:1236-1252 | the C string of a character buffer is its prefix up to the first NUL |
| StrBuf.CStrOfTerminated | amp.h:1236-1252 | a terminated copy of a NUL-free text reads back as that text |
| StrBuf.CStrOfHolds | amp.h:1236-1252 | a buffer holding a NUL-free text that fits reads back as that text |
| Sgr.Numbers | amp.h:1261-1370 | a command is one number (a code) or five (38 or 48, 2, r, g, b) |
| Sgr.Flatten | amp.h:1261-1370 | the parameter numbers of a command list lie between its length and five times its length |
| Sgr.FlattenAppend | amp.h:1261-1370 | the numbers of two lists joined are the numbers of each, joined |
| Sgr.CodesText | amp.h:1261-1370 | the text of k numbers separated by ';' has between k and 4k characters |
| Sgr.CodesTextAppend | amp.h:1261-1370 | the text of joined number lists is the two texts with a ';' between |
| Sgr.CodesTextChars | amp.h:1261-1370 | parameter text consists of digits and ';' only |
| Sgr.SgrText | amp.h:1434-1457 | the sequence is empty iff there are no commands, and otherwise is `ESC [` + parameters + `m` |
| Sgr.ParamTextAppend | amp.h:1261-1370 | parameter texts join with ';' |
| Sgr.ParamTextHasNoNul | amp.h:1261-1370 | parameter text holds no NUL |
| Sgr.Options | amp.h:1261-1285 | a mode offers seven decoration codes, in the order 0, 8, 2, 3, 4, 5, 9 |
| Sgr.Chosen | amp.h:1261-1285 | the emitted decoration codes are present options, at most one per option |
| Sgr.ChosenHas | amp.h:1261-1285 | a code is emitted iff it is offered |
| Sgr.OptionsHas | amp.h:1261-1285 | a code is offered iff the mode asks for it (0 for reset, 8 hidden, 2 faint, 3 italic, 4 underline, 5 blinking, 9 strikethrough) |
| Sgr.ChosenOfOne | amp.h:1261-1285 | a single offered code is emitted at most once |
| Sgr.DecorationCmds | amp.h:1261-1285 | at most seven decoration codes, all from {0, 2, 3, 4, 5, 8, 9} |
| Sgr.DecorationCmdsHas | amp.h:1261-1285 | a decoration code is emitted iff the mode asks for it |
| Sgr.DecorationCmdsCount | amp.h:1261-1285 | one code is emitted per decoration, plus one for reset |
| Sgr.FgTableRow | amp.h:400-502 | the foreground row i has index i, its brightness, and code 30-37 (the second eight bright) |
| Sgr.FgTableHalf | amp.h:400-502 | each half of the foreground table runs codes 30 to 37 |
| Sgr.BgTableRow | amp.h:504-600 | the background row i has index i, its brightness, and code 40-47 |
| Sgr.BgTableHalf | amp.h:504-600 | each half of the background table runs codes 40 to 47 |
| Sgr.FgRow | amp.h:1737-1765 | the nearest foreground row is a named colour's row |
| Sgr.BgRow | amp.h:1737-1765 | the nearest background row is a named colour's row |
| Sgr.Colors24 | amp.h:1289-1370 | the 24-bit colours are at most two commands, 38;2;r;g;b and 48;2;r;g;b, at most ten numbers |
| Sgr.Fg16 | amp.h:1393-1418 | a 16-colour foreground is its 30-37 code, preceded by 1 when bright |
| Sgr.Colors16 | amp.h:1371-1432 | the 16-colour commands are at most four codes: 7, 1, 30-37 and 40-47 |
| Sgr.ChannelCmds | amp.h:1393-1431 | the 16-colour channel codes after any swap are at most three |
| Sgr.FlattenOfCodes | amp.h:1261-1285 | a list of plain codes has one number per command |
| Sgr.CmdsBound | amp.h:1254-1457 | a mode's parameters are at most 17 numbers and 68 characters |
| Sgr.WellFormedAppend | amp.h:1254-1457 | joining well-formed command lists keeps them well formed |
| Sgr.CmdsWellFormed | amp.h:1254-1457 | every command list of a mode is well formed (colour components are bytes) |
| Sgr.Part | amp.h:1482-1536 | the first six parts of an update each carry at most one decoration and no colour; the seventh only colours |
| Sgr.ChosenCount | amp.h:1261-1285 | the number of codes emitted is the number of offered options |
| Sgr.DecorationPartBound | amp.h:1482-1524 | each decoration part renders to at most one number |
| Sgr.DecorationPartsBound | amp.h:1482-1524 | the first k decoration parts render to at most k numbers |
| Sgr.JoinedBound | amp.h:1538-1555 | all parts of an update render to at most 23 numbers |
| Sgr.UpdateBound | amp.h:1459-1579 | an update's parameter text fits in 92 characters, so the 256-byte buffer never truncates |
| Sgr.ResetCode | amp.h:1254-1285 | a mode's commands contain 0 iff the mode asks for reset |
| Sgr.JoinedHasNoReset | amp.h:1482-1555 | an incremental update never contains the reset code |
| Sgr.ResetIffDropped | amp.h:1463-1476 | an update contains 0 iff next lacks a decoration or colour flag that prev has |
| Sgr.NoCmds | amp.h:1254-1457 | a mode with no reset, decoration or colour yields no commands |
| Sgr.JoinedEmpty | amp.h:1482-1555 | with no newly set decoration and no colour part, the incremental update is empty |
| Sgr.Dropped | amp.h:1463-1470 | a reset is needed only when prev has a decoration or colour flag next lacks: never between equal modes, never from a mode with neither |
| Sgr.UpdateCmdsAsWritten | amp.h:1459-1579 | when no channel stays set with a changed colour, the update as written is the corrected update |
| Sgr.IdenticalModesEmitNothing | amp.h:1459-1579 | updating a mode to itself emits nothing, in the code as written and in the corrected code |
| Sgr.JoinedWellFormed | amp.h:1538-1555 | the incremental commands are well formed |
| Sgr.UpdateWellFormed | amp.h:1459-1579 | every update's commands are well formed |
| Render.Then | amp.h:1261-1432 | appending a piece writes ';' first unless nothing was written yet |
| Render.ThenAppend | amp.h:1261-1432 | appending to the last piece is appending to the text |
| Render.ParamTextEmpty | amp.h:1434-1457 | the parameter text is empty iff there are no commands |
| Render.ParamTextSnoc | amp.h:1261-1432 | the text of commands plus more is the old text then the new piece |
| Render.Wrapped | amp.h:1434-1457 | empty parameters give an empty sequence; otherwise `ESC [` parameters `m` |
| Render.Put | amp.h:1261-1432 | an append of a piece into the 256-byte work buffer leaves it holding the joined text |
| Render.WrapSgr | amp.h:1434-1457 | the closing appends write `ESC [`, the parameters and `m`, and return the whole length |
| Render.DecorationsToAns | amp.h:1261-1285 | the loop writes the parameter text of the mode's decoration codes |
| Render.Rgb24Text | amp.h:1289-1370 | a 24-bit colour's text is 38;2;r;g;b or 48;2;r;g;b, with the table's decimal numbers |
| Render.LeadText | amp.h:1289-1370 | the text of the five numbers is the lead, `;2;`, then r;g;b |
| Render.CodesTextStep | amp.h:1289-1370 | the text of several numbers is the first, ';', then the rest |
| Render.RgbToAns | amp.h:1289-1370 | the appends of one colour write the lead and the three components |
| Render.Channel24ToAns | amp.h:1289-1370 | one 24-bit channel appends its command's text |
| Render.Colors24ToAns | amp.h:1289-1370 | the 24-bit branch appends the text of `Colors24` |
| Render.Colors24Sum | amp.h:1289-1370 | the two conditional appends add up to `Colors24` |
| Render.CodeText | amp.h:243-267 | a plain code's text is its decimal number |
| Render.CodeToAns | amp.h:1371-1432 | appending a table code appends that code's command |
| Render.SwapToAns | amp.h:1372-1390 | a bright background swaps the channels and appends 7; otherwise nothing changes |
| Render.Fg16ToAns | amp.h:1393-1418 | the foreground appends 1 when bright, then its 30-37 code |
| Render.Fg16Sum | amp.h:1393-1418 | those appends add up to `Fg16` |
| Render.Bg16ToAns | amp.h:1420-1431 | the background appends its 40-47 code |
| Render.ChannelCmdsSum | amp.h:1393-1431 | the channel appends add up to `ChannelCmds` |
| Render.Colors16Sum | amp.h:1371-1432 | the swap and channel appends add up to `Colors16` |
| Render.Colors16ToAns | amp.h:1371-1432 | the 16-colour branch appends the text of `Colors16` |
| Render.SwappedToAns | amp.h:1393-1431 | after the swap, both channels append `ChannelCmds` |
| Render.FgPartToAns | amp.h:1393-1418 | the foreground block appends `Fg16` only when the channel is set |
| Render.BgPartToAns | amp.h:1420-1431 | the background block appends its code only when the channel is set |
| Render.ModeToAns | amp.h:1254-1457 | returns the length of the mode's SGR sequence and leaves the buffer holding that sequence (empty when there are no parameters) |
| Render.StripSgr | amp.h:1546-1551 | cutting `ESC [` and `m` from a rendered part leaves its parameter text |
| Render.PartToAns | amp.h:1538-1555 | one part renders into the work buffer, and its parameters are appended |
| Render.PieceToAns | amp.h:1538-1555 | a non-empty part's parameters are appended after a ';'; an empty part adds nothing |
| Render.ModeUpdateToAns | amp.h:1459-1579 | returns the length of the SGR sequence of the update as the library computes it (`UpdateCmdsAsWritten`), leaves the buffer holding it from `at` on, and keeps the bytes before `at` |
| Render.PartsToAns | amp.h:1538-1555 | the parts loop appends the parameters of all seven parts |
| Terminal.FirstSemicolon | amp.h:1434-1457 | the position of the first ';' in a parameter string |
| Terminal.Fields | amp.h:1434-1457 | splitting at ';' gives at least one field |
| Terminal.FirstSemicolonIs | amp.h:1434-1457 | a ';' with none before it is the first |
| Terminal.FieldsOfJoin | amp.h:1434-1457 | a field without ';' followed by ';' splits off as one field |
| Terminal.Numerals | amp.h:243-267 | one numeral per number |
| Terminal.NumberTextHasNoSemicolon | amp.h:243-267 | a numeral contains no ';' |
| Terminal.FieldsOfCodesText | amp.h:1261-1432 | splitting the rendered parameters gives back the numerals |
| Terminal.Values | amp.h:243-267 | one value per field |
| Terminal.ValuesOfNumerals | amp.h:243-267 | reading the numerals gives back the numbers |
| Terminal.GroupNumbers | amp.h:1289-1370 | the numbers of a well-formed command regroup into that command |
| Terminal.GroupFlatten | amp.h:1261-1432 | regrouping the numbers of well-formed commands gives back the commands |
| Terminal.DecodeParamText | amp.h:1261-1432 | the rendered parameter text decodes back to the commands |
| Terminal.ParseSgrText | amp.h:1434-1457 | an SGR sequence parses back to its commands |
| Terminal.SgrRoundTrip | amp.h:1254-1457 | what `amp_mode_to_ans` renders parses back to the mode's commands |
| Terminal.UpdateRoundTrip | amp.h:1459-1579 | a non-empty update parses back to its commands, both as the library computes it and with the corrected colour decision |
| Terminal.ApplyAppend | amp.h:1254-1457 | a terminal applies joined sequences one after the other |
| Terminal.ChosenSplit | amp.h:1261-1285 | the reset code comes before all other decorations |
| Terminal.DecoratedStep | amp.h:1261-1285 | one decoration code takes effect before the rest |
| Terminal.ApplyDecorations | amp.h:1261-1285 | applying decoration codes switches on those attributes |
| Terminal.DecorationsSplit | amp.h:1261-1285 | the decoration codes are a reset, if asked for, then the others; the reset alone restores the default rendition |
| Terminal.OtherDecorations | amp.h:1261-1285 | after any reset, a code is emitted iff its attribute is set |
| Terminal.DecoratedIsEffect | amp.h:1261-1285 | applying exactly the mode's decoration codes has the mode's decoration effect |
| Terminal.DecorationsApplied | amp.h:1261-1285 | the decoration commands switch on the mode's decorations, after a reset when asked for |
| Terminal.ColorsApplied | amp.h:1289-1370 | the 24-bit commands set exactly the set channels to the mode's colours |
| Terminal.CmdsApplied | amp.h:1254-1457 | with the 24-bit palette, a mode's commands have the mode's effect on any rendition |
| Terminal.ShownAfterReset | amp.h:1463-1476 | a reset sequence shows the next mode whatever was shown before |
| Terminal.ShownFromDefault | amp.h:1254-1457 | starting from the default rendition, a mode's commands show that mode |
| Terminal.PartStep | amp.h:1482-1555 | each decoration part adds its decoration to what is shown, whatever colours are shown |
| Terminal.JoinedShown | amp.h:1482-1555 | on a terminal showing prev's decorations, the first k parts add the first k newly set decorations and keep the colours shown |
| Terminal.ColorPartShown | amp.h:1525-1536 | with the corrected colour part, the last part completes the change to next |
| Terminal.UpdateShown | amp.h:1459-1579 | with the 24-bit palette, a terminal showing prev shows next after the corrected update |
| Terminal.AllPartsShown | amp.h:1538-1555 | the seven parts are the six decoration parts' effect followed by the colour part's |
| Terminal.ColorPartAsWritten | amp.h:1525-1536 | as written, the colour part sets only the channels prev did not set; a channel prev set keeps the colour shown |
| Terminal.UpdateShownAsWritten | amp.h:1459-1579 | as written, the update shows next after a reset; otherwise next, except that a channel prev already set keeps the colour shown; either way the terminal shows next up to its colours |
| Terminal.AsWrittenKeepsOldColor | amp.h:1525-1536 | as written, a red to blue foreground change emits nothing and the terminal stays red |
| Screen.GlyphText | amp.h:1611-1623 | each cell prints 1 to 4 non-NUL characters: a space for an empty or missing glyph, otherwise the glyph |
| Screen.RowCells | amp.h:1594-1624 | one (mode, text) pair per column up to the end column |
| Screen.RowCellsAt | amp.h:1594-1624 | column i pairs the cell's mode with its printed text |
| Screen.CellTextIs | amp.h:1594-1624 | a cell's output is the update `amp_mode_update_to_ans` computes from the previous mode, then its glyph text |
| Screen.EndX | amp.h:1585-1588 | the end column never exceeds the canvas width; width 0 means the full row; otherwise x + width capped at the width |
| Screen.SgrTextHasNoNul | amp.h:1604-1608 | an SGR sequence contains no NUL, so appending it is a plain string append |
| Screen.UpdateTextFits | amp.h:1590-1600 | the update sequence as the library computes it fits in the 256-byte `mode_ans` buffer |
| Screen.UpdateToAns | amp.h:1597-1609 | the mode update is appended after the output so far |
| Screen.GlyphToAns | amp.h:1611-1623 | the cell's glyph text is appended after the output so far |
| Screen.CellToAns | amp.h:1594-1624 | one loop step appends the cell's update and glyph and moves on by one column |
| Screen.ModeGlyphToAns | amp.h:1595-1623 | the loop body reads the cell's mode and appends its update and glyph |
| Screen.PrefixStep | amp.h:1594-1624 | the output of the first i + 1 cells is that of i cells, then cell i's update and glyph |
| Screen.RowCutToAns | amp.h:1581-1640 | returns the length of the cut row's text (updates from the all-clear mode, glyphs, then `ESC[0m`) and leaves the buffer holding it |
| Screen.CellsToAns | amp.h:1594-1624 | the loop appends the text of the cells from x to the end column |
| Screen.RowToAns | amp.h:1642-1651 | a whole row renders as the row cut from column 0 over the full width |
| Screen.Terminate | amp.h:1630-1632 | an empty output still leaves a terminated buffer |
| Screen.RowStepToAns | amp.h:1663-1673 | one step appends the row and, except after the last row, `\r\n` |
| Screen.EmitNonEmpty | amp.h:1669-1671 | the row separator is appended after the output so far |
| Screen.AppendRow | amp.h:1664-1666 | the row's text is appended after the output so far |
| Screen.RowsStep | amp.h:1663-1673 | the text of y + 1 rows is that of y rows, row y, then its separator |
| Screen.ToAns | amp.h:1658-1680 | returns the length of all rows joined by `\r\n` and leaves the buffer holding them |
| Screen.GlyphCellToAns | amp.h:1209-1218 | one step of the glyph loop appends the cell's glyph text |
| Screen.GlyphRowToStr | amp.h:1203-1234 | returns the length of the row's glyph texts and leaves the buffer holding them |
| Screen.FgRunStart | amp.h:1525-1536 | the first cell of the run before x over which the library emits no foreground: within x0..x, with x's foreground flag, all set when x's is |
| Screen.BgRunStart | amp.h:1525-1536 | the same for the background |
| Screen.RowShowsAsWritten | amp.h:1594-1624 | with the 24-bit palette, after the row's updates up to cell x the terminal shows x's decorations and set channels, each set channel in the colour of its run's first cell |
| Screen.RowShowsBefore | amp.h:1594-1624 | the induction of `RowShowsAsWritten` over the cells before x |
| Screen.RowShowsFirst | amp.h:1594-1624 | after the first cell's update the terminal shows that cell |
| Screen.RowShowsNext | amp.h:1594-1624 | one more cell's update moves the shown cell on by one |
| Screen.RowCmdsNext | amp.h:1594-1624 | the commands of x + 1 cells are those of x cells, then cell x's |
| Screen.RunStart | amp.h:1594-1624 | from the default rendition, the first cell's update shows that cell |
| Screen.RunNext | amp.h:1597-1600 | the update before cell x takes the terminal from cell x - 1 as shown to cell x as shown |
| Screen.RunShownShows | amp.h:1594-1624 | the shown cell differs from its mode at most in the colours of its set channels |
| Screen.RunStep | amp.h:1525-1536 | a set channel kept from the previous cell keeps its run's colour; a new or reset channel starts a run |
| Screen.CanvasRowAsWritten | amp.h:1581-1640 | on a 24-bit canvas, a rendered row shows each cell up to its colours, and in its own colours when it starts its channels' runs |
| Screen.RowShowsCells | amp.h:1594-1624 | with the 24-bit palette and the corrected colour decision, after cell x's update the terminal shows cell x's mode |
| Screen.RowShowsPrev | amp.h:1591-1624 | with the corrected colour decision, the terminal shows the mode the loop remembers as the previous one |
| Screen.ShowNextCell | amp.h:1594-1624 | with the corrected colour decision, one more cell's update moves the shown mode on by one cell |
| Screen.CorrectedRowCmdsNext | amp.h:1594-1624 | with the corrected colour decision, the commands of x + 1 cells are those of x cells, then cell x's |
| Screen.CanvasRowShown | amp.h:1581-1640 | on a 24-bit canvas, with the corrected colour decision, each cell of a rendered row is shown in its own mode |
| Screen.ShowStep | amp.h:1597-1600 | a terminal showing the mode before cell x shows cell x's mode after the corrected update |
| Screen.PlainPrefix | amp.h:1594-1624 | a row of all-clear modes prints only its glyph texts |
| Screen.PlainCellText | amp.h:1594-1624 | an all-clear cell after an all-clear one prints only its glyph |
| Screen.PlainRow | amp.h:1203-1234 | a row of all-clear cells renders as `amp_glyph_row_to_str`'s text followed by `ESC[0m` |
| Screen.PlainCell | amp.h:1459-1579 | between two all-clear modes the update is empty, as written and corrected |
| Screen.GlyphsLength | amp.h:1209-1218 | a row of x glyph texts is between x and 4x characters long |
| Screen.GlyphsOfPrefix | amp.h:1209-1218 | the glyph text of the first x cells depends only on those cells |
| Segments.LineEnd | amp.h:1789-1827 | a line ends at the limit, at a NUL or at the first `\n` or `\r` |
| Segments.LineEndIsFirst | amp.h:1789-1827 | no byte before the line end is a NUL or a break |
| Segments.NextLine | amp.h:1789-1827 | the next line starts after the break: two bytes for `\r\n` or `\n\r`, one for a lone break, none at the end |
| Segments.NextLineAdvances | amp.h:1814 | the next line starts after the current one when the line is not empty |
| Segments.FirstLineSize | amp.h:1789-1827 | the scanner returns the first line's length and where the next line starts |
| Segments.SkipSymbol | amp.h:1829-1846 | skipping a character stays put only at the end or a NUL, moves at most 4 bytes, and a multi-byte step is the character's size |
| Segments.WideSymbolBytes | amp.h:1829-1846 | every byte skipped in a multi-byte step is at least 0x80 |
| Segments.SpacesEnd | amp.h:1872-1896 | skipping spaces stops at the limit or the first byte that is not a space |
| Segments.SpacesEndIsFirst | amp.h:1872-1896 | every byte skipped is a space |
| Segments.WordEnd | amp.h:1898-1926 | a word ends at the limit, a NUL or a space |
| Segments.WordEndIsFirst | amp.h:1898-1926 | every byte of the word is neither a NUL nor a space |
| Segments.WordEndFrom | amp.h:1898-1926 | the end of a word is the same from any point inside it |
| Segments.SkipSpaces | amp.h:1872-1896 | the loop returns the end of the spaces |
| Segments.SkipWord | amp.h:1898-1926 | the loop returns the end of the word |
| Segments.SymbolsEnd | amp.h:1928-1951 | skipping k characters stays within the span and moves when there is one to skip |
| Segments.SkipWidth | amp.h:1928-1951 | the loop returns the position after k characters, or where the text stops |
| Segments.SymbolsCount | amp.h:1928-1951 | skipping k of at least k characters passes exactly k |
| Segments.SymbolAtIsCharacter | amp.h:1928-1951 | the k-th character of a text with more than k is well formed |
| Segments.CountStep | amp.h:1829-1870 | a text with a character starts with a well-formed one, and the count goes on after it |
| Segments.CountStepWithin | amp.h:1829-1870 | the same holds with the limit cut anywhere after that character |
| Segments.RunEnd | amp.h:1961-1965 | a run (spaces, then a word) moves when there is text and ends at the limit, a NUL or a space |
| Segments.NextRun | amp.h:1961-1965 | the two skips return the end of the run |
| Segments.WrapFrom | amp.h:1953-1988 | the wrap point lies within the span |
| Segments.SkipWrap | amp.h:1953-1988 | the loop returns the greedy wrap point |
| Segments.WrapStep | amp.h:1953-1988 | taking a run that fits continues the wrap from after it |
| Segments.WrapIsGreedy | amp.h:1953-1988 | unless it hard-splits, the wrap takes whole runs whose widths fit, and the text ends there or the next run would not fit |
| Segments.WrapAtBoundary | amp.h:1953-1988 | unless it hard-splits, the wrap ends at a space, a NUL or the end |
| Segments.WrapHardSplit | amp.h:1953-1988 | when the first run alone is too wide, the wrap cuts after exactly `wrap` characters |
| Segments.WrapAdvances | amp.h:1953-1988 | with a width of at least 1 the wrap of a non-empty text moves forward |
| Segments.SegWidth | amp.h:1848-1870 | the loop returns the largest character count of any line |
| Segments.NthLine | amp.h:1848-1870 | the k-th line, when there is one, starts inside the text at a byte that is not NUL |
| Segments.LineNoWider | amp.h:1848-1870 | no line is wider than the reported width |
| Segments.WidestLineExists | amp.h:1848-1870 | some line is exactly as wide as the reported width |
| Segments.LineEndAgain | amp.h:1789-1827 | measuring a line again within its own end finds the same end |
| Segments.OneLineWidth | amp.h:1848-1870 | the width of a single line is its character count |
| Segments.PlainWordCount | amp.h:757-817 | a word of ASCII letters has one character per byte |
| Segments.PlainWordSymbols | amp.h:1928-1951 | in such a word, skipping k characters moves k bytes |
| Segments.PlainWordLine | amp.h:1789-1827 | such a word is a single line |
| Segments.PlainWordRun | amp.h:1953-1988 | such a word is a single run without leading spaces |
| Segments.PlainWordWidth | amp.h:1848-1870 | the width of such a word is its length |
| Layout.StartColumn | amp.h:1086-1091 | left text starts at x, right text ends at x (starts at x - width + 1), centred text starts at x - width / 2 |
| Layout.Window | amp.h:1043-1074 | the 5 bytes a drawn character is read from start at its offset |
| Layout.SizeInWindow | amp.h:1050-1062 | measuring a character in its window gives its size in the text |
| Layout.Room | amp.h:1093-1109 | at least one cell is drawn, and as many as remain up to the canvas edge when x is inside |
| Layout.Paint | amp.h:1093-1109 | drawing a row of pieces keeps the canvas valid and its shape |
| Layout.PaintNext | amp.h:1093-1109 | the same for a non-empty row of pieces |
| Layout.PaintCons | amp.h:1093-1109 | drawing pieces is drawing the first glyph, then the rest one column on |
| Layout.TextClip | amp.h:1076-1110 | drawing text keeps the canvas valid and its shape, and text on a row outside the canvas changes nothing |
| Layout.PiecesCount | amp.h:1093-1109 | as many pieces as characters, up to the room left |
| Layout.PiecesAt | amp.h:1093-1109 | piece k is the window at the k-th character |
| Layout.WindowOfCharacter | amp.h:1050-1070 | a window at a well-formed character always draws a glyph |
| Layout.PaintKeepsGlyph | amp.h:1093-1109 | cells outside the drawn columns keep their glyphs |
| Layout.PaintNextKeepsGlyph | amp.h:1093-1109 | the same for a non-empty row |
| Layout.PaintKeepsMode | amp.h:1093-1109 | cells outside the drawn columns keep their modes |
| Layout.PaintNextKeepsMode | amp.h:1093-1109 | the same for a non-empty row |
| Layout.PaintStores | amp.h:1093-1109 | column x + k holds piece k's glyph |
| Layout.PaintNextStores | amp.h:1093-1109 | the same for a non-empty row |
| Layout.PaintStoresFirst | amp.h:1093-1109 | the first column holds the first piece's glyph |
| Layout.PaintStyles | amp.h:1093-1109 | column x + k reads back the style's decorations |
| Layout.PaintNextStyles | amp.h:1093-1109 | the same for a non-empty row |
| Layout.PaintModeFirst | amp.h:1093-1109 | the first column's mode is the one its own draw leaves |
| Layout.PaintStylesFirst | amp.h:1093-1109 | the first column reads back the style's decorations |
| Layout.TextClipFrame | amp.h:1076-1110 | cells outside the text's columns on its row keep their glyph and mode |
| Layout.TextClipPlaces | amp.h:1076-1110 | the k-th character lands at column start + k, with the style's decorations |
| Layout.PieceOfText | amp.h:1093-1109 | the k-th piece of a text is its k-th character's window, and it draws |
| Layout.RightAlignedEndsAt | amp.h:1076-1110 | right-aligned text ends with its last character at x, and nothing right of x changes |
| Layout.CenteredAt | amp.h:1076-1110 | centred text has its character number width / 2 at x |
| Layout.DrawTextClip | amp.h:1076-1110 | the canvas ends as `TextClip` of its old contents |
| Layout.DrawRow | amp.h:1093-1109 | the loop draws the text's pieces from the start column |
| Layout.DrawText | amp.h:1112-1117 | drawing a C string is drawing its whole length |
| Multiline.ClipEnd | amp.h:1137-1151 | the part drawn on the first row lies within the line |
| Multiline.Trail | amp.h:1152-1162 | a rest is drawn iff the line goes on after the cut with something other than spaces; it ends where the line ends and is not empty |
| Multiline.TrailIsShorter | amp.h:1163 | for a width of at least 1, the span passed to the recursive call is strictly inside the line, so the recursion ends |
| Multiline.RowsCoverLines | amp.h:1119-1191 | the count of rows is at least the number of lines |
| Multiline.NarrowRows | amp.h:1119-1191 | when no line is wider than the width, one row is drawn per line |
| Multiline.WordText | amp.h:1119-1191 | a text that is one ASCII word draws as that single line |
| Multiline.WordCut | amp.h:1137-1151 | a word wider than the width is cut after exactly width characters |
| Multiline.WordTrail | amp.h:1152-1162 | the rest of that word is passed on to the next row |
| Multiline.WordRowsStep | amp.h:1137-1181 | a word wider than the width takes one row plus the rows of its rest |
| Multiline.WordRows | amp.h:1119-1191 | a word of n ASCII letters takes ceil(n / width) rows |
| Multiline.TenLettersInFourColumns | amp.h:1119-1191 | ten letters at width 4 take 3 rows |
| Multiline.TextDrawn | amp.h:1119-1191 | drawing multiline text keeps the canvas valid and its shape |
| Multiline.LinesDrawn | amp.h:1128-1188 | the same for the lines from a given line |
| Multiline.LineDrawn | amp.h:1137-1181 | the same for one line |
| Multiline.WrappedDrawn | amp.h:1137-1181 | the same for a line wider than the width |
| Multiline.WideLine | amp.h:1137-1181 | a wide line draws its first part on this row and its rest from the next row, and its rows count 1 plus the rest's |
| Multiline.TextStep | amp.h:1128-1188 | the loop's rows are the current line's plus those of the following lines |
| Multiline.DrawStep | amp.h:1128-1188 | drawing the text is drawing the current line, then the following lines below its rows |
| Multiline.LoopStep | amp.h:1128-1188 | one turn of the loop keeps its invariant: the rows counted plus the rows still to draw make the whole text's, and the canvas still ends as the whole text drawn |
| Multiline.WrappedSplit | amp.h:1137-1181 | a wrapped line draws its first piece on row y and its trail, if any, as text from row y + 1, and counts 1 plus the trail's rows |
| Multiline.TextClipOffRow | amp.h:1076-1110 | drawing a piece of text on row y leaves every cell of the other rows as it was |
| Multiline.TextKeepsGlyph | amp.h:1119-1191 | rows outside the drawn rows keep their glyphs |
| Multiline.LineKeepsGlyph | amp.h:1137-1181 | rows outside a line's rows keep their glyphs |
| Multiline.WrappedKeepsGlyph | amp.h:1137-1181 | the same for a wrapped line |
| Multiline.TrailKeepsGlyph | amp.h:1152-1163 | the rest of a wrapped line leaves its first row as the first part drew it |
| Multiline.TextKeepsMode | amp.h:1119-1191 | rows outside the drawn rows keep their modes |
| Multiline.LineKeepsMode | amp.h:1137-1181 | rows outside a line's rows keep their modes |
| Multiline.WrappedKeepsMode | amp.h:1137-1181 | the same for a wrapped line |
| Multiline.TrailKeepsMode | amp.h:1152-1163 | the rest of a wrapped line leaves the first row's modes as the first part set them |
| Multiline.DrawMultilineTextClip | amp.h:1119-1191 | returns the number of rows drawn, and the canvas ends as `TextDrawn` of its old contents |
| Multiline.DrawLine | amp.h:1137-1181 | one line's body draws that line and returns its rows |
| Multiline.DrawMultilineText | amp.h:1193-1201 | drawing a C string is drawing its whole length from its start |

## Left out

- The example programs and their helper header (`examples/src/*.c`, `examples/src/utils.h`) are not part of this model. They are demonstration mains that allocate memory, load files, print and draw random numbers. They also call a newer API (document encoding and decoding, rich text, sprites, `amp_calc_size`) whose code is not in `amp.h`.
- The floating-point colour gradient of the 24-bit example is not modelled.
- `snprintf` is not modelled. `StrAppend` describes its effect for `"%s"`: the source is appended when it fits with its terminator, and otherwise the first byte is cleared. In both cases the source's length is returned.
- `isprint` depends on the locale. It is modelled as the ASCII range 0x20-0x7E (`Cells.IsPrint`).
- `amp_str_seg_skip_wrap` with a wrap width of 0 returns its start, so `amp_draw_multiline_text_clip` with a maximum width of 0 never ends. The multiline members require a width of at least 1.
- `x` and `y` are C `long` and `uint32_t` values. They are unbounded integers here: the model does not wrap them around at 2^32 or overflow them. `EndX` does model the `uint32_t` sum `x + width` when it stays below 2^32, and `Init` models the `size_t` product `12 * width * height` modulo 2^64.
- `amp_draw_multiline_text_clip` keeps `y` and `line_count` in two variables that always move together. The model keeps one.
- The `next_line <= line` guards in `amp_str_seg_width` and `amp_draw_multiline_text_clip` can never fire (`Segments.NextLineAdvances`), so the loops leave them out.
- `amp_map_rgb` and `amp_unmap_rgb` only move three bytes between a colour and memory. Colours are the `Rgb` datatype.
- `amp_init` splits one buffer between glyphs and modes with pointer arithmetic. The canvas keeps two separate arrays of the sizes `amp_init` computes.
- `strlen` on a glyph is the length of the C string (`Common.CString`).
- Colours and flags are plain values. C bit-field packing is modelled only where the bytes are visible, in the 7-byte cell form.
- Terminal.UpdateShown, Terminal.UpdateShownAsWritten, Terminal.CmdsApplied, Screen.RowShowsAsWritten, Screen.CanvasRowAsWritten and Screen.CanvasRowShown are stated for the 24-bit palette. With 16 colours, a terminal shows the nearest table colour instead of the exact one. These members do not state what it shows for the 16-colour palette.
- Cells.GetStyle: the read style is stated to hold only decoration bits. The code returns decoration bits only and does not look up colour bits for the stored colours, so this is all it promises.

Three behaviours of the code that the model keeps as they are:

- `amp_find_rgb16` picks the table entry at the smallest unweighted squared distance, `dr * dr + dg * dg + db * db` (amp.h:1737-1765).
- `amp_put_style` clears a channel's set-flag when the style names no colour for it (amp.h:959-1032, the `else` lines at 996 and 1031).
- Every rendered row ends with `ESC[0m`, whatever its last cell's mode (amp.h:1626-1628).

## Findings

| source | as written | input that shows it | evidently intended | confidence | as-written member | corrected member |
|---|---|---|---|---|---|---|
| amp.h:1525-1536 | the colour part of `amp_mode_update_to_ans` sets a channel only when next sets it and prev did not, so a colour that changes while staying set is never emitted | prev with foreground red (255,0,0) set, next with foreground blue (0,0,255) set, no decorations: the update is empty and a terminal keeps showing red for next's cell | emit a channel whenever next sets it and prev did not set it or set it to a different colour | not executed | Terminal.AsWrittenKeepsOldColor | Terminal.UpdateShown |
