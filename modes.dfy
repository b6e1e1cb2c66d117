/** The rendering mode of one cell (`struct amp_mode_type`) and its 7-byte
    stored form: six colour bytes and one byte of flags. */
module Modes {
  import opened Common
  import opened Palette

  /** Bytes one cell's mode takes in the mode array (`AMP_CELL_MODE_SIZE`). */
  const MODE_SIZE: nat := 7

  /** `struct amp_mode_type`. `broken` and `reset` are never stored:
      `broken` marks a mode read from outside the canvas, `reset` asks the
      renderer to start its escape sequence with a full reset. */
  datatype Mode = Mode(
    fg: Rgb, bg: Rgb,
    fgSet: bool, bgSet: bool,
    hidden: bool, faint: bool, italic: bool, underline: bool,
    blinking: bool, strikethrough: bool,
    broken: bool, reset: bool)

  /** The zero-initialised mode: no colour, no decoration. */
  const Plain: Mode := Mode(Rgb(0, 0, 0), Rgb(0, 0, 0), false, false,
    false, false, false, false, false, false, false, false)

  /** What `amp_get_mode` returns for a cell that does not exist
      (amp.h:909-911). */
  const BrokenCell: Mode := Plain.(broken := true)

  /** The flag byte, bit 0 upwards: fg, bg, hidden, faint, italic,
      underline, blinking, strikethrough. */
  function FlagByte(m: Mode): byte
  {
    FlagBits(m) as int
  }

  /** The 7 bytes `amp_mode_cell_serialize` writes (amp.h:1710-1735). */
  function Pack(m: Mode): (b: seq<byte>)
    ensures |b| == MODE_SIZE
  {
    [m.fg.r, m.fg.g, m.fg.b, m.bg.r, m.bg.g, m.bg.b, FlagByte(m)]
  }

  function Flag(b: byte, mask: bv8): bool
  {
    (b as bv8) & mask != 0
  }

  function ByteAt(data: seq<byte>, i: nat): byte
  {
    if |data| > i then data[i] else 0
  }

  /** `amp_mode_cell_deserialize(data, |data|)` (amp.h:1682-1708): bytes
      that are missing read as zero, and a short source marks the mode
      broken. */
  function Deserialize(data: seq<byte>): (m: Mode)
    ensures !m.reset
    ensures m.broken <==> |data| < MODE_SIZE
  {
    var f := ByteAt(data, 6);
    Mode(
      Rgb(ByteAt(data, 0), ByteAt(data, 1), ByteAt(data, 2)),
      Rgb(ByteAt(data, 3), ByteAt(data, 4), ByteAt(data, 5)),
      Flag(f, 1), Flag(f, 2), Flag(f, 4), Flag(f, 8),
      Flag(f, 16), Flag(f, 32), Flag(f, 64), Flag(f, 128),
      |data| < MODE_SIZE, false)
  }

  /** The flag byte of a mode, as a bit-vector. */
  function FlagBits(m: Mode): bv8
  {
    (if m.fgSet then 1 else 0) | (if m.bgSet then 2 else 0) |
    (if m.hidden then 4 else 0) | (if m.faint then 8 else 0) |
    (if m.italic then 16 else 0) | (if m.underline then 32 else 0) |
    (if m.blinking then 64 else 0) | (if m.strikethrough then 128 else 0)
  }

  lemma BitsOfFlagByte(m: Mode)
    ensures FlagByte(m) as bv8 == FlagBits(m)
  {
    var f := FlagBits(m);
    assert (f as int) as bv8 == f;
  }

  /** Each flag reads back from its own bit of the flag byte. */
  lemma FlagsOfFlagByte(m: Mode)
    ensures var f := FlagByte(m);
      && Flag(f, 1) == m.fgSet && Flag(f, 2) == m.bgSet
      && Flag(f, 4) == m.hidden && Flag(f, 8) == m.faint
      && Flag(f, 16) == m.italic && Flag(f, 32) == m.underline
      && Flag(f, 64) == m.blinking && Flag(f, 128) == m.strikethrough
  {
    BitsOfFlagByte(m);
  }

  /** Reading back what was stored gives the mode's colours and its eight
      stored flags; `broken` and `reset` come back false. */
  lemma {:induction false} DeserializePack(m: Mode)
    ensures Deserialize(Pack(m)) == m.(broken := false, reset := false)
  {
    FlagsOfFlagByte(m);
  }

  /** Conversely, every 7-byte record is the stored form of the mode read
      from it: no two stored forms read as the same mode. */
  lemma {:induction false} PackDeserialize(data: seq<byte>)
    requires |data| == MODE_SIZE
    ensures Pack(Deserialize(data)) == data
  {
    var f := data[6] as bv8;
    FlagBitsOfFlags(Deserialize(data), f);
    assert (f as int) == data[6];
  }

  /** A mode whose eight stored flags are the bits of `f` packs them back
      into `f`. */
  lemma FlagBitsOfFlags(m: Mode, f: bv8)
    requires m.fgSet == (f & 1 != 0) && m.bgSet == (f & 2 != 0)
    requires m.hidden == (f & 4 != 0) && m.faint == (f & 8 != 0)
    requires m.italic == (f & 16 != 0) && m.underline == (f & 32 != 0)
    requires m.blinking == (f & 64 != 0) && m.strikethrough == (f & 128 != 0)
    ensures FlagBits(m) == f
  {
  }

  /** A mode read from fewer than 7 bytes is broken, and has no flag set. */
  lemma ShortReadIsBroken(data: seq<byte>)
    requires |data| < MODE_SIZE
    ensures var m := Deserialize(data);
      m.broken && !m.fgSet && !m.bgSet && !m.hidden && !m.faint && !m.italic
      && !m.underline && !m.blinking && !m.strikethrough
  {
  }

  /** `amp_mode_cell_serialize(m, dst + at, size)` (amp.h:1710-1735): with
      room for 7 bytes it stores the mode's record there and reports
      success; otherwise it writes nothing. */
  method Serialize(m: Mode, dst: array<byte>, at: nat, size: nat) returns (ok: bool)
    requires size < MODE_SIZE || at + size <= dst.Length
    modifies dst
    ensures ok <==> size >= MODE_SIZE
    ensures ok ==> dst[..] == old(dst[..at]) + Pack(m) + old(dst[at + MODE_SIZE..])
    ensures !ok ==> dst[..] == old(dst[..])
  {
    if size < MODE_SIZE {
      return false;
    }
    var rec := Pack(m);
    var i := 0;
    while i < MODE_SIZE
      invariant 0 <= i <= MODE_SIZE
      invariant dst[..] == old(dst[..at]) + rec[..i] + old(dst[at + i..])
    {
      dst[at + i] := rec[i];
      i := i + 1;
    }
    return true;
  }
}
