/** Shared vocabulary: bytes, C strings read as byte sequences, and the
    saturating size subtraction used throughout the library. */
module Common {

  /** One octet of a C `char`/`uint8_t` buffer. */
  type byte = x: int | 0 <= x < 256

  /** The C string terminator as an output character. */
  const NUL: char := 0 as char

  /** One past the largest `uint32_t`. */
  const UINT32_LIMIT: int := 0x1_0000_0000

  /** One past the largest `size_t` on a 64-bit target. */
  const SIZE_LIMIT: int := 0x1_0000_0000_0000_0000

  datatype Option<T> = None | Some(value: T)

  /** The byte at position `i` of a NUL-terminated string whose bytes before
      the terminator are `s`: reading at or past the end yields the
      terminator, as dereferencing the C pointer would. */
  function At(s: seq<byte>, i: nat): byte
  {
    if i < |s| then s[i] else 0
  }

  /** The string that starts `i` bytes into `s` (pointer `s + i`). */
  function Drop(s: seq<byte>, i: nat): (r: seq<byte>)
    ensures forall k: nat :: At(r, k) == At(s, i + k)
  {
    if i <= |s| then s[i..] else []
  }

  /** The first `k` bytes seen through `At`, padded with terminators. */
  function Take(s: seq<byte>, k: nat): (r: seq<byte>)
    ensures |r| == k
    ensures forall i :: 0 <= i < k ==> r[i] == At(s, i)
  {
    seq(k, i requires 0 <= i < k => At(s, i))
  }

  /** The C string stored in `s`: its bytes up to the first terminator. */
  function CString(s: seq<byte>): (r: seq<byte>)
    ensures |r| <= |s| && r == s[..|r|]
    ensures 0 !in r
    ensures |r| < |s| ==> s[|r|] == 0
  {
    if s == [] || s[0] == 0 then [] else [s[0]] + CString(s[1..])
  }

  /** `amp_sub_size`: `a - b` for `size_t`, saturating at zero instead of
      wrapping around (amp.h:1653-1656). */
  function SubSize(a: nat, b: nat): (r: nat)
    ensures a >= b ==> r + b == a
    ensures a < b ==> r == 0
  {
    if a < b then 0 else a - b
  }

  /** Output characters of the bytes of a glyph. */
  function Chars(b: seq<byte>): (r: string)
    ensures |r| == |b|
    ensures forall i :: 0 <= i < |b| ==> r[i] as int == b[i]
  {
    seq(|b|, i requires 0 <= i < |b| => b[i] as char)
  }

  /** Euclidean division by a positive divisor is determined by quotient
      and remainder. */
  lemma DivMod(a: int, w: int, q: int, r: int)
    requires w > 0 && 0 <= r < w && a == q * w + r
    ensures a / w == q && a % w == r
  {
    var q', r' := a / w, a % w;
    assert a == q' * w + r';
    var d := q - q';
    assert d * w == r' - r;
    if d > 0 {
      assert d * w >= w by { MulMono(d, w); }
    } else if d < 0 {
      assert (-d) * w >= w by { MulMono(-d, w); }
    }
  }

  lemma MulMono(d: int, w: int)
    requires d >= 1 && w > 0
    ensures d * w >= w
  {
  }

  /** A C string ends at its first terminator: extending the bytes after a
      terminator does not change it. */
  lemma {:induction false} CStringOfPrefix(s: seq<byte>, k: nat)
    requires k <= |s| && |CString(s[..k])| < k
    ensures CString(s) == CString(s[..k])
  {
    if s[0] != 0 {
      assert s[..k][1..] == s[1..][..k - 1];
      CStringOfPrefix(s[1..], k - 1);
    }
  }

  /** `s` with the bytes at `off..off + |t|` overwritten by `t` (a
      `memcpy` into a buffer). */
  function Splice(s: seq<byte>, off: nat, t: seq<byte>): (r: seq<byte>)
    requires off + |t| <= |s|
    ensures |r| == |s| && r[off..off + |t|] == t
    ensures forall i :: 0 <= i < |s| && !(off <= i < off + |t|) ==> r[i] == s[i]
  {
    s[..off] + t + s[off + |t|..]
  }

  /** A window of `s` that does not meet the overwritten bytes is unchanged. */
  lemma SpliceElsewhere(s: seq<byte>, off: nat, t: seq<byte>, lo: nat, hi: nat)
    requires off + |t| <= |s| && lo <= hi <= |s|
    requires hi <= off || off + |t| <= lo
    ensures Splice(s, off, t)[lo..hi] == s[lo..hi]
  {
  }

  /** The length of a C string is the position of its first terminator. */
  lemma {:induction false} CStringLength(s: seq<byte>, k: nat)
    requires forall j :: 0 <= j < k ==> At(s, j) != 0
    requires At(s, k) == 0
    ensures |CString(s)| == k
  {
    if k > 0 {
      assert At(s, 0) != 0;
      forall j | 0 <= j < k - 1
        ensures At(s[1..], j) != 0
      {
        assert At(s[1..], j) == At(s, j + 1);
      }
      assert At(s[1..], k - 1) == At(s, k);
      CStringLength(s[1..], k - 1);
    }
  }

  /** A string whose first `k` bytes are not terminators is at least `k`
      long. */
  lemma {:induction false} CStringAtLeast(s: seq<byte>, k: nat)
    requires forall j :: 0 <= j < k ==> At(s, j) != 0
    ensures |CString(s)| >= k
  {
    if k > 0 {
      assert At(s, 0) != 0;
      forall j | 0 <= j < k - 1
        ensures At(s[1..], j) != 0
      {
        assert At(s[1..], j) == At(s, j + 1);
      }
      CStringAtLeast(s[1..], k - 1);
    }
  }
}
