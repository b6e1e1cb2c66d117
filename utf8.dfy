/** Measuring UTF-8 encoded characters (amp.h:757-817), checked against the
    UTF-8 syntax of section 4 of RFC 3629 and against an encoder. */
module Utf8 {
  import opened Common

  /** A continuation byte, of the form 10xxxxxx. */
  predicate Continuation(b: byte)
  {
    0x80 <= b <= 0xBF
  }

  /** The library tests for a continuation byte by flipping its top bit
      and comparing with 0x40 (amp.h:769); that test is `Continuation`. */
  lemma XorTestIsContinuation(b: byte)
    ensures ((b as bv8) ^ 0x80) < 0x40 <==> Continuation(b)
  {
  }

  /** The `UTF8-tail` rule of RFC 3629: %x80-BF. */
  predicate Tail(b: byte)
  {
    0x80 <= b <= 0xBF
  }

  /** The `UTF8-char` rule of section 4 of RFC 3629, one alternative per
      line of its grammar. */
  predicate Utf8Char(b: seq<byte>)
  {
    || (|b| == 1 && b[0] <= 0x7F)
    || (|b| == 2 && 0xC2 <= b[0] <= 0xDF && Tail(b[1]))
    || (|b| == 3 && Tail(b[2]) && (
          || (b[0] == 0xE0 && 0xA0 <= b[1] <= 0xBF)
          || (0xE1 <= b[0] <= 0xEC && Tail(b[1]))
          || (b[0] == 0xED && 0x80 <= b[1] <= 0x9F)
          || (0xEE <= b[0] <= 0xEF && Tail(b[1]))))
    || (|b| == 4 && Tail(b[2]) && Tail(b[3]) && (
          || (b[0] == 0xF0 && 0x90 <= b[1] <= 0xBF)
          || (0xF1 <= b[0] <= 0xF3 && Tail(b[1]))
          || (b[0] == 0xF4 && 0x80 <= b[1] <= 0x8F)))
  }

  /** `amp_utf8_code_point_size(s + i, n)` (amp.h:757-796): the length of
      the character at offset `i` of `s` when it is a well-formed UTF-8
      sequence that lies within the first `n` bytes, 0 for the terminator,
      -1 for anything else (including `n == 0`, truncated sequences,
      overlongs, surrogates and values above U+10FFFF). */
  function CodePointSize(s: seq<byte>, i: nat, n: nat): (r: int)
    ensures -1 <= r <= 4
    ensures r == 0 <==> n > 0 && At(s, i) == 0
    ensures r >= 1 ==> r <= n
  {
    if n > 0 then
      var c := At(s, i);
      if c < 0x80 then
        (if c != 0 then 1 else 0)
      else if c >= 0xC2 then
        if c < 0xE0 then
          (if n >= 2 && Continuation(At(s, i + 1)) then 2 else -1)
        else if c < 0xF0 then
          (if n >= 3
              && Continuation(At(s, i + 1))
              && Continuation(At(s, i + 2))
              && (c >= 0xE1 || At(s, i + 1) >= 0xA0)
              && (c != 0xED || At(s, i + 1) < 0xA0)
           then 3 else -1)
        else if c < 0xF8 then
          (if n >= 4
              && Continuation(At(s, i + 1))
              && Continuation(At(s, i + 2))
              && Continuation(At(s, i + 3))
              && (c >= 0xF1 || At(s, i + 1) >= 0x90)
              && (c < 0xF4 || (c == 0xF4 && At(s, i + 1) < 0x90))
           then 4 else -1)
        else -1
      else -1
    else -1
  }

  /** Every byte of a character of two bytes or more has its top bit set,
      so none of them is ASCII: not a space, a line break or a terminator. */
  lemma WideCharBytes(s: seq<byte>, i: nat, n: nat)
    requires CodePointSize(s, i, n) >= 2
    ensures forall k :: i <= k < i + CodePointSize(s, i, n) ==> At(s, k) >= 0x80
  {
  }

  /** The size depends on the limit only through the test that the
      character fits: any limit that holds it gives the same size. */
  lemma SizeWithinLimit(s: seq<byte>, i: nat, n: nat, m: nat)
    requires CodePointSize(s, i, n) >= 1 && CodePointSize(s, i, n) <= m
    ensures CodePointSize(s, i, m) == CodePointSize(s, i, n)
  {
  }

  /** A pointer into the middle of a text reads the same character as the
      text does at that offset. */
  lemma SizeInSuffix(s: seq<byte>, i: nat, n: nat)
    requires i <= |s|
    ensures CodePointSize(s[i..], 0, n) == CodePointSize(s, i, n)
  {
    var t := s[i..];
    assert At(t, 0) == At(s, i) && At(t, 1) == At(s, i + 1);
    assert At(t, 2) == At(s, i + 2) && At(t, 3) == At(s, i + 3);
  }

  /** What the library accepts is one `UTF8-char` of RFC 3629, lying within
      the string and within the first `n` bytes... */
  lemma AcceptedIsUtf8Char(s: seq<byte>, n: nat)
    requires CodePointSize(s, 0, n) >= 1
    ensures var r := CodePointSize(s, 0, n); r <= |s| && Utf8Char(Take(s, r))
  {
    var r := CodePointSize(s, 0, n);
    var t := Take(s, r);
    assert t[0] == At(s, 0);
    if r >= 2 { assert t[1] == At(s, 1); }
    if r >= 3 { assert t[2] == At(s, 2); }
    if r == 4 { assert t[3] == At(s, 3); }
  }

  /** ...and every `UTF8-char` other than NUL that lies within the first
      `n` bytes is accepted, with its length. */
  lemma Utf8CharIsAccepted(s: seq<byte>, n: nat, k: nat)
    requires 1 <= k <= n && At(s, 0) != 0 && Utf8Char(Take(s, k))
    ensures CodePointSize(s, 0, n) == k
  {
    var t := Take(s, k);
    assert t[0] == At(s, 0);
    if k >= 2 { assert t[1] == At(s, 1); }
    if k >= 3 { assert t[2] == At(s, 2); }
    if k == 4 { assert t[3] == At(s, 3); }
  }

  /** The size depends only on the bytes of the character itself: a string
      that starts with the same `k` bytes has the same size. */
  lemma SizeOfPrefix(s: seq<byte>, n: nat, t: seq<byte>, m: nat)
    requires CodePointSize(s, 0, n) >= 1
    requires var k := CodePointSize(s, 0, n); k <= m && Take(t, k) == Take(s, k)
    ensures CodePointSize(t, 0, m) == CodePointSize(s, 0, n)
  {
    var k := CodePointSize(s, 0, n);
    AcceptedIsUtf8Char(s, n);
    assert At(t, 0) == Take(t, k)[0];
    Utf8CharIsAccepted(t, m, k);
  }

  /** A Unicode scalar value: a code point that is not a surrogate. */
  predicate Scalar(cp: int)
  {
    0 <= cp <= 0x10FFFF && !(0xD800 <= cp <= 0xDFFF)
  }

  /** The shortest UTF-8 encoding of a scalar value (section 3 of RFC 3629). */
  function Encode(cp: int): (b: seq<byte>)
    requires Scalar(cp)
    ensures 1 <= |b| <= 4
  {
    var t0, t1, t2 := cp % 64, cp / 64 % 64, cp / 64 / 64 % 64;
    if cp < 0x80 then [cp]
    else if cp < 0x800 then [0xC0 + cp / 64, 0x80 + t0]
    else if cp < 0x10000 then [0xE0 + cp / 64 / 64, 0x80 + t1, 0x80 + t0]
    else [0xF0 + cp / 64 / 64 / 64, 0x80 + t2, 0x80 + t1, 0x80 + t0]
  }

  /** The value a well-formed sequence encodes, six bits per tail byte. */
  function Decode(b: seq<byte>): int
    requires Utf8Char(b)
  {
    if |b| == 1 then b[0]
    else if |b| == 2 then Shift(b[0] as int - 0xC0, b[1])
    else if |b| == 3 then Shift(Shift(b[0] as int - 0xE0, b[1]), b[2])
    else Shift(Shift(Shift(b[0] as int - 0xF0, b[1]), b[2]), b[3])
  }

  /** Appends the six payload bits of a tail byte. */
  function Shift(hi: int, tail: byte): int
  {
    hi * 64 + (tail as int - 0x80)
  }

  lemma ShiftSplits(hi: int, tail: byte)
    requires Tail(tail)
    ensures Shift(hi, tail) / 64 == hi && Shift(hi, tail) % 64 == tail as int - 0x80
  {
  }

  /** Every scalar value's encoding is well formed and decodes back. */
  lemma {:induction false} EncodeRoundTrip(cp: int)
    requires Scalar(cp)
    ensures Utf8Char(Encode(cp)) && Decode(Encode(cp)) == cp
  {
    var b := Encode(cp);
    if cp >= 0x80 {
      assert cp == Shift(cp / 64, b[|b| - 1]);
    }
    if cp >= 0x800 {
      assert cp / 64 == Shift(cp / 64 / 64, b[|b| - 2]);
    }
    if cp >= 0x10000 {
      assert cp / 64 / 64 == Shift(cp / 64 / 64 / 64, b[1]);
    }
  }

  /** Every well-formed sequence encodes a scalar value, and is that
      value's shortest encoding: the grammar admits no overlong forms, no
      surrogates and nothing above U+10FFFF. */
  lemma {:induction false} DecodeRoundTrip(b: seq<byte>)
    requires Utf8Char(b)
    ensures Scalar(Decode(b)) && Encode(Decode(b)) == b
  {
    var cp := Decode(b);
    if |b| == 2 {
      ShiftSplits(b[0] as int - 0xC0, b[1]);
    } else if |b| == 3 {
      var hi := Shift(b[0] as int - 0xE0, b[1]);
      ShiftSplits(hi, b[2]);
      ShiftSplits(b[0] as int - 0xE0, b[1]);
    } else if |b| == 4 {
      var hi := Shift(b[0] as int - 0xF0, b[1]);
      var mid := Shift(hi, b[2]);
      ShiftSplits(mid, b[3]);
      ShiftSplits(hi, b[2]);
      ShiftSplits(b[0] as int - 0xF0, b[1]);
    }
  }

  /** The library accepts exactly the encodings of non-NUL scalar values:
      the encoding of such a value, followed by anything, measures as
      that encoding's length. */
  lemma SizeOfEncoding(cp: int, rest: seq<byte>, n: nat)
    requires Scalar(cp) && cp != 0
    requires |Encode(cp)| <= n
    ensures CodePointSize(Encode(cp) + rest, 0, n) == |Encode(cp)|
  {
    var b := Encode(cp);
    EncodeRoundTrip(cp);
    assert Take(b + rest, |b|) == b;
  }

  /** The count of characters `amp_utf8_code_point_count(s + i, n)`
      reports: the well-formed characters met, within the first `n` bytes,
      before the terminator or the first malformed or truncated sequence. */
  function CodePoints(s: seq<byte>, i: nat, n: nat): nat
    decreases |s| - i
  {
    if At(s, i) == 0 then 0
    else
      var k := CodePointSize(s, i, n);
      if k < 0 then 0 else 1 + CodePoints(s, i + k, n - k)
  }

  /** A well-formed first character takes between one and `n` bytes and
      counts once. */
  lemma CountFirst(s: seq<byte>, i: nat, n: nat)
    requires At(s, i) != 0 && CodePointSize(s, i, n) >= 0
    ensures var k := CodePointSize(s, i, n);
      && 1 <= k <= n
      && CodePoints(s, i, n) == 1 + CodePoints(s, i + k, n - k)
  {
  }

  /** Each character counted takes at least one byte of the allowed `n`. */
  lemma {:induction false} CodePointsBound(s: seq<byte>, i: nat, n: nat)
    ensures CodePoints(s, i, n) <= n
    decreases |s| - i
  {
    if At(s, i) != 0 {
      var k := CodePointSize(s, i, n);
      if k >= 1 {
        CodePointsBound(s, i + k, n - k);
      }
    }
  }

  /** A larger limit never counts fewer characters. */
  lemma {:induction false} CountWithinLimit(s: seq<byte>, i: nat, n: nat, m: nat)
    requires n <= m
    ensures CodePoints(s, i, n) <= CodePoints(s, i, m)
    decreases |s| - i
  {
    if At(s, i) != 0 {
      var k := CodePointSize(s, i, n);
      if k >= 1 {
        SizeWithinLimit(s, i, n, m);
        CountWithinLimit(s, i + k, n - k, m - k);
      }
    }
  }

  /** `amp_utf8_code_point_count(s + i, n)` (amp.h:798-817). */
  method CodePointCount(s: seq<byte>, i: nat, n: nat) returns (count: nat)
    ensures count == CodePoints(s, i, n)
  {
    count := 0;
    var off := i;
    while At(s, off) != 0
      invariant i <= off
      invariant off - i <= n
      invariant count + CodePoints(s, off, SubSize(n, off - i)) == CodePoints(s, i, n)
      decreases |s| - off
    {
      var cpsz := CodePointSize(s, off, SubSize(n, off - i));
      if cpsz < 0 {
        break;
      }
      count := count + 1;
      off := off + cpsz;
    }
  }

  /** The concatenated encodings of a sequence of scalar values. */
  function EncodeAll(cps: seq<int>): seq<byte>
    requires forall i :: 0 <= i < |cps| ==> Scalar(cps[i])
  {
    if cps == [] then [] else Encode(cps[0]) + EncodeAll(cps[1..])
  }

  /** Counting further into a text after a prefix counts the text alone. */
  lemma {:induction false} CountAfter(p: seq<byte>, q: seq<byte>, i: nat, n: nat)
    ensures CodePoints(p + q, |p| + i, n) == CodePoints(q, i, n)
    decreases |q| - i
  {
    var s := p + q;
    assert At(s, |p| + i) == At(q, i) && At(s, |p| + i + 1) == At(q, i + 1);
    assert At(s, |p| + i + 2) == At(q, i + 2) && At(s, |p| + i + 3) == At(q, i + 3);
    if At(q, i) != 0 {
      var k := CodePointSize(q, i, n);
      assert CodePointSize(s, |p| + i, n) == k;
      if k >= 1 {
        CountAfter(p, q, i + k, n - k);
      }
    }
  }

  /** Counting the characters of a well-formed text (no NUL) returns the
      number of scalar values it encodes. */
  lemma {:induction false} CountOfEncoding(cps: seq<int>)
    requires forall i :: 0 <= i < |cps| ==> Scalar(cps[i]) && cps[i] != 0
    ensures CodePoints(EncodeAll(cps), 0, |EncodeAll(cps)|) == |cps|
  {
    if cps != [] {
      var b := Encode(cps[0]);
      var rest := EncodeAll(cps[1..]);
      SizeOfEncoding(cps[0], rest, |b + rest|);
      assert At(b + rest, 0) == b[0];
      EncodeRoundTrip(cps[0]);
      CountAfter(b, rest, 0, |rest|);
      CountOfEncoding(cps[1..]);
    }
  }
}
