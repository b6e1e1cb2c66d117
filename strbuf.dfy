/** Appending C strings into a bounded character buffer (`amp_str_append`),
    and what a buffer holds after a run of such appends. */
module StrBuf {
  import opened Common

  /** `amp_str_append(dst + at, size, src)` (amp.h:1236-1252): `snprintf`
      copies at most `size - 1` characters of `src` and a terminator into
      the `size` characters at `at`; when `src` did not fit, the first of
      them is then cleared. The result is always `|src|`, the length the
      append would have had with room to spare. */
  method StrAppend(dst: array<char>, at: nat, size: nat, src: string) returns (n: nat)
    requires NUL !in src
    requires size == 0 || at + size <= dst.Length
    modifies dst
    ensures n == |src|
    ensures size == 0 ==> dst[..] == old(dst[..])
    ensures 0 < size && |src| < size ==>
      dst[..] == old(dst[..])[..at] + src + [NUL] + old(dst[..])[at + |src| + 1..]
    ensures 0 < size <= |src| ==>
      && dst[at] == NUL && dst[at + size - 1] == NUL
      && (forall i :: 0 < i < size - 1 ==> dst[at + i] == src[i])
      && dst[..at] == old(dst[..at]) && dst[at + size..] == old(dst[at + size..])
  {
    n := |src|;
    if size == 0 {
      return;
    }
    var k := if |src| < size then |src| else size - 1;
    ghost var o := dst[..];
    CopyChars(dst, at, src, k);
    dst[at + k] := NUL;
    PutNul(o, at, src, k);
    if size <= |src| {
      ghost var w := dst[..];
      dst[at] := NUL;
      CutFacts(o, w, dst[..], at, size, src);
    }
  }

  /** The terminator after the copied characters. */
  lemma PutNul(o: seq<char>, at: nat, src: string, k: nat)
    requires k <= |src| && at + k < |o|
    ensures (o[..at] + src[..k] + o[at + k..])[at + k := NUL] == o[..at] + src[..k] + [NUL] + o[at + k + 1..]
  {
  }

  /** What a cut-short append leaves: terminators at both ends of the room
      and the copied characters between them. */
  lemma CutFacts(o: seq<char>, w: seq<char>, d: seq<char>, at: nat, size: nat, src: string)
    requires 0 < size <= |src| && at + size <= |o|
    requires w == o[..at] + src[..size - 1] + [NUL] + o[at + size..]
    requires d == w[at := NUL]
    ensures d[at] == NUL && d[at + size - 1] == NUL
    ensures forall i :: 0 < i < size - 1 ==> d[at + i] == src[i]
    ensures d[..at] == o[..at] && d[at + size..] == o[at + size..]
  {
    assert forall i :: 0 <= i < size - 1 ==> w[at + i] == src[i];
    assert d[at + size..] == w[at + size..];
  }

  /** The copying loop of `snprintf`: the first `k` characters of `src` at
      `at`. */
  method CopyChars(dst: array<char>, at: nat, src: string, k: nat)
    requires k <= |src| && at + k <= dst.Length
    modifies dst
    ensures dst[..] == old(dst[..])[..at] + src[..k] + old(dst[..])[at + k..]
  {
    var i := 0;
    while i < k
      invariant 0 <= i <= k
      invariant dst[..] == old(dst[..])[..at] + src[..i] + old(dst[..])[at + i..]
    {
      dst[at + i] := src[i];
      CopyStep(old(dst[..]), at, src, i);
      i := i + 1;
    }
  }

  lemma CopyStep(o: seq<char>, at: nat, src: string, i: nat)
    requires i < |src| && at + i < |o|
    ensures (o[..at] + src[..i] + o[at + i..])[at + i := src[i]] == o[..at] + src[..i + 1] + o[at + i + 1..]
  {
    assert src[..i + 1] == src[..i] + [src[i]];
  }

  /** `buf` is a character buffer into which `text` was appended from
      position `at` on, piece by piece, each piece with `StrAppend` given
      the room left (`SubSize(|buf|, used)`): when everything fitted it is
      `text` followed by a terminator; otherwise a terminator ends some
      prefix of `text`, unless there was no room at all. */
  ghost predicate Holds(buf: seq<char>, at: nat, text: string)
  {
    at < |buf| ==>
      if at + |text| < |buf| then Match(buf, at, text, |text|) && buf[at + |text|] == NUL
      else exists k :: at <= k < |buf| && buf[k] == NUL && Match(buf, at, text, k - at)
  }

  /** The `n` characters of `buf` from `at` on are the first `n` of
      `text`, compared from the last one down. */
  ghost predicate Match(buf: seq<char>, at: nat, text: string, n: nat)
  {
    n == 0 || (n <= |text| && at + n <= |buf| && buf[at + n - 1] == text[n - 1] && Match(buf, at, text, n - 1))
  }

  lemma {:induction false} MatchIff(buf: seq<char>, at: nat, text: string, n: nat)
    requires n <= |text| && at + n <= |buf|
    ensures Match(buf, at, text, n) <==> forall i :: 0 <= i < n ==> buf[at + i] == text[i]
  {
    if n > 0 {
      MatchIff(buf, at, text, n - 1);
    }
  }

  /** `after` agrees with `before` on every position below `at`. */
  ghost predicate SameBefore(before: seq<char>, after: seq<char>, at: nat)
  {
    |after| == |before| && forall i :: 0 <= i < |before| && i < at ==> after[i] == before[i]
  }

  /** One `StrAppend` of `src` at `p` with the room left there: the buffer
      holds `src` from `p` on, and nothing before `p` changed. */
  lemma AppendOne(before: seq<char>, after: seq<char>, p: nat, src: string)
    requires |after| == |before|
    requires var size := SubSize(|before|, p);
      && (size == 0 ==> after == before)
      && (0 < size && |src| < size ==>
            after == before[..p] + src + [NUL] + before[p + |src| + 1..])
      && (0 < size <= |src| ==> after[p] == NUL && after[..p] == before[..p])
    ensures Holds(after, p, src)
    ensures SameBefore(before, after, p)
  {
    var size := SubSize(|before|, p);
    if 0 < size && |src| < size {
      assert after[..p] == before[..p];
      assert forall i :: 0 <= i < |src| ==> after[p + i] == src[i];
      MatchIff(after, p, src, |src|);
    } else if 0 < size {
      assert after[..p] == before[..p];
      assert after[p] == NUL && Match(after, p, src, p - p);
    }
  }

  /** Text held at `at`, followed by text held right after it with nothing
      before that disturbed, is their concatenation held at `at`. */
  lemma HoldsConcat(before: seq<char>, after: seq<char>, at: nat, t: string, r: string)
    requires t == [] || Holds(before, at, t)
    requires SameBefore(before, after, at + |t|)
    requires Holds(after, at + |t|, r)
    ensures Holds(after, at, t + r)
  {
    if t == [] {
      assert t + r == r;
    } else if at + |t| < |before| {
      HoldsConcatWhole(before, after, at, t, r);
    } else if at < |before| {
      HoldsConcatCut(before, after, at, t, r);
    }
  }

  /** `t` fitted: `r` held after it completes the text. */
  lemma HoldsConcatWhole(before: seq<char>, after: seq<char>, at: nat, t: string, r: string)
    requires at + |t| < |before| && Holds(before, at, t)
    requires SameBefore(before, after, at + |t|)
    requires Holds(after, at + |t|, r)
    ensures Holds(after, at, t + r)
  {
    var u := at + |t|;
    MatchIff(before, at, t, |t|);
    if u + |r| < |after| {
      MatchIff(after, u, r, |r|);
      assert forall i :: 0 <= i < |t + r| ==> after[at + i] == (t + r)[i] by {
        forall i | 0 <= i < |t + r|
          ensures after[at + i] == (t + r)[i]
        {
          if i >= |t| {
            assert after[u + (i - |t|)] == r[i - |t|];
          }
        }
      }
      MatchIff(after, at, t + r, |t + r|);
    } else {
      var k :| u <= k < |after| && after[k] == NUL && Match(after, u, r, k - u);
      MatchIff(after, u, r, k - u);
      assert forall i :: 0 <= i < k - at ==> after[at + i] == (t + r)[i] by {
        forall i | 0 <= i < k - at
          ensures after[at + i] == (t + r)[i]
        {
          if i >= |t| {
            assert after[u + (i - |t|)] == r[i - |t|];
          }
        }
      }
      MatchIff(after, at, t + r, k - at);
    }
  }

  /** `t` was cut short: the terminator that ended it is still there. */
  lemma HoldsConcatCut(before: seq<char>, after: seq<char>, at: nat, t: string, r: string)
    requires at < |before| <= at + |t| && Holds(before, at, t)
    requires SameBefore(before, after, at + |t|)
    ensures Holds(after, at, t + r)
  {
    var k :| at <= k < |before| && before[k] == NUL && Match(before, at, t, k - at);
    MatchIff(before, at, t, k - at);
    MatchIff(after, at, t + r, k - at);
    assert after[k] == NUL && Match(after, at, t + r, k - at);
  }

  /** Appends `src` after the `used` characters already written from `at`
      on, with the room that is left: the call shape of every append in the
      renderer (`dst + used`, `amp_sub_size(dst_size, used)`). */
  method Emit(dst: array<char>, at: nat, used: nat, ghost text: string, src: string)
    returns (n: nat)
    requires NUL !in src
    requires used == |text|
    requires text == [] || Holds(dst[..], at, text)
    modifies dst
    ensures n == |src|
    ensures Holds(dst[..], at, text + src)
    ensures SameBefore(old(dst[..]), dst[..], at + used)
  {
    ghost var before := dst[..];
    n := StrAppend(dst, at + used, SubSize(dst.Length, at + used), src);
    AppendOne(before, dst[..], at + used, src);
    HoldsConcat(before, dst[..], at, text, src);
  }

  /** The characters of a buffer up to its first terminator: what `%s`
      reads from it. */
  function CStr(s: seq<char>): (r: string)
    ensures |r| <= |s| && r == s[..|r|] && NUL !in r
    ensures |r| < |s| ==> s[|r|] == NUL
  {
    if s == [] || s[0] == NUL then [] else [s[0]] + CStr(s[1..])
  }

  /** A buffer holding `t` and a terminator, `t` free of terminators, reads
      as `t`. */
  lemma {:induction false} CStrOfTerminated(s: seq<char>, t: string)
    requires |t| < |s| && s[..|t|] == t && s[|t|] == NUL && NUL !in t
    ensures CStr(s) == t
  {
    if t != [] {
      assert s[1..][..|t| - 1] == t[1..];
      CStrOfTerminated(s[1..], t[1..]);
    }
  }

  /** A buffer into which `text`, free of terminators, was appended from
      its start, and which had room for it, reads as `text`. */
  lemma CStrOfHolds(buf: seq<char>, text: string)
    requires Holds(buf, 0, text) && |text| < |buf| && NUL !in text
    ensures CStr(buf) == text
  {
    MatchIff(buf, 0, text, |text|);
    assert buf[..|text|] == text;
    CStrOfTerminated(buf, text);
  }
}
