/** Bytes, C strings and the character classes of tinyxml2's XMLUtil. */
module Bytes {
  type byte = b: int | 0 <= b < 256

  type Bytes = seq<byte>

  const LF: byte := 0x0a
  const CR: byte := 0x0d
  const SPACE: byte := 0x20
  const DQUOTE: byte := 0x22
  const HASH: byte := 0x23
  const AMP: byte := 0x26
  const APOS: byte := 0x27
  const SLASH: byte := 0x2f
  const SEMICOLON: byte := 0x3b
  const LT: byte := 0x3c
  const EQUALS: byte := 0x3d
  const GT: byte := 0x3e
  const LOWER_X: byte := 0x78

  /** What `*(p + i)` reads in the C string that starts at p: a NUL follows the last byte. */
  function At(s: Bytes, i: nat): byte {
    if i < |s| then s[i] else 0
  }

  /** The part of s that C code sees, that is, everything before the first NUL. */
  function CString(s: Bytes): Bytes {
    if At(s, 0) == 0 then [] else [s[0]] + CString(s[1..])
  }

  lemma {:induction false} CStringOfNulFree(s: Bytes)
    requires 0 !in s
    ensures CString(s) == s
  {
    if s != [] {
      CStringOfNulFree(s[1..]);
    }
  }

  lemma {:induction false} CStringIsPrefix(s: Bytes)
    ensures CString(s) <= s
  {
    if At(s, 0) != 0 {
      CStringIsPrefix(s[1..]);
    }
  }

  datatype Option<+T> = None | Some(value: T)

  /** strchr: the index of the first c, if it comes before the terminating NUL. */
  function StrChr(s: Bytes, c: byte): (r: Option<nat>)
    ensures r.Some? ==> r.value < |s| && s[r.value] == c
  {
    if At(s, 0) == 0 then None
    else if s[0] == c then Some(0)
    else match StrChr(s[1..], c)
      case None => None
      case Some(i) => Some(i + 1)
  }

  /** The first c stands at i. */
  lemma {:induction false} StrChrFound(s: Bytes, c: byte, i: nat)
    requires i < |s| && s[i] == c && c != 0
    requires forall j | 0 <= j < i :: s[j] != c && s[j] != 0
    ensures StrChr(s, c) == Some(i)
  {
    if i > 0 {
      StrChrFound(s[1..], c, i - 1);
    }
  }

  lemma {:induction false} StrChrMissing(s: Bytes, c: byte, i: nat)
    requires i <= |s| && At(s, i) == 0
    requires forall j | 0 <= j < i :: s[j] != c && s[j] != 0
    ensures StrChr(s, c) == None
  {
    if i > 0 {
      StrChrMissing(s[1..], c, i - 1);
    }
  }

  /** isspace in the C locale, applied to bytes without the high bit. */
  predicate IsWhiteSpace(c: byte) {
    9 <= c <= 13 || c == SPACE
  }

  predicate IsNameStartChar(c: byte) {
    c >= 128 || 0x41 <= c <= 0x5a || 0x61 <= c <= 0x7a || c == 0x3a || c == 0x5f
  }

  predicate IsNameChar(c: byte) {
    IsNameStartChar(c) || 0x30 <= c <= 0x39 || c == 0x2e || c == 0x2d
  }

  /** The bytes of a string of characters below 128. */
  function Ascii(s: string): (r: Bytes)
    requires forall i | 0 <= i < |s| :: s[i] < '\U{80}'
    ensures |r| == |s|
  {
    seq(|s|, i requires 0 <= i < |s| => s[i] as int)
  }

  predicate IsLetter(ch: char) {
    'A' <= ch <= 'Z' || 'a' <= ch <= 'z'
  }

  /** Letters, digits, colon, underscore, dot and dash make names, and so do all bytes above 127. */
  lemma {:induction false} CharacterClasses(c: byte)
    ensures var ch := c as char;
            && (IsWhiteSpace(c) <==> ch == ' ' || '\t' <= ch <= '\r')
            && (IsNameStartChar(c) <==> ch >= '\U{80}' || IsLetter(ch) || ch == ':' || ch == '_')
            && (IsNameChar(c) <==> IsNameStartChar(c) || '0' <= ch <= '9' || ch == '.' || ch == '-')
  {
  }

  predicate AllWhiteSpace(s: Bytes) {
    forall i | 0 <= i < |s| :: IsWhiteSpace(s[i])
  }

  /** What remains of s after its leading white space. */
  function SkipSpace(s: Bytes): (r: Bytes)
    ensures |r| <= |s|
    ensures r != [] ==> !IsWhiteSpace(r[0])
  {
    if s != [] && IsWhiteSpace(s[0]) then SkipSpace(s[1..]) else s
  }

  lemma {:induction false} SkipSpaceOver(gap: Bytes, s: Bytes)
    requires AllWhiteSpace(gap) && !IsWhiteSpace(At(s, 0))
    ensures SkipSpace(gap + s) == s
  {
    if gap == [] {
      assert gap + s == s;
    } else {
      assert (gap + s)[1..] == gap[1..] + s;
      SkipSpaceOver(gap[1..], s);
    }
  }

  /** The number of line feeds in s. */
  ghost function Newlines(s: Bytes): nat {
    if s == [] then 0 else (if s[0] == LF then 1 else 0) + Newlines(s[1..])
  }

  lemma {:induction false} NewlinesConcat(a: Bytes, b: Bytes)
    ensures Newlines(a + b) == Newlines(a) + Newlines(b)
  {
    if a == [] {
      assert a + b == b;
    } else {
      NewlinesConcat(a[1..], b);
      assert (a + b)[1..] == a[1..] + b;
    }
  }

  /** Between p and q there is no NUL, and a line counter that counts the line feeds goes from before to after. */
  ghost predicate Passed(text: Bytes, p: nat, q: nat, before: nat, after: nat) {
    p <= q <= |text| && 0 !in text[p..q] && after == before + Newlines(text[p..q])
  }

  lemma {:induction false} SliceJoin(s: Bytes, i: nat, j: nat, k: nat)
    requires i <= j <= k <= |s|
    ensures s[i..k] == s[i..j] + s[j..k]
  {
  }

  lemma {:induction false} PassedNothing(text: Bytes, p: nat, line: nat)
    requires p <= |text|
    ensures Passed(text, p, p, line, line)
  {
  }

  /** Reading on from q. */
  lemma {:induction false} PassedOn(text: Bytes, p: nat, q: nat, r: nat, before: nat, middle: nat, after: nat)
    requires Passed(text, p, q, before, middle) && Passed(text, q, r, middle, after)
    ensures Passed(text, p, r, before, after)
  {
    SliceJoin(text, p, q, r);
    NewlinesConcat(text[p..q], text[q..r]);
  }

  /** Reading one byte more. */
  lemma {:induction false} PassedByte(text: Bytes, p: nat, q: nat, before: nat, after: nat)
    requires Passed(text, p, q, before, after) && At(text, q) != 0
    ensures Passed(text, p, q + 1, before, after + if text[q] == LF then 1 else 0)
  {
    SliceJoin(text, p, q, q + 1);
    assert text[q..q + 1] == [text[q]];
    NewlinesConcat(text[p..q], [text[q]]);
  }

  /** The whole C string has been read. */
  lemma {:induction false} PassedAll(text: Bytes, q: nat, before: nat, after: nat)
    requires Passed(text, 0, q, before, after) && At(text, q) == 0
    ensures after == before + Newlines(CString(text))
  {
    CStringEndsAt(text, q);
    assert text[0..q] == text[..q];
  }

  lemma {:induction false} CStringEndsAt(s: Bytes, n: nat)
    requires n <= |s| && 0 !in s[..n] && At(s, n) == 0
    ensures CString(s) == s[..n]
  {
    if n > 0 {
      assert s[..n][0] == s[0] && s[1..][..n - 1] == s[..n][1..];
      CStringEndsAt(s[1..], n - 1);
    }
  }

  /** XMLUtil::SkipWhiteSpace, which also counts the lines it passes. */
  method SkipWhiteSpace(text: Bytes, start: nat, startLine: nat) returns (p: nat, line: nat)
    requires start <= |text|
    ensures start <= p <= |text| && text[p..] == SkipSpace(text[start..])
    ensures AllWhiteSpace(text[start..p])
    ensures Passed(text, start, p, startLine, line)
  {
    hide Passed;
    p, line := start, startLine;
    PassedNothing(text, p, line);
    while IsWhiteSpace(At(text, p))
      invariant start <= p <= |text|
      invariant SkipSpace(text[p..]) == SkipSpace(text[start..])
      invariant AllWhiteSpace(text[start..p])
      invariant Passed(text, start, p, startLine, line)
      decreases |text| - p
    {
      PassedByte(text, start, p, startLine, line);
      assert text[start..p + 1] == text[start..p] + [text[p]];
      assert text[p..][1..] == text[p + 1..];
      if text[p] == LF {
        line := line + 1;
      }
      p := p + 1;
    }
  }

  /** r is what remains of s after some bytes of s have been read. */
  ghost predicate IsRest(r: Bytes, s: Bytes) {
    |r| <= |s| && r == s[|s| - |r|..]
  }

  lemma {:induction false} RestTransitive(a: Bytes, b: Bytes, c: Bytes)
    requires IsRest(a, b) && IsRest(b, c)
    ensures IsRest(a, c)
  {
    assert c[|c| - |b|..][|b| - |a|..] == c[|c| - |a|..];
  }
}
