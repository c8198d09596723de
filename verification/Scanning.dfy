/** How the parser finds the ends of its pieces: StrPair::ParseText and StrPair::ParseName. */
module Scanning {
  import opened Bytes

  /** The offset of the first occurrence of tag in the C string s. */
  function FindTag(s: Bytes, tag: Bytes): (r: Option<nat>)
    requires tag != []
    ensures r.Some? ==> r.value + |tag| <= |s|
  {
    if At(s, 0) == 0 then None
    else if tag <= s then Some(0)
    else match FindTag(s[1..], tag)
      case None => None
      case Some(i) => Some(i + 1)
  }

  lemma {:induction false} FindTagThere(s: Bytes, tag: Bytes)
    requires tag != []
    ensures var r := FindTag(s, tag); r.Some? ==> s[r.value..r.value + |tag|] == tag
  {
    var r := FindTag(s, tag);
    if r.Some? && r.value > 0 {
      FindTagThere(s[1..], tag);
      var i, n := r.value - 1, |tag|;
      assert s[1..][i..i + n] == s[i + 1..i + 1 + n];
    }
  }

  /** Nothing before i is a NUL or the start of the tag, and the tag is at i. */
  lemma {:induction false} FindTagAt(s: Bytes, tag: Bytes, i: nat)
    requires tag != [] && i <= |s| && tag <= s[i..] && At(s, i) != 0
    requires forall j | 0 <= j < i :: s[j] != 0 && !(tag <= s[j..])
    ensures FindTag(s, tag) == Some(i)
  {
    if i > 0 {
      assert s[0..] == s;
      assert s[1..][i - 1..] == s[i..];
      forall j | 0 <= j < i - 1 ensures s[1..][j] != 0 && !(tag <= s[1..][j..]) {
        assert s[1..][j..] == s[j + 1..];
      }
      FindTagAt(s[1..], tag, i - 1);
    } else {
      assert s[0..] == s;
    }
  }

  /** A one-byte tag is found right after text that lacks it. */
  lemma {:induction false} FindByteAfter(s: Bytes, c: byte, rest: Bytes)
    requires c != 0 && c !in s && 0 !in s
    ensures FindTag(s + [c] + rest, [c]) == Some(|s|)
  {
    var t := s + [c] + rest;
    assert t[|s|..] == [c] + rest;
    forall j | 0 <= j < |s| ensures t[j] != 0 && !([c] <= t[j..]) {
      assert t[j] == s[j];
      assert t[j..][0] == s[j];
    }
    FindTagAt(t, [c], |s|);
  }

  /** The text does not contain the tag. */
  ghost predicate Lacks(s: Bytes, tag: Bytes) {
    forall j | 0 <= j <= |s| :: !(tag <= s[j..])
  }

  /** A tag whose last byte occurs nowhere else in it is found right after text that lacks it. */
  lemma {:induction false} FindTagAfter(s: Bytes, tag: Bytes, rest: Bytes)
    requires tag != [] && 0 !in tag && 0 !in s && Lacks(s, tag)
    requires forall k | 0 <= k < |tag| - 1 :: tag[k] != tag[|tag| - 1]
    ensures FindTag(s + tag + rest, tag) == Some(|s|)
  {
    var t := s + tag + rest;
    assert t[|s|..] == tag + rest;
    forall j | 0 <= j < |s| ensures t[j] != 0 && !(tag <= t[j..]) {
      assert t[j] == s[j];
      var n := |tag|;
      if j + n <= |s| {
        assert s[j..][..n] == t[j..][..n];
        assert !(tag <= s[j..]);
      } else if j + n <= |t| {
        // The last byte of an occurrence at j would lie inside the appended tag, but not at its end.
        assert t[j..][n - 1] == t[j + n - 1] == tag[j + n - 1 - |s|];
      }
    }
    FindTagAt(t, tag, |s|);
  }

  /** StrPair::ParseText: scans for the tag and counts the lines on the way. */
  method ParseText(text: Bytes, start: nat, tag: Bytes, startLine: nat) returns (end: Option<nat>, line: nat)
    requires start <= |text| && tag != []
    ensures match FindTag(text[start..], tag)
            case None => end == None
            case Some(i) => end == Some(start + i) && Passed(text, start, start + i, startLine, line)
  {
    hide FindTag, Passed;
    var p := start;
    line := startLine;
    PassedNothing(text, start, line);
    while At(text, p) != 0
      invariant start <= p <= |text|
      invariant FindTag(text[start..], tag) == Later(FindTag(text[p..], tag), p - start)
      invariant Passed(text, start, p, startLine, line)
      decreases |text| - p
    {
      FindTagStep(text, p, tag);
      if tag <= text[p..] {
        return Some(p), line;
      }
      PassedByte(text, start, p, startLine, line);
      if text[p] == LF {
        line := line + 1;
      }
      p := p + 1;
    }
    FindTagStep(text, p, tag);
    return None, line;
  }

  lemma {:induction false} FindTagStep(text: Bytes, p: nat, tag: Bytes)
    requires p <= |text| && tag != []
    ensures FindTag(text[p..], tag)
            == if At(text, p) == 0 then None
               else if tag <= text[p..] then Some(0)
               else Later(FindTag(text[p + 1..], tag), 1)
  {
    if p < |text| {
      assert text[p..][1..] == text[p + 1..];
    }
  }

  function Later(r: Option<nat>, n: nat): Option<nat> {
    match r case None => None case Some(i) => Some(i + n)
  }

  predicate AllNameChars(s: Bytes) {
    forall i | 0 <= i < |s| :: IsNameChar(s[i])
  }

  predicate IsName(s: Bytes) {
    s != [] && IsNameStartChar(s[0]) && AllNameChars(s)
  }

  /** The leading run of name characters. */
  function NameChars(s: Bytes): (n: Bytes)
    ensures n <= s && AllNameChars(n)
    ensures |n| < |s| ==> !IsNameChar(s[|n|])
  {
    if s == [] || !IsNameChar(s[0]) then [] else [s[0]] + NameChars(s[1..])
  }

  /** The name that s starts with, empty if there is none. */
  function LeadingName(s: Bytes): (n: Bytes)
    ensures n <= s && (n != [] ==> IsName(n))
  {
    if IsNameStartChar(At(s, 0)) then NameChars(s) else []
  }

  lemma {:induction false} NameCharsAt(s: Bytes, n: nat)
    requires n <= |s| && AllNameChars(s[..n]) && !IsNameChar(At(s, n))
    ensures NameChars(s) == s[..n]
  {
    if n > 0 {
      assert s[..n][0] == s[0];
      assert s[1..][..n - 1] == s[..n][1..];
      NameCharsAt(s[1..], n - 1);
    }
  }

  lemma {:induction false} LeadingNameOf(name: Bytes, rest: Bytes)
    requires IsName(name) && !IsNameChar(At(rest, 0))
    ensures LeadingName(name + rest) == name
  {
    var s := name + rest;
    assert s[..|name|] == name;
    assert At(s, |name|) == At(rest, 0);
    assert s[0] == name[0];
    NameCharsAt(s, |name|);
  }

  lemma {:induction false} NoNewlines(s: Bytes)
    requires LF !in s || AllNameChars(s)
    ensures Newlines(s) == 0
  {
    if s != [] {
      NoNewlines(s[1..]);
    }
  }

  /** StrPair::ParseName: where the name at start ends; it contains no line feed and no NUL. */
  method ParseName(text: Bytes, start: nat) returns (end: nat)
    requires start <= |text|
    ensures start <= end <= |text| && text[start..end] == LeadingName(text[start..])
    ensures forall line: nat :: Passed(text, start, end, line, line)
  {
    end := start;
    ghost var s := text[start..];
    assert text[start..start] == [];
    if !IsNameStartChar(At(text, start)) {
      return;
    }
    end := start + 1;
    while IsNameChar(At(text, end))
      invariant start < end <= |text| && AllNameChars(text[start..end])
      decreases |text| - end
    {
      assert text[start..end + 1] == text[start..end] + [text[end]];
      end := end + 1;
    }
    assert s[..end - start] == text[start..end];
    NameCharsAt(s, end - start);
    NoNewlines(text[start..end]);
  }
}
