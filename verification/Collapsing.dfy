/** StrPair::CollapseWhitespace on values: the words of a text, joined by single spaces. */
module Collapsing {
  import opened Bytes

  /** The leading run of bytes that are no white space. */
  function FirstWord(s: Bytes): (w: Bytes)
    ensures w <= s
    ensures forall i | 0 <= i < |w| :: !IsWhiteSpace(w[i])
    ensures |w| < |s| ==> IsWhiteSpace(s[|w|])
  {
    if s == [] || IsWhiteSpace(s[0]) then [] else [s[0]] + FirstWord(s[1..])
  }

  function Words(s: Bytes): seq<Bytes>
    decreases |s|
  {
    var t := SkipSpace(s);
    if t == [] then [] else [FirstWord(t)] + Words(t[|FirstWord(t)|..])
  }

  function Join(words: seq<Bytes>): Bytes {
    if words == [] then []
    else if |words| == 1 then words[0]
    else words[0] + [SPACE] + Join(words[1..])
  }

  /** What a reader of collapsed text sees. */
  function Collapse(s: Bytes): Bytes {
    Join(Words(s))
  }

  /** The loop of the code, out of place: a run of white space becomes one space, unless it ends the text. */
  function Squeeze(s: Bytes): Bytes
    decreases |s|
  {
    if s == [] then []
    else if IsWhiteSpace(s[0]) then
      var t := SkipSpace(s[1..]);
      if t == [] then [] else [SPACE, t[0]] + Squeeze(t[1..])
    else [s[0]] + Squeeze(s[1..])
  }

  lemma {:induction false} SqueezeWord(w: Bytes, rest: Bytes)
    requires forall i | 0 <= i < |w| :: !IsWhiteSpace(w[i])
    ensures Squeeze(w + rest) == w + Squeeze(rest)
  {
    if w == [] {
      assert w + rest == rest;
    } else {
      assert (w + rest)[1..] == w[1..] + rest;
      SqueezeWord(w[1..], rest);
    }
  }

  lemma {:induction false} SqueezeSpace(s: Bytes)
    requires s != [] && IsWhiteSpace(s[0])
    ensures Squeeze(s) == if SkipSpace(s) == [] then [] else [SPACE] + Squeeze(SkipSpace(s))
  {
    var t := SkipSpace(s[1..]);
    assert SkipSpace(s) == t;
    if t != [] {
      assert Squeeze(t) == [t[0]] + Squeeze(t[1..]);
    }
  }

  lemma {:induction false} SqueezeEmpty()
    ensures Squeeze([]) == []
  {
  }

  lemma {:induction false} SqueezeByte(s: Bytes)
    requires s != [] && !IsWhiteSpace(s[0])
    ensures Squeeze(s) == [s[0]] + Squeeze(s[1..])
  {
  }

  lemma {:induction false} SqueezeNulFree(s: Bytes)
    requires 0 !in s
    ensures 0 !in Squeeze(s)
    decreases |s|
  {
    if s != [] {
      SqueezeNulFree(s[1..]);
      if IsWhiteSpace(s[0]) {
        SkipSpaceIsRest(s[1..]);
        var t := SkipSpace(s[1..]);
        assert forall x | x in t :: x in s[1..];
        if t != [] {
          SqueezeNulFree(t[1..]);
        }
      }
    }
  }

  lemma {:induction false} JoinCons(w: Bytes, words: seq<Bytes>)
    ensures Join([w] + words) == if words == [] then w else w + ([SPACE] + Join(words))
  {
    assert ([w] + words)[1..] == words;
    if words != [] {
      assert w + [SPACE] + Join(words) == w + ([SPACE] + Join(words));
    }
  }

  /** Squeezing what follows a word. */
  lemma {:induction false} SqueezeTail(r: Bytes)
    requires r != [] ==> IsWhiteSpace(r[0])
    ensures Squeeze(r) == if Words(r) == [] then [] else [SPACE] + Squeeze(SkipSpace(r))
  {
    WordsEmpty(r);
    if r != [] {
      SqueezeSpace(r);
    }
  }

  /** Trimming and squeezing yields the joined words. */
  lemma {:induction false} SqueezeIsCollapse(s: Bytes)
    ensures Squeeze(SkipSpace(s)) == Collapse(s)
    decreases |s|
  {
    hide Squeeze, Join;
    var t := SkipSpace(s);
    if t == [] {
      SqueezeEmpty();
      JoinEmpty();
    } else {
      var w := FirstWord(t);
      var r := t[|w|..];
      assert t == w + r;
      SqueezeWord(w, r);
      SqueezeTail(r);
      SqueezeIsCollapse(r);
      JoinCons(w, Words(r));
    }
  }

  lemma {:induction false} JoinEmpty()
    ensures Join([]) == []
  {
  }

  lemma {:induction false} WordsEmpty(s: Bytes)
    ensures Words(s) == [] <==> SkipSpace(s) == []
  {
  }

  lemma {:induction false} SkipSpaceBefore(s: Bytes, z: Bytes)
    requires z != [] && !IsWhiteSpace(z[0])
    ensures SkipSpace(s + z) == SkipSpace(s) + z
  {
    if s == [] {
      assert s + z == z;
    } else {
      assert (s + z)[1..] == s[1..] + z;
      SkipSpaceBefore(s[1..], z);
    }
  }

  lemma {:induction false} SkipSpaceIsRest(s: Bytes)
    ensures IsRest(SkipSpace(s), s)
  {
    if s != [] && IsWhiteSpace(s[0]) {
      SkipSpaceIsRest(s[1..]);
      RestTransitive(SkipSpace(s), s[1..], s);
    }
  }

  /** Every white space is a single space with a word after it. */
  predicate SingleSpaced(s: Bytes) {
    forall i | 0 <= i < |s| && IsWhiteSpace(s[i]) ::
      i < |s| - 1 && s[i] == SPACE && !IsWhiteSpace(s[i + 1])
  }

  /** Nothing but single spaces between words. */
  predicate IsCollapsed(s: Bytes) {
    SingleSpaced(s) && !IsWhiteSpace(At(s, 0))
  }

  lemma {:induction false} SqueezeSingleSpaced(s: Bytes)
    requires SingleSpaced(s)
    ensures Squeeze(s) == s
  {
    if s != [] {
      if IsWhiteSpace(s[0]) {
        assert SkipSpace(s[1..]) == s[1..];
        assert s[2..] == s[1..][1..];
        SqueezeSingleSpaced(s[2..]);
        assert s == [s[0], s[1]] + s[2..];
      } else {
        SqueezeSingleSpaced(s[1..]);
      }
    }
  }

  lemma {:induction false} SqueezeShape(s: Bytes)
    ensures SingleSpaced(Squeeze(s))
    ensures s != [] && !IsWhiteSpace(s[0]) ==> Squeeze(s) != [] && Squeeze(s)[0] == s[0]
    decreases |s|
  {
    if s != [] {
      if IsWhiteSpace(s[0]) {
        var t := SkipSpace(s[1..]);
        if t != [] {
          SqueezeShape(t[1..]);
        }
      } else {
        SqueezeShape(s[1..]);
      }
    }
  }

  /** The fixed points of collapsing are the collapsed texts, and every result is one. */
  lemma {:induction false} CollapseFixedPoints(s: Bytes)
    ensures Collapse(s) == s <==> IsCollapsed(s)
    ensures IsCollapsed(Collapse(s))
  {
    SqueezeIsCollapse(s);
    SqueezeShape(SkipSpace(s));
    if IsCollapsed(s) {
      assert SkipSpace(s) == s;
      SqueezeSingleSpaced(s);
    }
  }

  /** A word and the white space after it. */
  datatype Spaced = Spaced(word: Bytes, gap: Bytes)

  predicate IsWord(w: Bytes) {
    w != [] && forall i | 0 <= i < |w| :: !IsWhiteSpace(w[i])
  }

  /** Words stand apart from each other. */
  predicate SpacedOk(ws: seq<Spaced>) {
    forall i | 0 <= i < |ws| ::
      IsWord(ws[i].word) && AllWhiteSpace(ws[i].gap) && (i < |ws| - 1 ==> ws[i].gap != [])
  }

  function SpacedText(ws: seq<Spaced>): Bytes {
    if ws == [] then [] else ws[0].word + (ws[0].gap + SpacedText(ws[1..]))
  }

  function WordsOf(ws: seq<Spaced>): seq<Bytes> {
    if ws == [] then [] else [ws[0].word] + WordsOf(ws[1..])
  }

  lemma {:induction false} FirstWordIs(w: Bytes, rest: Bytes)
    requires forall i | 0 <= i < |w| :: !IsWhiteSpace(w[i])
    requires rest == [] || IsWhiteSpace(rest[0])
    ensures FirstWord(w + rest) == w
  {
    if w == [] {
      assert w + rest == rest;
    } else {
      assert (w + rest)[0] == w[0] && (w + rest)[1..] == w[1..] + rest;
      FirstWordIs(w[1..], rest);
    }
  }

  /** Words with any white space before, between and after them are collapsed to the words joined by spaces. */
  lemma {:induction false} CollapseSpaced(gap: Bytes, ws: seq<Spaced>)
    requires AllWhiteSpace(gap) && SpacedOk(ws)
    ensures Words(gap + SpacedText(ws)) == WordsOf(ws)
    ensures Collapse(gap + SpacedText(ws)) == Join(WordsOf(ws))
    decreases |ws|
  {
    var t := SpacedText(ws);
    SkipSpaceOver(gap, t);
    if ws != [] {
      var w, rest := ws[0].word, ws[0].gap + SpacedText(ws[1..]);
      assert t == w + rest && t[0] == w[0];
      if |ws| == 1 {
        assert SpacedText(ws[1..]) == [];
      }
      FirstWordIs(w, rest);
      assert t[|w|..] == rest;
      CollapseSpaced(ws[0].gap, ws[1..]);
    }
  }
}
