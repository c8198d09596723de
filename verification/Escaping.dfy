/** XMLPrinter::PrintString, and that reading back what it writes returns the string. */
module Escaping {
  import opened Bytes
  import opened Decoding
  import opened Scanning

  const INT_MAX: nat := 0x7fff_ffff

  /** The two flag tables of the printer; apostrophes in attributes are a printer option. */
  datatype Context = InText | InAttribute(escapeApos: bool)

  predicate Flagged(c: byte, ctx: Context) {
    match ctx
    case InText => c == AMP || c == LT || c == GT
    case InAttribute(apos) => c == AMP || c == LT || c == GT || c == DQUOTE || (c == APOS && apos)
  }

  /** The table entry whose value is c. */
  function EntityFor(c: byte): (e: Entity)
    requires Flagged(c, InAttribute(true))
    ensures e in ENTITIES && e.value == c
  {
    if c == DQUOTE then ENTITIES[0]
    else if c == AMP then ENTITIES[1]
    else if c == APOS then ENTITIES[2]
    else if c == LT then ENTITIES[3]
    else ENTITIES[4]
  }

  function EscapeByte(c: byte, ctx: Context): Bytes {
    if Flagged(c, ctx) then [AMP] + EntityTail(EntityFor(c)) else [c]
  }

  /** The reference escape: each flagged byte becomes its entity reference. */
  function Escape(s: Bytes, ctx: Context): Bytes {
    if s == [] then [] else EscapeByte(s[0], ctx) + Escape(s[1..], ctx)
  }

  lemma {:induction false} EntityTexts(c: byte)
    requires Flagged(c, InAttribute(true))
    ensures [AMP] + EntityTail(EntityFor(c)) ==
            match c as char
            case '<' => Ascii("&lt;")
            case '>' => Ascii("&gt;")
            case '&' => Ascii("&amp;")
            case '"' => Ascii("&quot;")
            case _ => Ascii("&apos;")
  {
    var e := EntityFor(c);
    var text := [AMP] + (e.pattern + [SEMICOLON]);
    assert |text| == |e.pattern| + 2;
  }

  /** What is escaped, and how: quotes in attributes only, and apostrophes there if asked for. */
  lemma {:induction false} EscapeTable(c: byte, ctx: Context)
    ensures EscapeByte(c, ctx) ==
            if c as char == '<' then Ascii("&lt;")
            else if c as char == '>' then Ascii("&gt;")
            else if c as char == '&' then Ascii("&amp;")
            else if c as char == '"' && ctx != InText then Ascii("&quot;")
            else if c as char == '\'' && ctx == InAttribute(true) then Ascii("&apos;")
            else [c]
  {
    hide EntityFor, EntityTail, Ascii;
    if Flagged(c, ctx) {
      EntityTexts(c);
    }
  }

  /** A byte that the context flags does not show in the escaped string, unless entity names have it. */
  lemma {:induction false} EscapeLeaves(s: Bytes, ctx: Context, c: byte)
    requires Flagged(c, ctx) && c != AMP
    ensures c !in Escape(s, ctx)
  {
    hide EscapeByte;
    if s != [] {
      LeavesOne(s[0], ctx, c);
      EscapeLeaves(s[1..], ctx, c);
    }
  }

  lemma {:induction false} LeavesOne(b: byte, ctx: Context, c: byte)
    requires Flagged(c, ctx) && c != AMP
    ensures c !in EscapeByte(b, ctx)
  {
    if Flagged(b, ctx) {
      var e := EntityFor(b);
      assert c !in e.pattern by {
        PatternBytes(e, c);
      }
    }
  }

  lemma {:induction false} PatternBytes(e: Entity, c: byte)
    requires e in ENTITIES && c < 0x40
    ensures c !in e.pattern
  {
  }

  /** No bracket is left, and in attributes no quote. */
  lemma {:induction false} EscapeLeavesNone(s: Bytes, ctx: Context)
    ensures LT !in Escape(s, ctx) && GT !in Escape(s, ctx) && (ctx != InText ==> DQUOTE !in Escape(s, ctx))
    ensures ctx == InAttribute(true) ==> APOS !in Escape(s, ctx)
  {
    hide Escape;
    EscapeLeaves(s, ctx, LT);
    EscapeLeaves(s, ctx, GT);
    if ctx != InText {
      EscapeLeaves(s, ctx, DQUOTE);
    }
    if ctx == InAttribute(true) {
      EscapeLeaves(s, ctx, APOS);
    }
  }

  /** The length of the run of unflagged bytes that ends the string. */
  function FinalRun(s: Bytes, ctx: Context): (n: nat)
    ensures n <= |s| && (n < |s| ==> Flagged(s[|s| - n - 1], ctx))
    ensures forall i | |s| - n <= i < |s| :: !Flagged(s[i], ctx)
  {
    if s == [] || Flagged(s[|s| - 1], ctx) then 0 else 1 + FinalRun(s[..|s| - 1], ctx)
  }

  /** What PrintString writes: the last flush is cut off at INT_MAX bytes. */
  function Printed(s: Bytes, ctx: Context): Bytes {
    var n := FinalRun(s, ctx);
    var from := |s| - n;
    Escape(s[..from], ctx) + s[from..from + (if n > INT_MAX then INT_MAX else n)]
  }

  lemma {:induction false} EscapeConcat(a: Bytes, b: Bytes, ctx: Context)
    ensures Escape(a + b, ctx) == Escape(a, ctx) + Escape(b, ctx)
  {
    if a == [] {
      assert a + b == b;
    } else {
      assert (a + b)[1..] == a[1..] + b;
      EscapeConcat(a[1..], b, ctx);
    }
  }

  lemma {:induction false} EscapePlain(s: Bytes, ctx: Context)
    requires forall i | 0 <= i < |s| :: !Flagged(s[i], ctx)
    ensures Escape(s, ctx) == s
  {
    if s != [] {
      EscapePlain(s[1..], ctx);
    }
  }

  lemma {:induction false} EscapeSingle(c: byte, ctx: Context)
    ensures Escape([c], ctx) == EscapeByte(c, ctx)
  {
    hide EscapeByte;
    assert [c][1..] == [];
    assert Escape([], ctx) == [];
    assert EscapeByte(c, ctx) + [] == EscapeByte(c, ctx);
  }

  lemma {:induction false} EscapeEndsInRun(s: Bytes, from: nat, ctx: Context)
    requires from == |s| - FinalRun(s, ctx)
    ensures Escape(s, ctx) == Escape(s[..from], ctx) + s[from..]
  {
    hide Escape, Flagged;
    var run := s[from..];
    assert s == s[..from] + run;
    EscapeConcat(s[..from], run, ctx);
    assert forall i | 0 <= i < |run| :: run[i] == s[from + i];
    EscapePlain(run, ctx);
  }

  /** PrintString escapes the whole string exactly when its last run fits an int. */
  lemma {:induction false} PrintedIsEscape(s: Bytes, ctx: Context)
    ensures Printed(s, ctx) == Escape(s, ctx) <==> FinalRun(s, ctx) <= INT_MAX
  {
    hide Escape, Flagged, FinalRun;
    var n := FinalRun(s, ctx);
    var from := |s| - n;
    EscapeEndsInRun(s, from, ctx);
    if n <= INT_MAX {
      assert s[from..from + n] == s[from..];
    } else {
      assert |Printed(s, ctx)| == |Escape(s[..from], ctx)| + INT_MAX;
    }
  }

  function Letters(n: nat): (s: Bytes)
    ensures |s| == n && forall i | 0 <= i < n :: s[i] == 0x61
  {
    seq(n, _ => 0x61)
  }

  /** A string of one letter too many loses the last one. */
  lemma {:induction false} LongRunIsCut(ctx: Context)
    ensures Printed(Letters(INT_MAX + 1), ctx) != Escape(Letters(INT_MAX + 1), ctx)
  {
    var s := Letters(INT_MAX + 1);
    hide Escape, Printed;
    assert FinalRun(s, ctx) == |s|;
    PrintedIsEscape(s, ctx);
  }

  /** PrintString with entity processing on: p trails q over the bytes not yet written. */
  method PrintString(s: Bytes, ctx: Context) returns (out: Bytes)
    ensures out == Printed(s, ctx)
  {
    hide Escape, EscapeByte, Flagged, FinalRun;
    out := [];
    var p, q := 0, 0;
    EscapeNothing(ctx);
    while q < |s|
      invariant 0 <= p <= q <= |s|
      invariant p == q - FinalRun(s[..q], ctx)
      invariant out == Escape(s[..p], ctx)
    {
      RunGrows(s, q, ctx);
      if Flagged(s[q], ctx) {
        out := FlushAndEscape(s, p, q, ctx, out);
        p := q + 1;
      }
      q := q + 1;
    }
    assert s[..q] == s;
    if p < q {
      var delta := q - p;
      var toPrint := if INT_MAX < delta then INT_MAX else delta;
      out := out + s[p..p + toPrint];
    } else {
      assert out == out + s[p..p];
    }
  }

  lemma {:induction false} EscapeNothing(ctx: Context)
    ensures Escape([], ctx) == []
  {
  }

  lemma {:induction false} RunGrows(s: Bytes, q: nat, ctx: Context)
    requires q < |s|
    ensures FinalRun(s[..q + 1], ctx) == if Flagged(s[q], ctx) then 0 else 1 + FinalRun(s[..q], ctx)
  {
    hide Flagged;
    assert s[..q + 1][..q] == s[..q];
  }

  /** The flush of the pending run, in pieces of at most INT_MAX bytes, and the entity after it. */
  method FlushAndEscape(s: Bytes, p: nat, q: nat, ctx: Context, written: Bytes) returns (out: Bytes)
    requires p <= q < |s| && p == q - FinalRun(s[..q], ctx) && Flagged(s[q], ctx)
    requires written == Escape(s[..p], ctx)
    ensures out == Escape(s[..q + 1], ctx)
  {
    hide Escape, FinalRun, EntityFor, EntityTail;
    out := written;
    var r := p;
    while r < q
      invariant p <= r <= q
      invariant out == written + s[p..r]
    {
      var delta := q - r;
      var toPrint := if INT_MAX < delta then INT_MAX else delta;
      assert s[p..r + toPrint] == s[p..r] + s[r..r + toPrint];
      out := out + s[r..r + toPrint];
      r := r + toPrint;
    }
    FlushedRun(s, p, q, ctx);
    out := out + ([AMP] + EntityTail(EntityFor(s[q])));
  }

  /** Writing a run and the escaped byte after it escapes one piece more. */
  lemma {:induction false} FlushedRun(s: Bytes, p: nat, q: nat, ctx: Context)
    requires p <= q < |s| && p == q - FinalRun(s[..q], ctx)
    ensures Escape(s[..p], ctx) + s[p..q] + EscapeByte(s[q], ctx) == Escape(s[..q + 1], ctx)
  {
    hide Escape, EscapeByte, Flagged, FinalRun;
    var head, run := s[..p], s[p..q];
    EscapeRun(s, p, q, ctx);
    assert s[..q] == head + run;
    EscapeConcat(head, run, ctx);
    assert s[..q + 1] == s[..q] + [s[q]];
    EscapeConcat(s[..q], [s[q]], ctx);
    EscapeSingle(s[q], ctx);
  }

  lemma {:induction false} EscapeRun(s: Bytes, p: nat, q: nat, ctx: Context)
    requires p <= q < |s| && p == q - FinalRun(s[..q], ctx)
    ensures Escape(s[p..q], ctx) == s[p..q]
  {
    hide Escape, Flagged;
    var run, t := s[p..q], s[..q];
    assert forall i | 0 <= i < |run| :: run[i] == t[p + i];
    EscapePlain(run, ctx);
  }

  // ---- Reading back -------------------------------------------------------------------------

  /** The bytes of an entity reference after its ampersand: letters and a semicolon. */
  lemma {:induction false} EntityBytes(c: byte)
    requires Flagged(c, InAttribute(true))
    ensures var t := EntityTail(EntityFor(c));
            && t != [] && t[0] != HASH
            && forall i | 0 <= i < |t| :: t[i] == SEMICOLON || 0x61 <= t[i] <= 0x7a
  {
  }

  /** No other entry of the table matches an entity reference. */
  lemma {:induction false} EntityFound(c: byte, rest: Bytes)
    requires Flagged(c, InAttribute(true))
    ensures EntityFrom([AMP] + EntityTail(EntityFor(c)) + rest, 0) == Some(EntityFor(c))
  {
    var s := [AMP] + EntityTail(EntityFor(c)) + rest;
    var t := s[1..];
    assert t == EntityTail(EntityFor(c)) + rest;
    if c == DQUOTE {
      assert EntityFrom(s, 0) == Some(ENTITIES[0]);
    } else {
      assert !(EntityTail(ENTITIES[0]) <= t) by { assert EntityTail(ENTITIES[0])[0] != t[0]; }
      if c == AMP {
        assert EntityFrom(s, 1) == Some(ENTITIES[1]);
      } else {
        assert !(EntityTail(ENTITIES[1]) <= t) by { assert EntityTail(ENTITIES[1])[1] != t[1]; }
        if c == APOS {
          assert EntityFrom(s, 2) == Some(ENTITIES[2]);
        } else {
          assert !(EntityTail(ENTITIES[2]) <= t) by { assert EntityTail(ENTITIES[2])[0] != t[0]; }
          if c == LT {
            assert EntityFrom(s, 3) == Some(ENTITIES[3]);
          } else {
            assert !(EntityTail(ENTITIES[3]) <= t) by { assert EntityTail(ENTITIES[3])[0] != t[0]; }
            assert EntityFrom(s, 4) == Some(ENTITIES[4]);
          }
          assert EntityFrom(s, 2) == EntityFrom(s, 3);
        }
        assert EntityFrom(s, 1) == EntityFrom(s, 2);
      }
      assert EntityFrom(s, 0) == EntityFrom(s, 1);
    }
  }

  /** The decoding loop undoes one escaped byte. */
  lemma {:induction false} TokenOfEscaped(c: byte, ctx: Context, rest: Bytes, f: Flags)
    requires f.entities && Flagged(c, ctx)
    ensures NextToken(EscapeByte(c, ctx) + rest, f) == Emit([c], |EscapeByte(c, ctx)|)
  {
    EntityBytes(c);
    EntityFound(c, rest);
    var s := EscapeByte(c, ctx) + rest;
    assert s == [AMP] + EntityTail(EntityFor(c)) + rest;
    assert At(s, 1) == EntityTail(EntityFor(c))[0];
  }

  /** What the decoding loop does with an unflagged byte. */
  lemma {:induction false} TokenOfPlain(c: byte, rest: Bytes, f: Flags)
    requires f.newlines && c != AMP
    ensures NextToken([c] + rest, f)
            == if c == CR then Emit([LF], if At(rest, 0) == LF then 2 else 1)
               else if c == LF then Emit([LF], if At(rest, 0) == CR then 2 else 1)
               else Emit([c], 1)
  {
    assert At([c] + rest, 1) == At(rest, 0);
  }

  lemma {:induction false} EscapeFirstByte(s: Bytes, ctx: Context)
    ensures var c := At(s, 0); At(Escape(s, ctx), 0) == if s != [] && Flagged(c, ctx) then AMP else c
  {
    if s != [] {
      assert At(Escape(s, ctx), 0) == EscapeByte(s[0], ctx)[0];
    }
  }

  /** The escaped text decodes to the string when that has no CR. */
  lemma {:induction false} DecodeEscape(s: Bytes, ctx: Context, f: Flags)
    requires f.entities && f.newlines && CR !in s
    ensures Decode(Escape(s, ctx), f) == s
  {
    hide EscapeByte, NextToken;
    if s != [] {
      var c, e, r := s[0], EscapeByte(s[0], ctx), Escape(s[1..], ctx);
      DecodeEscape(s[1..], ctx, f);
      EscapeToken(s, ctx, f);
      assert (e + r)[|e|..] == r;
      assert [c] + s[1..] == s;
    }
  }

  lemma {:induction false} EscapeToken(s: Bytes, ctx: Context, f: Flags)
    requires f.entities && f.newlines && CR !in s && s != []
    ensures EscapeByte(s[0], ctx) != []
    ensures NextToken(EscapeByte(s[0], ctx) + Escape(s[1..], ctx), f) == Emit([s[0]], |EscapeByte(s[0], ctx)|)
  {
    hide NextToken, Escape;
    if Flagged(s[0], ctx) {
      TokenOfEscaped(s[0], ctx, Escape(s[1..], ctx), f);
    } else {
      EscapeFirstByte(s[1..], ctx);
      TokenOfPlain(s[0], Escape(s[1..], ctx), f);
    }
  }

  /** Escaped text is all known tokens, and newline normalization leaves no CR in it. */
  lemma {:induction false} DecodeEscapeHasNoCR(s: Bytes, ctx: Context, f: Flags)
    requires f.entities && f.newlines
    ensures CR !in Decode(Escape(s, ctx), f)
    ensures AllKnown(Escape(s, ctx), f)
    decreases |s|
  {
    hide NextToken, EscapeByte;
    if s != [] {
      var c, e, r := s[0], EscapeByte(s[0], ctx), Escape(s[1..], ctx);
      assert (e + r)[|e|..] == r;
      DecodeEscapeHasNoCR(s[1..], ctx, f);
      if Flagged(c, ctx) {
        TokenOfEscaped(c, ctx, r, f);
        EscapeNonEmpty(c, ctx);
      } else {
        EscapeNonEmpty(c, ctx);
        TokenOfPlain(c, r, f);
        EscapeFirstByte(s[1..], ctx);
        if |s| > 1 && ((c == CR && s[1] == LF) || (c == LF && s[1] == CR)) {
          EscapeNonEmpty(s[1], ctx);
          assert r == [s[1]] + Escape(s[1..][1..], ctx);
          assert s[1..][1..] == s[2..];
          assert (e + r)[2..] == Escape(s[2..], ctx);
          DecodeEscapeHasNoCR(s[2..], ctx, f);
        }
      }
    }
  }

  lemma {:induction false} EscapeNonEmpty(c: byte, ctx: Context)
    ensures EscapeByte(c, ctx) != []
    ensures !Flagged(c, ctx) ==> EscapeByte(c, ctx) == [c]
  {
  }

  /** Reading back returns a string exactly when it has no carriage return. */
  lemma {:induction false} ReadBack(s: Bytes, ctx: Context, f: Flags)
    requires f.entities && f.newlines
    ensures Decode(Escape(s, ctx), f) == s <==> CR !in s
  {
    if CR !in s {
      DecodeEscape(s, ctx, f);
    } else {
      DecodeEscapeHasNoCR(s, ctx, f);
    }
  }

  /** The delimiter of the context does not occur in the escaped text. */
  lemma {:induction false} EscapeAvoids(s: Bytes, ctx: Context, c: byte)
    requires (Flagged(c, ctx) && c != AMP) || (c == 0 && 0 !in s)
    ensures c !in Escape(s, ctx)
  {
    if s != [] {
      EscapeAvoids(s[1..], ctx, c);
      if Flagged(s[0], ctx) {
        EntityBytes(s[0]);
      }
    }
  }

  function Delimiter(ctx: Context): byte {
    if ctx.InText? then LT else DQUOTE
  }

  /**
   For every NUL-free string of at most INT_MAX bytes: print it, scan for the delimiter, decode in
   place. No byte is passed over, and the string comes back exactly when it has no carriage return.
   */
  lemma {:induction false} StringRoundTrip(s: Bytes, ctx: Context, rest: Bytes, f: Flags)
    requires 0 !in s && |s| <= INT_MAX && f.entities && f.newlines
    ensures var text := Printed(s, ctx);
            && FindTag(text + [Delimiter(ctx)] + rest, [Delimiter(ctx)]) == Some(|text|)
            && AllKnown(text, f)
            && (CString(Rewrite(text, 0, [], f)) == s <==> CR !in s)
  {
    hide NextToken, Escape, Rewrite, Decode, EscapeByte;
    PrintedIsEscape(s, ctx);
    var text := Escape(s, ctx);
    EscapeAvoids(s, ctx, Delimiter(ctx));
    EscapeAvoids(s, ctx, 0);
    FindByteAfter(text, Delimiter(ctx), rest);
    DecodeEscapeHasNoCR(s, ctx, f);
    RewriteOfKnown(text, f);
    if CR in s {
      CStringIsPrefix(Decode(text, f));
    } else {
      DecodeEscape(s, ctx, f);
      CStringOfNulFree(s);
    }
  }

  lemma {:induction false} RewriteOfKnown(text: Bytes, f: Flags)
    requires AllKnown(text, f)
    ensures Rewrite(text, 0, [], f) == Decode(text, f)
  {
    hide NextToken, Rewrite, Decode;
    assert text[0..] == text;
    KnownPassesOver(text, 0, 0, f);
    RewriteIsDecode(text, 0, [], f);
    assert [] + Decode(text, f) == Decode(text, f);
  }
}
