/**
 What StrPair::GetStr makes of the text between two pointers: newline normalization
 (section 2.11 of XML 1.0), the predefined entities (section 4.6) and character references
 (section 4.1), and the optional collapsing of white space.
 */
module Decoding {
  import opened Bytes
  import opened Collapsing
  import CharRef
  import Utf8

  datatype Entity = Entity(pattern: Bytes, value: byte)

  const ENTITIES: seq<Entity> := [
    Entity([0x71, 0x75, 0x6f, 0x74], DQUOTE),
    Entity([0x61, 0x6d, 0x70], AMP),
    Entity([0x61, 0x70, 0x6f, 0x73], APOS),
    Entity([0x6c, 0x74], LT),
    Entity([0x67, 0x74], GT)]

  /** The text of an entity reference after its ampersand. */
  function EntityTail(e: Entity): Bytes {
    e.pattern + [SEMICOLON]
  }

  /** The first entity of the table, from index i on, whose reference s starts with. */
  function EntityFrom(s: Bytes, i: nat): (r: Option<Entity>)
    requires s != [] && i <= |ENTITIES|
    ensures r.Some? ==> r.value in ENTITIES && EntityTail(r.value) <= s[1..]
    decreases |ENTITIES| - i
  {
    if i == |ENTITIES| then None
    else if EntityTail(ENTITIES[i]) <= s[1..] then Some(ENTITIES[i])
    else EntityFrom(s, i + 1)
  }

  /** The processing that a StrPair still needs. */
  datatype Flags = Flags(entities: bool, newlines: bool, collapse: bool)

  /**
   One turn of the decoding loop: some bytes replaced by others or, at an entity reference
   that is not in the table, one byte passed over.
   */
  datatype Token = Emit(bytes: Bytes, consumed: nat) | PassOver

  function NextToken(s: Bytes, f: Flags): (t: Token)
    requires s != []
    ensures t.Emit? ==> 1 <= t.consumed <= |s| && |t.bytes| <= t.consumed
  {
    if f.newlines && s[0] == CR then Emit([LF], if At(s, 1) == LF then 2 else 1)
    else if f.newlines && s[0] == LF then Emit([LF], if At(s, 1) == CR then 2 else 1)
    else if f.entities && s[0] == AMP then
      if At(s, 1) == HASH then
        CharRef.ReferenceShrinks(s);
        match CharRef.CharacterRef(s)
        case Invalid => Emit([AMP], 1)
        case Decoded(bytes, consumed) => Emit(bytes, consumed)
      else
        match EntityFrom(s, 0)
        case Some(e) => Emit([e.value], |e.pattern| + 2)
        case None => PassOver
    else Emit([s[0]], 1)
  }

  /** The left-to-right result: an unknown entity reference stays as it is. */
  function Decode(s: Bytes, f: Flags): Bytes {
    if s == [] then []
    else match NextToken(s, f)
      case Emit(bytes, consumed) => bytes + Decode(s[consumed..], f)
      case PassOver => [AMP] + Decode(s[1..], f)
  }

  /**
   The actual result: where a byte is passed over, the write pointer moves on without a store,
   so the output shows the input byte at the write position.
   */
  function Rewrite(s: Bytes, i: nat, out: Bytes, f: Flags): Bytes
    requires |out| <= i <= |s|
    decreases |s| - i
  {
    if i == |s| then out
    else match NextToken(s[i..], f)
      case Emit(bytes, consumed) => Rewrite(s, i + consumed, out + bytes, f)
      case PassOver => Rewrite(s, i + 1, out + [s[|out|]], f)
  }

  /** Wherever a byte is passed over, the input has an ampersand at the write position. */
  predicate PassesOverAmpersands(s: Bytes, i: nat, offset: nat, f: Flags)
    requires offset <= i <= |s|
    decreases |s| - i
  {
    i == |s| ||
    match NextToken(s[i..], f)
    case Emit(bytes, consumed) => PassesOverAmpersands(s, i + consumed, offset + |bytes|, f)
    case PassOver => s[offset] == AMP && PassesOverAmpersands(s, i + 1, offset + 1, f)
  }

  /** No unknown entity reference is met. */
  predicate AllKnown(s: Bytes, f: Flags) {
    s == [] ||
    match NextToken(s, f)
    case Emit(_, consumed) => AllKnown(s[consumed..], f)
    case PassOver => false
  }

  lemma {:induction false} RewriteExtends(s: Bytes, i: nat, out: Bytes, f: Flags)
    requires |out| <= i <= |s|
    ensures out <= Rewrite(s, i, out, f)
    ensures |Rewrite(s, i, out, f)| == |out| + |Decode(s[i..], f)| <= |s|
    decreases |s| - i
  {
    hide NextToken;
    if i < |s| {
      match NextToken(s[i..], f)
      case Emit(bytes, consumed) =>
        assert s[i..][consumed..] == s[i + consumed..];
        RewriteExtends(s, i + consumed, out + bytes, f);
      case PassOver =>
        assert s[i..][1..] == s[i + 1..];
        RewriteExtends(s, i + 1, out + [s[|out|]], f);
    }
  }

  lemma {:induction false} SplitEquality(out: Bytes, c: byte, whole: Bytes, rest: Bytes)
    requires out + [c] <= whole
    ensures whole == out + ([AMP] + rest) <==> c == AMP && whole == (out + [c]) + rest
  {
    assert whole[|out|] == (out + [c])[|out|] == c;
    if whole == out + ([AMP] + rest) {
      assert whole[|out|] == AMP;
      assert out + ([AMP] + rest) == (out + [AMP]) + rest;
    }
  }

  lemma {:induction false} RewriteTurn(s: Bytes, i: nat, out: Bytes, f: Flags)
    requires |out| <= i < |s|
    ensures Rewrite(s, i, out, f)
            == match NextToken(s[i..], f)
               case Emit(bytes, consumed) => Rewrite(s, i + consumed, out + bytes, f)
               case PassOver => Rewrite(s, i + 1, out + [s[|out|]], f)
  {
    hide NextToken;
  }

  lemma {:induction false} DecodeTurn(s: Bytes, i: nat, f: Flags)
    requires i < |s|
    ensures Decode(s[i..], f)
            == match NextToken(s[i..], f)
               case Emit(bytes, consumed) => bytes + Decode(s[i + consumed..], f)
               case PassOver => [AMP] + Decode(s[i + 1..], f)
  {
    hide NextToken;
    match NextToken(s[i..], f)
    case Emit(bytes, consumed) => assert s[i..][consumed..] == s[i + consumed..];
    case PassOver => assert s[i..][1..] == s[i + 1..];
  }

  /** The in-place loop does what is intended exactly when it passes over ampersands only. */
  lemma {:induction false} RewriteIsDecode(s: Bytes, i: nat, out: Bytes, f: Flags)
    requires |out| <= i <= |s|
    ensures Rewrite(s, i, out, f) == out + Decode(s[i..], f) <==> PassesOverAmpersands(s, i, |out|, f)
    decreases |s| - i
  {
    hide NextToken, Rewrite, Decode;
    if i == |s| {
      RewriteEnd(s, out, f);
      DecodeEnd(f);
      assert s[i..] == [] && out + [] == out;
    } else {
      RewriteTurn(s, i, out, f);
      DecodeTurn(s, i, f);
      match NextToken(s[i..], f)
      case Emit(bytes, consumed) =>
        RewriteIsDecode(s, i + consumed, out + bytes, f);
        var rest := Decode(s[i + consumed..], f);
        assert out + (bytes + rest) == (out + bytes) + rest;
      case PassOver =>
        var c := s[|out|];
        RewriteIsDecode(s, i + 1, out + [c], f);
        RewriteExtends(s, i + 1, out + [c], f);
        SplitEquality(out, c, Rewrite(s, i + 1, out + [c], f), Decode(s[i + 1..], f));
    }
  }

  lemma {:induction false} RewriteEnd(s: Bytes, out: Bytes, f: Flags)
    requires |out| <= |s|
    ensures Rewrite(s, |s|, out, f) == out
  {
  }

  lemma {:induction false} DecodeEnd(f: Flags)
    ensures Decode([], f) == []
  {
  }

  /** In particular it does so on every text without unknown entity references. */
  lemma {:induction false} KnownPassesOver(s: Bytes, i: nat, offset: nat, f: Flags)
    requires offset <= i <= |s| && AllKnown(s[i..], f)
    ensures PassesOverAmpersands(s, i, offset, f)
    decreases |s| - i
  {
    hide NextToken;
    if i < |s| {
      var t := NextToken(s[i..], f);
      assert s[i..][t.consumed..] == s[i + t.consumed..];
      KnownPassesOver(s, i + t.consumed, offset + |t.bytes|, f);
    }
  }

  const NO_FLAGS := Flags(false, false, false)

  /** Without flags the loop copies the text onto itself. */
  lemma {:induction false} RewriteWithoutFlags(s: Bytes, i: nat)
    requires i <= |s|
    ensures Rewrite(s, i, s[..i], NO_FLAGS) == s
    decreases |s| - i
  {
    if i == |s| {
      assert s[..i] == s;
    } else {
      assert s[..i] + [s[i]] == s[..i + 1];
      RewriteWithoutFlags(s, i + 1);
    }
  }

  /** The C string that GetStr returns for the text s. */
  function StrValue(s: Bytes, f: Flags): Bytes {
    var text := CString(Rewrite(s, 0, [], f));
    if f.collapse then Collapse(text) else text
  }

  // ---- Strings piece by piece ---------------------------------------------------------------------

  /** What a string is made of: bytes, line ends, references, and ampersands that begin no reference. */
  datatype Piece =
    | OneByte(c: byte)
    | LineEnd(form: Bytes)
    | Named(name: Bytes, value: byte)
    | Numbered(text: Bytes, bytes: Bytes)
    | Refused
    | Loose

  function PieceText(p: Piece): Bytes {
    match p
    case OneByte(c) => [c]
    case LineEnd(form) => form
    case Named(name, _) => [AMP] + name + [SEMICOLON]
    case Numbered(text, _) => text
    case Refused => [AMP]
    case Loose => [AMP]
  }

  function PieceMeaning(p: Piece): Bytes {
    match p
    case OneByte(c) => [c]
    case LineEnd(_) => [LF]
    case Named(_, value) => [value]
    case Numbered(_, bytes) => bytes
    case Refused => [AMP]
    case Loose => [AMP]
  }

  /** The five predefined entities. */
  predicate IsEntity(name: Bytes, value: byte) {
    || (name == Ascii("lt") && value == LT)
    || (name == Ascii("gt") && value == GT)
    || (name == Ascii("amp") && value == AMP)
    || (name == Ascii("apos") && value == APOS)
    || (name == Ascii("quot") && value == DQUOTE)
  }

  ghost predicate NamesEntity(s: Bytes) {
    exists name, value :: IsEntity(name, value) && name + [SEMICOLON] <= s
  }

  /** Which pieces there are before rest: line ends and references are as long as they can be. */
  ghost predicate PieceOk(f: Flags, p: Piece, rest: Bytes) {
    match p
    case OneByte(c) => !(f.newlines && (c == CR || c == LF)) && !(f.entities && c == AMP)
    case LineEnd(form) =>
      && f.newlines
      && (|| form == [CR, LF] || form == [LF, CR]
          || (form == [CR] && At(rest, 0) != LF) || (form == [LF] && At(rest, 0) != CR))
    case Named(name, value) => f.entities && IsEntity(name, value)
    case Numbered(text, bytes) =>
      && f.entities && text != [] && text[0] == AMP && At(text + rest, 1) == HASH
      && CharRef.CharacterRef(text + rest) == CharRef.Decoded(bytes, |text|)
    case Refused => f.entities && At(rest, 0) == HASH && CharRef.CharacterRef([AMP] + rest) == CharRef.Invalid
    case Loose => f.entities && At(rest, 0) != HASH && !NamesEntity(rest)
  }

  function TextOf(ps: seq<Piece>): Bytes {
    if ps == [] then [] else PieceText(ps[0]) + TextOf(ps[1..])
  }

  function MeaningOf(ps: seq<Piece>): Bytes {
    if ps == [] then [] else PieceMeaning(ps[0]) + MeaningOf(ps[1..])
  }

  ghost predicate PiecesOk(f: Flags, ps: seq<Piece>) {
    ps == [] || (PieceOk(f, ps[0], TextOf(ps[1..])) && PiecesOk(f, ps[1..]))
  }

  lemma {:induction false} EntityFacts(e: Entity)
    requires e in ENTITIES
    ensures IsEntity(e.pattern, e.value)
  {
  }

  lemma {:induction false} EntityListed(name: Bytes, value: byte)
    requires IsEntity(name, value)
    ensures Entity(name, value) in ENTITIES
  {
    var e := Entity(name, value);
    assert e == ENTITIES[0] || e == ENTITIES[1] || e == ENTITIES[2] || e == ENTITIES[3] || e == ENTITIES[4];
  }

  /** Two entities do not begin the same text. */
  lemma {:induction false} EntityUnique(e: Entity, g: Entity, s: Bytes)
    requires e in ENTITIES && g in ENTITIES && EntityTail(e) <= s && EntityTail(g) <= s
    ensures e == g
  {
    assert s[0] == EntityTail(e)[0] == EntityTail(g)[0];
    assert s[1] == EntityTail(e)[1] == EntityTail(g)[1];
  }

  /** The search finds the one entity that the text names. */
  lemma {:induction false} EntityFromIs(s: Bytes, e: Entity, i: nat)
    requires s != [] && i <= |ENTITIES| && e in ENTITIES[i..] && EntityTail(e) <= s[1..]
    ensures EntityFrom(s, i) == Some(e)
    decreases |ENTITIES| - i
  {
    hide EntityTail;
    if EntityTail(ENTITIES[i]) <= s[1..] {
      EntityUnique(ENTITIES[i], e, s[1..]);
    } else {
      assert ENTITIES[i..] == [ENTITIES[i]] + ENTITIES[i + 1..];
      EntityFromIs(s, e, i + 1);
    }
  }

  lemma {:induction false} EntityFound(s: Bytes, name: Bytes, value: byte)
    requires s != [] && IsEntity(name, value) && name + [SEMICOLON] <= s[1..]
    ensures EntityFrom(s, 0) == Some(Entity(name, value))
  {
    hide IsEntity;
    EntityListed(name, value);
    assert ENTITIES[0..] == ENTITIES;
    EntityFromIs(s, Entity(name, value), 0);
  }

  lemma {:induction false} NameIsNotNumber(name: Bytes, value: byte)
    requires IsEntity(name, value)
    ensures name != [] && name[0] != HASH
  {
  }

  lemma {:induction false} NoEntityFound(s: Bytes)
    requires s != []
    ensures EntityFrom(s, 0) == None <==> !NamesEntity(s[1..])
  {
    hide EntityFrom, IsEntity;
    match EntityFrom(s, 0)
    case Some(e) =>
      EntityFacts(e);
      assert NamesEntity(s[1..]);
    case None =>
      forall name, value | IsEntity(name, value) ensures !(name + [SEMICOLON] <= s[1..]) {
        if name + [SEMICOLON] <= s[1..] {
          EntityFound(s, name, value);
        }
      }
  }

  lemma {:induction false} NamedToken(f: Flags, name: Bytes, value: byte, rest: Bytes)
    requires f.entities && IsEntity(name, value)
    ensures NextToken([AMP] + name + [SEMICOLON] + rest, f) == Emit([value], |name| + 2)
  {
    hide IsEntity, EntityFrom;
    var s := [AMP] + name + [SEMICOLON] + rest;
    assert s[1..] == name + [SEMICOLON] + rest;
    EntityFound(s, name, value);
    NameIsNotNumber(name, value);
    assert s[1] == name[0];
  }

  /** One piece is one turn of the loop. */
  lemma {:induction false} PieceToken(f: Flags, p: Piece, rest: Bytes)
    requires PieceOk(f, p, rest)
    ensures PieceText(p) != []
    ensures NextToken(PieceText(p) + rest, f)
            == if p.Loose? then PassOver else Emit(PieceMeaning(p), |PieceText(p)|)
  {
    hide IsEntity, EntityFrom, NamesEntity, CharRef.CharacterRef;
    var s := PieceText(p) + rest;
    match p
    case OneByte(c) =>
    case LineEnd(form) => assert At(s, 1) == if |form| == 2 then form[1] else At(rest, 0);
    case Named(name, value) => NamedToken(f, name, value, rest);
    case Numbered(text, bytes) =>
    case Refused => assert s == [AMP] + rest && At(s, 1) == At(rest, 0);
    case Loose =>
      assert s[1..] == rest && At(s, 1) == At(rest, 0);
      NoEntityFound(s);
  }

  /** A string is decoded piece by piece. */
  lemma {:induction false} PiecesDecoded(f: Flags, ps: seq<Piece>)
    requires PiecesOk(f, ps)
    ensures Decode(TextOf(ps), f) == MeaningOf(ps)
    ensures AllKnown(TextOf(ps), f) <==> Loose !in ps
  {
    hide PieceOk, NextToken, PieceText, PieceMeaning;
    if ps != [] {
      var p, rest := ps[0], TextOf(ps[1..]);
      PieceToken(f, p, rest);
      LooseIs(p);
      assert (PieceText(p) + rest)[|PieceText(p)|..] == rest;
      PiecesDecoded(f, ps[1..]);
      assert ps == [p] + ps[1..];
    }
  }

  lemma {:induction false} LooseIs(p: Piece)
    ensures p.Loose? ==> PieceText(p) == [AMP] && PieceMeaning(p) == [AMP]
  {
  }

  /** Every string is made of pieces, and thus decoded as they say. */
  lemma {:induction false} Pieces(s: Bytes, f: Flags) returns (ps: seq<Piece>)
    ensures PiecesOk(f, ps) && TextOf(ps) == s && Decode(s, f) == MeaningOf(ps)
    decreases |s|
  {
    hide PieceOk, PieceText, Decode, MeaningOf;
    ps := [];
    if s != [] {
      var p := FirstPiece(s, f);
      var n := |PieceText(p)|;
      var more := Pieces(s[n..], f);
      ps := [p] + more;
      assert ps[0] == p && ps[1..] == more;
      assert s == PieceText(p) + s[n..];
    }
    PiecesDecoded(f, ps);
  }

  lemma {:induction false} EntityThere(s: Bytes) returns (name: Bytes, value: byte)
    requires NamesEntity(s)
    ensures IsEntity(name, value) && name + [SEMICOLON] <= s
  {
    name, value :| IsEntity(name, value) && name + [SEMICOLON] <= s;
  }

  lemma {:induction false} FirstPiece(s: Bytes, f: Flags) returns (p: Piece)
    requires s != []
    ensures PieceText(p) != [] && PieceText(p) <= s && PieceOk(f, p, s[|PieceText(p)|..])
  {
    hide IsEntity, NamesEntity, CharRef.CharacterRef;
    var rest := s[1..];
    assert s == [s[0]] + rest && At(s, 1) == At(rest, 0);
    if f.newlines && (s[0] == CR || s[0] == LF) {
      var two := At(s, 1) == if s[0] == CR then LF else CR;
      p := LineEnd(if two then [s[0], s[1]] else [s[0]]);
    } else if f.entities && s[0] == AMP {
      if At(s, 1) == HASH {
        CharRef.ReferenceShrinks(s);
        match CharRef.CharacterRef(s) {
          case Invalid => p := Refused;
          case Decoded(bytes, n) =>
            p := Numbered(s[..n], bytes);
            assert s[..n] + s[n..] == s;
        }
      } else if NamesEntity(rest) {
        var name, value := EntityThere(rest);
        p := Named(name, value);
        assert [AMP] + name + [SEMICOLON] == [AMP] + (name + [SEMICOLON]);
      } else {
        p := Loose;
      }
    } else {
      p := OneByte(s[0]);
    }
  }

  /** The in-place loop, on a string without unknown entities. */
  lemma {:induction false} PiecesRewritten(f: Flags, ps: seq<Piece>)
    requires PiecesOk(f, ps) && Loose !in ps
    ensures Rewrite(TextOf(ps), 0, [], f) == MeaningOf(ps)
    ensures StrValue(TextOf(ps), f)
            == if f.collapse then Collapse(CString(MeaningOf(ps))) else CString(MeaningOf(ps))
  {
    hide PiecesOk, Rewrite, Decode, AllKnown;
    var s := TextOf(ps);
    PiecesDecoded(f, ps);
    assert s[0..] == s && [] + Decode(s, f) == Decode(s, f);
    KnownPassesOver(s, 0, 0, f);
    RewriteIsDecode(s, 0, [], f);
  }

  /** What the in-place loop leaves of a string: at an unknown entity, the byte that stands there. */
  function LeftOf(s: Bytes, ps: seq<Piece>, out: Bytes): Bytes
    decreases ps
  {
    if ps == [] then out
    else LeftOf(s, ps[1..], out + if ps[0].Loose? && |out| < |s| then [s[|out|]] else PieceMeaning(ps[0]))
  }

  lemma {:induction false} AnyRewritten(f: Flags, s: Bytes, i: nat, out: Bytes, ps: seq<Piece>)
    requires |out| <= i <= |s| && s[i..] == TextOf(ps) && PiecesOk(f, ps)
    ensures Rewrite(s, i, out, f) == LeftOf(s, ps, out)
    decreases ps
  {
    hide PieceOk, NextToken, PieceText, PieceMeaning, Rewrite;
    if ps == [] {
      RewriteEnd(s, out, f);
    } else {
      var p, rest := ps[0], TextOf(ps[1..]);
      PieceToken(f, p, rest);
      LooseIs(p);
      RewriteTurn(s, i, out, f);
      var n := |PieceText(p)|;
      assert s[i + n..] == s[i..][n..] == rest;
      AnyRewritten(f, s, i + n, out + (if p.Loose? then [s[|out|]] else PieceMeaning(p)), ps[1..]);
    }
  }

  // ---- Character references ------------------------------------------------------------------------

  /** A reference whose digits denote a code point, and are read as they should be, is replaced by its encoding. */
  lemma {:induction false} NumberDecoded(ds: Bytes, radix: CharRef.Radix, rest: Bytes, f: Flags)
    requires f.entities && CharRef.Numeral(ds, radix) && !CharRef.Wraps(ds, radix) && !CharRef.Clamps(ds, radix)
    requires CharRef.Value(ds, radix) <= CharRef.MAX_CODE_POINT
    ensures Decode(CharRef.ReferenceText(ds, radix) + rest, f)
            == Utf8.Encode(CharRef.Value(ds, radix)) + Decode(rest, f)
  {
    hide CharRef.CharacterRef, Utf8.Encode;
    var text := CharRef.ReferenceText(ds, radix);
    NumberRead(ds, radix, rest);
    var p := Numbered(text, Utf8.Encode(CharRef.Value(ds, radix)));
    OnePiece(f, p, rest);
  }

  lemma {:induction false} NumberRead(ds: Bytes, radix: CharRef.Radix, rest: Bytes)
    requires CharRef.Numeral(ds, radix) && !CharRef.Wraps(ds, radix) && !CharRef.Clamps(ds, radix)
    requires CharRef.Value(ds, radix) <= CharRef.MAX_CODE_POINT
    ensures var text := CharRef.ReferenceText(ds, radix);
            && |text| > 2 && text[0] == AMP && text[1] == HASH
            && CharRef.CharacterRef(text + rest) == CharRef.Decoded(Utf8.Encode(CharRef.Value(ds, radix)), |text|)
  {
    hide CharRef.CharacterRef, Utf8.Encode, CharRef.CodeOf, CharRef.ReadSum, CharRef.ClampedSum, CharRef.Wraps;
    hide CharRef.Clamps;
    CharRef.CodeOfNumeral(ds, radix);
    CharRef.AcceptedNumerals(ds, radix);
    CharRef.NumericReference(ds, radix, rest);
  }

  /** One piece is decoded, and what follows it on its own. */
  lemma {:induction false} OnePiece(f: Flags, p: Piece, rest: Bytes)
    requires PieceOk(f, p, rest)
    ensures Decode(PieceText(p) + rest, f) == PieceMeaning(p) + Decode(rest, f)
  {
    hide PieceOk, NextToken, PieceText, PieceMeaning;
    PieceToken(f, p, rest);
    LooseIs(p);
    assert (PieceText(p) + rest)[|PieceText(p)|..] == rest;
  }

  /**
   Any text that starts with `&#` and is read as it should be: the reference is replaced by what it
   denotes, or it is refused, and the ampersand stays.
   */
  lemma {:induction false} ReferenceDecoded(s: Bytes, f: Flags)
    requires f.entities && s != [] && s[0] == AMP && At(s, 1) == HASH && CharRef.ReferenceReadsRight(s)
    ensures match CharRef.IntendedReference(s)
            case Invalid => Decode(s, f) == [AMP] + Decode(s[1..], f)
            case Decoded(bytes, n) => n <= |s| && Decode(s, f) == bytes + Decode(s[n..], f)
  {
    hide CharRef.CharacterRef, CharRef.IntendedReference, CharRef.ReferenceReadsRight;
    CharRef.ReferenceRead(s);
    CharRef.ReferenceShrinks(s);
    match CharRef.CharacterRef(s)
    case Invalid =>
      assert [AMP] + s[1..] == s && At(s[1..], 0) == At(s, 1);
      OnePiece(f, Refused, s[1..]);
    case Decoded(bytes, n) =>
      assert s[..n] + s[n..] == s && s[..n][0] == s[0];
      OnePiece(f, Numbered(s[..n], bytes), s[n..]);
  }

  /** GetStr on a text that is one reference, to a number other than zero. */
  lemma {:induction false} NumberValue(ds: Bytes, radix: CharRef.Radix, f: Flags)
    requires f.entities && !f.collapse
    requires CharRef.Numeral(ds, radix) && !CharRef.Wraps(ds, radix) && !CharRef.Clamps(ds, radix)
    requires 0 < CharRef.Value(ds, radix) <= CharRef.MAX_CODE_POINT
    ensures StrValue(CharRef.ReferenceText(ds, radix), f) == Utf8.Encode(CharRef.Value(ds, radix))
  {
    hide CharRef.CharacterRef, Utf8.Encode, StrValue;
    var text, bytes := CharRef.ReferenceText(ds, radix), Utf8.Encode(CharRef.Value(ds, radix));
    var ps := [Numbered(text, bytes)];
    NumberRead(ds, radix, []);
    assert text + [] == text && bytes + [] == bytes && ps[1..] == [] && TextOf([]) == [] && MeaningOf([]) == [];
    assert TextOf(ps) == text && MeaningOf(ps) == bytes;
    PiecesRewritten(f, ps);
    EncodeNoZero(CharRef.Value(ds, radix));
    CStringOfNulFree(bytes);
  }

  // ---- Strings that are cut ------------------------------------------------------------------

  /** No character reference that is met denotes the number zero. */
  predicate NoneIsZero(s: Bytes, f: Flags) {
    s == [] ||
    match NextToken(s, f)
    case Emit(bytes, consumed) => bytes != [0] && NoneIsZero(s[consumed..], f)
    case PassOver => NoneIsZero(s[1..], f)
  }

  lemma {:induction false} EncodeNoZero(ucs: nat)
    ensures 0 in Utf8.Encode(ucs) <==> ucs == 0
  {
  }

  /** Of the tokens of a text without NUL, only a reference to the number zero has one. */
  lemma {:induction false} TokenZero(s: Bytes, f: Flags)
    requires s != [] && 0 !in s
    ensures var t := NextToken(s, f); t.Emit? ==> (0 in t.bytes <==> t.bytes == [0])
  {
    if f.entities && s[0] == AMP && At(s, 1) == HASH {
      ReferenceZero(s);
    }
    hide CharRef.CharacterRef;
  }

  lemma {:induction false} ReferenceZero(s: Bytes)
    requires s != []
    ensures var r := CharRef.CharacterRef(s); r.Decoded? ==> (0 in r.bytes <==> r.bytes == [0])
  {
    hide Utf8.Encode, StrChr;
    if At(s, 1) == HASH && At(s, 2) != 0 {
      var radix, from := CharRef.RadixOf(s), CharRef.DigitsFrom(CharRef.RadixOf(s));
      var k := StrChr(s[from..], SEMICOLON);
      if k.Some? {
        var code := CharRef.CodeOf(s[from..from + k.value], CharRef.MarkOf(radix), radix);
        hide CharRef.CodeOf;
        if code.Some? {
          EncodeNoZero(code.value);
          EncodeZero();
        }
      }
    }
  }

  lemma {:induction false} EncodeZero()
    ensures Utf8.Encode(0) == [0]
  {
  }

  lemma {:induction false} RewriteZero(s: Bytes, i: nat, out: Bytes, f: Flags)
    requires |out| <= i <= |s| && 0 !in s
    ensures 0 !in Rewrite(s, i, out, f) <==> 0 !in out && NoneIsZero(s[i..], f)
    decreases |s| - i
  {
    hide NextToken, Rewrite;
    if i == |s| {
      RewriteEnd(s, out, f);
    } else {
      RewriteTurn(s, i, out, f);
      assert 0 !in s[i..];
      TokenZero(s[i..], f);
      match NextToken(s[i..], f)
      case Emit(bytes, consumed) =>
        assert s[i..][consumed..] == s[i + consumed..];
        RewriteZero(s, i + consumed, out + bytes, f);
      case PassOver =>
        assert s[i..][1..] == s[i + 1..] && s[|out|] in s;
        RewriteZero(s, i + 1, out + [s[|out|]], f);
    }
  }

  lemma {:induction false} CStringIsAll(s: Bytes)
    ensures |CString(s)| == |s| <==> 0 !in s
    ensures |CString(s)| == |s| ==> CString(s) == s
  {
    CStringIsPrefix(s);
    if 0 !in s {
      CStringOfNulFree(s);
    } else if |CString(s)| == |s| {
      CStringHasNoNul(s);
    }
  }

  lemma {:induction false} CStringHasNoNul(s: Bytes)
    ensures 0 !in CString(s)
  {
    if At(s, 0) != 0 {
      CStringHasNoNul(s[1..]);
    }
  }

  /**
   The C string that the in-place loop leaves is the whole decoded text exactly if bytes are passed over
   at ampersands only, and no character reference denotes zero.
   */
  lemma {:induction false} WholeDecoded(s: Bytes, f: Flags)
    requires 0 !in s
    ensures CString(Rewrite(s, 0, [], f)) == Decode(s, f) <==> PassesOverAmpersands(s, 0, 0, f) && NoneIsZero(s, f)
  {
    hide Rewrite, Decode, CString, PassesOverAmpersands, NoneIsZero, NextToken;
    var r := Rewrite(s, 0, [], f);
    assert s[0..] == s && [] + Decode(s, f) == Decode(s, f);
    RewriteIsDecode(s, 0, [], f);
    RewriteExtends(s, 0, [], f);
    RewriteZero(s, 0, [], f);
    CStringIsAll(r);
  }

  const TEXT_FLAGS := Flags(true, true, false)

  lemma {:induction false} ZeroTokens()
    ensures NextToken([0x61, AMP, HASH, 0x30, SEMICOLON, 0x62], TEXT_FLAGS) == Emit([0x61], 1)
    ensures NextToken([AMP, HASH, 0x30, SEMICOLON, 0x62], TEXT_FLAGS) == Emit([0], 4)
    ensures NextToken([0x62], TEXT_FLAGS) == Emit([0x62], 1)
  {
    hide CharRef.CharacterRef;
    CharRef.ZeroReference([0x62]);
    assert [AMP, HASH, 0x30, SEMICOLON] + [0x62] == [AMP, HASH, 0x30, SEMICOLON, 0x62];
  }

  const ZERO_INSIDE: Bytes := [0x61, AMP, HASH, 0x30, SEMICOLON, 0x62]

  lemma {:induction false} ZeroSlices()
    ensures ZERO_INSIDE[0..] == ZERO_INSIDE && ZERO_INSIDE[1..] == [AMP, HASH, 0x30, SEMICOLON, 0x62]
    ensures ZERO_INSIDE[5..] == [0x62] && ZERO_INSIDE[6..] == []
  {
  }

  lemma {:induction false} ZeroDecoded()
    ensures Decode(ZERO_INSIDE, TEXT_FLAGS) == [0x61, 0, 0x62]
  {
    ZeroTokens();
    ZeroSlices();
    hide NextToken, Decode;
    DecodeTurn(ZERO_INSIDE, 5, TEXT_FLAGS);
    DecodeTurn(ZERO_INSIDE, 1, TEXT_FLAGS);
    DecodeTurn(ZERO_INSIDE, 0, TEXT_FLAGS);
    DecodeEnd(TEXT_FLAGS);
    assert [0x61] + ([0] + ([0x62] + [])) == [0x61, 0, 0x62];
  }

  lemma {:induction false} ZeroRewritten()
    ensures Rewrite(ZERO_INSIDE, 0, [], TEXT_FLAGS) == [0x61, 0, 0x62]
  {
    ZeroTokens();
    ZeroSlices();
    hide NextToken, Rewrite;
    RewriteTurn(ZERO_INSIDE, 0, [], TEXT_FLAGS);
    assert [] + [0x61] == [0x61];
    RewriteTurn(ZERO_INSIDE, 1, [0x61], TEXT_FLAGS);
    assert [0x61] + [0] == [0x61, 0];
    RewriteTurn(ZERO_INSIDE, 5, [0x61, 0], TEXT_FLAGS);
    assert [0x61, 0] + [0x62] == [0x61, 0, 0x62];
    RewriteEnd(ZERO_INSIDE, [0x61, 0, 0x62], TEXT_FLAGS);
  }

  /** `a&#0;b` is read as `a`. */
  lemma {:induction false} ZeroCutsString()
    ensures StrValue(ZERO_INSIDE, TEXT_FLAGS) == [0x61] && Decode(ZERO_INSIDE, TEXT_FLAGS) == [0x61, 0, 0x62]
  {
    hide Rewrite, Decode, CString;
    ZeroDecoded();
    ZeroRewritten();
    CStringEndsAt([0x61, 0, 0x62], 1);
    assert [0x61, 0, 0x62][..1] == [0x61];
  }

  /** `&#` at the end of a text is read as `#`. */
  lemma {:induction false} LoneMarkIsLost()
    ensures StrValue([AMP, HASH], TEXT_FLAGS) == [HASH] && Decode([AMP, HASH], TEXT_FLAGS) == [HASH]
  {
    var f := TEXT_FLAGS;
    var s: Bytes := [AMP, HASH];
    assert s[0..] == s && s[1..] == [HASH] && s[2..] == [];
    assert NextToken(s, f) == Emit([], 1) && NextToken([HASH], f) == Emit([HASH], 1) by {
      CharRef.NothingIsRead();
      hide CharRef.CharacterRef;
    }
    hide NextToken, Rewrite, Decode, CString;
    DecodeTurn(s, 1, f);
    DecodeTurn(s, 0, f);
    DecodeEnd(f);
    RewriteTurn(s, 1, [], f);
    RewriteEnd(s, [HASH], f);
    RewriteTurn(s, 0, [], f);
    assert [] + [HASH] == [HASH] && [HASH] + [] == [HASH];
    CStringOfNulFree([HASH]);
  }
  lemma {:induction false} MangledTokens()
    ensures NextToken([AMP, 0x6c, 0x74, SEMICOLON, AMP, 0x78], TEXT_FLAGS) == Emit([LT], 4)
    ensures NextToken([AMP, 0x78], TEXT_FLAGS) == PassOver && NextToken([0x78], TEXT_FLAGS) == Emit([0x78], 1)
  {
    var s: Bytes := [AMP, 0x6c, 0x74, SEMICOLON, AMP, 0x78];
    var u: Bytes := [AMP, 0x78];
    assert NextToken(s, TEXT_FLAGS) == Emit([LT], 4) by {
      assert EntityTail(ENTITIES[3]) == s[1..][..3];
      assert EntityFrom(s, 3) == Some(ENTITIES[3]);
    }
    assert NextToken(u, TEXT_FLAGS) == PassOver by {
      assert EntityFrom(u, 3) == None;
    }
  }

  /** `&lt;&x` comes out as `<lx`: the second ampersand is lost. */
  lemma UnknownEntityIsMangled()
    ensures var s: Bytes := [AMP, 0x6c, 0x74, SEMICOLON, AMP, 0x78];
            Rewrite(s, 0, [], TEXT_FLAGS) == [LT, 0x6c, 0x78] && Decode(s, TEXT_FLAGS) == [LT, AMP, 0x78]
  {
    var f := TEXT_FLAGS;
    var s: Bytes := [AMP, 0x6c, 0x74, SEMICOLON, AMP, 0x78];
    var u: Bytes := [AMP, 0x78];
    var v: Bytes := [0x78];
    assert s[0..] == s && s[4..] == u && s[5..] == v && u[1..] == v && v[1..] == [];
    MangledTokens();
    hide NextToken;
    assert Decode(v, f) == [0x78];
    assert Decode(u, f) == [AMP, 0x78];
    assert Rewrite(s, 5, [LT, 0x6c], f) == Rewrite(s, 6, [LT, 0x6c] + [0x78], f);
    assert Rewrite(s, 4, [LT], f) == Rewrite(s, 5, [LT] + [s[1]], f);
    assert [LT] + [s[1]] == [LT, 0x6c];
    assert Rewrite(s, 0, [], f) == Rewrite(s, 4, [] + [LT], f);
    assert [] + [LT] == [LT];
  }
}
