/** Every text of the grammar is parsed, and into the nodes that it stands for. */
module XmlAccepts {
  import opened Bytes
  import opened Decoding
  import opened Scanning
  import opened XmlParser
  import opened XmlGrammar

  // ---- Attributes ---------------------------------------------------------------------------

  lemma {:induction false} SkipGap(gap: Bytes, s: Bytes)
    requires AllWhiteSpace(gap) && !IsWhiteSpace(At(s, 0))
    ensures SkipSpace(gap + s) == s
  {
    SkipSpaceOver(gap, s);
  }

  lemma {:induction false} GapStart(gap: Bytes, s: Bytes)
    requires AllWhiteSpace(gap) && s != []
    ensures gap + s != [] && (gap + s)[0] == if gap == [] then s[0] else gap[0]
    ensures !IsNameChar(s[0]) ==> !IsNameChar((gap + s)[0])
    ensures s[0] != 0 ==> At(gap + s, 0) != 0
  {
  }

  lemma {:induction false} ValueRead(o: Options, a: RawAttribute, rest: Bytes)
    requires AttributeOk(a)
    ensures ParseValue(o, a.after + ([a.quote] + (a.raw + ([a.quote] + rest))))
            == ValueDone(AttributeMeaning(o, a).value, rest)
  {
    hide FindTag, StrValue, SkipSpace;
    var body := a.raw + ([a.quote] + rest);
    var quoted := [a.quote] + body;
    SkipGap(a.after, quoted);
    assert quoted[0] == a.quote && quoted[1..] == body;
    FindByteAfter(a.raw, a.quote, rest);
    assert a.raw + [a.quote] + rest == body;
    assert body[..|a.raw|] == a.raw && body[|a.raw| + 1..] == rest;
  }

  lemma {:induction false} AttributeRead(o: Options, a: RawAttribute, rest: Bytes)
    requires AttributeOk(a)
    ensures ParseAttribute(o, PutAttribute(a, rest)) == AttributeDone(AttributeMeaning(o, a), rest)
    ensures PutAttribute(a, rest) != [] && PutAttribute(a, rest)[0] == a.name[0]
  {
    hide ParseValue, AttributeMeaning, SkipSpace, LeadingName;
    var value := a.after + ([a.quote] + (a.raw + ([a.quote] + rest)));
    var afterName := [EQUALS] + value;
    var tail := a.before + afterName;
    var s := a.name + tail;
    ValueRead(o, a, rest);
    SkipGap(a.before, afterName);
    GapStart(a.before, afterName);
    LeadingNameOf(a.name, tail);
    assert s[|a.name|..] == tail && At(s, |a.name|) == tail[0] && afterName[1..] == value;
    MeaningName(o, a);
  }

  lemma {:induction false} MeaningName(o: Options, a: RawAttribute)
    ensures AttributeMeaning(o, a) == Attribute(a.name, AttributeMeaning(o, a).value)
  {
  }

  ghost predicate NewNames(soFar: seq<Attribute>, attributes: seq<RawAttribute>) {
    forall i, j | 0 <= i < |soFar| && 0 <= j < |attributes| :: soFar[i].name != attributes[j].name
  }

  /** The attributes of a tag, up to the white space before its end. */
  lemma {:induction false} AttributesRead(o: Options, attributes: seq<RawAttribute>, soFar: seq<Attribute>, rest: Bytes)
    requires forall i | 0 <= i < |attributes| :: AttributeOk(attributes[i])
    requires forall i, j | 0 <= i < j < |attributes| :: attributes[i].name != attributes[j].name
    requires NewNames(soFar, attributes)
    ensures ParseAttributes(o, PutAttributes(attributes, rest), soFar)
            == ParseAttributes(o, rest, soFar + AttributesMeaning(o, attributes))
    decreases |attributes|
  {
    hide ParseAttribute, SkipSpace, AttributeOk, PutAttribute, AttributeMeaning, ParseAttributes;
    if attributes == [] {
      assert soFar + AttributesMeaning(o, attributes) == soFar;
    } else {
      var a, more := attributes[0], PutAttributes(attributes[1..], rest);
      OneAttributeRead(o, a, soFar, more);
      assert !HasAttribute(soFar, a.name);
      MeaningName(o, a);
      assert NewNames(soFar + [AttributeMeaning(o, a)], attributes[1..]) by {
        assert forall j | 0 <= j < |attributes[1..]| :: attributes[1..][j] == attributes[j + 1];
      }
      AttributesRead(o, attributes[1..], soFar + [AttributeMeaning(o, a)], rest);
      assert (soFar + [AttributeMeaning(o, a)]) + AttributesMeaning(o, attributes[1..])
          == soFar + AttributesMeaning(o, attributes);
    }
  }

  lemma {:induction false} OneAttributeRead(o: Options, a: RawAttribute, soFar: seq<Attribute>, more: Bytes)
    requires AttributeOk(a)
    ensures !HasAttribute(soFar, a.name) ==>
              ParseAttributes(o, a.gap + PutAttribute(a, more), soFar)
              == ParseAttributes(o, more, soFar + [AttributeMeaning(o, a)])
    ensures HasAttribute(soFar, a.name) ==>
              ParseAttributes(o, a.gap + PutAttribute(a, more), soFar) == AttributesFail(ErrorParsingAttribute)
  {
    hide ParseAttribute, SkipSpace, PutAttribute, AttributeMeaning, ParseAttributes, HasAttribute;
    var s := PutAttribute(a, more);
    AttributeRead(o, a, more);
    MeaningName(o, a);
    NameStart(a.name);
    SkipGap(a.gap, s);
    AttributesStep(o, a.gap + s, soFar, s);
  }

  lemma {:induction false} NameStart(name: Bytes)
    requires IsName(name)
    ensures var c := name[0]; IsNameStartChar(c) && !IsWhiteSpace(c) && c != 0 && c != SLASH && c != LT && c != GT
    ensures 0 !in name
  {
  }

  // ---- Tags -----------------------------------------------------------------------------------

  function ClosingOf(slash: bool, close: Bytes): Closing {
    if close == SEALED_END then Closed else if slash then ClosingTag else Open
  }

  lemma {:induction false} TagEndRead(o: Options, end: Bytes, close: Bytes, rest: Bytes, soFar: seq<Attribute>)
    requires AllWhiteSpace(end) && (close == TAG_END || close == SEALED_END)
    ensures ParseAttributes(o, end + (close + rest), soFar) == AttributesDone(soFar, rest, close == SEALED_END)
    ensures !IsNameChar(At(end + (close + rest), 0))
  {
    hide ParseAttribute, SkipSpace, ParseAttributes;
    var p := close + rest;
    SkipGap(end, p);
    GapStart(end, p);
    assert p[0] == close[0] && p[|close|..] == rest;
    assert close == SEALED_END ==> At(p, 1) == GT;
    AttributesStep(o, end + p, soFar, p);
  }

  lemma {:induction false} AttributesStart(attributes: seq<RawAttribute>, rest: Bytes)
    requires AttributesOk(attributes) && !IsNameChar(At(rest, 0))
    ensures !IsNameChar(At(PutAttributes(attributes, rest), 0))
  {
    if attributes != [] {
      var a := attributes[0];
      assert AttributeOk(a);
      assert PutAttributes(attributes, rest)[0] == a.gap[0];
    }
  }

  /** One tag, after its `<`. */
  lemma {:induction false} HeadRead(o: Options, t: Tag, close: Bytes, rest: Bytes)
    requires TagOk(t) && (close == TAG_END || close == SEALED_END)
    ensures ParseHead(o, PutHead(t, close, rest))
            == Head(ClosingOf(t.slash, close), t.name, AttributesMeaning(o, t.attributes), rest)
  {
    hide ParseAttributes, SkipSpace, LeadingName, PutAttributes;
    var end := t.end + (close + rest);
    var attributes := PutAttributes(t.attributes, end);
    var q := t.name + attributes;
    var p := (if t.slash then [SLASH] else []) + q;
    NameStart(t.name);
    assert p[0] == if t.slash then SLASH else t.name[0];
    SkipGap(t.space, p);
    assert q == if t.slash then p[1..] else p;
    TagEndRead(o, t.end, close, rest, AttributesMeaning(o, t.attributes));
    AttributesStart(t.attributes, end);
    LeadingNameOf(t.name, attributes);
    assert q[|t.name|..] == attributes;
    AttributesRead(o, t.attributes, [], end);
    assert [] + AttributesMeaning(o, t.attributes) == AttributesMeaning(o, t.attributes);
  }

  lemma {:induction false} HeadStart(t: Tag, close: Bytes, rest: Bytes)
    requires TagOk(t)
    ensures var s := PutHead(t, close, rest);
            && At(s, 0) != 0 && At(s, 0) != 0x3f && At(s, 0) != 0x21
            && (At(s, 0) == SLASH <==> t.slash && t.space == [])
  {
    hide PutAttributes;
    NameStart(t.name);
    var q := t.name + PutAttributes(t.attributes, t.end + (close + rest));
    var p := (if t.slash then [SLASH] else []) + q;
    assert p[0] == if t.slash then SLASH else t.name[0];
    GapStart(t.space, p);
  }

  /** A tag is taken for one. */
  lemma {:induction false} TagIdentified(o: Options, t: Tag, close: Bytes, rest: Bytes, first: bool)
    requires TagOk(t) && TagPlaced(o, StartOfTag(t), first)
    ensures var s := PutTag(t, close, rest);
            At(s, 0) != 0 && Identify(o, s, first) == Found(ElementKind, PutHead(t, close, rest))
  {
    hide PutHead, SkipSpace;
    var h := PutHead(t, close, rest);
    var p := [LT] + h;
    HeadStart(t, close, rest);
    SkipGap(t.gap, p);
    GapStart(t.gap, p);
    assert p[1] == h[0] && p[1..] == h;
  }

  // ---- Leaves -----------------------------------------------------------------------------------

  function KindOfMarkup(m: Markup): Kind {
    match m
    case CommentMarkup => CommentKind
    case DeclarationMarkup => DeclarationKind
    case UnknownMarkup => UnknownKind
    case CDataMarkup => TextKind(true)
  }

  lemma {:induction false} KindFacts(m: Markup, value: Bytes)
    ensures KindOfMarkup(m) != ElementKind && KindOfMarkup(m) != TextKind(false)
    ensures EndOf(KindOfMarkup(m)) == Ending(m) && LeafOf(KindOfMarkup(m), value) == MarkupMeaning(m, value)
  {
  }

  lemma {:induction false} EndingFound(raw: Bytes, m: Markup, rest: Bytes)
    requires 0 !in raw && OnlyAtEnd(raw, Ending(m))
    ensures FindTag(raw + (Ending(m) + rest), Ending(m)) == Some(|raw|)
  {
    var e := Ending(m);
    var s := raw + (e + rest);
    assert s[|raw|..] == e + rest && s[|raw|] == e[0];
    forall j | 0 <= j < |raw| ensures s[j] != 0 && !(e <= s[j..]) {
      assert s[j] == raw[j];
      PrefixShared(raw + e, rest, e, j);
      assert (raw + e) + rest == s;
    }
    FindTagAt(s, e, |raw|);
  }

  /** Whether e stands at j shows in its own length. */
  lemma {:induction false} PrefixShared(s: Bytes, rest: Bytes, e: Bytes, j: nat)
    requires j + |e| <= |s|
    ensures e <= s[j..] <==> e <= (s + rest)[j..]
  {
    assert s[j..][..|e|] == (s + rest)[j..][..|e|];
  }

  lemma {:induction false} MarkupLeafRead(o: Options, gap: Bytes, m: Markup, raw: Bytes, rest: Bytes)
    requires MarkupOk(gap, m, raw)
    ensures ParseLeaf(o, KindOfMarkup(m), raw + (Ending(m) + rest)) == Leaf(Meaning(o, RawMarkup(gap, m, raw)), rest)
  {
    hide FindTag, StrValue, EndOf, LeafOf, MarkupMeaning, Ending, KindOfMarkup, OnlyAtEnd;
    var e := Ending(m);
    var s := raw + (e + rest);
    var value := StrValue(raw, NEWLINES_ONLY);
    KindFacts(m, value);
    EndingFound(raw, m, rest);
    assert s[..|raw|] == raw && s[|raw| + |e|..] == rest;
  }

  lemma {:induction false} MarkupIdentified(o: Options, gap: Bytes, m: Markup, raw: Bytes, rest: Bytes, first: bool)
    requires MarkupOk(gap, m, raw)
    ensures var body := raw + (Ending(m) + rest); var s := gap + (Header(m) + body);
            At(s, 0) != 0 && Identify(o, s, first) == Found(KindOfMarkup(m), body)
  {
    hide OnlyAtEnd, SkipSpace;
    var body := raw + (Ending(m) + rest);
    var p := Header(m) + body;
    assert p[|Header(m)|..] == body && Header(m) <= p && p[0] == LT;
    SkipGap(gap, p);
    GapStart(gap, p);
    assert forall i | 0 <= i < |Header(m)| :: p[i] == Header(m)[i];
    match m
    case CommentMarkup => assert p[1] == 0x21;
    case DeclarationMarkup =>
    case CDataMarkup => assert p[1] == 0x21 && p[2] == 0x5b;
    case UnknownMarkup =>
      assert p[1] == 0x21;
      UnknownIsNot(raw, UNKNOWN_END + rest, body, p);
  }

  lemma {:induction false} UnknownIsNot(raw: Bytes, tail: Bytes, body: Bytes, p: Bytes)
    requires !(TWO_DASHES <= raw) && !(CDATA_MARK <= raw) && At(tail, 0) == GT && body == raw + tail
    requires p == UNKNOWN_HEADER + body
    ensures !(COMMENT_HEADER <= p) && !(CDATA_HEADER <= p)
  {
    MarkStops(TWO_DASHES, raw, tail);
    MarkBoth(TWO_DASHES, body);
    assert UNKNOWN_HEADER + TWO_DASHES == COMMENT_HEADER;
    MarkStops(CDATA_MARK, raw, tail);
    MarkBoth(CDATA_MARK, body);
    assert UNKNOWN_HEADER + CDATA_MARK == CDATA_HEADER;
  }

  lemma {:induction false} MarkStops(x: Bytes, raw: Bytes, tail: Bytes)
    requires GT !in x && !(x <= raw) && At(tail, 0) == GT
    ensures !(x <= raw + tail)
  {
    if |x| <= |raw| {
      assert (raw + tail)[..|x|] == raw[..|x|];
    } else {
      assert (raw + tail)[|raw|] == GT;
    }
  }

  lemma {:induction false} MarkBoth(x: Bytes, body: Bytes)
    ensures UNKNOWN_HEADER + x <= UNKNOWN_HEADER + body <==> x <= body
  {
    var a := UNKNOWN_HEADER;
    if a + x <= a + body {
      assert forall i | 0 <= i < |x| :: x[i] == (a + x)[|a| + i] == (a + body)[|a| + i] == body[i];
    }
  }

  // ---- Text ---------------------------------------------------------------------------------------

  lemma {:induction false} TextIdentified(o: Options, raw: Bytes, first: bool, next: Start, rest: Bytes)
    requires TextPlaced(o, raw, first, next) && At(rest, 0) == LT && (next.slashed ==> At(rest, 1) == SLASH)
    ensures At(raw + rest, 0) != 0 && Identify(o, raw + rest, first) == Found(TextKind(false), raw + rest)
  {
    var s := raw + rest;
    assert s[0] == raw[0] && s[0] in raw;
    if AllWhiteSpace(raw) {
      SkipGap(raw, rest);
      assert rest[0] == LT && rest[1] == SLASH;
    } else {
      SkipInText(raw, rest);
    }
  }

  lemma {:induction false} SkipInText(raw: Bytes, rest: Bytes)
    requires !AllWhiteSpace(raw)
    ensures SkipSpace(raw + rest) != [] && SkipSpace(raw + rest)[0] in raw
  {
    assert (raw + rest)[0] == raw[0];
    if IsWhiteSpace(raw[0]) {
      assert (raw + rest)[1..] == raw[1..] + rest;
      assert !AllWhiteSpace(raw[1..]);
      SkipInText(raw[1..], rest);
    }
  }

  lemma {:induction false} TextLeafRead(o: Options, raw: Bytes, rest: Bytes)
    requires 0 !in raw && LT !in raw && At(rest, 0) == LT && At(rest, 1) != 0
    ensures ParseLeaf(o, TextKind(false), raw + rest) == Leaf(Meaning(o, RawText(raw)), rest)
  {
    hide FindTag, StrValue;
    var s := raw + rest;
    assert rest == [LT] + rest[1..];
    FindByteAfter(raw, LT, rest[1..]);
    assert raw + [LT] + rest[1..] == s;
    assert s[..|raw|] == raw && s[|raw|..] == rest && At(s, |raw| + 1) == At(rest, 1);
  }

  // ---- Siblings --------------------------------------------------------------------------------------

  lemma {:induction false} TagBegins(t: Tag, close: Bytes, rest: Bytes)
    requires TagOk(t)
    ensures Begins(PutTag(t, close, rest), StartOfTag(t))
    ensures At(PutTag(t, close, rest), 0) != 0
  {
    hide PutHead;
    HeadStart(t, close, rest);
    var p := [LT] + PutHead(t, close, rest);
    assert p[1] == PutHead(t, close, rest)[0];
    GapStart(t.gap, p);
    if t.gap == [] {
      assert t.gap + p == p;
    }
  }

  lemma {:induction false} PutBegins(o: Options, r: Raw, rest: Bytes)
    requires RawOk(o, r) && !r.RawText?
    ensures Begins(Put(r, rest), StartOf(r)) && At(Put(r, rest), 0) != 0
  {
    hide PutTag, PutAll, TagOk, AllOk, OnlyAtEnd;
    match r
    case RawElement(tag, kids, endTag) => TagBegins(tag, TAG_END, PutAll(kids, PutTag(endTag, TAG_END, rest)));
    case RawSealed(tag) => TagBegins(tag, SEALED_END, rest);
    case RawMarkup(gap, m, raw) =>
      var p := Header(m) + (raw + (Ending(m) + rest));
      assert p[0] == LT && p[1] == Header(m)[1];
      GapStart(gap, p);
      if gap == [] {
        assert gap + p == p;
      }
  }

  /** The nodes that have been read are declarations, or none may come. */
  ghost predicate MayDeclare(inDocument: bool, soFar: seq<Node>, rs: seq<Raw>) {
    && DeclarationsLead(rs)
    && ((exists j :: 0 <= j < |rs| && IsDeclaration(rs[j])) ==>
          inDocument && forall i | 0 <= i < |soFar| :: soFar[i].Declaration?)
  }

  lemma {:induction false} MayDeclareNext(o: Options, inDocument: bool, soFar: seq<Node>, rs: seq<Raw>)
    requires rs != [] && MayDeclare(inDocument, soFar, rs)
    ensures IsDeclaration(rs[0]) ==> WellLocated(inDocument, soFar)
    ensures MayDeclare(inDocument, soFar + [Meaning(o, rs[0])], rs[1..])
  {
    hide StrValue;
    if IsDeclaration(rs[0]) {
      assert WellLocated(inDocument, soFar);
    }
    if j :| 0 <= j < |rs[1..]| && IsDeclaration(rs[1..][j]) {
      assert rs[j + 1] == rs[1..][j];
      assert IsDeclaration(rs[0]);
    }
    assert forall i | 0 <= i < |rs[1..]| :: rs[1..][i] == rs[i + 1];
  }

  lemma {:induction false} MarkupRead(o: Options, gap: Bytes, m: Markup, raw: Bytes, rest: Bytes,
                                      depth: nat, inDocument: bool, first: bool, soFar: seq<Node>)
    requires MarkupOk(gap, m, raw) && (m == DeclarationMarkup ==> WellLocated(inDocument, soFar))
    ensures ParseSiblings(o, Put(RawMarkup(gap, m, raw), rest), depth, inDocument, first, soFar)
            == ParseSiblings(o, rest, depth, inDocument, false, soFar + [Meaning(o, RawMarkup(gap, m, raw))])
  {
    hide Identify, ParseLeaf, ParseSiblings, MarkupOk, StrValue, WellLocated;
    MarkupIdentified(o, gap, m, raw, rest, first);
    MarkupLeafRead(o, gap, m, raw, rest);
    KindFacts(m, []);
    var body := raw + (Ending(m) + rest);
    SiblingsLeaf(o, gap + (Header(m) + body), depth, inDocument, first, soFar, KindOfMarkup(m), body);
  }

  lemma {:induction false} TextRead(o: Options, raw: Bytes, next: Start, rest: Bytes,
                                    depth: nat, inDocument: bool, first: bool, soFar: seq<Node>)
    requires TextPlaced(o, raw, first, next) && Begins(rest, next)
    ensures ParseSiblings(o, raw + rest, depth, inDocument, first, soFar)
            == ParseSiblings(o, rest, depth, inDocument, false, soFar + [Meaning(o, RawText(raw))])
  {
    hide Identify, ParseLeaf, ParseSiblings, StrValue;
    TextIdentified(o, raw, first, next, rest);
    TextLeafRead(o, raw, rest);
    SiblingsLeaf(o, raw + rest, depth, inDocument, first, soFar, TextKind(false), raw + rest);
  }

  lemma {:induction false} SealedRead(o: Options, t: Tag, rest: Bytes,
                                      depth: nat, inDocument: bool, first: bool, soFar: seq<Node>)
    requires TagOk(t) && TagPlaced(o, StartOfTag(t), first)
    ensures ParseSiblings(o, Put(RawSealed(t), rest), depth, inDocument, first, soFar)
            == ParseSiblings(o, rest, depth, inDocument, false, soFar + [Meaning(o, RawSealed(t))])
  {
    hide Identify, ParseHead, ParseSiblings, TagOk, PutHead, PutTag, AttributesMeaning;
    var h := PutHead(t, SEALED_END, rest);
    TagIdentified(o, t, SEALED_END, rest, first);
    HeadRead(o, t, SEALED_END, rest);
    assert ParseElement(o, h, depth) == ElementDone(Closed, Meaning(o, RawSealed(t)), rest, None);
    hide ParseElement;
    SiblingsElement(o, PutTag(t, SEALED_END, rest), depth, inDocument, first, soFar, h);
  }

  /** An end tag ends the siblings. */
  lemma {:induction false} EndTagRead(o: Options, t: Tag, rest: Bytes,
                                      depth: nat, inDocument: bool, first: bool, soFar: seq<Node>)
    requires TagOk(t) && t.slash && TagPlaced(o, StartOfTag(t), first)
    ensures ParseSiblings(o, PutTag(t, TAG_END, rest), depth, inDocument, first, soFar)
            == Siblings(soFar, AtEndTag(rest, t.name))
  {
    hide Identify, ParseHead, ParseSiblings, TagOk, PutHead, PutTag, AttributesMeaning;
    var h := PutHead(t, TAG_END, rest);
    TagIdentified(o, t, TAG_END, rest, first);
    HeadRead(o, t, TAG_END, rest);
    assert ParseElement(o, h, depth)
        == ElementDone(ClosingTag, Element(t.name, AttributesMeaning(o, t.attributes), []), rest, None);
    hide ParseElement;
    SiblingsElement(o, PutTag(t, TAG_END, rest), depth, inDocument, first, soFar, h);
  }

  /** An element that is open, with what follows its start tag. */
  lemma {:induction false} OpenRead(o: Options, t: Tag, inner: Bytes, depth: nat)
    requires TagOk(t) && !t.slash && At(inner, 0) != 0
    ensures ParseElement(o, PutHead(t, TAG_END, inner), depth) ==
            var r := ParseNodes(o, inner, depth, false);
            match r.stop
            case AtNull(error) => ElementFail(error)
            case AtEndTag(rest, name) =>
              ElementDone(Open, Element(t.name, AttributesMeaning(o, t.attributes), r.nodes), rest, Some(name))
  {
    hide ParseHead, ParseNodes, TagOk, PutHead, AttributesMeaning;
    HeadRead(o, t, TAG_END, inner);
  }

  /** What follows a start tag does not begin with a NUL. */
  lemma {:induction false} InnerStarts(o: Options, kids: seq<Raw>, endTag: Tag, rest: Bytes)
    requires TagOk(endTag) && AllOk(o, kids, true, StartOfTag(endTag))
    ensures At(PutAll(kids, PutTag(endTag, TAG_END, rest)), 0) != 0
  {
    hide PutTag, TagOk, RawOk;
    if kids == [] {
      TagBegins(endTag, TAG_END, rest);
    } else if kids[0].RawText? {
      var raw, more := kids[0].raw, PutAll(kids[1..], PutTag(endTag, TAG_END, rest));
      assert (raw + more)[0] == raw[0] && raw[0] in raw;
    } else {
      PutBegins(o, kids[0], PutAll(kids[1..], PutTag(endTag, TAG_END, rest)));
    }
  }

  lemma {:induction false} ElementRead(o: Options, r: Raw, rest: Bytes,
                                       depth: nat, inDocument: bool, first: bool, soFar: seq<Node>)
    requires r.RawElement? && RawOk(o, r) && Placed(o, r, first, NoStart) && depth + Nest(r) < MAX_ELEMENT_DEPTH
    ensures ParseSiblings(o, Put(r, rest), depth, inDocument, first, soFar)
            == ParseSiblings(o, rest, depth, inDocument, false, soFar + [Meaning(o, r)])
    decreases r, 0
  {
    hide Identify, ParseHead, ParseSiblings, ParseElement, TagOk, PutHead, PutTag, AttributesMeaning, AllOk, PutAll;
    var t, end := r.tag, r.endTag;
    var tail := PutTag(end, TAG_END, rest);
    var inner := PutAll(r.kids, tail);
    TagIdentified(o, t, TAG_END, inner, first);
    InnerStarts(o, r.kids, end, rest);
    OpenRead(o, t, inner, depth);
    NestKids(r);
    KidsMayNot(r.kids);
    TagBegins(end, TAG_END, rest);
    AllRead(o, r.kids, StartOfTag(end), tail, depth + 1, false, true, []);
    LastPlaced(o, r.kids, true, StartOfTag(end));
    var nodes := MeaningAll(o, r.kids);
    assert [] + nodes == nodes;
    EndTagRead(o, end, rest, depth + 1, false, r.kids == [], nodes);
    SiblingsElement(o, PutTag(t, TAG_END, inner), depth, inDocument, first, soFar, PutHead(t, TAG_END, inner));
  }

  lemma {:induction false} NestKids(r: Raw)
    requires r.RawElement?
    ensures forall i | 0 <= i < |r.kids| :: Nest(r.kids[i]) + 1 <= Nest(r)
    ensures Nest(r) >= 1
  {
  }

  lemma {:induction false} KidsMayNot(kids: seq<Raw>)
    requires forall i | 0 <= i < |kids| :: !IsDeclaration(kids[i])
    ensures MayDeclare(false, [], kids)
  {
  }

  lemma {:induction false} LastPlaced(o: Options, rs: seq<Raw>, first: bool, last: Start)
    requires AllOk(o, rs, first, last)
    ensures TagPlaced(o, last, first && rs == [])
    decreases rs
  {
    hide RawOk, Placed;
    if rs != [] {
      LastPlaced(o, rs[1..], false, last);
    }
  }

  lemma {:induction false} AllBegin(o: Options, rs: seq<Raw>, first: bool, last: Start, tail: Bytes)
    requires AllOk(o, rs, first, last) && Begins(tail, last)
    ensures Begins(PutAll(rs, tail), StartOfAll(rs, last))
  {
    hide RawOk;
    if rs != [] && !rs[0].RawText? {
      PutBegins(o, rs[0], PutAll(rs[1..], tail));
    }
  }

  /** A list of siblings is read as the nodes that it stands for. */
  lemma {:induction false} AllRead(o: Options, rs: seq<Raw>, last: Start, tail: Bytes,
                                   depth: nat, inDocument: bool, first: bool, soFar: seq<Node>)
    requires AllOk(o, rs, first, last) && Begins(tail, last) && MayDeclare(inDocument, soFar, rs)
    requires forall i | 0 <= i < |rs| :: depth + Nest(rs[i]) < MAX_ELEMENT_DEPTH
    ensures ParseSiblings(o, PutAll(rs, tail), depth, inDocument, first, soFar)
            == ParseSiblings(o, tail, depth, inDocument, first && rs == [], soFar + MeaningAll(o, rs))
    decreases rs
  {
    hide ParseSiblings, RawOk, Put, Begins, Nest, Meaning, MayDeclare;
    if rs == [] {
      assert soFar + MeaningAll(o, rs) == soFar;
    } else {
      var rest, node := PutAll(rs[1..], tail), Meaning(o, rs[0]);
      AllBegin(o, rs[1..], false, last, tail);
      MayDeclareNext(o, inDocument, soFar, rs);
      OneRead(o, rs[0], StartOfAll(rs[1..], last), rest, depth, inDocument, first, soFar);
      AllRead(o, rs[1..], last, tail, depth, inDocument, false, soFar + [node]);
      assert (soFar + [node]) + MeaningAll(o, rs[1..]) == soFar + MeaningAll(o, rs);
    }
  }

  lemma {:induction false} OneRead(o: Options, r: Raw, next: Start, rest: Bytes,
                                   depth: nat, inDocument: bool, first: bool, soFar: seq<Node>)
    requires RawOk(o, r) && Placed(o, r, first, next) && Begins(rest, next)
    requires depth + Nest(r) < MAX_ELEMENT_DEPTH && (IsDeclaration(r) ==> WellLocated(inDocument, soFar))
    ensures ParseSiblings(o, Put(r, rest), depth, inDocument, first, soFar)
            == ParseSiblings(o, rest, depth, inDocument, false, soFar + [Meaning(o, r)])
    decreases r, 1
  {
    hide ParseSiblings, Begins, Nest, WellLocated;
    match r
    case RawElement(_, _, _) => ElementRead(o, r, rest, depth, inDocument, first, soFar);
    case RawSealed(tag) => SealedRead(o, tag, rest, depth, inDocument, first, soFar);
    case RawText(raw) => TextRead(o, raw, next, rest, depth, inDocument, first, soFar);
    case RawMarkup(gap, m, raw) => MarkupRead(o, gap, m, raw, rest, depth, inDocument, first, soFar);
  }

  // ---- Documents -----------------------------------------------------------------------------------

  lemma {:induction false} TailRead(o: Options, t: Tail, rest: Bytes, first: bool, soFar: seq<Node>)
    requires TailOk(t, rest) && TagPlaced(o, StartOfTail(t), first)
    ensures var r := ParseSiblings(o, PutTail(t, rest), 1, true, first, soFar);
            r.nodes == soFar && (r.stop.AtEndTag? || r.stop == AtNull(Success))
  {
    hide ParseSiblings, SkipSpace;
    match t
    case Blank(space) =>
      SkipGap(space, rest);
      SiblingsEnd(o, space + rest, 1, true, first, soFar);
    case Stray(tag) => EndTagRead(o, tag, rest, 1, true, first, soFar);
  }

  lemma {:induction false} TailBegins(t: Tail, rest: Bytes)
    requires TailOk(t, rest)
    ensures Begins(PutTail(t, rest), StartOfTail(t))
  {
    hide PutTag, TagOk;
    if t.Stray? {
      TagBegins(t.tag, TAG_END, rest);
    }
  }

  lemma {:induction false} BodyFound(d: RawDocument, body: Bytes)
    requires AllWhiteSpace(d.space) && At(body, 0) != 0 && (!d.bom ==> !IsWhiteSpace(body[0]) && !(BOM <= body))
    ensures var text := d.space + ((if d.bom then BOM else []) + body); Body(text) == body && HasBom(text) == d.bom
  {
    hide SkipSpace;
    var s := (if d.bom then BOM else []) + body;
    assert s[0] == if d.bom then BOM[0] else body[0];
    SkipGap(d.space, s);
    if d.bom {
      assert s[..3] == BOM && s[3..] == body;
    } else {
      assert s == body;
    }
  }

  /** Every text of the grammar is parsed into the nodes that it stands for. */
  lemma {:induction false} Accepted(o: Options, text: Bytes, nodes: seq<Node>, bom: bool, d: RawDocument, rest: Bytes)
    requires Derives(o, text, nodes, bom, d, rest)
    ensures ParseDocument(o, text) == Document(Success, nodes, bom)
  {
    hide ParseSiblings, AllOk, PutAll, PutTail, SkipSpace, Body, HasBom, Nest, NestAll, TailOk;
    var body, tail := PutBody(d, rest), PutTail(d.tail, rest);
    BodyFound(d, body);
    TailBegins(d.tail, rest);
    AllRead(o, d.nodes, StartOfTail(d.tail), tail, 1, true, true, []);
    LastPlaced(o, d.nodes, true, StartOfTail(d.tail));
    assert [] + nodes == nodes;
    TailRead(o, d.tail, rest, d.nodes == [], nodes);
  }
}
