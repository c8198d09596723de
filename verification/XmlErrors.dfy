/**
 The texts that tinyxml2 refuses, and the error that it reports: what is well formed, up to the first
 flaw. Like the grammar, the flaws are defined without the parser.
 */
module XmlErrors {
  import opened Bytes
  import opened Decoding
  import opened Scanning
  import opened XmlParser
  import opened XmlGrammar
  import opened XmlAccepts
  import opened XmlSound

  // ---- Flaws -----------------------------------------------------------------------------------

  datatype Flaw =
    /** A `<`, perhaps a slash, and no name. */
    | NoName(gap: Bytes, space: Bytes, slash: bool, rest: Bytes)
    /** After its attributes a tag goes on with something that is neither an attribute nor its end. */
    | BadEnd(tag: Tag, rest: Bytes)
    | BadAttribute(tag: Tag, rest: Bytes)
    /** An attribute of the same name as one before it. */
    | Twice(tag: Tag, again: RawAttribute, rest: Bytes)
    /** The text ends after a start tag, or after the children. */
    | Unclosed(tag: Tag, rest: Bytes)
    | Unfinished(tag: Tag, kids: seq<Raw>, space: Bytes, rest: Bytes)
    /** The end tag has another name. */
    | Mismatched(tag: Tag, kids: seq<Raw>, endTag: Tag, rest: Bytes)
    | TooDeep(tag: Tag, rest: Bytes)
    /** A declaration in an element, or after another node. */
    | Late(gap: Bytes, raw: Bytes, rest: Bytes)
    | Endless(gap: Bytes, markup: Markup, rest: Bytes)
    | EndlessText(raw: Bytes, rest: Bytes)
    /** Text, a `<`, and nothing after it. */
    | LoneBracket(raw: Bytes, rest: Bytes)
    /** A flaw in an element, after some of its children. */
    | Within(tag: Tag, before: seq<Raw>, inner: Flaw)

  /** A tag up to the end of its attributes. */
  function PutOpen(t: Tag, rest: Bytes): Bytes {
    t.space + ((if t.slash then [SLASH] else []) + (t.name + PutAttributes(t.attributes, t.end + rest)))
  }

  function PutFlaw(x: Flaw): Bytes {
    match x
    case NoName(gap, space, slash, rest) => gap + ([LT] + (space + ((if slash then [SLASH] else []) + rest)))
    case BadEnd(tag, rest) => tag.gap + ([LT] + PutOpen(tag, rest))
    case BadAttribute(tag, rest) => tag.gap + ([LT] + PutOpen(tag, rest))
    case Twice(tag, again, rest) => tag.gap + ([LT] + PutOpen(tag, PutAttribute(again, rest)))
    case Unclosed(tag, rest) => PutTag(tag, TAG_END, rest)
    case Unfinished(tag, kids, space, rest) => PutTag(tag, TAG_END, PutAll(kids, space + rest))
    case Mismatched(tag, kids, endTag, rest) => PutTag(tag, TAG_END, PutAll(kids, PutTag(endTag, TAG_END, rest)))
    case TooDeep(tag, rest) => PutTag(tag, TAG_END, rest)
    case Late(gap, raw, rest) => gap + (DECLARATION_HEADER + (raw + (DECLARATION_END + rest)))
    case Endless(gap, m, rest) => gap + (Header(m) + rest)
    case EndlessText(raw, rest) => raw + rest
    case LoneBracket(raw, rest) => raw + ([LT] + rest)
    case Within(tag, before, inner) => PutTag(tag, TAG_END, PutAll(before, PutFlaw(inner)))
  }

  function ErrorFor(x: Flaw): XmlError {
    match x
    case NoName(_, _, _, _) => ErrorParsing
    case BadEnd(_, _) => ErrorParsingElement
    case BadAttribute(_, _) => ErrorParsingAttribute
    case Twice(_, _, _) => ErrorParsingAttribute
    case Unclosed(_, _) => ErrorMismatchedElement
    case Unfinished(_, _, _, _) => ErrorParsing
    case Mismatched(_, _, _, _) => ErrorMismatchedElement
    case TooDeep(_, _) => ErrorDepthExceeded
    case Late(_, _, _) => ErrorParsingDeclaration
    case Endless(_, m, _) =>
      match m {
        case CommentMarkup => ErrorParsingComment
        case DeclarationMarkup => ErrorParsingDeclaration
        case UnknownMarkup => ErrorParsingUnknown
        case CDataMarkup => ErrorParsingCData
      }
    case EndlessText(_, _) => ErrorParsingText
    case LoneBracket(_, _) => ErrorParsing
    case Within(_, _, inner) => ErrorFor(inner)
  }

  function StartOfFlaw(x: Flaw): Start {
    match x
    case NoName(gap, space, slash, rest) =>
      if space == [] && !slash && At(rest, 0) == 0 then NoStart else TagStart(gap, slash && space == [])
    case Late(gap, _, _) => TagStart(gap, false)
    case Endless(gap, _, _) => TagStart(gap, false)
    case EndlessText(_, _) => TextStart
    case LoneBracket(_, _) => TextStart
    case _ => StartOfTag(x.tag)
  }

  /** No byte before the end of the C string begins the tag. */
  ghost predicate NotEnded(s: Bytes, tag: Bytes) {
    forall i | 0 <= i <= |s| && 0 !in s[..i] :: !(tag <= s[i..])
  }

  ghost predicate IsAttribute(s: Bytes) {
    exists a, rest :: AttributeOk(a) && s == PutAttribute(a, rest)
  }

  /** What follows the attributes of a tag is not part of them, nor white space. */
  predicate After(t: Tag, rest: Bytes) {
    TagOk(t) && !IsWhiteSpace(At(rest, 0)) && (t.attributes == [] ==> !IsNameChar(At(t.end + rest, 0)))
  }

  predicate OpenTag(t: Tag) {
    TagOk(t) && !t.slash
  }

  /** leading: the flaw stands in the document and only declarations come before it. */
  ghost predicate FlawOk(o: Options, x: Flaw, depth: nat, leading: bool) {
    match x
    case NoName(gap, space, slash, rest) =>
      && AllWhiteSpace(gap) && AllWhiteSpace(space) && !IsNameStartChar(At(rest, 0))
      && (!slash ==> !IsWhiteSpace(At(rest, 0)) && At(rest, 0) != SLASH)
      && (!slash && space == [] ==> At(rest, 0) != 0x3f && At(rest, 0) != 0x21)
    case BadEnd(tag, rest) =>
      && After(tag, rest) && !IsNameStartChar(At(rest, 0)) && At(rest, 0) != GT
      && !(At(rest, 0) == SLASH && At(rest, 1) == GT)
    case BadAttribute(tag, rest) => After(tag, rest) && IsNameStartChar(At(rest, 0)) && !IsAttribute(rest)
    case Twice(tag, again, rest) =>
      && After(tag, PutAttribute(again, rest)) && AttributeOk(again)
      && exists i :: 0 <= i < |tag.attributes| && tag.attributes[i].name == again.name
    case Unclosed(tag, rest) => OpenTag(tag) && At(rest, 0) == 0
    case Unfinished(tag, kids, space, rest) =>
      && KidsOk(o, tag, kids, depth, NoStart) && AllWhiteSpace(space) && At(rest, 0) == 0
      && At(PutAll(kids, space + rest), 0) != 0
    case Mismatched(tag, kids, endTag, _) =>
      KidsOk(o, tag, kids, depth, StartOfTag(endTag)) && TagOk(endTag) && endTag.slash && endTag.name != tag.name
    case TooDeep(tag, rest) => OpenTag(tag) && depth + 1 == MAX_ELEMENT_DEPTH && At(rest, 0) != 0
    case Late(gap, raw, _) => MarkupOk(gap, DeclarationMarkup, raw) && !leading
    case Endless(gap, m, rest) =>
      && AllWhiteSpace(gap) && NotEnded(rest, Ending(m))
      && (m == UnknownMarkup ==> !(TWO_DASHES <= rest) && !(CDATA_MARK <= rest))
    case EndlessText(raw, rest) => 0 !in raw && LT !in raw && !AllWhiteSpace(raw) && At(rest, 0) == 0
    case LoneBracket(raw, rest) => 0 !in raw && LT !in raw && !AllWhiteSpace(raw) && At(rest, 0) == 0
    case Within(tag, before, inner) =>
      KidsOk(o, tag, before, depth, StartOfFlaw(inner)) && FlawOk(o, inner, depth + 1, false)
  }

  /** A start tag and the well-formed children after it. */
  ghost predicate KidsOk(o: Options, tag: Tag, kids: seq<Raw>, depth: nat, next: Start) {
    && OpenTag(tag) && depth + 1 < MAX_ELEMENT_DEPTH && AllOk(o, kids, true, next)
    && (forall i | 0 <= i < |kids| :: !IsDeclaration(kids[i]) && depth + 1 + Nest(kids[i]) < MAX_ELEMENT_DEPTH)
  }

  datatype FlawedDocument = FlawedDocument(space: Bytes, bom: bool, before: seq<Raw>, flaw: Flaw)

  function FlawedBody(d: FlawedDocument): Bytes {
    PutAll(d.before, PutFlaw(d.flaw))
  }

  /** The text is well formed up to a flaw. */
  ghost predicate Refutes(o: Options, text: Bytes, d: FlawedDocument) {
    && text == d.space + ((if d.bom then BOM else []) + FlawedBody(d)) && AllWhiteSpace(d.space)
    && AllOk(o, d.before, true, StartOfFlaw(d.flaw))
    && DeclarationsLead(d.before) && NestAll(d.before) < MAX_ELEMENT_DEPTH - 1
    && FlawOk(o, d.flaw, 1, forall i | 0 <= i < |d.before| :: IsDeclaration(d.before[i]))
    && var body := FlawedBody(d); At(body, 0) != 0 && (!d.bom ==> !IsWhiteSpace(body[0]) && !(BOM <= body))
  }

  lemma {:induction false} FlawIsError(x: Flaw)
    ensures ErrorFor(x) != Success && ErrorFor(x) != ErrorEmptyDocument
  {
    if x.Within? {
      FlawIsError(x.inner);
    }
  }

  // ---- Each flaw is reported ------------------------------------------------------------------------

  /** A `<` that begins no other markup begins a tag. */
  lemma {:induction false} TagFound(o: Options, gap: Bytes, h: Bytes, first: bool)
    requires AllWhiteSpace(gap) && At(h, 0) != 0x3f && At(h, 0) != 0x21
    requires TagPlaced(o, TagStart(gap, At(h, 0) == SLASH), first)
    ensures var s := gap + ([LT] + h); At(s, 0) != 0 && Identify(o, s, first) == Found(ElementKind, h)
  {
    hide SkipSpace;
    var p := [LT] + h;
    SkipGap(gap, p);
    GapStart(gap, p);
    assert p[1..] == h && At(p, 1) == At(h, 0);
  }

  lemma {:induction false} OpenStart(t: Tag, rest: Bytes)
    requires TagOk(t)
    ensures var h := PutOpen(t, rest);
            && At(h, 0) != 0 && At(h, 0) != 0x3f && At(h, 0) != 0x21
            && (At(h, 0) == SLASH <==> t.slash && t.space == [])
  {
    hide PutAttributes;
    NameStart(t.name);
    var p := (if t.slash then [SLASH] else []) + (t.name + PutAttributes(t.attributes, t.end + rest));
    assert p[0] == if t.slash then SLASH else t.name[0];
    GapStart(t.space, p);
  }

  /** A tag whose name and attributes are read is decided by what follows them. */
  lemma {:induction false} OpenHead(o: Options, t: Tag, rest: Bytes)
    requires After(t, rest)
    ensures ParseHead(o, PutOpen(t, rest)) ==
            match ParseAttributes(o, t.end + rest, AttributesMeaning(o, t.attributes))
            case AttributesFail(error) => HeadFail(error)
            case AttributesDone(attributes, after, sealed) =>
              Head(if sealed then Closed else if t.slash then ClosingTag else Open, t.name, attributes, after)
  {
    hide ParseAttributes, SkipSpace, LeadingName, PutAttributes;
    var attributes := PutAttributes(t.attributes, t.end + rest);
    var q := t.name + attributes;
    var p := (if t.slash then [SLASH] else []) + q;
    NameStart(t.name);
    assert p[0] == if t.slash then SLASH else t.name[0];
    SkipGap(t.space, p);
    assert q == if t.slash then p[1..] else p;
    AfterStart(t, rest);
    LeadingNameOf(t.name, attributes);
    assert q[|t.name|..] == attributes;
    AttributesRead(o, t.attributes, [], t.end + rest);
    assert [] + AttributesMeaning(o, t.attributes) == AttributesMeaning(o, t.attributes);
  }

  lemma {:induction false} AfterStart(t: Tag, rest: Bytes)
    requires After(t, rest)
    ensures !IsNameChar(At(PutAttributes(t.attributes, t.end + rest), 0))
  {
    if t.attributes != [] {
      assert AttributeOk(t.attributes[0]);
      AttributeStart(t.attributes, t.end + rest);
    }
  }

  lemma {:induction false} BadHead(o: Options, t: Tag, rest: Bytes)
    requires After(t, rest)
    ensures At(rest, 0) == 0 || (!IsNameStartChar(rest[0]) && rest[0] != GT && !(rest[0] == SLASH && At(rest, 1) == GT))
            ==> ParseHead(o, PutOpen(t, rest)) == HeadFail(ErrorParsingElement)
    ensures IsNameStartChar(At(rest, 0)) && ParseAttribute(o, rest) == AttributeFail
            ==> ParseHead(o, PutOpen(t, rest)) == HeadFail(ErrorParsingAttribute)
  {
    hide ParseAttributes, ParseAttribute, SkipSpace, PutOpen, TagOk;
    OpenHead(o, t, rest);
    TagSpaces(t);
    SkipGap(t.end, rest);
    AttributesStep(o, t.end + rest, AttributesMeaning(o, t.attributes), rest);
  }

  lemma {:induction false} TagSpaces(t: Tag)
    requires TagOk(t)
    ensures AllWhiteSpace(t.gap) && AllWhiteSpace(t.space) && AllWhiteSpace(t.end)
  {
  }

  lemma {:induction false} NotAnAttribute(o: Options, s: Bytes)
    requires !IsAttribute(s)
    ensures ParseAttribute(o, s) == AttributeFail
  {
    hide ParseAttribute;
    if ParseAttribute(o, s).AttributeDone? {
      var a := AttributeDerived(o, s);
    }
  }

  lemma {:induction false} TwiceHead(o: Options, t: Tag, again: RawAttribute, rest: Bytes)
    requires After(t, PutAttribute(again, rest)) && AttributeOk(again)
    requires exists i :: 0 <= i < |t.attributes| && t.attributes[i].name == again.name
    ensures ParseHead(o, PutOpen(t, PutAttribute(again, rest))) == HeadFail(ErrorParsingAttribute)
  {
    hide ParseAttributes, SkipSpace, PutOpen, PutAttribute, HasAttribute;
    var soFar := AttributesMeaning(o, t.attributes);
    OpenHead(o, t, PutAttribute(again, rest));
    var b := again.(gap := t.end);
    TagSpaces(t);
    GapGiven(o, again, t.end, rest);
    MeaningHas(o, t.attributes, again.name);
    OneAttributeRead(o, b, soFar, rest);
  }

  lemma {:induction false} MeaningHas(o: Options, attributes: seq<RawAttribute>, name: Bytes)
    ensures HasAttribute(AttributesMeaning(o, attributes), name)
            <==> exists i :: 0 <= i < |attributes| && attributes[i].name == name
  {
    forall i | 0 <= i < |attributes| ensures AttributesMeaning(o, attributes)[i].name == attributes[i].name {
      MeaningAt(o, attributes, i);
    }
  }

  lemma {:induction false} MeaningAt(o: Options, attributes: seq<RawAttribute>, i: nat)
    requires i < |attributes|
    ensures AttributesMeaning(o, attributes)[i].name == attributes[i].name
  {
    if i > 0 {
      MeaningAt(o, attributes[1..], i - 1);
    }
  }

  lemma {:induction false} NoNameHead(o: Options, space: Bytes, slash: bool, rest: Bytes)
    requires AllWhiteSpace(space) && !IsNameStartChar(At(rest, 0))
    requires !slash ==> !IsWhiteSpace(At(rest, 0)) && At(rest, 0) != SLASH
    ensures ParseHead(o, space + ((if slash then [SLASH] else []) + rest)) == HeadFail(Success)
  {
    hide SkipSpace, ParseAttributes;
    var p := (if slash then [SLASH] else []) + rest;
    SkipGap(space, p);
    assert slash ==> p[0] == SLASH && p[1..] == rest;
    assert !slash ==> p == rest;
  }

  /** A tag that fails makes the siblings fail. */
  lemma {:induction false} TagFails(o: Options, gap: Bytes, h: Bytes, depth: nat, inDocument: bool, first: bool,
                                    soFar: seq<Node>, error: XmlError)
    requires AllWhiteSpace(gap) && At(h, 0) != 0x3f && At(h, 0) != 0x21
    requires TagPlaced(o, TagStart(gap, At(h, 0) == SLASH), first)
    requires var e := ParseElement(o, h, depth);
             || (e.ElementFail? && error == OrParsingError(e.error))
             || (e.ElementDone? && e.closing != ClosingTag && Mismatch(e) && error == ErrorMismatchedElement)
    ensures ParseSiblings(o, gap + ([LT] + h), depth, inDocument, first, soFar) == Siblings(soFar, AtNull(error))
  {
    hide ParseSiblings, ParseElement, Identify, Mismatch;
    TagFound(o, gap, h, first);
    SiblingsElement(o, gap + ([LT] + h), depth, inDocument, first, soFar, h);
  }

  lemma {:induction false} HeadFails(o: Options, h: Bytes, depth: nat, error: XmlError)
    requires ParseHead(o, h) == HeadFail(error)
    ensures ParseElement(o, h, depth) == ElementFail(error)
  {
  }

  /** What ParseElement makes of an open tag and what follows it. */
  lemma {:induction false} InnerFails(o: Options, tag: Tag, inner: Bytes, depth: nat)
    requires OpenTag(tag)
    ensures At(inner, 0) == 0 ==>
              var e := ParseElement(o, PutHead(tag, TAG_END, inner), depth);
              e.ElementDone? && e.closing != ClosingTag && Mismatch(e)
    ensures At(inner, 0) != 0 && depth + 1 == MAX_ELEMENT_DEPTH ==>
              ParseElement(o, PutHead(tag, TAG_END, inner), depth) == ElementFail(ErrorDepthExceeded)
    ensures At(inner, 0) != 0 && depth + 1 < MAX_ELEMENT_DEPTH ==>
              var r := ParseSiblings(o, inner, depth + 1, false, true, []);
              match r.stop
              case AtNull(error) => ParseElement(o, PutHead(tag, TAG_END, inner), depth) == ElementFail(error)
              case AtEndTag(rest, name) =>
                name != tag.name ==>
                  var e := ParseElement(o, PutHead(tag, TAG_END, inner), depth);
                  e.ElementDone? && e.closing != ClosingTag && Mismatch(e)
  {
    hide ParseHead, ParseSiblings, PutHead, AttributesMeaning, TagOk;
    HeadRead(o, tag, TAG_END, inner);
  }

  lemma {:induction false} HeadOfTag(t: Tag, close: Bytes, rest: Bytes)
    requires TagOk(t)
    ensures var h := PutHead(t, close, rest);
            && PutTag(t, close, rest) == t.gap + ([LT] + h) && AllWhiteSpace(t.gap)
            && At(h, 0) != 0 && At(h, 0) != 0x3f && At(h, 0) != 0x21
            && StartOfTag(t) == TagStart(t.gap, At(h, 0) == SLASH)
  {
    HeadStart(t, close, rest);
  }

  lemma {:induction false} NotEndedFails(s: Bytes, tag: Bytes)
    requires tag != [] && tag[0] != 0
    ensures NotEnded(s, tag) <==> FindTag(s, tag) == None
  {
    if FindTag(s, tag).Some? {
      FindTagSound(s, tag);
      assert !NotEnded(s, tag);
    } else {
      forall i | 0 <= i <= |s| && 0 !in s[..i] ensures !(tag <= s[i..]) {
        NotFoundAt(s, tag, i);
      }
    }
  }

  lemma {:induction false} NotFoundAt(s: Bytes, tag: Bytes, i: nat)
    requires tag != [] && tag[0] != 0 && i <= |s| && 0 !in s[..i] && FindTag(s, tag) == None
    ensures !(tag <= s[i..])
  {
    assert s[0..] == s;
    if i == 0 {
      if s != [] && s[0] == 0 {
        assert tag[0] != s[0];
      }
    } else {
      assert s[..i][0] == s[0] && s[1..][..i - 1] == s[..i][1..] && s[1..][i - 1..] == s[i..];
      NotFoundAt(s[1..], tag, i - 1);
    }
  }

  lemma {:induction false} EndlessFails(o: Options, gap: Bytes, m: Markup, rest: Bytes,
                                        depth: nat, inDocument: bool, first: bool, soFar: seq<Node>)
    requires AllWhiteSpace(gap) && NotEnded(rest, Ending(m))
    requires m == UnknownMarkup ==> !(TWO_DASHES <= rest) && !(CDATA_MARK <= rest)
    ensures ParseSiblings(o, gap + (Header(m) + rest), depth, inDocument, first, soFar)
            == Siblings(soFar, AtNull(ErrorFor(Endless(gap, m, rest))))
  {
    hide ParseSiblings, Identify, FindTag, NotEnded, ParseLeaf;
    EndlessIdentified(o, gap, m, rest, first);
    KindFacts(m, []);
    NotEndedFails(rest, Ending(m));
    assert ParseLeaf(o, KindOfMarkup(m), rest) == LeafFail(ErrorFor(Endless(gap, m, rest))) by {
      EndlessLeaf(o, gap, m, rest);
    }
    SiblingsLeaf(o, gap + (Header(m) + rest), depth, inDocument, first, soFar, KindOfMarkup(m), rest);
  }

  lemma {:induction false} EndlessLeaf(o: Options, gap: Bytes, m: Markup, rest: Bytes)
    requires FindTag(rest, Ending(m)) == None
    ensures KindOfMarkup(m) != ElementKind
    ensures ParseLeaf(o, KindOfMarkup(m), rest) == LeafFail(ErrorFor(Endless(gap, m, rest)))
  {
    hide FindTag;
  }

  lemma {:induction false} EndlessIdentified(o: Options, gap: Bytes, m: Markup, body: Bytes, first: bool)
    requires AllWhiteSpace(gap) && (m == UnknownMarkup ==> !(TWO_DASHES <= body) && !(CDATA_MARK <= body))
    ensures var s := gap + (Header(m) + body);
            At(s, 0) != 0 && Identify(o, s, first) == Found(KindOfMarkup(m), body)
  {
    hide SkipSpace;
    var p := Header(m) + body;
    assert p[|Header(m)|..] == body && Header(m) <= p && p[0] == LT;
    SkipGap(gap, p);
    GapStart(gap, p);
    assert forall i | 0 <= i < |Header(m)| :: p[i] == Header(m)[i];
    match m
    case CommentMarkup => assert p[1] == 0x21;
    case DeclarationMarkup =>
    case CDataMarkup => assert p[1] == 0x21 && p[2] == 0x5b;
    case UnknownMarkup =>
      assert p[1] == 0x21;
      MarkBoth(TWO_DASHES, body);
      assert UNKNOWN_HEADER + TWO_DASHES == COMMENT_HEADER;
      MarkBoth(CDATA_MARK, body);
      assert UNKNOWN_HEADER + CDATA_MARK == CDATA_HEADER;
  }

  lemma {:induction false} LateFails(o: Options, gap: Bytes, raw: Bytes, rest: Bytes,
                                     depth: nat, inDocument: bool, first: bool, soFar: seq<Node>)
    requires MarkupOk(gap, DeclarationMarkup, raw) && !WellLocated(inDocument, soFar)
    ensures ParseSiblings(o, PutFlaw(Late(gap, raw, rest)), depth, inDocument, first, soFar)
            == Siblings(soFar, AtNull(ErrorParsingDeclaration))
  {
    hide ParseSiblings, Identify, ParseLeaf, MarkupOk, WellLocated, StrValue;
    var body := raw + (DECLARATION_END + rest);
    MarkupIdentified(o, gap, DeclarationMarkup, raw, rest, first);
    MarkupLeafRead(o, gap, DeclarationMarkup, raw, rest);
    SiblingsLeaf(o, gap + (DECLARATION_HEADER + body), depth, inDocument, first, soFar, DeclarationKind, body);
  }

  /** Text that is not blank is taken for text. */
  lemma {:induction false} WordsIdentified(o: Options, raw: Bytes, rest: Bytes, first: bool)
    requires 0 !in raw && LT !in raw && !AllWhiteSpace(raw)
    ensures At(raw + rest, 0) != 0 && Identify(o, raw + rest, first) == Found(TextKind(false), raw + rest)
  {
    SkipInText(raw, rest);
    assert (raw + rest)[0] == raw[0] && raw[0] in raw;
  }

  lemma {:induction false} TextFails(o: Options, raw: Bytes, rest: Bytes, bracket: bool,
                                     depth: nat, inDocument: bool, first: bool, soFar: seq<Node>)
    requires 0 !in raw && LT !in raw && !AllWhiteSpace(raw) && At(rest, 0) == 0
    ensures ParseSiblings(o, raw + ((if bracket then [LT] else []) + rest), depth, inDocument, first, soFar)
            == Siblings(soFar, AtNull(if bracket then ErrorParsing else ErrorParsingText))
  {
    hide ParseSiblings, Identify, FindTag, StrValue;
    var tail := (if bracket then [LT] else []) + rest;
    var s := raw + tail;
    WordsIdentified(o, raw, tail, first);
    if bracket {
      FindByteAfter(raw, LT, rest);
      assert raw + [LT] + rest == s && At(s, |raw| + 1) == At(rest, 0);
    } else {
      assert tail == rest;
      NoBracket(raw, rest);
    }
    SiblingsLeaf(o, s, depth, inDocument, first, soFar, TextKind(false), s);
  }

  lemma {:induction false} NoBracket(raw: Bytes, rest: Bytes)
    requires LT !in raw && At(rest, 0) == 0
    ensures FindTag(raw + rest, [LT]) == None
  {
    if raw == [] {
      assert raw + rest == rest;
    } else {
      assert (raw + rest)[0] == raw[0] && (raw + rest)[1..] == raw[1..] + rest;
      NoBracket(raw[1..], rest);
    }
  }

  /** Only declarations have been read, and more may come. */
  ghost predicate LeadingIs(leading: bool, inDocument: bool, soFar: seq<Node>) {
    && NodesLead(soFar)
    && (leading <==> inDocument && forall i | 0 <= i < |soFar| :: soFar[i].Declaration?)
  }

  lemma {:induction false} LeadingLocated(leading: bool, inDocument: bool, soFar: seq<Node>)
    requires LeadingIs(leading, inDocument, soFar)
    ensures leading <==> WellLocated(inDocument, soFar)
  {
  }

  lemma {:induction false} NoNameStart(space: Bytes, slash: bool, rest: Bytes)
    requires AllWhiteSpace(space) && (!slash ==> At(rest, 0) != SLASH)
    requires !slash && space == [] ==> At(rest, 0) != 0x3f && At(rest, 0) != 0x21
    ensures var h := space + ((if slash then [SLASH] else []) + rest);
            && At(h, 0) != 0x3f && At(h, 0) != 0x21 && (At(h, 0) == SLASH <==> slash && space == [])
            && (At(h, 0) == 0 <==> space == [] && !slash && At(rest, 0) == 0)
  {
    var p := (if slash then [SLASH] else []) + rest;
    if space == [] {
      assert space + p == p;
      if !slash {
        assert p == rest;
      }
    }
  }

  lemma {:induction false} FlawBegins(o: Options, x: Flaw, depth: nat, leading: bool)
    requires FlawOk(o, x, depth, leading)
    ensures Begins(PutFlaw(x), StartOfFlaw(x))
  {
    hide TagOk, PutTag, PutOpen, PutAll, NotEnded, AllOk;
    match x
    case NoName(gap, space, slash, rest) =>
      var h := space + ((if slash then [SLASH] else []) + rest);
      NoNameStart(space, slash, rest);
      if StartOfFlaw(x).TagStart? {
        BracketBegins(gap, h);
      }
    case BadEnd(tag, rest) => OpenBegins(tag, rest);
    case BadAttribute(tag, rest) => OpenBegins(tag, rest);
    case Twice(tag, again, rest) => OpenBegins(tag, PutAttribute(again, rest));
    case Late(gap, raw, rest) => MarkupBegins(gap, DeclarationMarkup, raw + (DECLARATION_END + rest));
    case Endless(gap, m, rest) => MarkupBegins(gap, m, rest);
    case EndlessText(raw, rest) =>
    case LoneBracket(raw, rest) =>
    case _ => TagBegins(x.tag, TAG_END, InnerOf(x));
  }

  lemma {:induction false} BracketBegins(gap: Bytes, h: Bytes)
    requires At(h, 0) != 0
    ensures Begins(gap + ([LT] + h), TagStart(gap, At(h, 0) == SLASH))
  {
    if gap == [] {
      var p := [LT] + h;
      assert gap + p == p && At(p, 1) == At(h, 0);
    }
  }

  lemma {:induction false} OpenBegins(t: Tag, rest: Bytes)
    requires TagOk(t)
    ensures Begins(t.gap + ([LT] + PutOpen(t, rest)), StartOfTag(t))
  {
    hide PutOpen;
    OpenStart(t, rest);
    BracketBegins(t.gap, PutOpen(t, rest));
  }

  lemma {:induction false} MarkupBegins(gap: Bytes, m: Markup, rest: Bytes)
    ensures Begins(gap + (Header(m) + rest), TagStart(gap, false))
  {
    if gap == [] {
      var p := Header(m) + rest;
      assert gap + p == p && p[0] == LT && p[1] == Header(m)[1];
    }
  }

  lemma {:induction false} NotSlashed(o: Options, gap: Bytes, first: bool)
    ensures TagPlaced(o, TagStart(gap, false), first)
  {
  }

  /** A flaw is reported as its error. */
  lemma {:induction false} FlawFails(o: Options, x: Flaw, depth: nat, inDocument: bool, first: bool, soFar: seq<Node>,
                                     leading: bool)
    requires FlawOk(o, x, depth, leading) && TagPlaced(o, StartOfFlaw(x), first) && depth < MAX_ELEMENT_DEPTH
    requires LeadingIs(leading, inDocument, soFar)
    ensures ParseSiblings(o, PutFlaw(x), depth, inDocument, first, soFar) == Siblings(soFar, AtNull(ErrorFor(x)))
    decreases x, 1
  {
    hide ParseSiblings, TagPlaced, TagOk, PutOpen, PutTag, ParseElement, NotEnded, LeadingIs, IsAttribute, After;
    match x
    case NoName(gap, space, slash, rest) =>
      var h := space + ((if slash then [SLASH] else []) + rest);
      NoNameHead(o, space, slash, rest);
      HeadFails(o, h, depth, Success);
      NoNameStart(space, slash, rest);
      NotSlashed(o, gap, first);
      TagFails(o, gap, h, depth, inDocument, first, soFar, ErrorParsing);
    case BadEnd(tag, rest) =>
      BadHead(o, tag, rest);
      OpenFails(o, tag, rest, depth, inDocument, first, soFar, ErrorParsingElement);
    case BadAttribute(tag, rest) =>
      NotAnAttribute(o, rest);
      BadHead(o, tag, rest);
      OpenFails(o, tag, rest, depth, inDocument, first, soFar, ErrorParsingAttribute);
    case Twice(tag, again, rest) =>
      TwiceHead(o, tag, again, rest);
      OpenFails(o, tag, PutAttribute(again, rest), depth, inDocument, first, soFar, ErrorParsingAttribute);
    case Late(gap, raw, rest) =>
      LeadingLocated(leading, inDocument, soFar);
      LateFails(o, gap, raw, rest, depth, inDocument, first, soFar);
    case Endless(gap, m, rest) => EndlessFails(o, gap, m, rest, depth, inDocument, first, soFar);
    case EndlessText(raw, rest) =>
      assert [] + rest == rest;
      TextFails(o, raw, rest, false, depth, inDocument, first, soFar);
    case LoneBracket(raw, rest) => TextFails(o, raw, rest, true, depth, inDocument, first, soFar);
    case _ => NestedFails(o, x, depth, inDocument, first, soFar, leading);
  }

  lemma {:induction false} OpenFails(o: Options, t: Tag, rest: Bytes, depth: nat, inDocument: bool, first: bool,
                                     soFar: seq<Node>, error: XmlError)
    requires After(t, rest) && TagPlaced(o, StartOfTag(t), first)
    requires ParseHead(o, PutOpen(t, rest)) == HeadFail(error) && error != Success
    ensures ParseSiblings(o, t.gap + ([LT] + PutOpen(t, rest)), depth, inDocument, first, soFar)
            == Siblings(soFar, AtNull(error))
  {
    hide ParseSiblings, TagOk, PutOpen, ParseElement, ParseHead;
    OpenStart(t, rest);
    TagSpaces(t);
    HeadFails(o, PutOpen(t, rest), depth, error);
    TagFails(o, t.gap, PutOpen(t, rest), depth, inDocument, first, soFar, error);
  }

  /** The flaws that show after a start tag. */
  lemma {:induction false} NestedFails(o: Options, x: Flaw, depth: nat, inDocument: bool, first: bool,
                                       soFar: seq<Node>, leading: bool)
    requires x.Unclosed? || x.Unfinished? || x.Mismatched? || x.TooDeep? || x.Within?
    requires FlawOk(o, x, depth, leading) && TagPlaced(o, StartOfFlaw(x), first) && depth < MAX_ELEMENT_DEPTH
    ensures ParseSiblings(o, PutFlaw(x), depth, inDocument, first, soFar) == Siblings(soFar, AtNull(ErrorFor(x)))
    decreases x, 0
  {
    hide ParseSiblings, TagPlaced, TagOk, PutTag, ParseElement, PutHead, Mismatch, PutAll, AllOk, Nest, Begins;
    var inner := InnerOf(x);
    InnerError(o, x, depth, leading);
    HeadOfTag(x.tag, TAG_END, inner);
    InnerFails(o, x.tag, inner, depth);
    TagFails(o, x.tag.gap, PutHead(x.tag, TAG_END, inner), depth, inDocument, first, soFar, ErrorFor(x));
  }

  /** What follows the start tag of such a flaw. */
  function InnerOf(x: Flaw): Bytes
    requires x.Unclosed? || x.Unfinished? || x.Mismatched? || x.TooDeep? || x.Within?
  {
    match x
    case Unclosed(_, rest) => rest
    case Unfinished(_, kids, space, rest) => PutAll(kids, space + rest)
    case Mismatched(_, kids, endTag, rest) => PutAll(kids, PutTag(endTag, TAG_END, rest))
    case TooDeep(_, rest) => rest
    case Within(_, before, inner) => PutAll(before, PutFlaw(inner))
  }

  lemma {:induction false} UnfinishedStop(o: Options, tag: Tag, kids: seq<Raw>, space: Bytes, rest: Bytes, depth: nat)
    requires KidsOk(o, tag, kids, depth, NoStart) && AllWhiteSpace(space) && At(rest, 0) == 0
    ensures ParseSiblings(o, PutAll(kids, space + rest), depth + 1, false, true, []).stop == AtNull(Success)
  {
    hide ParseSiblings, TagOk, AllOk, Nest, SkipSpace, PutAll;
    KidsMayNot(kids);
    AllRead(o, kids, NoStart, space + rest, depth + 1, false, true, []);
    SkipGap(space, rest);
    SiblingsEnd(o, space + rest, depth + 1, false, kids == [], [] + MeaningAll(o, kids));
  }

  lemma {:induction false} MismatchedStop(o: Options, tag: Tag, kids: seq<Raw>, endTag: Tag, rest: Bytes, depth: nat)
    requires KidsOk(o, tag, kids, depth, StartOfTag(endTag)) && TagOk(endTag) && endTag.slash
    ensures var inner := PutAll(kids, PutTag(endTag, TAG_END, rest));
            && At(inner, 0) != 0
            && ParseSiblings(o, inner, depth + 1, false, true, []).stop == AtEndTag(rest, endTag.name)
  {
    hide ParseSiblings, TagOk, PutTag, AllOk, Nest, Begins, PutAll;
    KidsMayNot(kids);
    InnerStarts(o, kids, endTag, rest);
    TagBegins(endTag, TAG_END, rest);
    AllRead(o, kids, StartOfTag(endTag), PutTag(endTag, TAG_END, rest), depth + 1, false, true, []);
    LastPlaced(o, kids, true, StartOfTag(endTag));
    EndTagRead(o, endTag, rest, depth + 1, false, kids == [], [] + MeaningAll(o, kids));
  }

  lemma {:induction false} InnerError(o: Options, x: Flaw, depth: nat, leading: bool)
    requires x.Unclosed? || x.Unfinished? || x.Mismatched? || x.TooDeep? || x.Within?
    requires FlawOk(o, x, depth, leading)
    ensures x.Unclosed? <==> At(InnerOf(x), 0) == 0
    ensures x.TooDeep? ==> depth + 1 == MAX_ELEMENT_DEPTH
    ensures x.Unfinished? || x.Mismatched? || x.Within? ==>
              && depth + 1 < MAX_ELEMENT_DEPTH
              && var r := ParseSiblings(o, InnerOf(x), depth + 1, false, true, []);
                 match x {
                   case Unfinished(_, _, _, _) => r.stop == AtNull(Success)
                   case Within(_, _, inner) => r.stop == AtNull(ErrorFor(inner)) && ErrorFor(inner) != Success
                   case _ => r.stop.AtEndTag? && r.stop.name != x.tag.name
                 }
    decreases x, 0, 0
  {
    hide ParseSiblings, TagOk, PutTag, AllOk, Nest, Begins, SkipSpace, PutAll, PutFlaw;
    match x
    case Unclosed(_, _) =>
    case TooDeep(_, _) =>
    case Unfinished(tag, kids, space, rest) => UnfinishedStop(o, tag, kids, space, rest, depth);
    case Mismatched(tag, kids, endTag, rest) => MismatchedStop(o, tag, kids, endTag, rest, depth);
    case Within(tag, before, inner) => WithinStop(o, tag, before, inner, depth);
  }

  lemma {:induction false} WithinStop(o: Options, tag: Tag, before: seq<Raw>, inner: Flaw, depth: nat)
    requires KidsOk(o, tag, before, depth, StartOfFlaw(inner)) && FlawOk(o, inner, depth + 1, false)
    ensures var s := PutAll(before, PutFlaw(inner));
            && At(s, 0) != 0 && ErrorFor(inner) != Success
            && ParseSiblings(o, s, depth + 1, false, true, []).stop == AtNull(ErrorFor(inner))
    decreases inner, 2
  {
    hide ParseSiblings, TagOk, AllOk, Nest, Begins, PutAll, PutFlaw, FlawOk;
    KidsMayNot(before);
    FlawBegins(o, inner, depth + 1, false);
    AllRead(o, before, StartOfFlaw(inner), PutFlaw(inner), depth + 1, false, true, []);
    LastPlaced(o, before, true, StartOfFlaw(inner));
    InDocumentNot(o, before);
    FlawFails(o, inner, depth + 1, false, before == [], [] + MeaningAll(o, before), false);
    FlawIsError(inner);
    WithinStarts(o, before, inner, depth + 1);
  }

  lemma {:induction false} InDocumentNot(o: Options, before: seq<Raw>)
    requires forall i | 0 <= i < |before| :: !IsDeclaration(before[i])
    ensures LeadingIs(false, false, [] + MeaningAll(o, before))
  {
    forall i | 0 <= i < |before| ensures !MeaningAll(o, before)[i].Declaration? {
      MeaningOf(o, before, i);
    }
  }

  lemma {:induction false} MeaningOf(o: Options, rs: seq<Raw>, i: nat)
    requires i < |rs|
    ensures MeaningAll(o, rs)[i].Declaration? <==> IsDeclaration(rs[i])
  {
    if i == 0 {
      OneMeaningOf(o, rs[0]);
    } else {
      MeaningOf(o, rs[1..], i - 1);
    }
  }

  lemma {:induction false} OneMeaningOf(o: Options, r: Raw)
    ensures Meaning(o, r).Declaration? <==> IsDeclaration(r)
  {
    hide StrValue;
  }

  lemma {:induction false} FlawStarts(o: Options, x: Flaw, depth: nat, leading: bool)
    requires FlawOk(o, x, depth, leading)
    ensures At(PutFlaw(x), 0) != 0
  {
    hide TagOk, PutTag, PutOpen, PutAll, NotEnded, AllOk;
    match x
    case NoName(gap, space, slash, rest) => GapStart(gap, [LT] + (space + ((if slash then [SLASH] else []) + rest)));
    case BadEnd(tag, rest) => OpenGap(tag, rest);
    case BadAttribute(tag, rest) => OpenGap(tag, rest);
    case Twice(tag, again, rest) => OpenGap(tag, PutAttribute(again, rest));
    case Late(gap, raw, rest) => GapStart(gap, DECLARATION_HEADER + (raw + (DECLARATION_END + rest)));
    case Endless(gap, m, rest) => GapStart(gap, Header(m) + rest);
    case EndlessText(raw, rest) => assert (raw + rest)[0] == raw[0] && raw[0] in raw;
    case LoneBracket(raw, rest) => assert (raw + ([LT] + rest))[0] == raw[0] && raw[0] in raw;
    case _ => TagBegins(x.tag, TAG_END, InnerOf(x));
  }

  lemma {:induction false} OpenGap(t: Tag, rest: Bytes)
    requires TagOk(t)
    ensures At(t.gap + ([LT] + PutOpen(t, rest)), 0) != 0
  {
    GapStart(t.gap, [LT] + PutOpen(t, rest));
  }

  lemma {:induction false} WithinStarts(o: Options, before: seq<Raw>, inner: Flaw, depth: nat)
    requires AllOk(o, before, true, StartOfFlaw(inner)) && FlawOk(o, inner, depth, false)
    ensures At(PutAll(before, PutFlaw(inner)), 0) != 0
  {
    hide RawOk, FlawOk, PutFlaw;
    if before == [] {
      FlawStarts(o, inner, depth, false);
    } else if before[0].RawText? {
      var raw, more := before[0].raw, PutAll(before[1..], PutFlaw(inner));
      assert (raw + more)[0] == raw[0] && raw[0] in raw;
    } else {
      PutBegins(o, before[0], PutAll(before[1..], PutFlaw(inner)));
    }
  }

  /** A document with a flaw is refused with the error of the flaw. */
  lemma {:induction false} Refused(o: Options, text: Bytes, d: FlawedDocument)
    requires Refutes(o, text, d)
    ensures ParseDocument(o, text) == Document(ErrorFor(d.flaw), [], d.bom)
  {
    hide ParseSiblings, AllOk, PutAll, PutFlaw, SkipSpace, Body, HasBom, Nest, NestAll, FlawOk, Begins;
    var body, rest := FlawedBody(d), PutFlaw(d.flaw);
    BodyFound(RawDocument(d.space, d.bom, [], Blank([])), body);
    var nodes := MeaningAll(o, d.before);
    var leading := forall i | 0 <= i < |d.before| :: IsDeclaration(d.before[i]);
    FlawBegins(o, d.flaw, 1, leading);
    AllRead(o, d.before, StartOfFlaw(d.flaw), rest, 1, true, true, []);
    LastPlaced(o, d.before, true, StartOfFlaw(d.flaw));
    assert [] + nodes == nodes;
    LeadingNodes(o, d.before);
    FlawFails(o, d.flaw, 1, true, d.before == [], nodes, leading);
    FlawIsError(d.flaw);
  }

  lemma {:induction false} LeadingNodes(o: Options, before: seq<Raw>)
    requires DeclarationsLead(before)
    ensures LeadingIs(forall i | 0 <= i < |before| :: IsDeclaration(before[i]), true, MeaningAll(o, before))
  {
    var nodes := MeaningAll(o, before);
    forall i | 0 <= i < |before| ensures nodes[i].Declaration? <==> IsDeclaration(before[i]) {
      MeaningOf(o, before, i);
    }
    hide MeaningAll;
  }

  // ---- Each refusal has a flaw -------------------------------------------------------------------

  /** The siblings are well formed up to a flaw. */
  ghost predicate Broken(o: Options, s: Bytes, depth: nat, first: bool, leading: bool, before: seq<Raw>, x: Flaw) {
    && s == PutAll(before, PutFlaw(x)) && AllOk(o, before, first, StartOfFlaw(x))
    && (forall i | 0 <= i < |before| :: depth + Nest(before[i]) < MAX_ELEMENT_DEPTH)
    && FlawOk(o, x, depth, leading && forall i | 0 <= i < |before| :: IsDeclaration(before[i]))
  }

  lemma {:induction false} BrokenHere(o: Options, s: Bytes, depth: nat, first: bool, leading: bool, x: Flaw)
    requires s == PutFlaw(x) && FlawOk(o, x, depth, leading) && TagPlaced(o, StartOfFlaw(x), first)
    ensures Broken(o, s, depth, first, leading, [], x)
  {
    hide PutFlaw, FlawOk;
  }

  lemma {:induction false} OneMoreBroken(o: Options, s: Bytes, depth: nat, first: bool, leading: bool, r: Raw,
                                         after: Bytes, before: seq<Raw>, x: Flaw)
    requires s == Put(r, after)
    requires Broken(o, after, depth, false, leading && IsDeclaration(r), before, x)
    requires RawOk(o, r) && Placed(o, r, first, StartOfAll(before, StartOfFlaw(x)))
    requires depth + Nest(r) < MAX_ELEMENT_DEPTH
    ensures Broken(o, s, depth, first, leading, [r] + before, x)
  {
    hide RawOk, Put, Nest, PutFlaw, Placed, FlawOk, Begins;
    var all := [r] + before;
    assert all[1..] == before && all[0] == r;
    assert forall j | 1 <= j < |all| :: all[j] == before[j - 1];
    assert (leading && forall i | 0 <= i < |all| :: IsDeclaration(all[i]))
        == (leading && IsDeclaration(r) && forall i | 0 <= i < |before| :: IsDeclaration(before[i])) by {
      if forall i | 0 <= i < |all| :: IsDeclaration(all[i]) {
        assert forall i | 0 <= i < |before| :: before[i] == all[i + 1];
      }
    }
  }

  /** What follows begins with a tag, after text. */
  lemma {:induction false} TagFollowsFlaw(o: Options, s: Bytes, depth: nat, leading: bool, before: seq<Raw>, x: Flaw)
    requires Broken(o, s, depth, false, leading, before, x) && At(s, 0) == LT && At(s, 1) != 0
    ensures var next := StartOfAll(before, StartOfFlaw(x));
            next.TagStart? && next.gap == [] && (next.slashed <==> At(s, 1) == SLASH)
  {
    hide RawOk, Put, Nest, PutFlaw, FlawOk, TextPlaced;
    if before == [] {
      FlawBegins(o, x, depth, leading);
      FlawStart(o, x, depth, leading);
    } else {
      var more := PutAll(before[1..], PutFlaw(x));
      if before[0].RawText? {
        WordsStart(o, before[0], false, StartOfAll(before[1..], StartOfFlaw(x)), more);
      } else {
        PutBegins(o, before[0], more);
        PutGap(o, before[0], more);
      }
    }
  }

  lemma {:induction false} NoTagThere(raw: Bytes, rest: Bytes)
    requires raw != [] && LT !in raw
    ensures At(raw + rest, 0) != LT
  {
    assert (raw + rest)[0] == raw[0] && raw[0] in raw;
  }

  lemma {:induction false} FlawStart(o: Options, x: Flaw, depth: nat, leading: bool)
    requires FlawOk(o, x, depth, leading) && At(PutFlaw(x), 0) == LT && At(PutFlaw(x), 1) != 0
    ensures StartOfFlaw(x).TagStart? && StartOfFlaw(x).gap == []
  {
    hide TagOk, PutTag, PutOpen, PutAll, NotEnded, AllOk;
    match x
    case NoName(gap, space, slash, rest) =>
      var h := space + ((if slash then [SLASH] else []) + rest);
      NoNameStart(space, slash, rest);
      GapStart(gap, [LT] + h);
      if gap == [] {
        assert gap + ([LT] + h) == [LT] + h && At([LT] + h, 1) == At(h, 0);
      }
    case BadEnd(tag, rest) => TagSpaces(tag); GapStart(tag.gap, [LT] + PutOpen(tag, rest));
    case BadAttribute(tag, rest) => TagSpaces(tag); GapStart(tag.gap, [LT] + PutOpen(tag, rest));
    case Twice(tag, again, rest) => TagSpaces(tag); GapStart(tag.gap, [LT] + PutOpen(tag, PutAttribute(again, rest)));
    case Late(gap, raw, rest) => GapStart(gap, DECLARATION_HEADER + (raw + (DECLARATION_END + rest)));
    case Endless(gap, m, rest) => GapStart(gap, Header(m) + rest);
    case EndlessText(raw, rest) => NoTagThere(raw, rest);
    case LoneBracket(raw, rest) => NoTagThere(raw, [LT] + rest);
    case _ => TagGap(x.tag, TAG_END, InnerOf(x));
  }

  // ---- Flaws of tags

  /** Why the attributes of a tag could not be read. */
  lemma {:induction false} AttributesFlawed(o: Options, s: Bytes, soFar: seq<Attribute>)
    returns (attributes: seq<RawAttribute>, end: Bytes, rest: Bytes)
    requires ParseAttributes(o, s, soFar).AttributesFail?
    ensures s == PutAttributes(attributes, end + rest) && AllWhiteSpace(end) && !IsWhiteSpace(At(rest, 0))
    ensures NewNames(soFar, attributes) && (forall i | 0 <= i < |attributes| :: AttributeOk(attributes[i]))
    ensures forall i, j | 0 <= i < j < |attributes| :: attributes[i].name != attributes[j].name
    ensures var all := soFar + AttributesMeaning(o, attributes); var error := ParseAttributes(o, s, soFar).error;
            if IsNameStartChar(At(rest, 0)) then
              && error == ErrorParsingAttribute
              && (ParseAttribute(o, rest).AttributeDone? ==> HasAttribute(all, ParseAttribute(o, rest).attribute.name))
            else
              && error == ErrorParsingElement && At(rest, 0) != GT && !(At(rest, 0) == SLASH && At(rest, 1) == GT)
    decreases |s|
  {
    hide SkipSpace, ParseAttribute, ParseAttributes, PutAttribute, AttributeMeaning, AttributeOk, HasAttribute;
    var p := SkipSpace(s);
    AttributesStep(o, s, soFar, p);
    SpaceSkipped(s);
    end := SpaceSplit(s);
    attributes, rest := [], p;
    assert soFar + [] == soFar;
    if IsNameStartChar(At(p, 0)) && ParseAttribute(o, p).AttributeDone? {
      var x := ParseAttribute(o, p);
      if !HasAttribute(soFar, x.attribute.name) {
        var a := AttributeDerived(o, p);
        var b := a.(gap := end);
        GapGiven(o, a, end, x.rest);
        var more;
        more, end, rest := AttributesFlawed(o, x.rest, soFar + [x.attribute]);
        attributes := [b] + more;
        MeaningName(o, b);
        NoAttribute(soFar, x.attribute.name);
        NewNamesSplit(soFar, x.attribute, b, more);
        assert attributes[0] == b && attributes[1..] == more;
        assert (soFar + [x.attribute]) + AttributesMeaning(o, more) == soFar + AttributesMeaning(o, attributes);
        assert forall j | 1 <= j < |attributes| :: attributes[j] == more[j - 1];
      }
    }
  }

  lemma {:induction false} SpaceSkipped(s: Bytes)
    ensures !IsWhiteSpace(At(SkipSpace(s), 0))
  {
  }

  /** A tag that fails before its end has a flaw. */
  lemma {:induction false} HeadFlawed(o: Options, gap: Bytes, h: Bytes, depth: nat, leading: bool) returns (x: Flaw)
    requires AllWhiteSpace(gap) && At(h, 0) != 0x3f && At(h, 0) != 0x21 && ParseHead(o, h).HeadFail?
    ensures FlawOk(o, x, depth, leading) && PutFlaw(x) == gap + ([LT] + h)
    ensures ErrorFor(x) == OrParsingError(ParseHead(o, h).error)
    ensures StartOfFlaw(x) == if h == [] || h[0] == 0 then NoStart else TagStart(gap, h[0] == SLASH)
  {
    hide SkipSpace, ParseAttributes, LeadingName, PutAttributes, AttributeOk, FlawOk, PutFlaw, ParseAttribute, NewNames;
    var space := SpaceSplit(h);
    var p := SkipSpace(h);
    SpaceSkipped(h);
    var slash := At(p, 0) == SLASH;
    var q := if slash then p[1..] else p;
    var name := LeadingName(q);
    assert p == (if slash then [SLASH] else []) + q;
    if name == [] {
      x := NoName(gap, space, slash, q);
      NoLeadingName(q);
      NoNameOk(o, gap, space, slash, q, depth, leading);
    } else {
      var u := q[|name|..];
      assert q == name + u;
      var attributes, end, rest := AttributesFlawed(o, u, []);
      x := TagFlawed(o, gap, space, slash, q, name, attributes, end, rest, depth, leading);
    }
  }

  lemma {:induction false} NoLeadingName(q: Bytes)
    requires LeadingName(q) == []
    ensures !IsNameStartChar(At(q, 0))
  {
  }

  lemma {:induction false} NoNameOk(o: Options, gap: Bytes, space: Bytes, slash: bool, q: Bytes, depth: nat,
                                    leading: bool)
    requires AllWhiteSpace(gap) && AllWhiteSpace(space) && !IsNameStartChar(At(q, 0))
    requires !slash ==> !IsWhiteSpace(At(q, 0)) && At(q, 0) != SLASH
    requires var h := space + ((if slash then [SLASH] else []) + q); At(h, 0) != 0x3f && At(h, 0) != 0x21
    ensures var x, h := NoName(gap, space, slash, q), space + ((if slash then [SLASH] else []) + q);
            && FlawOk(o, x, depth, leading) && PutFlaw(x) == gap + ([LT] + h)
            && StartOfFlaw(x) == if h == [] || h[0] == 0 then NoStart else TagStart(gap, h[0] == SLASH)
  {
    var h := space + ((if slash then [SLASH] else []) + q);
    if !slash && space == [] {
      assert h == q;
    }
    NoNameStart(space, slash, q);
  }

  /** The pieces of a tag make one, up to the end of its attributes. */
  lemma {:induction false} OpenIs(gap: Bytes, space: Bytes, slash: bool, q: Bytes, name: Bytes,
                                  attributes: seq<RawAttribute>, end: Bytes, rest: Bytes)
    requires AllWhiteSpace(gap) && AllWhiteSpace(space) && AllWhiteSpace(end) && !IsWhiteSpace(At(rest, 0))
    requires name == LeadingName(q) != [] && q[|name|..] == PutAttributes(attributes, end + rest)
    requires forall i | 0 <= i < |attributes| :: AttributeOk(attributes[i])
    requires forall i, j | 0 <= i < j < |attributes| :: attributes[i].name != attributes[j].name
    ensures var t := Tag(gap, space, slash, name, attributes, end);
            && TagOk(t) && After(t, rest) && PutOpen(t, rest) == space + ((if slash then [SLASH] else []) + q)
  {
    hide LeadingName, PutAttributes, AttributeOk;
    FirstGap(q, name, attributes, end + rest);
    assert q == name + q[|name|..];
    NothingAfterName(q, name, attributes, end + rest);
  }

  lemma {:induction false} TagFlawed(o: Options, gap: Bytes, space: Bytes, slash: bool, q: Bytes, name: Bytes,
                                     attributes: seq<RawAttribute>, end: Bytes, rest: Bytes, depth: nat, leading: bool)
    returns (x: Flaw)
    requires AllWhiteSpace(gap) && AllWhiteSpace(space) && AllWhiteSpace(end) && !IsWhiteSpace(At(rest, 0))
    requires name == LeadingName(q) != [] && q[|name|..] == PutAttributes(attributes, end + rest)
    requires forall i | 0 <= i < |attributes| :: AttributeOk(attributes[i])
    requires forall i, j | 0 <= i < j < |attributes| :: attributes[i].name != attributes[j].name
    requires var all := [] + AttributesMeaning(o, attributes);
             if IsNameStartChar(At(rest, 0)) then
               ParseAttribute(o, rest).AttributeDone? ==> HasAttribute(all, ParseAttribute(o, rest).attribute.name)
             else At(rest, 0) != GT && !(At(rest, 0) == SLASH && At(rest, 1) == GT)
    ensures var h := space + ((if slash then [SLASH] else []) + q);
            && FlawOk(o, x, depth, leading) && PutFlaw(x) == gap + ([LT] + h) && h != [] && h[0] != 0
            && StartOfFlaw(x) == TagStart(gap, h[0] == SLASH)
    ensures ErrorFor(x) == if IsNameStartChar(At(rest, 0)) then ErrorParsingAttribute else ErrorParsingElement
  {
    hide ParseAttribute, LeadingName, PutAttributes, AttributeOk, HasAttribute, PutAttribute;
    hide PutOpen, After, IsAttribute;
    var t := Tag(gap, space, slash, name, attributes, end);
    OpenIs(gap, space, slash, q, name, attributes, end, rest);
    OpenStart(t, rest);
    if !IsNameStartChar(At(rest, 0)) {
      x := BadEnd(t, rest);
    } else if ParseAttribute(o, rest) == AttributeFail {
      x := BadAttribute(t, rest);
      AttributeNot(o, rest);
    } else {
      var a := AttributeDerived(o, rest);
      x := Twice(t, a, ParseAttribute(o, rest).rest);
      MeaningName(o, a);
      assert [] + AttributesMeaning(o, attributes) == AttributesMeaning(o, attributes);
      MeaningHas(o, attributes, a.name);
    }
  }

  lemma {:induction false} NothingAfterName(q: Bytes, name: Bytes, attributes: seq<RawAttribute>, rest: Bytes)
    requires name == LeadingName(q) != [] && q[|name|..] == PutAttributes(attributes, rest)
    ensures attributes == [] ==> !IsNameChar(At(rest, 0))
  {
    assert name == NameChars(q);
    assert At(q[|name|..], 0) == At(q, |name|);
  }

  lemma {:induction false} AttributeNot(o: Options, s: Bytes)
    requires ParseAttribute(o, s) == AttributeFail
    ensures !IsAttribute(s)
  {
    hide ParseAttribute;
    forall a, rest | AttributeOk(a) ensures s != PutAttribute(a, rest) {
      AttributeRead(o, a, rest);
    }
  }

  // ---- Flaws of elements and leaves

  /** Why an element is refused. */
  ghost predicate ElementBad(e: ElementResult) {
    e.ElementFail? || (e.closing != ClosingTag && e.node.Element? && Mismatch(e))
  }

  function ElementError(e: ElementResult): XmlError {
    if e.ElementFail? then OrParsingError(e.error) else ErrorMismatchedElement
  }

  lemma {:induction false} ElementFlawed(o: Options, s: Bytes, depth: nat, first: bool, leading: bool) returns (x: Flaw)
    requires depth < MAX_ELEMENT_DEPTH && Identify(o, s, first).Found? && Identify(o, s, first).kind == ElementKind
    requires ElementBad(ParseElement(o, Identify(o, s, first).rest, depth))
    ensures Broken(o, s, depth, first, leading, [], x)
    ensures ErrorFor(x) == ElementError(ParseElement(o, Identify(o, s, first).rest, depth))
    decreases |s|, 0
  {
    var gap := TagStarts(o, s, first);
    var h := Identify(o, s, first).rest;
    NotMarkup(o, s, first);
    hide Identify, ParseHead, ParseSiblings, PutHead, TagOk, PutTag, Broken, FlawOk, PutFlaw;
    if ParseHead(o, h).HeadFail? {
      x := HeadFlawed(o, gap, h, depth, leading);
    } else {
      var t0, close := HeadDerived(o, h);
      var t := t0.(gap := gap);
      GapGivenTag(t0, gap, close, ParseHead(o, h).rest);
      HeadOfTag(t, close, ParseHead(o, h).rest);
      x := OpenFlawed(o, t, ParseHead(o, h).rest, depth, leading);
      assert ParseElement(o, h, depth) == ParseElement(o, PutHead(t, TAG_END, ParseHead(o, h).rest), depth);
    }
    BrokenHere(o, s, depth, first, leading, x);
  }

  lemma {:induction false} HeadersAre(p: Bytes)
    requires At(p, 0) == LT
    ensures DECLARATION_HEADER <= p <==> At(p, 1) == 0x3f
    ensures UNKNOWN_HEADER <= p <==> At(p, 1) == 0x21
  {
  }

  lemma {:induction false} NotMarkup(o: Options, s: Bytes, first: bool)
    requires Identify(o, s, first).Found? && Identify(o, s, first).kind == ElementKind
    ensures var h := Identify(o, s, first).rest; At(h, 0) != 0x3f && At(h, 0) != 0x21 && |h| < |s|
  {
    var p := SkipSpace(s);
    hide SkipSpace;
    HeadersAre(p);
    assert At(p, 1) == At(p[1..], 0);
  }

  /** Why an element with this start tag is refused. */
  lemma {:induction false} OpenFlawed(o: Options, t: Tag, inner: Bytes, depth: nat, leading: bool) returns (x: Flaw)
    requires OpenTag(t) && depth < MAX_ELEMENT_DEPTH
    requires ElementBad(ParseElement(o, PutHead(t, TAG_END, inner), depth))
    ensures FlawOk(o, x, depth, leading) && PutFlaw(x) == PutTag(t, TAG_END, inner) && StartOfFlaw(x) == StartOfTag(t)
    ensures ErrorFor(x) == ElementError(ParseElement(o, PutHead(t, TAG_END, inner), depth))
    decreases |inner|, 3
  {
    hide ParseHead, ParseSiblings, PutHead, TagOk, PutTag, PutAll, AllOk, AttributesMeaning, Begins;
    HeadRead(o, t, TAG_END, inner);
    if At(inner, 0) == 0 {
      x := Unclosed(t, inner);
    } else if depth + 1 == MAX_ELEMENT_DEPTH {
      x := TooDeep(t, inner);
    } else {
      x := InnerFlawed(o, t, inner, depth, leading);
    }
  }

  lemma {:induction false} InnerFlawed(o: Options, t: Tag, inner: Bytes, depth: nat, leading: bool) returns (x: Flaw)
    requires OpenTag(t) && depth + 1 < MAX_ELEMENT_DEPTH && At(inner, 0) != 0
    requires var r := ParseSiblings(o, inner, depth + 1, false, true, []); r.stop.AtEndTag? ==> r.stop.name != t.name
    ensures FlawOk(o, x, depth, leading) && PutFlaw(x) == PutTag(t, TAG_END, inner) && StartOfFlaw(x) == StartOfTag(t)
    ensures var r := ParseSiblings(o, inner, depth + 1, false, true, []);
            ErrorFor(x) == match r.stop
                           case AtNull(error) => OrParsingError(error)
                           case AtEndTag(_, _) => ErrorMismatchedElement
    decreases |inner|, 2
  {
    hide ParseSiblings, TagOk, PutTag, PutAll, AllOk, Nest, PutFlaw;
    var r := ParseSiblings(o, inner, depth + 1, false, true, []);
    if Ended(r) {
      var kids, tail, rest := SiblingsDerived(o, inner, depth + 1, false, true, []);
      NoDeclarations(kids);
      x := match tail
        case Blank(space) => Unfinished(t, kids, space, rest)
        case Stray(endTag) => Mismatched(t, kids, endTag, rest);
      FlawTexts(x);
    } else {
      EmptyLeads();
      var before, y := SiblingsFlawed(o, inner, depth + 1, false, true, [], false);
      NoDeclarations(before);
      x := Within(t, before, y);
      FlawTexts(x);
      FlawIsError(y);
    }
  }

  lemma {:induction false} EmptyLeads()
    ensures LeadingIs(false, false, [])
  {
  }

  lemma {:induction false} NoDeclarations(rs: seq<Raw>)
    requires MayDeclare(false, [], rs)
    ensures forall i | 0 <= i < |rs| :: !IsDeclaration(rs[i])
  {
  }

  lemma {:induction false} FlawTexts(x: Flaw)
    requires x.Unclosed? || x.Unfinished? || x.Mismatched? || x.TooDeep? || x.Within?
    ensures PutFlaw(x) == PutTag(x.tag, TAG_END, InnerOf(x))
  {
  }

  /** A leaf that is refused has a flaw. */
  lemma {:induction false} LeafFlawed(o: Options, s: Bytes, depth: nat, first: bool, leading: bool) returns (x: Flaw)
    requires Identify(o, s, first).Found? && Identify(o, s, first).kind != ElementKind
    requires var f := Identify(o, s, first); ParseLeaf(o, f.kind, f.rest).LeafFail?
    ensures Broken(o, s, depth, first, leading, [], x)
    ensures var f := Identify(o, s, first); ErrorFor(x) == OrParsingError(ParseLeaf(o, f.kind, f.rest).error)
  {
    hide Identify, ParseLeaf, Broken, FlawOk, PutFlaw, TagPlaced;
    var f := Identify(o, s, first);
    if f.kind == TextKind(false) {
      x := WordsFlawed(o, s, depth, first, leading);
    } else {
      var gap := MarkupStarts(o, s, first);
      var m := MarkupOf(f.kind);
      x := Endless(gap, m, f.rest);
      MarkupFlawed(o, gap, f.kind, f.rest, depth, leading);
    }
    StartsPlaced(o, x, first);
    BrokenHere(o, s, depth, first, leading, x);
  }

  lemma {:induction false} StartsPlaced(o: Options, x: Flaw, first: bool)
    requires x.Endless? || x.Late? || x.EndlessText? || x.LoneBracket?
    ensures TagPlaced(o, StartOfFlaw(x), first)
  {
  }

  lemma {:induction false} MarkupFlawed(o: Options, gap: Bytes, kind: Kind, rest: Bytes, depth: nat, leading: bool)
    requires kind != ElementKind && kind != TextKind(false) && AllWhiteSpace(gap)
    requires kind == UnknownKind ==>
               !(COMMENT_HEADER <= UNKNOWN_HEADER + rest) && !(CDATA_HEADER <= UNKNOWN_HEADER + rest)
    requires ParseLeaf(o, kind, rest).LeafFail?
    ensures var x := Endless(gap, MarkupOf(kind), rest);
            && FlawOk(o, x, depth, leading) && PutFlaw(x) == gap + (Header(MarkupOf(kind)) + rest)
            && ErrorFor(x) == OrParsingError(ParseLeaf(o, kind, rest).error)
  {
    hide FindTag, StrValue, NotEnded;
    NotEndedFails(rest, EndOf(kind));
    MarkupOfFacts(kind, []);
    if kind == UnknownKind {
      UnknownMarks(rest, [], rest);
      assert rest + [] == rest;
    }
  }

  lemma {:induction false} WordsFlawed(o: Options, s: Bytes, depth: nat, first: bool, leading: bool) returns (x: Flaw)
    requires Identify(o, s, first) == Found(TextKind(false), s) && ParseLeaf(o, TextKind(false), s).LeafFail?
    ensures (x.EndlessText? || x.LoneBracket?) && FlawOk(o, x, depth, leading) && PutFlaw(x) == s
    ensures ErrorFor(x) == OrParsingError(ParseLeaf(o, TextKind(false), s).error)
  {
    hide FindTag, StrValue, Identify, AllWhiteSpace;
    match FindTag(s, [LT])
    case Some(i) =>
      TextStarts(o, s, first, i);
      x := LoneBracket(s[..i], s[i + 1..]);
      assert s[i..] == [LT] + s[i + 1..] && At(s[i + 1..], 0) == At(s, i + 1);
    case None =>
      var raw, rest := WordsSplit(s);
      x := EndlessText(raw, rest);
      NotBlankWords(o, s, first, raw, rest);
  }

  lemma {:induction false} WordsSplit(s: Bytes) returns (raw: Bytes, rest: Bytes)
    requires FindTag(s, [LT]) == None
    ensures s == raw + rest && 0 !in raw && LT !in raw && At(rest, 0) == 0
  {
    if At(s, 0) == 0 {
      raw, rest := [], s;
    } else {
      assert !([LT] <= s) && s[0] != LT;
      var more;
      more, rest := WordsSplit(s[1..]);
      raw := [s[0]] + more;
      assert s == [s[0]] + s[1..];
    }
  }

  lemma {:induction false} NotBlankWords(o: Options, s: Bytes, first: bool, raw: Bytes, rest: Bytes)
    requires Identify(o, s, first).Found? && s == raw + rest && At(rest, 0) == 0
    ensures !AllWhiteSpace(raw)
  {
    if AllWhiteSpace(raw) {
      SkipGap(raw, rest);
    }
  }

  lemma {:induction false} LateFlawed(o: Options, s: Bytes, depth: nat, first: bool, leading: bool) returns (x: Flaw)
    requires !leading && Identify(o, s, first).Found? && Identify(o, s, first).kind != ElementKind
    requires var f := Identify(o, s, first);
             ParseLeaf(o, f.kind, f.rest).Leaf? && ParseLeaf(o, f.kind, f.rest).node.Declaration?
    ensures Broken(o, s, depth, first, leading, [], x) && ErrorFor(x) == ErrorParsingDeclaration
  {
    var f := Identify(o, s, first);
    hide Identify, Broken, TagPlaced, StrValue, FindTag, OnlyAtEnd;
    DeclarationKindIs(o, f.kind, f.rest);
    hide ParseLeaf;
    var r := MarkupDerived(o, s, first);
    x := Late(r.gap, r.raw, ParseLeaf(o, f.kind, f.rest).rest);
    StartsPlaced(o, x, first);
    BrokenHere(o, s, depth, first, leading, x);
  }

  lemma {:induction false} DeclarationKindIs(o: Options, kind: Kind, s: Bytes)
    requires kind != ElementKind && ParseLeaf(o, kind, s).Leaf? && ParseLeaf(o, kind, s).node.Declaration?
    ensures kind == DeclarationKind
  {
    hide FindTag, StrValue;
  }

  /** A leaf before siblings with a flaw. */
  lemma {:induction false} LeafBroken(o: Options, s: Bytes, depth: nat, first: bool, leading: bool,
                                      more: seq<Raw>, x: Flaw)
    returns (r: Raw)
    requires Identify(o, s, first).Found? && Identify(o, s, first).kind != ElementKind && depth < MAX_ELEMENT_DEPTH
    requires var f := Identify(o, s, first); var leaf := ParseLeaf(o, f.kind, f.rest);
             leaf.Leaf? && Broken(o, leaf.rest, depth, false, leading && leaf.node.Declaration?, more, x)
    ensures var f := Identify(o, s, first); var leaf := ParseLeaf(o, f.kind, f.rest);
            && Broken(o, s, depth, first, leading, [r] + more, x) && Meaning(o, r) == leaf.node
            && (IsDeclaration(r) <==> leaf.node.Declaration?)
  {
    hide Identify, Broken, ParseLeaf, AllWhiteSpace, Meaning;
    var f := Identify(o, s, first);
    var leaf := ParseLeaf(o, f.kind, f.rest);
    if f.kind == TextKind(false) {
      var raw := WordsDerived(o, s, first);
      r := RawText(raw);
      TextIsText(o, raw);
      TagFollowsFlaw(o, leaf.rest, depth, false, more, x);
    } else {
      r := MarkupDerived(o, s, first);
    }
    OneMoreBroken(o, s, depth, first, leading, r, leaf.rest, more, x);
  }

  lemma {:induction false} LeadingMore(leading: bool, inDocument: bool, soFar: seq<Node>, node: Node)
    requires LeadingIs(leading, inDocument, soFar) && (node.Declaration? ==> leading)
    ensures LeadingIs(leading && node.Declaration?, inDocument, soFar + [node])
  {
    var more := soFar + [node];
    assert more[|soFar|] == node && forall i | 0 <= i < |soFar| :: more[i] == soFar[i];
  }

  /** Siblings that are refused are well formed up to a flaw, which explains the error. */
  lemma {:induction false} SiblingsFlawed(o: Options, s: Bytes, depth: nat, inDocument: bool, first: bool,
                                          soFar: seq<Node>, leading: bool)
    returns (before: seq<Raw>, x: Flaw)
    requires depth < MAX_ELEMENT_DEPTH && LeadingIs(leading, inDocument, soFar)
    requires !Ended(ParseSiblings(o, s, depth, inDocument, first, soFar))
    ensures Broken(o, s, depth, first, leading, before, x) && MayDeclare(inDocument, soFar, before)
    ensures ParseSiblings(o, s, depth, inDocument, first, soFar).stop == AtNull(ErrorFor(x))
    decreases |s|, 1
  {
    hide ParseSiblings, ParseElement, ParseLeaf, Identify, Broken, WellLocated, Mismatch, NodesLead, Meaning, LeadingIs;
    LeadingLocated(leading, inDocument, soFar);
    LeadingNodesLead(leading, inDocument, soFar);
    before := [];
    assert MayDeclare(inDocument, soFar, []);
    if At(s, 0) == 0 || Identify(o, s, first) == Nothing {
      SiblingsEnd(o, s, depth, inDocument, first, soFar);
      assert false;
    } else {
      var f := Identify(o, s, first);
      if f.kind == ElementKind {
        SiblingsElement(o, s, depth, inDocument, first, soFar, f.rest);
        var e := ParseElement(o, f.rest, depth);
        if ElementBad(e) {
          x := ElementFlawed(o, s, depth, first, leading);
        } else {
          var r := ElementDerived(o, s, depth, first);
          LeadingMore(leading, inDocument, soFar, e.node);
          var more;
          more, x := SiblingsFlawed(o, e.rest, depth, inDocument, false, soFar + [e.node], false);
          before := [r] + more;
          PlacedAnyway(o, r, first, StartOfAll(more, StartOfFlaw(x)));
          OneMoreBroken(o, s, depth, first, leading, r, e.rest, more, x);
          MayDeclareMore(o, inDocument, soFar, r, more);
        }
      } else {
        SiblingsLeaf(o, s, depth, inDocument, first, soFar, f.kind, f.rest);
        var leaf := ParseLeaf(o, f.kind, f.rest);
        if leaf.LeafFail? {
          x := LeafFlawed(o, s, depth, first, leading);
        } else if leaf.node.Declaration? && !leading {
          x := LateFlawed(o, s, depth, first, leading);
        } else {
          LeafShorter(o, s, first);
          LeadingMore(leading, inDocument, soFar, leaf.node);
          var more;
          more, x := SiblingsFlawed(o, leaf.rest, depth, inDocument, false, soFar + [leaf.node],
                                    leading && leaf.node.Declaration?);
          var r := LeafBroken(o, s, depth, first, leading, more, x);
          before := [r] + more;
          MayDeclareMore(o, inDocument, soFar, r, more);
        }
      }
    }
  }

  lemma {:induction false} LeadingNodesLead(leading: bool, inDocument: bool, soFar: seq<Node>)
    requires LeadingIs(leading, inDocument, soFar)
    ensures NodesLead(soFar)
  {
  }

  // ---- Documents -----------------------------------------------------------------------------------

  /** A text that is refused is empty, or well formed up to a flaw that explains the error. */
  lemma {:induction false} Explained(o: Options, text: Bytes) returns (d: FlawedDocument)
    requires ParseDocument(o, text).error != Success && ParseDocument(o, text).error != ErrorEmptyDocument
    ensures Refutes(o, text, d) && ParseDocument(o, text) == Document(ErrorFor(d.flaw), [], d.bom)
  {
    hide ParseSiblings, Body, HasBom, AllOk, PutAll, PutFlaw, Nest, NestAll, FlawOk;
    var space := BodySplit(text);
    DocumentLeads();
    var before, x := SiblingsFlawed(o, Body(text), 1, true, true, [], true);
    d := FlawedDocument(space, HasBom(text), before, x);
    NestBound(before, 1);
  }

  lemma {:induction false} DocumentLeads()
    ensures LeadingIs(true, true, [])
  {
  }

  /** The parser reports an error on a text exactly if the text has a flaw with that error. */
  lemma {:induction false} FailsExactly(o: Options, text: Bytes, error: XmlError)
    requires error != Success && error != ErrorEmptyDocument
    ensures ParseDocument(o, text).error == error
            <==> exists d :: Refutes(o, text, d) && ErrorFor(d.flaw) == error
  {
    hide ParseDocument, Refutes;
    if ParseDocument(o, text).error == error {
      var d := Explained(o, text);
    }
    if d :| Refutes(o, text, d) && ErrorFor(d.flaw) == error {
      Refused(o, text, d);
    }
  }

  /** A document is empty exactly if it has nothing but white space and a byte order mark before its end. */
  lemma {:induction false} EmptyExactly(o: Options, text: Bytes)
    ensures ParseDocument(o, text).error == ErrorEmptyDocument
            <==> exists space, bom, rest :: Empty(text, space, bom, rest)
  {
    hide ParseNodes, Body, HasBom, Empty;
    if At(Body(text), 0) == 0 {
      var space := BodySplit(text);
      assert Empty(text, space, HasBom(text), Body(text)) by {
        EmptyIs(text, space, HasBom(text), Body(text));
      }
    } else {
      var r := ParseNodes(o, Body(text), 0, true);
      if !Ended(r) {
        NotEmptyError(o, text);
      }
    }
    if space, bom, rest :| Empty(text, space, bom, rest) {
      EmptyBody(text, space, bom, rest);
    }
  }

  predicate Empty(text: Bytes, space: Bytes, bom: bool, rest: Bytes) {
    AllWhiteSpace(space) && text == space + ((if bom then BOM else []) + rest) && At(rest, 0) == 0
  }

  lemma {:induction false} EmptyIs(text: Bytes, space: Bytes, bom: bool, rest: Bytes)
    requires AllWhiteSpace(space) && text == space + ((if bom then BOM else []) + rest) && At(rest, 0) == 0
    ensures Empty(text, space, bom, rest)
  {
  }

  lemma {:induction false} EmptyBody(text: Bytes, space: Bytes, bom: bool, rest: Bytes)
    requires Empty(text, space, bom, rest)
    ensures At(Body(text), 0) == 0
  {
    hide SkipSpace;
    var s := (if bom then BOM else []) + rest;
    SkipGap(space, s);
    if bom {
      assert s[..3] == BOM && s[3..] == rest;
    } else {
      assert s == rest;
    }
  }

  lemma {:induction false} NotEmptyError(o: Options, text: Bytes)
    requires !Ended(ParseNodes(o, Body(text), 0, true))
    ensures ParseNodes(o, Body(text), 0, true).stop != AtNull(ErrorEmptyDocument)
  {
    hide ParseSiblings, Body;
    DocumentLeads();
    var before, x := SiblingsFlawed(o, Body(text), 1, true, true, [], true);
    FlawIsError(x);
  }
}
