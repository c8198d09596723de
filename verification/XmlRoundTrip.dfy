/** Reading back what the printer writes: parsing any layout of a valid tree returns the tree. */
module XmlRoundTrip {
  import opened Bytes
  import opened Decoding
  import opened Scanning
  import opened Escaping
  import opened XmlParser
  import opened XmlLayout
  import Collapsing

  // ---- Strings -----------------------------------------------------------------------------

  lemma {:induction false} DecodeCRFree(s: Bytes, f: Flags)
    requires !f.entities && f.newlines && CR !in s
    ensures Decode(s, f) == s && AllKnown(s, f)
  {
    if s != [] {
      DecodeCRFree(s[1..], f);
      assert NextToken(s, f) == Emit([s[0]], 1);
    }
  }

  /** The value of what was quoted. */
  lemma {:induction false} ValueBack(o: Options, v: Bytes, ctx: Context, f: Flags)
    requires Plain(v) && f.newlines && f.entities == o.processEntities
    ensures StrValue(Quoted(o, v, ctx), f) == if f.collapse then Collapsing.Collapse(v) else v
  {
    hide NextToken, Rewrite, Decode, Escape, Printed, Collapsing.Collapse;
    CStringOfNulFree(v);
    if o.processEntities {
      PrintedIsEscape(v, ctx);
      DecodeEscape(v, ctx, f);
      DecodeEscapeHasNoCR(v, ctx, f);
      RewriteOfKnown(Escape(v, ctx), f);
    } else {
      DecodeCRFree(v, f);
      RewriteOfKnown(v, f);
    }
  }

  /** Unquoted markup: only newlines are normalized. */
  lemma {:induction false} RawValueBack(v: Bytes)
    requires Plain(v)
    ensures StrValue(v, NEWLINES_ONLY) == v
  {
    ValueBack(Options(false, PreserveWhitespace), v, InText, NEWLINES_ONLY);
  }

  lemma {:induction false} QuotedAvoids(o: Options, v: Bytes, ctx: Context)
    requires Plain(v) && (o.processEntities || Delimiter(ctx) !in v)
    ensures Delimiter(ctx) !in Quoted(o, v, ctx) && 0 !in Quoted(o, v, ctx)
  {
    if o.processEntities {
      PrintedIsEscape(v, ctx);
      EscapeAvoids(v, ctx, Delimiter(ctx));
      EscapeAvoids(v, ctx, 0);
    }
  }

  lemma {:induction false} DelimiterFound(o: Options, v: Bytes, ctx: Context, rest: Bytes)
    requires Plain(v) && (o.processEntities || Delimiter(ctx) !in v)
    ensures FindTag(Quoted(o, v, ctx) + ([Delimiter(ctx)] + rest), [Delimiter(ctx)]) == Some(|Quoted(o, v, ctx)|)
  {
    hide Quoted, FindTag;
    var q := Quoted(o, v, ctx);
    QuotedAvoids(o, v, ctx);
    FindByteAfter(q, Delimiter(ctx), rest);
    assert q + [Delimiter(ctx)] + rest == q + ([Delimiter(ctx)] + rest);
  }

  // ---- Attributes -----------------------------------------------------------------------

  lemma {:induction false} SkipNoSpace(s: Bytes)
    requires !IsWhiteSpace(At(s, 0))
    ensures SkipSpace(s) == s
  {
  }

  lemma {:induction false} AttributeBack(o: Options, a: Attribute, apos: bool, rest: Bytes)
    requires ValidAttribute(o, a)
    ensures ParseAttribute(o, ShowAttribute(o, a, apos)[1..] + rest) == AttributeDone(a, rest)
  {
    hide Quoted, FindTag, StrValue, LeadingName, NameChars, SkipSpace;
    var q := Quoted(o, a.value, InAttribute(apos));
    var body := q + ([DQUOTE] + rest);
    var quoted := [DQUOTE] + body;
    var afterName := [EQUALS] + quoted;
    var s := ShowAttribute(o, a, apos)[1..] + rest;
    assert s == a.name + afterName;
    LeadingNameOf(a.name, afterName);
    assert s[|a.name|..] == afterName && At(s, |a.name|) == EQUALS;
    SkipNoSpace(afterName);
    assert afterName[1..] == quoted;
    SkipNoSpace(quoted);
    assert quoted[1..] == body;
    DelimiterFound(o, a.value, InAttribute(apos), rest);
    ValueBack(o, a.value, InAttribute(apos), ValueFlags(o));
    assert body[..|q|] == q && body[|q| + 1..] == rest;
  }

  lemma {:induction false} AttributesBack(o: Options, attributes: seq<Attribute>, apos: bool, soFar: seq<Attribute>,
                                          rest: Bytes)
    requires ValidAttributes(o, soFar + attributes)
    ensures ParseAttributes(o, ShowAttributes(o, attributes, apos) + rest, soFar)
            == ParseAttributes(o, rest, soFar + attributes)
    decreases |attributes|
  {
    hide ShowAttribute, ParseAttribute;
    if attributes == [] {
      assert ShowAttributes(o, attributes, apos) + rest == rest;
      assert soFar + attributes == soFar;
    } else {
      var a := attributes[0];
      assert a == (soFar + attributes)[|soFar|];
      var more := ShowAttributes(o, attributes[1..], apos) + rest;
      OneAttributeBack(o, a, apos, soFar, more);
      assert ShowAttributes(o, attributes, apos) + rest == ShowAttribute(o, a, apos) + more;
      assert (soFar + [a]) + attributes[1..] == soFar + attributes;
      assert !HasAttribute(soFar, a.name) by {
        assert forall i | 0 <= i < |soFar| :: soFar[i] == (soFar + attributes)[i];
      }
      AttributesBack(o, attributes[1..], apos, soFar + [a], rest);
    }
  }

  lemma {:induction false} OneAttributeBack(o: Options, a: Attribute, apos: bool, soFar: seq<Attribute>, more: Bytes)
    requires ValidAttribute(o, a)
    ensures !HasAttribute(soFar, a.name) ==>
              ParseAttributes(o, ShowAttribute(o, a, apos) + more, soFar) == ParseAttributes(o, more, soFar + [a])
  {
    hide ParseAttribute, Quoted;
    AttributeBack(o, a, apos, more);
    var shown := ShowAttribute(o, a, apos);
    var s := shown[1..] + more;
    assert shown[1] == a.name[0];
    assert s[0] == a.name[0];
    assert shown + more == [SPACE] + s;
    SkipSpaceOver([SPACE], s);
  }

  // ---- Tags ---------------------------------------------------------------------------------

  /** An open or sealed tag, read after its `<`. */
  lemma {:induction false} HeadBack(o: Options, name: Bytes, attributes: seq<Attribute>, apos: bool, sealed: bool,
                                    rest: Bytes)
    requires IsName(name) && ValidAttributes(o, attributes)
    ensures ParseHead(o, name + (ShowAttributes(o, attributes, apos) + ((if sealed then SEAL else [GT]) + rest)))
            == Head(if sealed then Closed else Open, name, attributes, rest)
  {
    hide ShowAttribute, ParseAttribute, LeadingName, NameChars;
    var end := (if sealed then SEAL else [GT]) + rest;
    var after := ShowAttributes(o, attributes, apos) + end;
    var s := name + after;
    assert s[0] == name[0];
    SkipNoSpace(s);
    assert !IsNameChar(At(after, 0)) by {
      ShowAttributesStart(o, attributes, apos, end);
    }
    LeadingNameOf(name, after);
    assert s[|name|..] == after;
    assert [] + attributes == attributes;
    AttributesBack(o, attributes, apos, [], end);
    SkipNoSpace(end);
    assert end[if sealed then 2 else 1..] == rest;
  }

  lemma {:induction false} ShowAttributesStart(o: Options, attributes: seq<Attribute>, apos: bool, end: Bytes)
    requires end != []
    ensures At(ShowAttributes(o, attributes, apos) + end, 0) == if attributes == [] then end[0] else SPACE
  {
    if attributes == [] {
      assert ShowAttributes(o, attributes, apos) + end == end;
    } else {
      assert ShowAttributes(o, attributes, apos)[0] == ShowAttribute(o, attributes[0], apos)[0] == SPACE;
    }
  }

  /** An end tag, read after its `<`. */
  lemma {:induction false} EndTagBack(o: Options, name: Bytes, rest: Bytes)
    requires IsName(name)
    ensures ParseHead(o, [SLASH] + (name + ([GT] + rest))) == Head(ClosingTag, name, [], rest)
  {
    hide LeadingName, NameChars;
    var after := [GT] + rest;
    var q := name + after;
    var s := [SLASH] + q;
    SkipNoSpace(s);
    assert s[1..] == q;
    LeadingNameOf(name, after);
    assert q[|name|..] == after;
    SkipNoSpace(after);
    assert after[1..] == rest;
  }

  // ---- Leaves ---------------------------------------------------------------------------

  /** A gap before markup is dropped. */
  lemma {:induction false} GapDropped(gap: Bytes, markup: Bytes)
    requires AllWhiteSpace(gap) && At(markup, 0) == LT
    ensures SkipSpace(gap + markup) == markup
    ensures At(gap + markup, 0) != 0
  {
    SkipSpaceOver(gap, markup);
  }

  /** The tags that end unstructured markup are found where they were written. */
  lemma {:induction false} MarkupEnd(node: Node, rest: Bytes)
    requires ValidMarkup(node)
    ensures var (header, end) := Brackets(node);
            && end != [] && FindTag(MarkupValue(node) + (end + rest), end) == Some(|MarkupValue(node)|)
  {
    hide FindTag;
    var v, end := MarkupValue(node), Brackets(node).1;
    FindTagAfter(v, end, rest);
    assert v + end + rest == v + (end + rest);
  }

  function KindOf(node: Node): Kind
    requires !node.Element?
  {
    match node
    case Comment(_) => CommentKind
    case Declaration(_) => DeclarationKind
    case Unknown(_) => UnknownKind
    case Text(_, cdata) => TextKind(cdata)
  }

  /** The header tells which markup it is. */
  lemma {:induction false} MarkupIdentified(o: Options, gap: Bytes, node: Node, rest: Bytes, first: bool)
    requires ValidMarkup(node) && AllWhiteSpace(gap)
    ensures var (header, end) := Brackets(node);
            var s := gap + (header + (MarkupValue(node) + (end + rest)));
            && At(s, 0) != 0
            && Identify(o, s, first) == Found(KindOf(node), MarkupValue(node) + (end + rest))
  {
    var v, header, end := MarkupValue(node), Brackets(node).0, Brackets(node).1;
    var body := v + (end + rest);
    var p := header + body;
    GapDropped(gap, p);
    assert p[|header|..] == body;
    assert header <= p;
    assert forall i | 0 <= i < |header| :: p[i] == header[i];
    if node.Text? {
      assert p[2] == 0x5b;
      assert !(COMMENT_HEADER <= p) by { assert COMMENT_HEADER[2] != p[2]; }
    }
    if !node.Declaration? {
      assert !(DECLARATION_HEADER <= p) by { assert DECLARATION_HEADER[1] != p[1]; }
    }
    if node.Unknown? {
      assert p[2..] == body;
      NotAComment(v, end + rest, body, p);
    }
  }

  /** An unknown tag is taken neither for a comment nor for character data. */
  lemma {:induction false} NotAComment(v: Bytes, tail: Bytes, body: Bytes, p: Bytes)
    requires !(DASHES <= v) && !(CDATA_REST <= v) && At(tail, 0) == GT && body == v + tail && p == UNKNOWN_HEADER + body
    ensures !(COMMENT_HEADER <= p) && !(CDATA_HEADER <= p)
  {
    PrefixStops(DASHES, v, tail);
    PrefixBoth(UNKNOWN_HEADER, DASHES, body);
    assert UNKNOWN_HEADER + DASHES == COMMENT_HEADER;
    PrefixStops(CDATA_REST, v, tail);
    PrefixBoth(UNKNOWN_HEADER, CDATA_REST, body);
    assert UNKNOWN_HEADER + CDATA_REST == CDATA_HEADER;
  }

  lemma {:induction false} PrefixStops(x: Bytes, v: Bytes, tail: Bytes)
    requires GT !in x && !(x <= v) && At(tail, 0) == GT
    ensures !(x <= v + tail)
  {
    if |x| <= |v| {
      assert (v + tail)[..|x|] == v[..|x|];
    } else {
      assert (v + tail)[|v|] == GT;
    }
  }

  lemma {:induction false} PrefixBoth(a: Bytes, x: Bytes, b: Bytes)
    ensures a + x <= a + b ==> x <= b
  {
    if a + x <= a + b {
      assert forall i | 0 <= i < |x| :: x[i] == (a + x)[|a| + i] == (a + b)[|a| + i] == b[i];
    }
  }

  /** Unstructured markup is read back as the next sibling. */
  lemma {:induction false} MarkupBack(o: Options, gap: Bytes, node: Node, rest: Bytes,
                                      depth: nat, inDocument: bool, first: bool, soFar: seq<Node>)
    requires ValidMarkup(node) && AllWhiteSpace(gap)
    requires node.Declaration? ==> WellLocated(inDocument, soFar)
    ensures ParseSiblings(o, gap + (Brackets(node).0 + (MarkupValue(node) + (Brackets(node).1 + rest))),
                          depth, inDocument, first, soFar)
            == ParseSiblings(o, rest, depth, inDocument, false, soFar + [node])
  {
    hide Identify, FindTag, StrValue, WellLocated, ValidMarkup, Lacks;
    var v, end := MarkupValue(node), Brackets(node).1;
    var body := v + (end + rest);
    MarkupIdentified(o, gap, node, rest, first);
    assert ParseLeaf(o, KindOf(node), body) == Leaf(node, rest) by {
      MarkupLeaf(o, node, rest);
    }
    hide ParseLeaf;
  }

  lemma {:induction false} MarkupLeaf(o: Options, node: Node, rest: Bytes)
    requires ValidMarkup(node)
    ensures ParseLeaf(o, KindOf(node), MarkupValue(node) + (Brackets(node).1 + rest)) == Leaf(node, rest)
  {
    hide FindTag, StrValue, Plain, ValidMarkup;
    var v, end := MarkupValue(node), Brackets(node).1;
    assert Plain(v) && KindOf(node) != TextKind(false) && EndOf(KindOf(node)) == end
           && LeafOf(KindOf(node), v) == node by {
      MarkupKind(node);
    }
    MarkupEnd(node, rest);
    RawValueBack(v);
    LeafSplit(v, end, rest);
  }

  lemma {:induction false} MarkupKind(node: Node)
    requires ValidMarkup(node)
    ensures Plain(MarkupValue(node)) && KindOf(node) != TextKind(false)
    ensures EndOf(KindOf(node)) == Brackets(node).1 && LeafOf(KindOf(node), MarkupValue(node)) == node
  {
  }

  lemma {:induction false} LeafSplit(v: Bytes, end: Bytes, rest: Bytes)
    ensures var body := v + (end + rest); body[..|v|] == v && body[|v| + |end|..] == rest
  {
  }

  // ---- Text ---------------------------------------------------------------------------------

  lemma {:induction false} EscapeNotBlank(v: Bytes, ctx: Context)
    requires !AllWhiteSpace(v)
    ensures !AllWhiteSpace(Escape(v, ctx))
  {
    hide EscapeByte;
    var e, r := EscapeByte(v[0], ctx), Escape(v[1..], ctx);
    EscapeFirstByte(v, ctx);
    if IsWhiteSpace(v[0]) {
      assert !AllWhiteSpace(v[1..]);
      EscapeNotBlank(v[1..], ctx);
      var i :| 0 <= i < |r| && !IsWhiteSpace(r[i]);
      assert (e + r)[|e| + i] == r[i];
    } else {
      assert !IsWhiteSpace((e + r)[0]) by {
        EscapeNonEmpty(v[0], ctx);
      }
    }
  }

  /** Behind its leading white space, text starts with a byte of its own. */
  lemma {:induction false} TextStart(q: Bytes, z: Bytes)
    requires !AllWhiteSpace(q)
    ensures SkipSpace(q + z) != [] && SkipSpace(q + z)[0] in q
  {
    assert (q + z)[0] == q[0];
    if IsWhiteSpace(q[0]) {
      assert (q + z)[1..] == q[1..] + z;
      assert !AllWhiteSpace(q[1..]);
      TextStart(q[1..], z);
    }
  }

  lemma {:induction false} TextIdentified(o: Options, q: Bytes, z: Bytes, first: bool)
    requires !AllWhiteSpace(q) && LT !in q && 0 !in q
    ensures Identify(o, q + z, first) == Found(TextKind(false), q + z) && At(q + z, 0) != 0
  {
    TextStart(q, z);
    assert (q + z)[0] == q[0];
  }

  lemma {:induction false} TextLeafBack(o: Options, v: Bytes, rest: Bytes)
    requires ValidText(o, v) && At(rest, 0) != 0
    ensures ParseLeaf(o, TextKind(false), Quoted(o, v, InText) + ([LT] + rest))
            == Leaf(AsRead(o, Text(v, false)), [LT] + rest)
  {
    hide FindTag, StrValue, Quoted;
    var q := Quoted(o, v, InText);
    var s := q + ([LT] + rest);
    DelimiterFound(o, v, InText, rest);
    assert s[..|q|] == q && s[|q|..] == [LT] + rest && At(s, |q| + 1) == At(rest, 0);
    ValueBack(o, v, InText, TextFlags(o));
  }

  /** Text is read back as the next sibling, up to the `<` of the markup after it. */
  lemma {:induction false} TextBack(o: Options, v: Bytes, rest: Bytes,
                                    depth: nat, inDocument: bool, first: bool, soFar: seq<Node>)
    requires ValidText(o, v) && At(rest, 0) != 0
    ensures ParseSiblings(o, Quoted(o, v, InText) + ([LT] + rest), depth, inDocument, first, soFar)
            == ParseSiblings(o, [LT] + rest, depth, inDocument, false, soFar + [AsRead(o, Text(v, false))])
  {
    hide Identify, ParseLeaf, Quoted;
    var q := Quoted(o, v, InText);
    QuotedAvoids(o, v, InText);
    QuotedNotBlank(o, v);
    TextIdentified(o, q, [LT] + rest, first);
    TextLeafBack(o, v, rest);
  }

  lemma {:induction false} QuotedNotBlank(o: Options, v: Bytes)
    requires !AllWhiteSpace(v) && |v| <= INT_MAX
    ensures !AllWhiteSpace(Quoted(o, v, InText))
  {
    if o.processEntities {
      PrintedIsEscape(v, InText);
      EscapeNotBlank(v, InText);
    }
  }

  // ---- Elements --------------------------------------------------------------------------

  /** A tag whose name follows its `<` directly. */
  lemma {:induction false} TagIdentified(o: Options, gap: Bytes, tag: Bytes, first: bool)
    requires AllWhiteSpace(gap) && IsNameStartChar(At(tag, 0))
    ensures Identify(o, gap + ([LT] + tag), first) == Found(ElementKind, tag) && At(gap + ([LT] + tag), 0) != 0
  {
    var p := [LT] + tag;
    GapDropped(gap, p);
    assert p[1] == tag[0];
    assert p[1..] == tag;
  }

  /** An end tag closes the list of siblings; not as the first of them, where pedantic mode sees text. */
  lemma {:induction false} EndTagStops(o: Options, gap: Bytes, name: Bytes, rest: Bytes,
                                       depth: nat, inDocument: bool, soFar: seq<Node>)
    requires AllWhiteSpace(gap) && IsName(name)
    ensures ParseSiblings(o, gap + (ShowEndTag(name) + rest), depth, inDocument, false, soFar)
            == Siblings(soFar, AtEndTag(rest, name))
  {
    hide Identify, ParseElement;
    var tag := [SLASH] + (name + ([GT] + rest));
    assert ShowEndTag(name) + rest == [LT] + tag;
    EndTagIdentified(o, gap, tag);
    EndTagElement(o, name, rest, depth);
  }

  lemma {:induction false} EndTagIdentified(o: Options, gap: Bytes, tag: Bytes)
    requires AllWhiteSpace(gap) && At(tag, 0) == SLASH
    ensures Identify(o, gap + ([LT] + tag), false) == Found(ElementKind, tag) && At(gap + ([LT] + tag), 0) != 0
  {
    var p := [LT] + tag;
    GapDropped(gap, p);
    assert p[1] == SLASH && p[1..] == tag;
  }

  lemma {:induction false} EndTagElement(o: Options, name: Bytes, rest: Bytes, depth: nat)
    requires IsName(name)
    ensures ParseElement(o, [SLASH] + (name + ([GT] + rest)), depth)
            == ElementDone(ClosingTag, Element(name, [], []), rest, None)
  {
    hide ParseHead;
    EndTagBack(o, name, rest);
  }

  /** A sealed element is read back as the next sibling. */
  lemma {:induction false} SealedBack(o: Options, l: Laid, apos: bool, rest: Bytes,
                                      depth: nat, inDocument: bool, first: bool, soFar: seq<Node>)
    requires l.LaidElement? && l.kids == [] && Valid(o, l)
    ensures ParseSiblings(o, Show(o, l, apos) + rest, depth, inDocument, first, soFar)
            == ParseSiblings(o, rest, depth, inDocument, false, soFar + [Element(l.name, l.attributes, [])])
  {
    hide Identify, ParseHead, ShowAttributes;
    var tag := l.name + (ShowAttributes(o, l.attributes, apos) + (SEAL + rest));
    assert Show(o, l, apos) + rest == l.gap + ([LT] + tag);
    assert tag[0] == l.name[0];
    TagIdentified(o, l.gap, tag, first);
    HeadBack(o, l.name, l.attributes, apos, true, rest);
    assert ParseElement(o, tag, depth) == ElementDone(Closed, Element(l.name, l.attributes, []), rest, None);
    hide ParseElement;
  }

  lemma {:induction false} ShowStarts(o: Options, l: Laid, apos: bool)
    requires Valid(o, l)
    ensures At(Show(o, l, apos), 0) != 0
    ensures !l.LaidText? && GapOf(l) == []
            ==> |Show(o, l, apos)| > 1 && Show(o, l, apos)[0] == LT && Show(o, l, apos)[1] != 0
  {
    match l
    case LaidElement(gap, name, attributes, kids, closeGap) =>
      var s := ShowHead(o, name, attributes, apos) +
               (if kids == [] then SEAL else [GT] + (ShowAll(o, kids, apos) + (closeGap + ShowEndTag(name))));
      assert Show(o, l, apos) == gap + s;
      assert s[0] == LT && s[1] == name[0];
    case LaidText(value) =>
      QuotedNotBlank(o, value);
      QuotedAvoids(o, value, InText);
    case LaidMarkup(gap, node) =>
      var s := Brackets(node).0 + (MarkupValue(node) + Brackets(node).1);
      assert Show(o, l, apos) == gap + s;
      assert s[0] == LT && s[1] == Brackets(node).0[1];
  }

  /** A node is read back as the next sibling. */
  lemma {:induction false} NodeBack(o: Options, l: Laid, apos: bool, rest: Bytes,
                                    depth: nat, inDocument: bool, first: bool, soFar: seq<Node>)
    requires Valid(o, l) && depth + Height(l) < MAX_ELEMENT_DEPTH
    requires l.LaidText? ==> |rest| > 1 && rest[0] == LT && rest[1] != 0
    requires Erase(l).Declaration? ==> WellLocated(inDocument, soFar)
    ensures ParseSiblings(o, Show(o, l, apos) + rest, depth, inDocument, first, soFar)
            == ParseSiblings(o, rest, depth, inDocument, false, soFar + [AsRead(o, Erase(l))])
    decreases l, 1
  {
    hide ParseSiblings, Identify;
    match l
    case LaidText(value) =>
      assert rest == [LT] + rest[1..];
      TextBack(o, value, rest[1..], depth, inDocument, first, soFar);
    case LaidMarkup(gap, node) =>
      var v, header, end := MarkupValue(node), Brackets(node).0, Brackets(node).1;
      assert Show(o, l, apos) + rest == gap + (header + (v + (end + rest)));
      MarkupBack(o, gap, node, rest, depth, inDocument, first, soFar);
      assert AsRead(o, node) == node;
    case LaidElement(gap, name, attributes, kids, closeGap) =>
      if kids == [] {
        SealedBack(o, l, apos, rest, depth, inDocument, first, soFar);
      } else {
        ElementBack(o, l, apos, rest, depth);
        OpenBack(o, l, apos, rest, depth, inDocument, first, soFar);
      }
  }

  /** An open tag, its children and its end tag make one element. */
  lemma {:induction false} ElementBack(o: Options, l: Laid, apos: bool, rest: Bytes, depth: nat)
    requires l.LaidElement? && l.kids != [] && Valid(o, l) && depth + Height(l) < MAX_ELEMENT_DEPTH
    ensures ParseElement(o, TagOf(o, l, apos, rest), depth)
            == ElementDone(Open, AsRead(o, Erase(l)), rest, Some(l.name))
    decreases l, 0
  {
    hide ParseHead, ParseSiblings, ShowAttributes;
    var tail := l.closeGap + (ShowEndTag(l.name) + rest);
    var inner := ShowAll(o, l.kids, apos) + tail;
    HeadBack(o, l.name, l.attributes, apos, false, inner);
    assert At(inner, 0) != 0 by {
      ShowStarts(o, l.kids[0], apos);
      assert inner[0] == Show(o, l.kids[0], apos)[0];
    }
    assert ParseNodes(o, inner, depth, false) == ParseSiblings(o, inner, depth + 1, false, true, []);
    assert l.kids[|l.kids| - 1].LaidText? ==> tail[0] == LT && tail[1] == SLASH;
    KidsBack(o, l.kids, apos, tail, depth + 1, false, true, []);
    var nodes := AsReadAll(o, EraseAll(l.kids));
    assert [] + nodes == nodes;
    EndTagStops(o, l.closeGap, l.name, rest, depth + 1, false, nodes);
  }

  /** Everything after the `<` of an element with children. */
  function TagOf(o: Options, l: Laid, apos: bool, rest: Bytes): Bytes
    requires l.LaidElement?
  {
    l.name + (ShowAttributes(o, l.attributes, apos) +
              ([GT] + (ShowAll(o, l.kids, apos) + (l.closeGap + (ShowEndTag(l.name) + rest)))))
  }

  lemma {:induction false} OpenBack(o: Options, l: Laid, apos: bool, rest: Bytes,
                                    depth: nat, inDocument: bool, first: bool, soFar: seq<Node>)
    requires l.LaidElement? && l.kids != [] && Valid(o, l)
    requires ParseElement(o, TagOf(o, l, apos, rest), depth)
             == ElementDone(Open, AsRead(o, Erase(l)), rest, Some(l.name))
    ensures ParseSiblings(o, Show(o, l, apos) + rest, depth, inDocument, first, soFar)
            == ParseSiblings(o, rest, depth, inDocument, false, soFar + [AsRead(o, Erase(l))])
  {
    hide Identify, ParseElement, Show, TagOf;
    var tag := TagOf(o, l, apos, rest);
    ShowOpen(o, l, apos, rest);
    TagIdentified(o, l.gap, tag, first);
  }

  lemma {:induction false} ShowOpen(o: Options, l: Laid, apos: bool, rest: Bytes)
    requires l.LaidElement? && l.kids != [] && l.name != []
    ensures Show(o, l, apos) + rest == l.gap + ([LT] + TagOf(o, l, apos, rest))
    ensures At(TagOf(o, l, apos, rest), 0) == l.name[0]
  {
    hide ShowAttributes, ShowAll;
  }

  /** A list of children is read back as a list of siblings. */
  lemma {:induction false} KidsBack(o: Options, ls: seq<Laid>, apos: bool, tail: Bytes,
                                    depth: nat, inDocument: bool, first: bool, soFar: seq<Node>)
    requires forall i | 0 <= i < |ls| :: Valid(o, ls[i]) && depth + Height(ls[i]) < MAX_ELEMENT_DEPTH
    requires NoTextAdjacent(ls, [])
    requires ls != [] && ls[|ls| - 1].LaidText? ==> |tail| > 1 && tail[0] == LT && tail[1] != 0
    requires DeclarationsFirst(inDocument, soFar, ls)
    ensures ParseSiblings(o, ShowAll(o, ls, apos) + tail, depth, inDocument, first, soFar)
            == ParseSiblings(o, tail, depth, inDocument, first && ls == [], soFar + AsReadAll(o, EraseAll(ls)))
    decreases ls
  {
    hide ParseSiblings, Valid, Show, Height;
    if ls == [] {
      assert ShowAll(o, ls, apos) + tail == tail;
      assert soFar + AsReadAll(o, EraseAll(ls)) == soFar;
    } else {
      var node := AsRead(o, Erase(ls[0]));
      var rest := ShowAll(o, ls[1..], apos) + tail;
      assert ShowAll(o, ls, apos) + tail == Show(o, ls[0], apos) + rest;
      if ls[0].LaidText? && |ls| > 1 {
        ShowStarts(o, ls[1], apos);
        assert rest[0] == Show(o, ls[1], apos)[0] && rest[1] == Show(o, ls[1], apos)[1];
      } else if ls[0].LaidText? {
        assert rest == tail;
      }
      NodeBack(o, ls[0], apos, rest, depth, inDocument, first, soFar);
      assert DeclarationsFirst(inDocument, soFar + [node], ls[1..]);
      KidsBack(o, ls[1..], apos, tail, depth, inDocument, false, soFar + [node]);
      assert (soFar + [node]) + AsReadAll(o, EraseAll(ls[1..])) == soFar + AsReadAll(o, EraseAll(ls));
    }
  }

  /** Declarations stand in the document, before everything else. */
  predicate DeclarationsFirst(inDocument: bool, soFar: seq<Node>, ls: seq<Laid>) {
    forall j | 0 <= j < |ls| && Erase(ls[j]).Declaration? ::
      && inDocument
      && (forall i | 0 <= i < |soFar| :: soFar[i].Declaration?)
      && (forall i | 0 <= i < j :: Erase(ls[i]).Declaration?)
  }

  // ---- Documents --------------------------------------------------------------------------

  /** The top level of a document: no plain text, declarations first, at most 498 nested open tags. */
  ghost predicate ValidTop(o: Options, ls: seq<Laid>) {
    && (forall i | 0 <= i < |ls| :: Valid(o, ls[i]) && !ls[i].LaidText? && 1 + Height(ls[i]) < MAX_ELEMENT_DEPTH)
    && DeclarationsFirst(true, [], ls)
  }

  lemma {:induction false} BlankTail(o: Options, tail: Bytes, depth: nat, inDocument: bool, first: bool,
                                     soFar: seq<Node>)
    requires AllWhiteSpace(tail)
    ensures ParseSiblings(o, tail, depth, inDocument, first, soFar) == Siblings(soFar, AtNull(Success))
  {
    if tail != [] {
      assert tail + [] == tail;
      SkipSpaceOver(tail, []);
      assert Identify(o, tail, first) == Nothing;
    }
  }

  /** Parsing any layout of a valid document returns the document. */
  lemma {:induction false} DocumentBack(o: Options, ls: seq<Laid>, apos: bool, bom: bool, tail: Bytes)
    requires ls != [] && ValidTop(o, ls) && GapOf(ls[0]) == [] && AllWhiteSpace(tail)
    ensures ParseDocument(o, (if bom then BOM else []) + (ShowAll(o, ls, apos) + tail))
            == Document(Success, AsReadAll(o, EraseAll(ls)), bom)
  {
    hide ParseSiblings, Show;
    var body := ShowAll(o, ls, apos) + tail;
    var text := (if bom then BOM else []) + body;
    ShowStarts(o, ls[0], apos);
    assert body[0] == Show(o, ls[0], apos)[0] == LT;
    SkipNoSpace(text);
    assert bom <==> BOM <= text by {
      assert text[0] == if bom then BOM[0] else LT;
      assert bom ==> text[..3] == BOM;
    }
    assert body == if bom then text[3..] else text;
    assert ParseNodes(o, body, 0, true) == ParseSiblings(o, body, 1, true, true, []);
    KidsBack(o, ls, apos, tail, 1, true, true, []);
    var nodes := AsReadAll(o, EraseAll(ls));
    assert [] + nodes == nodes;
    BlankTail(o, tail, 1, true, false, nodes);
  }

  lemma {:induction false} AsReadSame(o: Options, node: Node)
    requires o.whitespace != CollapseWhitespace
    ensures AsRead(o, node) == node
  {
    if node.Element? {
      AsReadAllSame(o, node.children);
    }
  }

  /** Outside collapsing mode nothing changes. */
  lemma {:induction false} AsReadAllSame(o: Options, nodes: seq<Node>)
    requires o.whitespace != CollapseWhitespace
    ensures AsReadAll(o, nodes) == nodes
  {
    if nodes != [] {
      AsReadSame(o, nodes[0]);
      AsReadAllSame(o, nodes[1..]);
    }
  }
}
