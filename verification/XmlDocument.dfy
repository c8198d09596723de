/**
 tinyxml2's parser as it runs: an index into the character buffer, a line counter, a depth counter
 and an error field that the methods update. Each method is proved against the function of the same
 name in XmlParser.
 */
module XmlDocument {
  import opened Bytes
  import opened Decoding
  import opened Scanning
  import opened Spans
  import opened XmlParser

  lemma {:induction false} PassedUpTo(text: Bytes, q: nat, before: nat, after: nat)
    requires Passed(text, 0, q, before, after)
    ensures IsRest(text[q..], text) && after == before + Newlines(text[..|text| - |text[q..]|])
  {
    assert text[0..q] == text[..q];
  }

  lemma {:induction false} PlainTextEnd()
    ensures EndOf(TextKind(false)) == [LT]
  {
  }

  lemma {:induction false} LeafValues(kind: Kind, value: Bytes)
    requires kind != ElementKind
    ensures ValuesOf(LeafOf(kind, value)) == [value]
  {
  }

  lemma {:induction false} NoNodes()
    ensures ValuesOfAll([]) == []
  {
  }

  lemma {:induction false} ElementValues(name: Bytes, attributes: seq<Attribute>, nodes: seq<Node>)
    ensures ValuesOf(Element(name, attributes, nodes)) == ([name] + AttributeValues(attributes)) + ValuesOfAll(nodes)
    ensures nodes == [] ==> ValuesOf(Element(name, attributes, nodes)) == [name] + AttributeValues(attributes)
  {
    hide AttributeValues;
    NoNodes();
    assert [name] + (AttributeValues(attributes) + ValuesOfAll(nodes))
           == ([name] + AttributeValues(attributes)) + ValuesOfAll(nodes);
  }

  /** After text, the `<` that ended it begins a tag. */
  lemma {:induction false} IdentifyMarkup(o: Options, s: Bytes, first: bool)
    ensures var r := XmlParser.Identify(o, s, first); r.Found? && !first && At(s, 0) == LT ==> |r.rest| < |s|
  {
  }

  lemma {:induction false} NoAttributes()
    ensures AttributeValues([]) == []
  {
  }

  /** A name is stored as it stands in the text. */
  lemma {:induction false} NameValue(s: Bytes, name: Bytes)
    requires name == LeadingName(s)
    ensures StrValue(name, NO_FLAGS) == name
  {
    assert 0 !in name;
    assert name[..0] == [];
    RewriteWithoutFlags(name, 0);
    CStringOfNulFree(name);
  }

  lemma {:induction false} SliceOfRest(text: Bytes, q: nat, n: nat)
    requires q + n <= |text|
    ensures text[q..q + n] == text[q..][..n]
    ensures text[q..][n..] == text[q + n..]
  {
  }

  lemma {:induction false} PassedPlain(text: Bytes, p: nat, q: nat, line: nat)
    requires p <= q <= |text| && LF !in text[p..q] && 0 !in text[p..q]
    ensures Passed(text, p, q, line, line)
  {
    NoNewlines(text[p..q]);
  }

  lemma {:induction false} PassedEnd(text: Bytes, kind: Kind, p: nat, line: nat)
    requires kind != ElementKind && p + |EndOf(kind)| <= |text| && text[p..p + |EndOf(kind)|] == EndOf(kind)
    ensures Passed(text, p, p + |EndOf(kind)|, line, line)
  {
    PassedPlain(text, p, p + |EndOf(kind)|, line);
  }

  lemma {:induction false} PassedHeader(text: Bytes, p: nat, n: nat, line: nat)
    requires p + n <= |text|
    requires var s := text[p..];
             || (n == 2 && (DECLARATION_HEADER <= s || UNKNOWN_HEADER <= s)) || (n == 4 && COMMENT_HEADER <= s)
             || (n == 9 && CDATA_HEADER <= s) || (n == 3 && BOM <= s) || (n == 1 && s[0] == LT)
    ensures Passed(text, p, p + n, line, line)
  {
    assert text[p..p + n] == text[p..][..n];
    PassedPlain(text, p, p + n, line);
  }

  class XMLDocument {
    const options: Options
    const text: Bytes
    var parseCurLineNum: nat
    var parsingDepth: nat
    var errorID: XmlError
    var hasBom: bool
    var children: seq<Node>
    /** The strings of the nodes parsed so far. */
    var spans: seq<Span>
    /** The largest number of XMLNode::ParseDeep frames so far. */
    ghost var peakDepth: nat

    constructor (options: Options, text: Bytes)
      ensures this.options == options && this.text == text
      ensures parsingDepth == 0 && peakDepth == 0 && errorID == Success && children == [] && spans == []
    {
      this.options, this.text := options, text;
      parseCurLineNum, parsingDepth, errorID, hasBom, children, spans, peakDepth := 0, 0, Success, false, [], [], 0;
    }

    /** From p to q has been read, and the line counter, then at line, has moved on by the line feeds in between. */
    ghost predicate Read(p: nat, q: nat, line: nat)
      reads this
    {
      p <= q <= |text| && Passed(text, p, q, line, parseCurLineNum)
    }

    /** Everything before p has been read, and the line counter is one more than the line feeds there. */
    ghost predicate AtLine(p: nat)
      reads this
    {
      Read(0, p, 1)
    }

    /** Reading on. */
    lemma ReadOn(p: nat, q: nat, r: nat, line: nat, middle: nat)
      requires p <= q <= r <= |text|
      requires Passed(text, p, q, line, middle) && Passed(text, q, r, middle, parseCurLineNum)
      ensures Read(p, r, line)
    {
      PassedOn(text, p, q, r, line, middle, parseCurLineNum);
    }

    /** A line counter that was right at p is right at q. */
    lemma RightAgain(p: nat, q: nat, line: nat)
      requires Read(p, q, line)
      ensures Passed(text, 0, p, 1, line) ==> AtLine(q)
    {
      if Passed(text, 0, p, 1, line) {
        ReadOn(0, p, q, 1, line);
      }
    }

    method SkipSpaces(p: nat) returns (q: nat)
      requires p <= |text|
      modifies this`parseCurLineNum
      ensures Read(p, q, old(parseCurLineNum)) && text[q..] == SkipSpace(text[p..])
    {
      q, parseCurLineNum := SkipWhiteSpace(text, p, parseCurLineNum);
    }

    method Identify(p: nat, first: bool) returns (found: Option<Kind>, q: nat)
      requires p <= |text|
      modifies this`parseCurLineNum
      ensures match XmlParser.Identify(options, text[p..], first)
              case Nothing => found == None && Read(p, q, old(parseCurLineNum)) && At(text, q) == 0
              case Found(kind, rest) =>
                found == Some(kind) && Read(p, q, old(parseCurLineNum)) && rest == text[q..]
    {
      hide Passed, SkipSpace;
      var startLine := parseCurLineNum;
      q := SkipSpaces(p);
      ghost var s := text[q..];
      var n: nat;
      if At(text, q) == 0 {
        assert At(s, 0) == 0;
        return None, q;
      } else if DECLARATION_HEADER <= text[q..] {
        found, n := Some(DeclarationKind), 2;
      } else if COMMENT_HEADER <= text[q..] {
        found, n := Some(CommentKind), 4;
      } else if CDATA_HEADER <= text[q..] {
        found, n := Some(TextKind(true)), 9;
      } else if UNKNOWN_HEADER <= text[q..] {
        found, n := Some(UnknownKind), 2;
      } else if text[q] == LT &&
                !(options.whitespace == PedanticWhitespace && first && q != p && At(text, q + 1) == SLASH) {
        found, n := Some(ElementKind), 1;
      } else {
        parseCurLineNum := startLine;
        PassedNothing(text, p, startLine);
        return Some(TextKind(false)), p;
      }
      PassedHeader(text, q, n, parseCurLineNum);
      SliceOfRest(text, q, n);
      ReadOn(p, q, q + n, startLine, parseCurLineNum);
      q := q + n;
    }

    /** StrPair::Set. */
    method SetSpan(start: nat, end: nat, flags: Flags)
      requires start <= end <= |text|
      modifies this`spans
      ensures spans == old(spans) + [Span(start, end, flags)]
      ensures Grew(text, old(spans), spans, [StrValue(text[start..end], flags)], start, end)
    {
      GrewOne(text, spans, Span(start, end, flags), start, end);
      spans := spans + [Span(start, end, flags)];
    }

    /** The ParseDeep of text, comments, declarations and unknown tags. */
    method ParseLeaf(kind: Kind, p: nat) returns (node: Option<Node>, q: nat)
      requires p <= |text| && kind != ElementKind
      modifies this`parseCurLineNum, this`errorID, this`spans
      ensures match XmlParser.ParseLeaf(options, kind, text[p..])
              case LeafFail(error) => node == None && errorID == if error == Success then old(errorID) else error
              case Leaf(leaf, rest) =>
                && node == Some(leaf) && Read(p, q, old(parseCurLineNum)) && rest == text[q..]
                && errorID == old(errorID)
                && Grew(text, old(spans), spans, ValuesOf(leaf), p, if kind == TextKind(false) then q else q - 1)
                && (kind == TextKind(false) ==> At(text, q) == LT)
    {
      hide FindTag, StrValue, Grew, Passed, XmlParser.ParseLeaf, EndOf, ErrorOf, LeafOf, ValuesOf;
      q := p;
      var end, line := ParseText(text, p, EndOf(kind), parseCurLineNum);
      if end.None? {
        LeafMissing(kind, p);
        errorID := ErrorOf(kind);
        return None, q;
      }
      LeafFound(kind, p, end.value);
      var flags := if kind == TextKind(false) then TextFlags(options) else NEWLINES_ONLY;
      if kind == TextKind(false) {
        if At(text, end.value + 1) == 0 {
          return None, q;
        }
        parseCurLineNum := line;
        q := end.value;
      } else {
        parseCurLineNum := line;
        q := end.value + |EndOf(kind)|;
        PassedEnd(text, kind, end.value, line);
        ReadOn(p, end.value, q, old(parseCurLineNum), line);
      }
      SetSpan(p, end.value, flags);
      node := Some(LeafOf(kind, StrValue(text[p..end.value], flags)));
      LeafValues(kind, StrValue(text[p..end.value], flags));
      GrewWider(text, old(spans), spans, ValuesOf(node.value), p, end.value, p,
                if kind == TextKind(false) then q else q - 1);
    }

    lemma LeafMissing(kind: Kind, p: nat)
      requires p <= |text| && kind != ElementKind && EndOf(kind) != [] && FindTag(text[p..], EndOf(kind)) == None
      ensures XmlParser.ParseLeaf(options, kind, text[p..]) == LeafFail(ErrorOf(kind)) && ErrorOf(kind) != Success
    {
      hide FindTag;
    }

    /** The tag that ParseText found stands at end. */
    lemma LeafFound(kind: Kind, p: nat, end: nat)
      requires p <= |text| && kind != ElementKind && EndOf(kind) != [] && p <= end
               && FindTag(text[p..], EndOf(kind)) == Some(end - p)
      ensures end + |EndOf(kind)| <= |text| && text[end..end + |EndOf(kind)|] == EndOf(kind)
      ensures kind == TextKind(false) ==> At(text, end) == LT
      ensures XmlParser.ParseLeaf(options, kind, text[p..]) ==
              if kind != TextKind(false) then
                Leaf(LeafOf(kind, StrValue(text[p..end], NEWLINES_ONLY)), text[end + |EndOf(kind)|..])
              else if At(text, end + 1) == 0 then LeafFail(Success)
              else Leaf(LeafOf(kind, StrValue(text[p..end], TextFlags(options))), text[end..])
    {
      hide FindTag, StrValue, LeafOf, EndOf;
      var s, tag := text[p..], EndOf(kind);
      FindTagThere(s, tag);
      TagStands(p, end, tag);
      PlainTextEnd();
    }

    lemma TagStands(p: nat, end: nat, tag: Bytes)
      requires p <= end && end + |tag| <= |text| && text[p..][end - p..end - p + |tag|] == tag && tag != []
      ensures text[p..][..end - p] == text[p..end] && text[end..end + |tag|] == tag && text[end] == tag[0]
      ensures text[p..][end - p..] == text[end..] && text[p..][end - p + |tag|..] == text[end + |tag|..]
      ensures At(text[p..], end - p + 1) == At(text, end + 1)
    {
      assert text[end] == text[p..][end - p..end - p + |tag|][0];
    }

    /** The quoted value of an attribute. */
    method ParseValue(p: nat) returns (value: Option<Bytes>, q: nat)
      requires p <= |text|
      modifies this`parseCurLineNum, this`spans
      ensures match XmlParser.ParseValue(options, text[p..])
              case ValueFail => value == None
              case ValueDone(v, rest) =>
                && value == Some(v) && Read(p, q, old(parseCurLineNum)) && rest == text[q..]
                && Grew(text, old(spans), spans, [v], p + 1, q - 1)
    {
      hide FindTag, StrValue, SkipSpace, Passed, Grew, XmlParser.ParseValue;
      var line := parseCurLineNum;
      var u := SkipSpaces(p);
      ValueFound(p, u);
      if At(text, u) != DQUOTE && At(text, u) != APOS {
        return None, u;
      }
      Step(p, u, line);
      var end, endLine := ParseText(text, u + 1, [text[u]], parseCurLineNum);
      if end.None? {
        return None, u;
      }
      ghost var middle := parseCurLineNum;
      parseCurLineNum := endLine;
      ReadOn(p, u + 1, end.value, line, middle);
      Step(p, end.value, line);
      q := end.value + 1;
      SetSpan(u + 1, end.value, ValueFlags(options));
      value := Some(StrValue(text[u + 1..end.value], ValueFlags(options)));
      GrewWider(text, old(spans), spans, [value.value], u + 1, end.value, p + 1, q - 1);
    }

    /** What ParseValue does when the white space before the quote ends at u. */
    lemma ValueFound(p: nat, u: nat)
      requires p <= u <= |text| && text[u..] == SkipSpace(text[p..])
      ensures At(text, u) != DQUOTE && At(text, u) != APOS ==> XmlParser.ParseValue(options, text[p..]) == ValueFail
      ensures At(text, u) == DQUOTE || At(text, u) == APOS ==>
                u < |text| &&
                match FindTag(text[u + 1..], [text[u]])
                case None => XmlParser.ParseValue(options, text[p..]) == ValueFail
                case Some(i) =>
                  && u + 1 + i < |text| && text[u + 1 + i] == text[u]
                  && XmlParser.ParseValue(options, text[p..]) ==
                     ValueDone(StrValue(text[u + 1..u + 1 + i], ValueFlags(options)), text[u + 1 + i + 1..])
    {
      hide FindTag, StrValue, SkipSpace;
      var quoted := text[u..];
      assert At(quoted, 0) == At(text, u);
      if At(text, u) == DQUOTE || At(text, u) == APOS {
        var body := text[u + 1..];
        assert quoted[1..] == body;
        FindTagThere(body, [text[u]]);
        var r := FindTag(body, [text[u]]);
        if r.Some? {
          assert body[r.value] == body[r.value..r.value + 1][0];
          assert body[..r.value] == text[u + 1..u + 1 + r.value] && body[r.value + 1..] == text[u + 1 + r.value + 1..];
        }
      }
    }

    /** Reading one byte more. */
    lemma Step(p: nat, q: nat, line: nat)
      requires p <= q < |text| && text[q] != LF && text[q] != 0 && Read(p, q, line)
      ensures Read(p, q + 1, line)
    {
      PassedByte(text, p, q, line, parseCurLineNum);
    }

    /** XMLAttribute::ParseDeep. */
    method ParseAttribute(p: nat) returns (attribute: Option<Attribute>, q: nat)
      requires p <= |text|
      modifies this`parseCurLineNum, this`spans
      ensures match XmlParser.ParseAttribute(options, text[p..])
              case AttributeFail => attribute == None
              case AttributeDone(a, rest) =>
                && attribute == Some(a) && Read(p, q, old(parseCurLineNum)) && rest == text[q..]
                && Grew(text, old(spans), spans, [a.name, a.value], p, q - 1)
    {
      hide LeadingName, SkipSpace, XmlParser.ParseValue, Passed, Grew, StrValue;
      ghost var s := text[p..];
      var line := parseCurLineNum;
      q := ParseName(text, p);
      var name := text[p..q];
      assert s[|name|..] == text[q..] && At(s, |name|) == At(text, q);
      if name == [] || At(text, q) == 0 {
        return None, q;
      }
      var nameEnd := q;
      NameValue(s, name);
      SetSpan(p, q, NO_FLAGS);
      ghost var named := spans;
      var r := SkipSpaces(q);
      ReadOn(p, q, r, line, line);
      ghost var afterName := text[r..];
      assert At(afterName, 0) == At(text, r);
      if At(text, r) != EQUALS {
        return None, r;
      }
      Step(p, r, line);
      assert afterName[1..] == text[r + 1..];
      ghost var middle := parseCurLineNum;
      var value;
      value, q := ParseValue(r + 1);
      if value.None? {
        return None, r;
      }
      ReadOn(p, r + 1, q, line, middle);
      GrewTwice(text, old(spans), named, spans, [name], p, nameEnd, [value.value], r + 2, q - 1);
      assert [name] + [value.value] == [name, value.value];
      attribute := Some(Attribute(name, value.value));
    }

    /** Whether soFar has an attribute of that name: the search in XMLElement::FindAttribute. */
    static method FindAttribute(soFar: seq<Attribute>, name: Bytes) returns (found: bool)
      ensures found == HasAttribute(soFar, name)
    {
      for i := 0 to |soFar|
        invariant forall j | 0 <= j < i :: soFar[j].name != name
      {
        if soFar[i].name == name {
          return true;
        }
      }
      return false;
    }

    /** Where the first attribute can start: at p, if there is a name. */
    ghost function FirstAttribute(p: nat): nat {
      if IsNameStartChar(At(text, p)) then p else p + 1
    }

    /** XMLElement::ParseAttributes. */
    method ParseAttributes(p: nat) returns (attributes: Option<seq<Attribute>>, q: nat, sealed: bool)
      requires p <= |text|
      modifies this`parseCurLineNum, this`errorID, this`spans
      ensures match XmlParser.ParseAttributes(options, text[p..], [])
              case AttributesFail(error) => attributes == None && errorID == error
              case AttributesDone(all, rest, s) =>
                && attributes == Some(all) && sealed == s && errorID == old(errorID)
                && Read(p, q, old(parseCurLineNum)) && rest == text[q..]
                && Grew(text, old(spans), spans, AttributeValues(all), FirstAttribute(p), q - 1)
    {
      hide XmlParser.ParseAttributes, XmlParser.ParseAttribute, SkipSpace, Passed, Grew, AttributeValues, HasAttribute;
      var line := parseCurLineNum;
      var soFar: seq<Attribute> := [];
      q, sealed := p, false;
      PassedNothing(text, p, line);
      NoAttributes();
      GrewNone(text, spans, FirstAttribute(p), p - 1);
      while true
        invariant Read(p, q, line) && errorID == old(errorID)
        invariant Grew(text, old(spans), spans, AttributeValues(soFar), FirstAttribute(p), q - 1)
        invariant XmlParser.ParseAttributes(options, text[p..], [])
                  == XmlParser.ParseAttributes(options, text[q..], soFar)
        decreases |text| - q
      {
        ghost var middle := parseCurLineNum;
        var u := SkipSpaces(q);
        ReadOn(p, q, u, line, middle);
        ghost var s := text[u..];
        AttributesStep(options, text[q..], soFar, s);
        assert At(s, 0) == At(text, u) && At(s, 1) == At(text, u + 1);
        if At(text, u) == 0 {
          errorID := ErrorParsingElement;
          return None, u, false;
        }
        if IsNameStartChar(text[u]) {
          middle := parseCurLineNum;
          ghost var was := spans;
          var attribute, r := ParseAttribute(u);
          if attribute.None? {
            errorID := ErrorParsingAttribute;
            return None, u, false;
          }
          ReadOn(p, u, r, line, middle);
          var duplicate := FindAttribute(soFar, attribute.value.name);
          if duplicate {
            errorID := ErrorParsingAttribute;
            return None, u, false;
          }
          GrewTwice(text, old(spans), was, spans, AttributeValues(soFar), FirstAttribute(p), q - 1,
                    [attribute.value.name, attribute.value.value], u, r - 1);
          AttributeValuesMore(soFar, attribute.value);
          soFar := soFar + [attribute.value];
          q := r;
        } else if text[u] == GT {
          Step(p, u, line);
          assert s[1..] == text[u + 1..];
          GrewWider(text, old(spans), spans, AttributeValues(soFar), FirstAttribute(p), q - 1, FirstAttribute(p), u);
          return Some(soFar), u + 1, false;
        } else if text[u] == SLASH && At(text, u + 1) == GT {
          Step(p, u, line);
          Step(p, u + 1, line);
          assert s[2..] == text[u + 2..];
          GrewWider(text, old(spans), spans, AttributeValues(soFar), FirstAttribute(p), q - 1,
                    FirstAttribute(p), u + 1);
          return Some(soFar), u + 2, true;
        } else {
          errorID := ErrorParsingElement;
          return None, u, false;
        }
      }
    }

    /** The part of XMLElement::ParseDeep that reads one tag. */
    method ParseHead(p: nat) returns (head: Option<(Closing, Bytes, seq<Attribute>)>, q: nat)
      requires p <= |text|
      modifies this`parseCurLineNum, this`errorID, this`spans
      ensures match XmlParser.ParseHead(options, text[p..])
              case HeadFail(error) => head == None && errorID == if error == Success then old(errorID) else error
              case Head(closing, name, attributes, rest) =>
                && head == Some((closing, name, attributes)) && errorID == old(errorID)
                && Read(p, q, old(parseCurLineNum)) && rest == text[q..]
                && Grew(text, old(spans), spans, [name] + AttributeValues(attributes), p, q - 1)
    {
      hide XmlParser.ParseAttributes, SkipSpace, LeadingName, Passed, Grew, AttributeValues, StrValue;
      var line := parseCurLineNum;
      q := SkipSpaces(p);
      ghost var s := text[q..];
      assert At(s, 0) == At(text, q);
      var closing := At(text, q) == SLASH;
      if closing {
        Step(p, q, line);
        q := q + 1;
        assert s[1..] == text[q..];
      }
      var end := ParseName(text, q);
      var name := text[q..end];
      if name == [] {
        return None, q;
      }
      assert text[q..][|name|..] == text[end..];
      ReadOn(p, q, end, line, parseCurLineNum);
      ghost var middle := parseCurLineNum;
      NameValue(text[q..], name);
      SetSpan(q, end, NO_FLAGS);
      GrewWider(text, old(spans), spans, [name], q, end, p, end);
      ghost var named := spans;
      var attributes, r, sealed := ParseAttributes(end);
      if attributes.None? {
        return None, q;
      }
      ReadOn(p, end, r, line, middle);
      NameEnds(q, end);
      GrewTwice(text, old(spans), named, spans, [name], p, end, AttributeValues(attributes.value), end + 1, r - 1);
      q := r;
      head := Some((if sealed then Closed else if closing then ClosingTag else Open, name, attributes.value));
    }

    /** No name starts where a name ends. */
    lemma NameEnds(q: nat, end: nat)
      requires q <= end <= |text| && text[q..end] == LeadingName(text[q..]) && q < end
      ensures FirstAttribute(end) == end + 1
    {
      var s := text[q..];
      assert LeadingName(s) == NameChars(s);
      assert At(s, end - q) == At(text, end);
    }

    /** The counters that a DepthTracker keeps. */
    ghost predicate DepthOk()
      reads this
    {
      parsingDepth <= peakDepth <= MAX_ELEMENT_DEPTH
    }

    /** XMLElement::ParseDeep. */
    method ParseElement(p: nat) returns (e: Option<(Closing, Node, Option<Bytes>)>, q: nat)
      requires p <= |text| && errorID == Success && DepthOk() && parsingDepth < MAX_ELEMENT_DEPTH
      modifies this`parseCurLineNum, this`errorID, this`parsingDepth, this`peakDepth, this`spans
      ensures parsingDepth == old(parsingDepth) && DepthOk()
      ensures match XmlParser.ParseElement(options, text[p..], parsingDepth)
              case ElementFail(error) => e == None && errorID == error
              case ElementDone(closing, node, rest, endTag) =>
                && e == Some((closing, node, endTag)) && errorID == Success
                && Read(p, q, old(parseCurLineNum)) && rest == text[q..]
                && Grew(text, old(spans), spans, ValuesOf(node), p, q - 1)
      ensures e.Some? && old(AtLine(p)) ==> AtLine(q)
      decreases |text| - p, 0
    {
      hide XmlParser.ParseHead, Passed, XmlParser.ParseNodes, Grew, AttributeValues, ValuesOfAll;
      var line := parseCurLineNum;
      var head, r := ParseHead(p);
      if head.None? {
        return None, p;
      }
      var (closing, name, attributes) := head.value;
      assert At(text[r..], 0) == At(text, r);
      ElementValues(name, attributes, []);
      if At(text, r) == 0 || closing != Open {
        RightAgain(p, r, line);
        return Some((closing, Element(name, attributes, []), None)), r;
      }
      ghost var middle, was := parseCurLineNum, spans;
      var nodes, endTag, u := ParseNodes(r, false);
      if endTag.None? {
        return None, p;
      }
      ReadOn(p, r, u, line, middle);
      RightAgain(p, u, line);
      ElementValues(name, attributes, nodes);
      GrewTwice(text, old(spans), was, spans, [name] + AttributeValues(attributes), p, r - 1,
                ValuesOfAll(nodes), r, u - 1);
      return Some((Open, Element(name, attributes, nodes), endTag)), u;
    }

    /**
     XMLNode::ParseDeep. The depth counter is restored on every return, and never exceeds its limit.
     */
    method ParseNodes(p: nat, inDocument: bool) returns (nodes: seq<Node>, endTag: Option<Bytes>, q: nat)
      requires p <= |text| && errorID == Success && DepthOk() && parsingDepth < MAX_ELEMENT_DEPTH
      modifies this`parseCurLineNum, this`errorID, this`parsingDepth, this`peakDepth, this`spans
      ensures parsingDepth == old(parsingDepth) && DepthOk()
      ensures var r := XmlParser.ParseNodes(options, text[p..], parsingDepth, inDocument);
              && nodes == r.nodes
              && match r.stop
                 case AtNull(error) =>
                   && endTag == None && errorID == error
                   && (error == Success ==> Read(p, q, old(parseCurLineNum)) && At(text, q) == 0)
                 case AtEndTag(rest, name) =>
                   && endTag == Some(name) && errorID == Success
                   && Read(p, q, old(parseCurLineNum)) && rest == text[q..]
      ensures errorID == Success ==>
                Grew(text, old(spans), spans, ValuesOfAll(nodes), p, if endTag.Some? then q - 1 else |text|)
      ensures errorID == Success && old(AtLine(p)) ==> AtLine(q)
      decreases |text| - p, 3
    {
      hide XmlParser.ParseSiblings, Passed, Grew, ValuesOfAll;
      parsingDepth := parsingDepth + 1;
      peakDepth := if parsingDepth > peakDepth then parsingDepth else peakDepth;
      if parsingDepth == MAX_ELEMENT_DEPTH {
        errorID := ErrorDepthExceeded;
      }
      nodes, endTag, q := [], None, p;
      if errorID == Success {
        nodes, endTag, q := ParseSiblings(p, inDocument);
      }
      parsingDepth := parsingDepth - 1;
    }

    /** One turn of the loop of XMLNode::ParseDeep, for an element. The strings of an end tag go with its node. */
    method ParseChildElement(p: nat) returns (node: Option<Node>, endTag: Option<Bytes>, q: nat)
      requires p <= |text| && errorID == Success && DepthOk() && parsingDepth < MAX_ELEMENT_DEPTH
      modifies this`parseCurLineNum, this`errorID, this`parsingDepth, this`peakDepth, this`spans
      ensures parsingDepth == old(parsingDepth) && DepthOk()
      ensures var e := XmlParser.ParseElement(options, text[p..], parsingDepth);
              if e.ElementFail? then node == None && endTag == None && errorID == OrParsingError(e.error)
              else if e.closing == ClosingTag then
                && endTag == Some(e.node.name) && errorID == Success && spans == old(spans)
                && Read(p, q, old(parseCurLineNum)) && e.rest == text[q..]
              else if Mismatch(e) then node == None && endTag == None && errorID == ErrorMismatchedElement
              else
                && node == Some(e.node) && endTag == None && errorID == Success
                && Read(p, q, old(parseCurLineNum)) && e.rest == text[q..]
                && Grew(text, old(spans), spans, ValuesOf(e.node), p, q - 1)
      decreases |text| - p, 1
    {
      hide XmlParser.ParseElement, Passed, Grew, ValuesOf;
      var was := spans;
      var e, r := ParseElement(p);
      node, endTag, q := None, None, r;
      if e.None? {
        if errorID == Success {
          errorID := ErrorParsing;
        }
        return;
      }
      var (closing, element, tag) := e.value;
      if closing == ClosingTag {
        spans := was;
        endTag := Some(element.name);
        return;
      }
      var mismatch := if tag.None? then closing == Open else closing != Open || tag.value != element.name;
      if mismatch {
        errorID := ErrorMismatchedElement;
        return;
      }
      node := Some(element);
    }

    /** One turn of the loop of XMLNode::ParseDeep, for a node that is no element. */
    method ParseChildLeaf(kind: Kind, p: nat, soFar: seq<Node>, inDocument: bool) returns (node: Option<Node>, q: nat)
      requires p <= |text| && kind != ElementKind && errorID == Success
      modifies this`parseCurLineNum, this`errorID, this`spans
      ensures match XmlParser.ParseLeaf(options, kind, text[p..])
              case LeafFail(error) => node == None && errorID == OrParsingError(error)
              case Leaf(leaf, rest) =>
                if leaf.Declaration? && !WellLocated(inDocument, soFar)
                then node == None && errorID == ErrorParsingDeclaration
                else
                  && node == Some(leaf) && errorID == Success
                  && Read(p, q, old(parseCurLineNum)) && rest == text[q..]
                  && Grew(text, old(spans), spans, ValuesOf(leaf), p, if kind == TextKind(false) then q else q - 1)
                  && (kind == TextKind(false) ==> At(text, q) == LT)
    {
      hide XmlParser.ParseLeaf, Passed, Grew, ValuesOf;
      node, q := ParseLeaf(kind, p);
      if node.None? {
        if errorID == Success {
          errorID := ErrorParsing;
        }
      } else if node.value.Declaration? && !WellLocated(inDocument, soFar) {
        errorID := ErrorParsingDeclaration;
        node := None;
      }
    }

    /** The loop of XMLNode::ParseDeep. */
    method ParseSiblings(p: nat, inDocument: bool) returns (nodes: seq<Node>, endTag: Option<Bytes>, q: nat)
      requires p <= |text| && errorID == Success && DepthOk() && parsingDepth < MAX_ELEMENT_DEPTH
      modifies this`parseCurLineNum, this`errorID, this`parsingDepth, this`peakDepth, this`spans
      ensures parsingDepth == old(parsingDepth) && DepthOk()
      ensures var r := XmlParser.ParseSiblings(options, text[p..], parsingDepth, inDocument, true, []);
              && nodes == r.nodes
              && match r.stop
                 case AtNull(error) =>
                   && endTag == None && errorID == error
                   && (error == Success ==> Read(p, q, old(parseCurLineNum)) && At(text, q) == 0)
                 case AtEndTag(rest, name) =>
                   && endTag == Some(name) && errorID == Success
                   && Read(p, q, old(parseCurLineNum)) && rest == text[q..]
      ensures errorID == Success ==>
                Grew(text, old(spans), spans, ValuesOfAll(nodes), p, if endTag.Some? then q - 1 else |text|)
      ensures errorID == Success && old(AtLine(p)) ==> AtLine(q)
      decreases |text| - p, 2
    {
      hide XmlParser.ParseSiblings, XmlParser.ParseElement, XmlParser.ParseLeaf, XmlParser.Identify;
      hide Passed, Grew, ValuesOf, ValuesOfAll, WellLocated, OrParsingError, Mismatch;
      var line := parseCurLineNum;
      ghost var depth := parsingDepth;
      nodes, q := [], p;
      var first := true;
      PassedNothing(text, p, line);
      ghost var last: int := p - 1;
      NoNodes();
      GrewNone(text, spans, p, last);
      while At(text, q) != 0
        invariant Read(p, q, line) && errorID == Success && DepthOk() && parsingDepth == depth
        invariant Grew(text, old(spans), spans, ValuesOfAll(nodes), p, last)
        invariant last < q || (last == q && !first && At(text, q) == LT)
        invariant XmlParser.ParseSiblings(options, text[p..], depth, inDocument, true, [])
               == XmlParser.ParseSiblings(options, text[q..], depth, inDocument, first, nodes)
        decreases |text| - q
      {
        assert At(text[q..], 0) == At(text, q);
        ghost var middle, was := parseCurLineNum, spans;
        var kind, u := Identify(q, first);
        if kind.None? {
          SiblingsEnd(options, text[q..], depth, inDocument, first, nodes);
          ReadOn(p, q, u, line, middle);
          RightAgain(p, u, line);
          GrewWider(text, old(spans), spans, ValuesOfAll(nodes), p, last, p, |text|);
          return nodes, None, u;
        }
        IdentifyMarkup(options, text[q..], first);
        ReadOn(p, q, u, line, middle);
        middle := parseCurLineNum;
        if kind.value == ElementKind {
          SiblingsElement(options, text[q..], depth, inDocument, first, nodes, text[u..]);
          var node, tag, r := ParseChildElement(u);
          if tag.Some? {
            ReadOn(p, u, r, line, middle);
            RightAgain(p, r, line);
            GrewWider(text, old(spans), spans, ValuesOfAll(nodes), p, last, p, r - 1);
            return nodes, tag, r;
          }
          if node.None? {
            return nodes, None, q;
          }
          ReadOn(p, u, r, line, middle);
          GrewTwice(text, old(spans), was, spans, ValuesOfAll(nodes), p, last, ValuesOf(node.value), u, r - 1);
          ValuesOfMore(nodes, node.value);
          nodes, q, last, first := nodes + [node.value], r, r - 1, false;
        } else {
          SiblingsLeaf(options, text[q..], depth, inDocument, first, nodes, kind.value, text[u..]);
          var node, r := ParseChildLeaf(kind.value, u, nodes, inDocument);
          if node.None? {
            return nodes, None, q;
          }
          ReadOn(p, u, r, line, middle);
          ghost var hi := if kind.value == TextKind(false) then r else r - 1;
          GrewTwice(text, old(spans), was, spans, ValuesOfAll(nodes), p, last, ValuesOf(node.value), u, hi);
          ValuesOfMore(nodes, node.value);
          nodes, q, last, first := nodes + [node.value], r, hi, false;
        }
      }
      assert At(text[q..], 0) == At(text, q);
      SiblingsEnd(options, text[q..], depth, inDocument, first, nodes);
      RightAgain(p, q, line);
      GrewWider(text, old(spans), spans, ValuesOfAll(nodes), p, last, p, |text|);
      return nodes, None, q;
    }

    /** XMLUtil::SkipWhiteSpace and XMLUtil::ReadBOM. */
    method SkipToBody() returns (p: nat)
      modifies this`parseCurLineNum, this`hasBom
      ensures AtLine(p) && text[p..] == Body(text) && hasBom == HasBom(text)
    {
      hide Passed, SkipSpace;
      parseCurLineNum := 1;
      p := SkipSpaces(0);
      assert text[0..] == text;
      hasBom := BOM <= text[p..];
      if hasBom {
        assert text[p..][3..] == text[p + 3..];
        PassedHeader(text, p, 3, parseCurLineNum);
        ReadOn(0, p, p + 3, 1, parseCurLineNum);
        p := p + 3;
      }
    }

    /**
     XMLDocument::Parse. On every text it terminates, leaves the depth counter at zero after at most
     500 nested frames, and yields the document that XmlParser.ParseDocument describes. If it succeeds,
     the line counter is one more than the line feeds of the C string, or of its part up to the end of
     the stray end tag at which it stopped.
     */
    method Parse()
      requires parsingDepth == 0 && peakDepth == 0 && errorID == Success && children == [] && spans == []
      modifies this
      ensures parsingDepth == 0 && peakDepth <= MAX_ELEMENT_DEPTH
      ensures Document(errorID, children, hasBom) == ParseDocument(options, text)
      ensures errorID == Success ==> Tidy(spans, 0, |text|) && Shown(text, spans) == ValuesOfAll(children)
      ensures errorID == Success ==>
                match XmlParser.ParseNodes(options, Body(text), 0, true).stop
                case AtNull(_) => parseCurLineNum == 1 + Newlines(CString(text))
                case AtEndTag(rest, _) =>
                  IsRest(rest, text) && parseCurLineNum == 1 + Newlines(text[..|text| - |rest|])
    {
      hide XmlParser.ParseNodes, Passed, CString, ValuesOfAll, Shown, Tidy, Grew, Body, HasBom;
      var p := SkipToBody();
      assert At(text[p..], 0) == At(text, p);
      if At(text, p) == 0 {
        errorID := ErrorEmptyDocument;
        return;
      }
      var nodes, endTag, q := ParseNodes(p, true);
      children := if errorID == Success then nodes else [];
      if errorID == Success {
        GrewWider(text, [], spans, ValuesOfAll(nodes), p, if endTag.Some? then q - 1 else |text|, 0, |text|);
        GrewFromNothing(text, spans, ValuesOfAll(nodes), 0, |text|);
        if endTag.Some? {
          PassedUpTo(text, q, 1, parseCurLineNum);
        } else {
          PassedAll(text, q, 1, parseCurLineNum);
        }
      }
    }
  }
}
