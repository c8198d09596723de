/** Every text that is parsed without an error is one of the grammar, and stands for the nodes it is parsed into. */
module XmlSound {
  import opened Bytes
  import opened Decoding
  import opened Scanning
  import opened XmlParser
  import opened XmlGrammar
  import opened XmlAccepts

  // ---- White space and tags found --------------------------------------------------------------

  lemma {:induction false} SpaceSplit(s: Bytes) returns (gap: Bytes)
    ensures AllWhiteSpace(gap) && s == gap + SkipSpace(s)
  {
    gap := [];
    if s != [] && IsWhiteSpace(s[0]) {
      var more := SpaceSplit(s[1..]);
      gap := [s[0]] + more;
      assert s == [s[0]] + s[1..];
    }
  }

  lemma {:induction false} FindTagSound(s: Bytes, tag: Bytes)
    requires tag != [] && FindTag(s, tag).Some?
    ensures var i := FindTag(s, tag).value;
            tag <= s[i..] && 0 !in s[..i] && forall j | 0 <= j < i :: !(tag <= s[j..])
  {
    var i := FindTag(s, tag).value;
    assert s[0..] == s;
    if i > 0 {
      FindTagSound(s[1..], tag);
      assert s[1..][i - 1..] == s[i..] && s[..i] == [s[0]] + s[1..][..i - 1];
      forall j | 0 <= j < i ensures !(tag <= s[j..]) {
        if j > 0 {
          assert s[1..][j - 1..] == s[j..];
        }
      }
    }
  }

  /** The text before a tag that was found. */
  lemma {:induction false} FoundSplit(s: Bytes, tag: Bytes) returns (raw: Bytes, rest: Bytes)
    requires tag != [] && FindTag(s, tag).Some?
    ensures var i := FindTag(s, tag).value; raw == s[..i] && rest == s[i + |tag|..]
    ensures s == raw + (tag + rest) && 0 !in raw && OnlyAtEnd(raw, tag)
  {
    hide FindTag;
    var i := FindTag(s, tag).value;
    FindTagSound(s, tag);
    raw, rest := s[..i], s[i + |tag|..];
    assert s[i..] == tag + rest;
    var t := raw + tag;
    assert t + rest == s;
    forall j | 0 <= j < |raw| ensures !(tag <= t[j..]) {
      PrefixShared(t, rest, tag, j);
    }
  }

  lemma {:induction false} ByteFoundSplit(s: Bytes, c: byte) returns (raw: Bytes, rest: Bytes)
    requires FindTag(s, [c]).Some?
    ensures var i := FindTag(s, [c]).value; raw == s[..i] && rest == s[i + 1..]
    ensures s == raw + ([c] + rest) && 0 !in raw && c !in raw
  {
    hide FindTag, OnlyAtEnd;
    raw, rest := FoundSplit(s, [c]);
    forall j | 0 <= j < |raw| ensures raw[j] != c {
      NotAtEnd(raw, c, j);
    }
  }

  lemma {:induction false} NotAtEnd(raw: Bytes, c: byte, j: nat)
    requires OnlyAtEnd(raw, [c]) && j < |raw|
    ensures raw[j] != c
  {
    assert (raw + [c])[j..][0] == raw[j];
  }

  // ---- Attributes -----------------------------------------------------------------------------

  lemma {:induction false} ValueDerived(o: Options, s: Bytes) returns (after: Bytes, quote: byte, raw: Bytes)
    requires ParseValue(o, s).ValueDone?
    ensures var r := ParseValue(o, s);
            && AllWhiteSpace(after) && (quote == DQUOTE || quote == APOS) && quote !in raw && 0 !in raw
            && s == after + ([quote] + (raw + ([quote] + r.rest)))
            && r.value == StrValue(raw, Flags(o.processEntities, true, false))
  {
    hide SkipSpace, FindTag, StrValue;
    after := SpaceSplit(s);
    var quoted := SkipSpace(s);
    quote := quoted[0];
    var body := quoted[1..];
    var rest;
    raw, rest := ByteFoundSplit(body, quote);
    assert quoted == [quote] + body;
  }

  lemma {:induction false} AttributeDerived(o: Options, s: Bytes) returns (a: RawAttribute)
    requires ParseAttribute(o, s).AttributeDone?
    ensures var r := ParseAttribute(o, s);
            AttributeOk(a) && a.gap == [] && s == PutAttribute(a, r.rest) && AttributeMeaning(o, a) == r.attribute
  {
    hide SkipSpace, ParseValue, LeadingName, StrValue;
    var name := LeadingName(s);
    var tail := s[|name|..];
    var before := SpaceSplit(tail);
    var afterName := SkipSpace(tail);
    var after, quote, raw := ValueDerived(o, afterName[1..]);
    a := RawAttribute([], name, before, after, quote, raw);
    assert afterName == [EQUALS] + afterName[1..];
    assert s == name + tail;
  }

  /** The attributes that s begins with, and the white space after them. */
  ghost predicate AttributesAre(o: Options, s: Bytes, soFar: seq<Attribute>,
                                attributes: seq<RawAttribute>, end: Bytes, r: AttributesResult)
    requires r.AttributesDone?
  {
    && s == PutAttributes(attributes, end + ((if r.sealed then SEALED_END else TAG_END) + r.rest))
    && r.attributes == soFar + AttributesMeaning(o, attributes)
    && AllWhiteSpace(end) && NewNames(soFar, attributes)
    && (forall i | 0 <= i < |attributes| :: AttributeOk(attributes[i]))
    && (forall i, j | 0 <= i < j < |attributes| :: attributes[i].name != attributes[j].name)
  }

  lemma {:induction false} NoneAre(o: Options, s: Bytes, soFar: seq<Attribute>, gap: Bytes, sealed: bool, rest: Bytes)
    requires AllWhiteSpace(gap) && s == gap + ((if sealed then SEALED_END else TAG_END) + rest)
    ensures AttributesAre(o, s, soFar, [], gap, AttributesDone(soFar, rest, sealed))
  {
    assert soFar + [] == soFar;
  }

  lemma {:induction false} OneMoreIs(o: Options, s: Bytes, soFar: seq<Attribute>, b: RawAttribute, after: Bytes,
                                     more: seq<RawAttribute>, end: Bytes, r: AttributesResult)
    requires r.AttributesDone? && AttributeOk(b) && s == b.gap + PutAttribute(b, after)
    requires forall i | 0 <= i < |soFar| :: soFar[i].name != b.name
    requires AttributesAre(o, after, soFar + [AttributeMeaning(o, b)], more, end, r)
    ensures AttributesAre(o, s, soFar, [b] + more, end, r)
  {
    hide PutAttribute, AttributeMeaning, AttributeOk, NewNames;
    var all, x := [b] + more, AttributeMeaning(o, b);
    MeaningName(o, b);
    NewNamesSplit(soFar, x, b, more);
    assert all[0] == b && all[1..] == more;
    assert (soFar + [x]) + AttributesMeaning(o, more) == soFar + AttributesMeaning(o, all);
    assert forall j | 1 <= j < |all| :: all[j] == more[j - 1];
  }

  lemma {:induction false} AttributesDerived(o: Options, s: Bytes, soFar: seq<Attribute>)
    returns (attributes: seq<RawAttribute>, end: Bytes)
    requires ParseAttributes(o, s, soFar).AttributesDone?
    ensures AttributesAre(o, s, soFar, attributes, end, ParseAttributes(o, s, soFar))
    decreases |s|
  {
    hide SkipSpace, ParseAttribute, ParseAttributes, PutAttribute, AttributeMeaning, AttributeOk, HasAttribute;
    hide AttributesAre, PutAttributes, NewNames, AttributesMeaning;
    var p := SkipSpace(s);
    AttributesStep(o, s, soFar, p);
    var gap := SpaceSplit(s);
    attributes, end := [], gap;
    if IsNameStartChar(p[0]) {
      var a := AttributeDerived(o, p);
      var r := ParseAttribute(o, p);
      var b := a.(gap := gap);
      GapGiven(o, a, gap, r.rest);
      MeaningName(o, a);
      NoAttribute(soFar, r.attribute.name);
      var more;
      more, end := AttributesDerived(o, r.rest, soFar + [r.attribute]);
      attributes := [b] + more;
      OneMoreIs(o, s, soFar, b, r.rest, more, end, ParseAttributes(o, r.rest, soFar + [r.attribute]));
    } else if p[0] == GT {
      assert p == TAG_END + p[1..];
      NoneAre(o, s, soFar, gap, false, p[1..]);
    } else {
      assert p == SEALED_END + p[2..];
      NoneAre(o, s, soFar, gap, true, p[2..]);
    }
  }

  lemma {:induction false} GapGiven(o: Options, a: RawAttribute, gap: Bytes, rest: Bytes)
    requires AttributeOk(a) && AllWhiteSpace(gap)
    ensures var b := a.(gap := gap);
            && AttributeOk(b) && PutAttribute(b, rest) == PutAttribute(a, rest)
            && AttributeMeaning(o, b) == AttributeMeaning(o, a)
  {
  }

  lemma {:induction false} NoAttribute(soFar: seq<Attribute>, name: Bytes)
    ensures !HasAttribute(soFar, name) <==> forall i | 0 <= i < |soFar| :: soFar[i].name != name
  {
  }

  lemma {:induction false} NewNamesSplit(soFar: seq<Attribute>, x: Attribute, b: RawAttribute, more: seq<RawAttribute>)
    requires NewNames(soFar + [x], more) && x.name == b.name && forall i | 0 <= i < |soFar| :: soFar[i].name != x.name
    ensures NewNames(soFar, [b] + more) && forall j | 0 <= j < |more| :: more[j].name != b.name
  {
    var all := soFar + [x];
    assert all[|soFar|] == x;
    assert forall i | 0 <= i < |soFar| :: all[i] == soFar[i];
    assert forall j | 1 <= j < |more| + 1 :: ([b] + more)[j] == more[j - 1];
  }

  // ---- Tags -----------------------------------------------------------------------------------

  lemma {:induction false} AttributeStart(attributes: seq<RawAttribute>, rest: Bytes)
    requires attributes != [] && AttributeOk(attributes[0])
    ensures var u := PutAttributes(attributes, rest); u != [] && (IsNameChar(u[0]) <==> attributes[0].gap == [])
  {
    var a, u := attributes[0], PutAttributes(attributes, rest);
    assert u[0] == if a.gap == [] then a.name[0] else a.gap[0];
  }

  /** A name ends where no name character follows, so that an attribute is set off from it. */
  lemma {:induction false} FirstGap(q: Bytes, name: Bytes, attributes: seq<RawAttribute>, rest: Bytes)
    requires name == LeadingName(q) != [] && q[|name|..] == PutAttributes(attributes, rest)
    requires forall i | 0 <= i < |attributes| :: AttributeOk(attributes[i])
    ensures attributes != [] ==> attributes[0].gap != []
  {
    if attributes != [] {
      AttributeStart(attributes, rest);
      var u := q[|name|..];
      hide PutAttributes, AttributeOk;
      assert name == NameChars(q) && q[|name|] == u[0];
    }
  }

  /** A name and the attributes after it make a tag. */
  lemma {:induction false} TagMade(o: Options, space: Bytes, slash: bool, q: Bytes, name: Bytes,
                                   attributes: seq<RawAttribute>, end: Bytes, r: AttributesResult)
    requires AllWhiteSpace(space) && name == LeadingName(q) != [] && r.AttributesDone?
    requires AttributesAre(o, q[|name|..], [], attributes, end, r)
    ensures var t, close := Tag([], space, slash, name, attributes, end), if r.sealed then SEALED_END else TAG_END;
            && TagOk(t) && q == name + PutAttributes(attributes, end + (close + r.rest))
            && r.attributes == AttributesMeaning(o, attributes)
  {
    hide LeadingName, PutAttributes, AttributeOk, AttributesMeaning, NewNames;
    var close := if r.sealed then SEALED_END else TAG_END;
    FirstGap(q, name, attributes, end + (close + r.rest));
    assert q == name + q[|name|..];
    assert [] + AttributesMeaning(o, attributes) == AttributesMeaning(o, attributes);
  }

  lemma {:induction false} HeadDerived(o: Options, s: Bytes) returns (t: Tag, close: Bytes)
    requires ParseHead(o, s).Head?
    ensures var r := ParseHead(o, s);
            && TagOk(t) && t.gap == [] && (close == TAG_END || close == SEALED_END)
            && s == PutHead(t, close, r.rest) && r.closing == ClosingOf(t.slash, close)
            && r.name == t.name && r.attributes == AttributesMeaning(o, t.attributes)
  {
    hide SkipSpace, ParseAttributes, LeadingName, PutAttributes, AttributesMeaning, AttributesAre, TagOk;
    var space := SpaceSplit(s);
    var p := SkipSpace(s);
    var slash := At(p, 0) == SLASH;
    var q := if slash then p[1..] else p;
    var name := LeadingName(q);
    var u := q[|name|..];
    var attributes, end := AttributesDerived(o, u, []);
    var r := ParseAttributes(o, u, []);
    close := if r.sealed then SEALED_END else TAG_END;
    t := Tag([], space, slash, name, attributes, end);
    TagMade(o, space, slash, q, name, attributes, end, r);
    assert p == (if slash then [SLASH] else []) + q;
  }

  // ---- Leaves -----------------------------------------------------------------------------------

  function MarkupOf(kind: Kind): Markup
    requires kind != ElementKind && kind != TextKind(false)
  {
    match kind
    case TextKind(_) => CDataMarkup
    case CommentKind => CommentMarkup
    case DeclarationKind => DeclarationMarkup
    case UnknownKind => UnknownMarkup
  }

  lemma {:induction false} MarkupOfFacts(kind: Kind, value: Bytes)
    requires kind != ElementKind && kind != TextKind(false)
    ensures EndOf(kind) == Ending(MarkupOf(kind)) != [] && LeafOf(kind, value) == MarkupMeaning(MarkupOf(kind), value)
  {
  }

  /** What Identify says about markup. */
  lemma {:induction false} MarkupStarts(o: Options, s: Bytes, first: bool) returns (gap: Bytes)
    requires Identify(o, s, first).Found?
    requires var kind := Identify(o, s, first).kind; kind != ElementKind && kind != TextKind(false)
    ensures var r := Identify(o, s, first);
            && AllWhiteSpace(gap) && s == gap + (Header(MarkupOf(r.kind)) + r.rest)
            && (r.kind == UnknownKind ==>
                  !(COMMENT_HEADER <= UNKNOWN_HEADER + r.rest) && !(CDATA_HEADER <= UNKNOWN_HEADER + r.rest))
  {
    gap := SpaceSplit(s);
    var p := SkipSpace(s);
    hide SkipSpace;
    var r := Identify(o, s, first);
    assert p == Header(MarkupOf(r.kind)) + r.rest;
  }

  /** What it says about tags. */
  lemma {:induction false} TagStarts(o: Options, s: Bytes, first: bool) returns (gap: Bytes)
    requires Identify(o, s, first).Found? && Identify(o, s, first).kind == ElementKind
    ensures var rest := Identify(o, s, first).rest;
            && AllWhiteSpace(gap) && s == gap + ([LT] + rest)
            && !(o.whitespace == PedanticWhitespace && first && gap != [] && At(rest, 0) == SLASH)
  {
    gap := SpaceSplit(s);
    var p := SkipSpace(s);
    hide SkipSpace;
    assert p == [LT] + p[1..] && At(p, 1) == At(p[1..], 0);
    assert |p| != |s| <==> gap != [];
  }

  /** What it says about text. */
  lemma {:induction false} TextStarts(o: Options, s: Bytes, first: bool, i: nat)
    requires Identify(o, s, first) == Found(TextKind(false), s) && FindTag(s, [LT]) == Some(i)
    ensures var raw := s[..i];
            && raw != [] && 0 !in raw && LT !in raw && s == raw + s[i..] && At(s, i) == LT
            && (AllWhiteSpace(raw) ==> o.whitespace == PedanticWhitespace && first && At(s, i + 1) == SLASH)
  {
    hide FindTag;
    var raw, rest := ByteFoundSplit(s, LT);
    assert s[i..] == [LT] + rest;
    var p := [LT] + rest;
    assert At(s, i + 1) == At(p, 1);
    assert !([LT] <= s) ==> raw != [] by {
      assert raw == [] ==> s == p;
    }
    if AllWhiteSpace(raw) {
      SkipGap(raw, p);
      hide SkipSpace;
      assert p[0] == LT;
    }
  }

  lemma {:induction false} LeafSplit(o: Options, kind: Kind, s: Bytes) returns (raw: Bytes, rest: Bytes)
    requires kind != ElementKind && kind != TextKind(false) && ParseLeaf(o, kind, s).Leaf?
    ensures var m := MarkupOf(kind); var leaf := ParseLeaf(o, kind, s);
            && s == raw + (Ending(m) + rest) && 0 !in raw && OnlyAtEnd(raw, Ending(m)) && leaf.rest == rest
            && leaf.node == MarkupMeaning(m, StrValue(raw, NEWLINES_ONLY))
  {
    hide FindTag, StrValue, OnlyAtEnd, EndOf, LeafOf, MarkupMeaning;
    MarkupOfFacts(kind, StrValue(s[..FindTag(s, EndOf(kind)).value], NEWLINES_ONLY));
    raw, rest := FoundSplit(s, EndOf(kind));
  }

  lemma {:induction false} IsIt(m: Markup, value: Bytes)
    ensures MarkupMeaning(m, value).Declaration? <==> m == DeclarationMarkup
  {
  }

  lemma {:induction false} MarkupDerived(o: Options, s: Bytes, first: bool) returns (r: Raw)
    requires Identify(o, s, first).Found?
    requires var kind := Identify(o, s, first).kind; kind != ElementKind && kind != TextKind(false)
    requires var f := Identify(o, s, first); ParseLeaf(o, f.kind, f.rest).Leaf?
    ensures var f := Identify(o, s, first); var leaf := ParseLeaf(o, f.kind, f.rest);
            && r.RawMarkup? && RawOk(o, r) && s == Put(r, leaf.rest) && Meaning(o, r) == leaf.node
            && (IsDeclaration(r) <==> leaf.node.Declaration?)
  {
    hide FindTag, StrValue, Identify, OnlyAtEnd, Header, Ending, EndOf, LeafOf, ParseLeaf, MarkupMeaning;
    var f := Identify(o, s, first);
    var gap := MarkupStarts(o, s, first);
    var m := MarkupOf(f.kind);
    var raw, rest := LeafSplit(o, f.kind, f.rest);
    r := RawMarkup(gap, m, raw);
    if m == UnknownMarkup {
      UnknownMarks(raw, Ending(m) + rest, f.rest);
    }
    IsIt(m, StrValue(raw, NEWLINES_ONLY));
  }

  lemma {:induction false} UnknownMarks(raw: Bytes, tail: Bytes, body: Bytes)
    requires body == raw + tail
    requires !(COMMENT_HEADER <= UNKNOWN_HEADER + body) && !(CDATA_HEADER <= UNKNOWN_HEADER + body)
    ensures !(TWO_DASHES <= raw) && !(CDATA_MARK <= raw)
  {
    MarkBoth(TWO_DASHES, body);
    assert UNKNOWN_HEADER + TWO_DASHES == COMMENT_HEADER;
    MarkBoth(CDATA_MARK, body);
    assert UNKNOWN_HEADER + CDATA_MARK == CDATA_HEADER;
  }

  // ---- Siblings ------------------------------------------------------------------------------------

  /** What a list of siblings was made of, and what ended it. */
  ghost predicate Derived(o: Options, s: Bytes, depth: nat, first: bool, rs: seq<Raw>, tail: Tail, rest: Bytes) {
    && s == PutAll(rs, PutTail(tail, rest)) && TailOk(tail, rest) && AllOk(o, rs, first, StartOfTail(tail))
    && forall i | 0 <= i < |rs| :: depth + Nest(rs[i]) < MAX_ELEMENT_DEPTH
  }

  /** The siblings came to an end without an error. */
  ghost predicate Ended(r: Siblings) {
    r.stop.AtEndTag? || r.stop == AtNull(Success)
  }

  ghost predicate StopIs(stop: Stop, tail: Tail, rest: Bytes) {
    match tail
    case Blank(_) => stop == AtNull(Success)
    case Stray(tag) => stop == AtEndTag(rest, tag.name)
  }

  ghost predicate NodesLead(nodes: seq<Node>) {
    forall i, j | 0 <= i < j < |nodes| && nodes[j].Declaration? :: nodes[i].Declaration?
  }

  lemma {:induction false} NoneDerived(o: Options, s: Bytes, depth: nat, first: bool)
    returns (tail: Tail, rest: Bytes)
    requires At(s, 0) == 0 || Identify(o, s, first) == Nothing
    ensures tail.Blank? && Derived(o, s, depth, first, [], tail, rest)
  {
    if At(s, 0) == 0 {
      tail, rest := Blank([]), s;
      assert [] + s == s;
    } else {
      var gap := SpaceSplit(s);
      tail, rest := Blank(gap), SkipSpace(s);
    }
  }

  /** One more node before those that follow. */
  lemma {:induction false} OneMoreDerived(o: Options, s: Bytes, depth: nat, first: bool, r: Raw, after: Bytes,
                                          rs: seq<Raw>, tail: Tail, rest: Bytes)
    requires s == Put(r, after) && Derived(o, after, depth, false, rs, tail, rest)
    requires RawOk(o, r) && Placed(o, r, first, StartOfAll(rs, StartOfTail(tail)))
    requires depth + Nest(r) < MAX_ELEMENT_DEPTH
    ensures Derived(o, s, depth, first, [r] + rs, tail, rest)
  {
    hide RawOk, Put, Nest, PutTail, TailOk, Placed;
    assert ([r] + rs)[1..] == rs;
  }

  /** White space and the end do not begin with a tag, nor does text. */
  lemma {:induction false} BlankStarts(space: Bytes, rest: Bytes)
    requires AllWhiteSpace(space) && At(rest, 0) == 0
    ensures At(space + rest, 0) != LT
  {
  }

  lemma {:induction false} WordsStart(o: Options, r: Raw, first: bool, next: Start, rest: Bytes)
    requires r.RawText? && TextPlaced(o, r.raw, first, next)
    ensures At(Put(r, rest), 0) != LT
  {
    assert (r.raw + rest)[0] == r.raw[0] && r.raw[0] in r.raw;
  }

  /** After text there is a tag. */
  lemma {:induction false} TagFollows(o: Options, s: Bytes, depth: nat, rs: seq<Raw>, tail: Tail, rest: Bytes)
    requires Derived(o, s, depth, false, rs, tail, rest) && At(s, 0) == LT
    ensures var next := StartOfAll(rs, StartOfTail(tail));
            next.TagStart? && next.gap == [] && (next.slashed <==> At(s, 1) == SLASH)
  {
    hide RawOk, PutTag, TagOk, Nest, OnlyAtEnd, TextPlaced, Put;
    if rs == [] {
      match tail
      case Blank(space) => BlankStarts(space, rest);
      case Stray(tag) =>
        TagBegins(tag, TAG_END, rest);
        TagGap(tag, TAG_END, rest);
    } else {
      var more := PutAll(rs[1..], PutTail(tail, rest));
      if rs[0].RawText? {
        WordsStart(o, rs[0], false, StartOfAll(rs[1..], StartOfTail(tail)), more);
      } else {
        PutBegins(o, rs[0], more);
        PutGap(o, rs[0], more);
      }
    }
  }

  lemma {:induction false} TagGap(t: Tag, close: Bytes, rest: Bytes)
    requires TagOk(t) && At(PutTag(t, close, rest), 0) == LT
    ensures t.gap == []
  {
    GapStart(t.gap, [LT] + PutHead(t, close, rest));
  }

  lemma {:induction false} PutGap(o: Options, r: Raw, rest: Bytes)
    requires RawOk(o, r) && !r.RawText? && At(Put(r, rest), 0) == LT
    ensures StartOf(r).gap == []
  {
    hide PutTag, PutAll, TagOk, AllOk, OnlyAtEnd;
    match r
    case RawElement(tag, kids, endTag) => TagGap(tag, TAG_END, PutAll(kids, PutTag(endTag, TAG_END, rest)));
    case RawSealed(tag) => TagGap(tag, SEALED_END, rest);
    case RawMarkup(gap, m, raw) => GapStart(gap, Header(m) + (raw + (Ending(m) + rest)));
  }

  lemma {:induction false} MayDeclareMore(o: Options, inDocument: bool, soFar: seq<Node>, r: Raw, rs: seq<Raw>)
    requires NodesLead(soFar) && MayDeclare(inDocument, soFar + [Meaning(o, r)], rs)
    requires IsDeclaration(r) ==> WellLocated(inDocument, soFar)
    ensures MayDeclare(inDocument, soFar, [r] + rs)
  {
    hide StrValue;
    var all, node := [r] + rs, Meaning(o, r);
    assert forall j | 1 <= j < |all| :: all[j] == rs[j - 1];
    var more := soFar + [node];
    assert more[|soFar|] == node && forall i | 0 <= i < |soFar| :: more[i] == soFar[i];
    if j :| 0 <= j < |rs| && IsDeclaration(rs[j]) {
      assert node.Declaration?;
    }
  }

  lemma {:induction false} NodesLeadMore(o: Options, inDocument: bool, soFar: seq<Node>, node: Node)
    requires NodesLead(soFar) && (node.Declaration? ==> WellLocated(inDocument, soFar))
    ensures NodesLead(soFar + [node])
  {
  }

  /** What was read as siblings is derived from the nodes that were read. */
  lemma {:induction false} SiblingsDerived(o: Options, s: Bytes, depth: nat, inDocument: bool, first: bool,
                                           soFar: seq<Node>)
    returns (rs: seq<Raw>, tail: Tail, rest: Bytes)
    requires depth < MAX_ELEMENT_DEPTH && NodesLead(soFar)
    requires Ended(ParseSiblings(o, s, depth, inDocument, first, soFar))
    ensures Derived(o, s, depth, first, rs, tail, rest) && MayDeclare(inDocument, soFar, rs)
    ensures var r := ParseSiblings(o, s, depth, inDocument, first, soFar);
            r.nodes == soFar + MeaningAll(o, rs) && StopIs(r.stop, tail, rest)
    decreases |s|, 1
  {
    hide ParseSiblings, ParseElement, ParseLeaf, Identify, Derived, WellLocated, Mismatch, NodesLead, StopIs, Meaning;
    if At(s, 0) == 0 || Identify(o, s, first) == Nothing {
      rs := [];
      tail, rest := NoneDerived(o, s, depth, first);
      SiblingsEnd(o, s, depth, inDocument, first, soFar);
      assert soFar + MeaningAll(o, []) == soFar;
      BlankStop(tail, rest);
    } else {
      var f := Identify(o, s, first);
      if f.kind == ElementKind {
        SiblingsElement(o, s, depth, inDocument, first, soFar, f.rest);
        var e := ParseElement(o, f.rest, depth);
        if e.closing == ClosingTag {
          rs, tail, rest := StrayDerived(o, s, depth, first);
          assert soFar + MeaningAll(o, []) == soFar;
        } else {
          var r := ElementDerived(o, s, depth, first);
          NodesLeadMore(o, inDocument, soFar, e.node);
          var more;
          more, tail, rest := SiblingsDerived(o, e.rest, depth, inDocument, false, soFar + [e.node]);
          rs := [r] + more;
          PlacedAnyway(o, r, first, StartOfAll(more, StartOfTail(tail)));
          OneMoreDerived(o, s, depth, first, r, e.rest, more, tail, rest);
          MayDeclareMore(o, inDocument, soFar, r, more);
          assert soFar + [e.node] + MeaningAll(o, more) == soFar + MeaningAll(o, rs);
        }
      } else {
        SiblingsLeaf(o, s, depth, inDocument, first, soFar, f.kind, f.rest);
        var leaf := ParseLeaf(o, f.kind, f.rest);
        LeafShorter(o, s, first);
        NodesLeadMore(o, inDocument, soFar, leaf.node);
        var more;
        more, tail, rest := SiblingsDerived(o, leaf.rest, depth, inDocument, false, soFar + [leaf.node]);
        var r := LeafDerived(o, s, depth, first, more, tail, rest);
        rs := [r] + more;
        MayDeclareMore(o, inDocument, soFar, r, more);
        assert soFar + [leaf.node] + MeaningAll(o, more) == soFar + MeaningAll(o, rs);
      }
    }
  }

  lemma {:induction false} BlankStop(tail: Tail, rest: Bytes)
    requires tail.Blank?
    ensures StopIs(AtNull(Success), tail, rest)
  {
  }

  lemma {:induction false} LeafShorter(o: Options, s: Bytes, first: bool)
    requires Identify(o, s, first).Found? && Identify(o, s, first).kind != ElementKind
    requires var f := Identify(o, s, first); ParseLeaf(o, f.kind, f.rest).Leaf?
    ensures var f := Identify(o, s, first); |ParseLeaf(o, f.kind, f.rest).rest| < |s|
  {
    hide Identify, ParseLeaf;
  }

  lemma {:induction false} PlacedAnyway(o: Options, r: Raw, first: bool, next: Start)
    requires !r.RawText? && Placed(o, r, first, NoStart)
    ensures Placed(o, r, first, next)
  {
  }

  /** Text that was read, up to the tag after it. */
  lemma {:induction false} WordsDerived(o: Options, s: Bytes, first: bool) returns (raw: Bytes)
    requires Identify(o, s, first) == Found(TextKind(false), s) && ParseLeaf(o, TextKind(false), s).Leaf?
    ensures var leaf := ParseLeaf(o, TextKind(false), s);
            && raw != [] && 0 !in raw && LT !in raw && s == raw + leaf.rest && leaf.node == Meaning(o, RawText(raw))
            && At(leaf.rest, 0) == LT && At(leaf.rest, 1) != 0
            && (AllWhiteSpace(raw) ==> o.whitespace == PedanticWhitespace && first && At(leaf.rest, 1) == SLASH)
  {
    hide Identify, StrValue, FindTag, AllWhiteSpace;
    var i := FindTag(s, [LT]).value;
    TextStarts(o, s, first, i);
    raw := s[..i];
    assert At(s[i..], 0) == At(s, i) && At(s[i..], 1) == At(s, i + 1);
  }

  lemma {:induction false} TextIsText(o: Options, raw: Bytes)
    ensures Meaning(o, RawText(raw)).Text?
  {
  }

  /** A leaf before the siblings that follow it. */
  lemma {:induction false} LeafDerived(o: Options, s: Bytes, depth: nat, first: bool,
                                       more: seq<Raw>, tail: Tail, rest: Bytes)
    returns (r: Raw)
    requires Identify(o, s, first).Found? && Identify(o, s, first).kind != ElementKind && depth < MAX_ELEMENT_DEPTH
    requires var f := Identify(o, s, first);
             && ParseLeaf(o, f.kind, f.rest).Leaf?
             && Derived(o, ParseLeaf(o, f.kind, f.rest).rest, depth, false, more, tail, rest)
    ensures var f := Identify(o, s, first); var leaf := ParseLeaf(o, f.kind, f.rest);
            && Derived(o, s, depth, first, [r] + more, tail, rest) && Meaning(o, r) == leaf.node
            && (IsDeclaration(r) <==> leaf.node.Declaration?)
  {
    hide Identify, Derived, ParseLeaf, AllWhiteSpace, Meaning;
    var f := Identify(o, s, first);
    var leaf := ParseLeaf(o, f.kind, f.rest);
    if f.kind == TextKind(false) {
      var raw := WordsDerived(o, s, first);
      r := RawText(raw);
      TagFollows(o, leaf.rest, depth, more, tail, rest);
      TextIsText(o, raw);
    } else {
      r := MarkupDerived(o, s, first);
    }
    OneMoreDerived(o, s, depth, first, r, leaf.rest, more, tail, rest);
  }

  /** An end tag. */
  lemma {:induction false} StrayDerived(o: Options, s: Bytes, depth: nat, first: bool)
    returns (rs: seq<Raw>, tail: Tail, rest: Bytes)
    requires Identify(o, s, first).Found? && Identify(o, s, first).kind == ElementKind
    requires var e := ParseElement(o, Identify(o, s, first).rest, depth); e.ElementDone? && e.closing == ClosingTag
    ensures var e := ParseElement(o, Identify(o, s, first).rest, depth);
            rs == [] && Derived(o, s, depth, first, rs, tail, rest) && StopIs(AtEndTag(e.rest, e.node.name), tail, rest)
  {
    var gap := TagStarts(o, s, first);
    var h := Identify(o, s, first).rest;
    hide Identify, ParseHead, ParseNodes, PutHead, TagOk;
    var t0, close := HeadDerived(o, h);
    var t := t0.(gap := gap);
    rs, tail, rest := [], Stray(t), ParseHead(o, h).rest;
    GapGivenTag(t0, gap, close, rest);
    HeadStart(t0, close, rest);
  }

  lemma {:induction false} GapGivenTag(t: Tag, gap: Bytes, close: Bytes, rest: Bytes)
    requires TagOk(t) && AllWhiteSpace(gap)
    ensures TagOk(t.(gap := gap)) && PutHead(t.(gap := gap), close, rest) == PutHead(t, close, rest)
  {
  }

  /** An element, with its children. */
  lemma {:induction false} ElementDerived(o: Options, s: Bytes, depth: nat, first: bool) returns (r: Raw)
    requires depth < MAX_ELEMENT_DEPTH && Identify(o, s, first).Found? && Identify(o, s, first).kind == ElementKind
    requires var e := ParseElement(o, Identify(o, s, first).rest, depth);
             e.ElementDone? && e.closing != ClosingTag && !Mismatch(e)
    ensures var e := ParseElement(o, Identify(o, s, first).rest, depth);
            && !r.RawText? && !IsDeclaration(r) && RawOk(o, r) && Placed(o, r, first, NoStart)
            && s == Put(r, e.rest) && Meaning(o, r) == e.node && depth + Nest(r) < MAX_ELEMENT_DEPTH
    decreases |s|, 0
  {
    var gap := TagStarts(o, s, first);
    var h := Identify(o, s, first).rest;
    var e := ParseElement(o, h, depth);
    hide Identify, ParseHead, ParseNodes, PutHead, TagOk, Derived, PutTag, AllOk, StopIs;
    var t0, close := HeadDerived(o, h);
    var head := ParseHead(o, h);
    var t := t0.(gap := gap);
    GapGivenTag(t0, gap, close, head.rest);
    HeadStart(t0, close, head.rest);
    TagPut(t, close, head.rest);
    if head.closing == Open && At(head.rest, 0) != 0 {
      var kids, tail, rest := NodesDerived(o, head.rest, depth);
      r := RawElement(t, kids, tail.tag);
      MadeOf(o, t, kids, tail.tag, head.rest, depth, rest);
    } else {
      r := RawSealed(t);
    }
  }

  lemma {:induction false} TagPut(t: Tag, close: Bytes, rest: Bytes)
    ensures PutTag(t, close, rest) == t.gap + ([LT] + PutHead(t, close, rest))
  {
  }

  /** The children of an element, up to its end tag. */
  lemma {:induction false} NodesDerived(o: Options, s: Bytes, depth: nat)
    returns (kids: seq<Raw>, tail: Tail, rest: Bytes)
    requires depth < MAX_ELEMENT_DEPTH && ParseNodes(o, s, depth, false).stop.AtEndTag?
    ensures var r := ParseNodes(o, s, depth, false);
            && tail.Stray? && r.stop == AtEndTag(rest, tail.tag.name) && r.nodes == MeaningAll(o, kids)
            && Derived(o, s, depth + 1, true, kids, tail, rest) && depth + 1 < MAX_ELEMENT_DEPTH
            && MayDeclare(false, [], kids)
    decreases |s|, 2
  {
    hide ParseSiblings, Derived;
    kids, tail, rest := SiblingsDerived(o, s, depth + 1, false, true, []);
    assert [] + MeaningAll(o, kids) == MeaningAll(o, kids);
  }

  lemma {:induction false} MadeOf(o: Options, t: Tag, kids: seq<Raw>, endTag: Tag, inner: Bytes, depth: nat,
                                  rest: Bytes)
    requires TagOk(t) && !t.slash && t.name == endTag.name && depth + 1 < MAX_ELEMENT_DEPTH
    requires Derived(o, inner, depth + 1, true, kids, Stray(endTag), rest) && MayDeclare(false, [], kids)
    ensures var r := RawElement(t, kids, endTag);
            && RawOk(o, r) && Put(r, rest) == PutTag(t, TAG_END, inner) && depth + Nest(r) < MAX_ELEMENT_DEPTH
  {
    hide TagOk, PutTag, AllOk, PutAll;
    NestBound(kids, depth + 1);
  }

  lemma {:induction false} NestBound(rs: seq<Raw>, depth: nat)
    requires depth < MAX_ELEMENT_DEPTH && forall i | 0 <= i < |rs| :: depth + Nest(rs[i]) < MAX_ELEMENT_DEPTH
    ensures depth + NestAll(rs) < MAX_ELEMENT_DEPTH
  {
    hide Nest;
    if rs != [] {
      NestBound(rs[1..], depth);
    }
  }

  // ---- Documents -----------------------------------------------------------------------------------

  lemma {:induction false} BodySplit(text: Bytes) returns (space: Bytes)
    ensures AllWhiteSpace(space) && text == space + ((if HasBom(text) then BOM else []) + Body(text))
    ensures !HasBom(text) && Body(text) != [] ==> !IsWhiteSpace(Body(text)[0]) && !(BOM <= Body(text))
  {
    space := SpaceSplit(text);
    var p := SkipSpace(text);
    hide SkipSpace;
    if HasBom(text) {
      assert p == BOM + p[3..];
    } else {
      assert p == [] + p;
    }
  }

  /** A text that is parsed without an error is derived by the grammar. */
  lemma {:induction false} Sound(o: Options, text: Bytes) returns (d: RawDocument, rest: Bytes)
    requires ParseDocument(o, text).error == Success
    ensures var r := ParseDocument(o, text); Derives(o, text, r.children, r.hasBom, d, rest)
  {
    hide ParseSiblings, Body, HasBom, AllOk, PutAll, PutTail, Nest, NestAll, TailOk;
    var space := BodySplit(text);
    var nodes, tail;
    nodes, tail, rest := SiblingsDerived(o, Body(text), 1, true, true, []);
    d := RawDocument(space, HasBom(text), nodes, tail);
    assert [] + MeaningAll(o, nodes) == MeaningAll(o, nodes);
    NestBound(nodes, 1);
  }

  /**
   The parser succeeds with these nodes on a text exactly if the grammar derives the text from them.
   */
  lemma {:induction false} ParsesExactly(o: Options, text: Bytes, nodes: seq<Node>, bom: bool)
    ensures ParseDocument(o, text) == Document(Success, nodes, bom)
            <==> exists d, rest :: Derives(o, text, nodes, bom, d, rest)
  {
    hide ParseDocument, Derives;
    if ParseDocument(o, text) == Document(Success, nodes, bom) {
      var d, rest := Sound(o, text);
    }
    if d, rest :| Derives(o, text, nodes, bom, d, rest) {
      Accepted(o, text, nodes, bom, d, rest);
    }
  }

  /** The grammar is not ambiguous: no text stands for two documents. */
  lemma {:induction false} OneMeaning(o: Options, d: RawDocument, rest: Bytes, d': RawDocument, rest': Bytes)
    requires DocumentOk(o, d, rest) && DocumentOk(o, d', rest') && PutDocument(d, rest) == PutDocument(d', rest')
    ensures MeaningAll(o, d.nodes) == MeaningAll(o, d'.nodes) && d.bom == d'.bom
  {
    hide ParseDocument, DocumentOk, PutDocument;
    var text := PutDocument(d, rest);
    Accepted(o, text, MeaningAll(o, d.nodes), d.bom, d, rest);
    Accepted(o, text, MeaningAll(o, d'.nodes), d'.bom, d', rest');
  }
}
