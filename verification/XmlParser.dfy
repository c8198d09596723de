/**
 What tinyxml2's parser makes of a text, as functions on the text that is still to be read. The
 functions follow XMLDocument::Identify and the ParseDeep family case by case.
 */
module XmlParser {
  import opened Bytes
  import opened Decoding
  import opened Scanning

  datatype Attribute = Attribute(name: Bytes, value: Bytes)

  datatype Node =
    | Element(name: Bytes, attributes: seq<Attribute>, children: seq<Node>)
    | Text(value: Bytes, cdata: bool)
    | Comment(value: Bytes)
    | Declaration(value: Bytes)
    | Unknown(value: Bytes)

  datatype Whitespace = PreserveWhitespace | CollapseWhitespace | PedanticWhitespace

  datatype Options = Options(processEntities: bool, whitespace: Whitespace)

  datatype XmlError =
    | Success
    | ErrorParsing
    | ErrorParsingElement
    | ErrorParsingAttribute
    | ErrorParsingText
    | ErrorParsingCData
    | ErrorParsingComment
    | ErrorParsingDeclaration
    | ErrorParsingUnknown
    | ErrorMismatchedElement
    | ErrorDepthExceeded
    | ErrorEmptyDocument

  const MAX_ELEMENT_DEPTH: nat := 500

  const DECLARATION_HEADER: Bytes := [0x3c, 0x3f]
  const DECLARATION_END: Bytes := [0x3f, 0x3e]
  const COMMENT_HEADER: Bytes := [0x3c, 0x21, 0x2d, 0x2d]
  const COMMENT_END: Bytes := [0x2d, 0x2d, 0x3e]
  const CDATA_HEADER: Bytes := [0x3c, 0x21, 0x5b, 0x43, 0x44, 0x41, 0x54, 0x41, 0x5b]
  const CDATA_END: Bytes := [0x5d, 0x5d, 0x3e]
  const UNKNOWN_HEADER: Bytes := [0x3c, 0x21]
  const UNKNOWN_END: Bytes := [0x3e]

  function ValueFlags(o: Options): Flags {
    Flags(o.processEntities, true, false)
  }

  function TextFlags(o: Options): Flags {
    Flags(o.processEntities, true, o.whitespace == CollapseWhitespace)
  }

  const NEWLINES_ONLY := Flags(false, true, false)

  // ---- Which node comes next ---------------------------------------------------------------

  datatype Kind = ElementKind | TextKind(cdata: bool) | CommentKind | DeclarationKind | UnknownKind

  datatype Identified = Nothing | Found(kind: Kind, rest: Bytes)

  /** XMLDocument::Identify. White space before text belongs to the text; before markup it is dropped. */
  function Identify(o: Options, s: Bytes, first: bool): (r: Identified)
    ensures r.Found? ==> |r.rest| <= |s| && (r.kind != TextKind(false) ==> |r.rest| < |s|)
    ensures r.Found? && r.kind == TextKind(false) ==> r.rest == s && !([LT] <= s)
  {
    var p := SkipSpace(s);
    if At(p, 0) == 0 then Nothing
    else if DECLARATION_HEADER <= p then Found(DeclarationKind, p[2..])
    else if COMMENT_HEADER <= p then Found(CommentKind, p[4..])
    else if CDATA_HEADER <= p then Found(TextKind(true), p[9..])
    else if UNKNOWN_HEADER <= p then Found(UnknownKind, p[2..])
    else if p[0] == LT then
      if o.whitespace == PedanticWhitespace && first && |p| != |s| && At(p, 1) == SLASH
      then Found(TextKind(false), s)
      else Found(ElementKind, p[1..])
    else Found(TextKind(false), s)
  }

  // ---- Leaves ----------------------------------------------------------------------------

  datatype LeafResult = LeafFail(error: XmlError) | Leaf(node: Node, rest: Bytes)

  /** The tag that ends a leaf. */
  function EndOf(kind: Kind): (tag: Bytes)
    requires kind != ElementKind
    ensures tag != []
  {
    match kind
    case TextKind(cdata) => if cdata then CDATA_END else [LT]
    case CommentKind => COMMENT_END
    case DeclarationKind => DECLARATION_END
    case UnknownKind => UNKNOWN_END
  }

  /** The error when that tag is missing. */
  function ErrorOf(kind: Kind): XmlError
    requires kind != ElementKind
  {
    match kind
    case TextKind(cdata) => if cdata then ErrorParsingCData else ErrorParsingText
    case CommentKind => ErrorParsingComment
    case DeclarationKind => ErrorParsingDeclaration
    case UnknownKind => ErrorParsingUnknown
  }

  function LeafOf(kind: Kind, value: Bytes): Node
    requires kind != ElementKind
  {
    match kind
    case TextKind(cdata) => Text(value, cdata)
    case CommentKind => Comment(value)
    case DeclarationKind => Declaration(value)
    case UnknownKind => Unknown(value)
  }

  /** The ParseDeep of text, comments, declarations and unknown tags. Text leaves the `<` unread. */
  function ParseLeaf(o: Options, kind: Kind, s: Bytes): (r: LeafResult)
    requires kind != ElementKind
    ensures r.Leaf? ==> |r.rest| <= |s| && !r.node.Element?
    ensures r.Leaf? && kind == TextKind(false) && !([LT] <= s) ==> |r.rest| < |s|
  {
    match FindTag(s, EndOf(kind))
    case None => LeafFail(ErrorOf(kind))
    case Some(i) =>
      if kind != TextKind(false) then
        Leaf(LeafOf(kind, StrValue(s[..i], NEWLINES_ONLY)), s[i + |EndOf(kind)|..])
      else if At(s, i + 1) == 0 then LeafFail(Success)
      else Leaf(LeafOf(kind, StrValue(s[..i], TextFlags(o))), s[i..])
  }

  // ---- Attributes -----------------------------------------------------------------------

  datatype ValueResult = ValueFail | ValueDone(value: Bytes, rest: Bytes)

  /** The quoted value of an attribute, after the equals sign. */
  function ParseValue(o: Options, s: Bytes): (r: ValueResult)
    ensures r.ValueDone? ==> |r.rest| < |s|
  {
    var quoted := SkipSpace(s);
    if At(quoted, 0) != DQUOTE && At(quoted, 0) != APOS then ValueFail
    else
      var body := quoted[1..];
      match FindTag(body, [quoted[0]])
      case None => ValueFail
      case Some(i) => ValueDone(StrValue(body[..i], ValueFlags(o)), body[i + 1..])
  }

  datatype AttributeResult = AttributeFail | AttributeDone(attribute: Attribute, rest: Bytes)

  /** XMLAttribute::ParseDeep. */
  function ParseAttribute(o: Options, s: Bytes): (r: AttributeResult)
    ensures r.AttributeDone? ==> |r.rest| < |s|
  {
    var name := LeadingName(s);
    var afterName := SkipSpace(s[|name|..]);
    if name == [] || At(s, |name|) == 0 || At(afterName, 0) != EQUALS then AttributeFail
    else match ParseValue(o, afterName[1..])
      case ValueFail => AttributeFail
      case ValueDone(value, rest) => AttributeDone(Attribute(name, value), rest)
  }

  predicate HasAttribute(attributes: seq<Attribute>, name: Bytes) {
    exists i | 0 <= i < |attributes| :: attributes[i].name == name
  }

  datatype AttributesResult =
    AttributesFail(error: XmlError) | AttributesDone(attributes: seq<Attribute>, rest: Bytes, sealed: bool)

  /** XMLElement::ParseAttributes, from the point where soFar has been read. */
  function ParseAttributes(o: Options, s: Bytes, soFar: seq<Attribute>): (r: AttributesResult)
    ensures if r.AttributesDone? then |r.rest| < |s| else r.error != Success
    decreases |s|
  {
    var p := SkipSpace(s);
    if At(p, 0) == 0 then AttributesFail(ErrorParsingElement)
    else if IsNameStartChar(p[0]) then
      match ParseAttribute(o, p)
      case AttributeFail => AttributesFail(ErrorParsingAttribute)
      case AttributeDone(a, rest) =>
        if HasAttribute(soFar, a.name) then AttributesFail(ErrorParsingAttribute)
        else ParseAttributes(o, rest, soFar + [a])
    else if p[0] == GT then AttributesDone(soFar, p[1..], false)
    else if p[0] == SLASH && At(p, 1) == GT then AttributesDone(soFar, p[2..], true)
    else AttributesFail(ErrorParsingElement)
  }

  /** One turn of the loop of XMLElement::ParseAttributes, from the end p of the white space. */
  lemma {:induction false} AttributesStep(o: Options, s: Bytes, soFar: seq<Attribute>, p: Bytes)
    requires p == SkipSpace(s)
    ensures ParseAttributes(o, s, soFar) ==
            if At(p, 0) == 0 then AttributesFail(ErrorParsingElement)
            else if IsNameStartChar(p[0]) then
              match ParseAttribute(o, p)
              case AttributeFail => AttributesFail(ErrorParsingAttribute)
              case AttributeDone(a, rest) =>
                if HasAttribute(soFar, a.name) then AttributesFail(ErrorParsingAttribute)
                else ParseAttributes(o, rest, soFar + [a])
            else if p[0] == GT then AttributesDone(soFar, p[1..], false)
            else if p[0] == SLASH && At(p, 1) == GT then AttributesDone(soFar, p[2..], true)
            else AttributesFail(ErrorParsingElement)
  {
    hide ParseAttribute, HasAttribute;
  }

  // ---- Elements and their children --------------------------------------------------------

  datatype Closing = Open | Closed | ClosingTag

  datatype HeadResult =
    HeadFail(error: XmlError) | Head(closing: Closing, name: Bytes, attributes: seq<Attribute>, rest: Bytes)

  /** The part of XMLElement::ParseDeep that reads one tag. */
  function ParseHead(o: Options, s: Bytes): (r: HeadResult)
    ensures r.Head? ==> |r.rest| < |s|
  {
    var p := SkipSpace(s);
    var closing := At(p, 0) == SLASH;
    var q := if closing then p[1..] else p;
    var name := LeadingName(q);
    if name == [] then HeadFail(Success)
    else match ParseAttributes(o, q[|name|..], [])
      case AttributesFail(error) => HeadFail(error)
      case AttributesDone(attributes, rest, sealed) =>
        Head(if sealed then Closed else if closing then ClosingTag else Open, name, attributes, rest)
  }

  datatype ElementResult =
    | ElementFail(error: XmlError)
    | ElementDone(closing: Closing, node: Node, rest: Bytes, endTag: Option<Bytes>)

  /** How the list of siblings ended: at an end tag, or with a null pointer. */
  datatype Stop = AtEndTag(rest: Bytes, name: Bytes) | AtNull(error: XmlError)

  datatype Siblings = Siblings(nodes: seq<Node>, stop: Stop)

  /** XMLElement::ParseDeep; depth is the number of XMLNode::ParseDeep frames that are active. */
  function ParseElement(o: Options, s: Bytes, depth: nat): (r: ElementResult)
    ensures r.ElementDone? ==> |r.rest| < |s| && r.node.Element?
    decreases |s|, 0
  {
    match ParseHead(o, s)
    case HeadFail(error) => ElementFail(error)
    case Head(closing, name, attributes, rest) =>
      if At(rest, 0) == 0 || closing != Open
      then ElementDone(closing, Element(name, attributes, []), rest, None)
      else
        var inner := ParseNodes(o, rest, depth, false);
        match inner.stop
        case AtNull(error) => ElementFail(error)
        case AtEndTag(r, endName) => ElementDone(Open, Element(name, attributes, inner.nodes), r, Some(endName))
  }

  /** XMLNode::ParseDeep: enters one frame more, unless that is one too many. */
  function ParseNodes(o: Options, s: Bytes, depth: nat, inDocument: bool): (r: Siblings)
    ensures r.stop.AtEndTag? ==> |r.stop.rest| < |s|
    decreases |s|, 2
  {
    if depth + 1 == MAX_ELEMENT_DEPTH then Siblings([], AtNull(ErrorDepthExceeded))
    else ParseSiblings(o, s, depth + 1, inDocument, true, [])
  }

  /** Declarations come first in the document, and nowhere else. */
  predicate WellLocated(inDocument: bool, soFar: seq<Node>) {
    inDocument && (soFar == [] || (soFar[0].Declaration? && soFar[|soFar| - 1].Declaration?))
  }

  predicate Mismatch(e: ElementResult)
    requires e.ElementDone? && e.node.Element?
  {
    match e.endTag
    case None => e.closing == Open
    case Some(name) => e.closing != Open || name != e.node.name
  }

  function OrParsingError(error: XmlError): (e: XmlError)
    ensures e != Success
  {
    if error == Success then ErrorParsing else error
  }

  /** The loop of XMLNode::ParseDeep, from the point where soFar has been linked. */
  function ParseSiblings(o: Options, s: Bytes, depth: nat, inDocument: bool, first: bool, soFar: seq<Node>)
    : (r: Siblings)
    ensures r.stop.AtEndTag? ==> |r.stop.rest| < |s|
    decreases |s|, 1
  {
    if At(s, 0) == 0 then Siblings(soFar, AtNull(Success))
    else match Identify(o, s, first)
      case Nothing => Siblings(soFar, AtNull(Success))
      case Found(kind, rest) =>
        if kind == ElementKind then
          var e := ParseElement(o, rest, depth);
          if e.ElementFail? then Siblings(soFar, AtNull(OrParsingError(e.error)))
          else if e.closing == ClosingTag then Siblings(soFar, AtEndTag(e.rest, e.node.name))
          else if Mismatch(e) then Siblings(soFar, AtNull(ErrorMismatchedElement))
          else ParseSiblings(o, e.rest, depth, inDocument, false, soFar + [e.node])
        else
          match ParseLeaf(o, kind, rest)
          case LeafFail(error) => Siblings(soFar, AtNull(OrParsingError(error)))
          case Leaf(node, r) =>
            if node.Declaration? && !WellLocated(inDocument, soFar)
            then Siblings(soFar, AtNull(ErrorParsingDeclaration))
            else ParseSiblings(o, r, depth, inDocument, false, soFar + [node])
  }

  /** The loop ends at the end of the string. */
  lemma {:induction false} SiblingsEnd(o: Options, s: Bytes, depth: nat, inDocument: bool, first: bool,
                                       soFar: seq<Node>)
    requires At(s, 0) == 0 || Identify(o, s, first) == Nothing
    ensures ParseSiblings(o, s, depth, inDocument, first, soFar) == Siblings(soFar, AtNull(Success))
  {
  }

  /** One turn of the loop, for an element. */
  lemma {:induction false} SiblingsElement(
      o: Options, s: Bytes, depth: nat, inDocument: bool, first: bool, soFar: seq<Node>, rest: Bytes)
    requires At(s, 0) != 0 && Identify(o, s, first) == Found(ElementKind, rest)
    ensures var e := ParseElement(o, rest, depth);
            ParseSiblings(o, s, depth, inDocument, first, soFar) ==
            if e.ElementFail? then Siblings(soFar, AtNull(OrParsingError(e.error)))
            else if e.closing == ClosingTag then Siblings(soFar, AtEndTag(e.rest, e.node.name))
            else if Mismatch(e) then Siblings(soFar, AtNull(ErrorMismatchedElement))
            else ParseSiblings(o, e.rest, depth, inDocument, false, soFar + [e.node])
  {
    hide Identify, ParseElement;
  }

  /** One turn of the loop, for a node that is no element. */
  lemma {:induction false} SiblingsLeaf(
      o: Options, s: Bytes, depth: nat, inDocument: bool, first: bool, soFar: seq<Node>, kind: Kind, rest: Bytes)
    requires At(s, 0) != 0 && Identify(o, s, first) == Found(kind, rest) && kind != ElementKind
    ensures ParseSiblings(o, s, depth, inDocument, first, soFar) ==
            match ParseLeaf(o, kind, rest)
            case LeafFail(error) => Siblings(soFar, AtNull(OrParsingError(error)))
            case Leaf(node, r) =>
              if node.Declaration? && !WellLocated(inDocument, soFar)
              then Siblings(soFar, AtNull(ErrorParsingDeclaration))
              else ParseSiblings(o, r, depth, inDocument, false, soFar + [node])
  {
    hide Identify, ParseLeaf;
  }

  // ---- The document ------------------------------------------------------------------------

  const BOM: Bytes := [0xef, 0xbb, 0xbf]

  datatype Document = Document(error: XmlError, children: seq<Node>, hasBom: bool)

  predicate HasBom(text: Bytes) {
    BOM <= SkipSpace(text)
  }

  /** What follows the leading white space and the byte order mark. */
  function Body(text: Bytes): Bytes {
    if HasBom(text) then SkipSpace(text)[3..] else SkipSpace(text)
  }

  /** XMLDocument::Parse: a stray end tag ends the document, an error empties it. */
  function ParseDocument(o: Options, text: Bytes): Document {
    var bom := HasBom(text);
    if At(Body(text), 0) == 0 then Document(ErrorEmptyDocument, [], bom)
    else
      var r := ParseNodes(o, Body(text), 0, true);
      match r.stop
      case AtEndTag(_, _) => Document(Success, r.nodes, bom)
      case AtNull(error) => Document(error, if error == Success then r.nodes else [], bom)
  }
}
