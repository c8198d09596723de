/**
 The language that tinyxml2 accepts and the nodes that it stands for, as a grammar. Nothing here
 refers to how the text is parsed. Each piece is given with the text that follows it.
 */
module XmlGrammar {
  import opened Bytes
  import opened Decoding
  import opened Scanning
  import opened XmlParser
  import Utf8

  // ---- Pieces of text ----------------------------------------------------------------------

  /** An attribute: the white space around its parts, its quotes, and its value as it is written. */
  datatype RawAttribute =
    RawAttribute(gap: Bytes, name: Bytes, before: Bytes, after: Bytes, quote: byte, raw: Bytes)

  /** A tag: the white space before and after its `<` and before its end; a slash may precede the name. */
  datatype Tag =
    Tag(gap: Bytes, space: Bytes, slash: bool, name: Bytes, attributes: seq<RawAttribute>, end: Bytes)

  datatype Markup = CommentMarkup | DeclarationMarkup | UnknownMarkup | CDataMarkup

  datatype Raw =
    | RawElement(tag: Tag, kids: seq<Raw>, endTag: Tag)
    | RawSealed(tag: Tag)
    | RawText(raw: Bytes)
    | RawMarkup(gap: Bytes, markup: Markup, raw: Bytes)

  /** A document ends with white space, or with an end tag that belongs to no element. */
  datatype Tail = Blank(space: Bytes) | Stray(tag: Tag)

  datatype RawDocument = RawDocument(space: Bytes, bom: bool, nodes: seq<Raw>, tail: Tail)

  const TAG_END: Bytes := [GT]
  const SEALED_END: Bytes := [SLASH, GT]

  function Header(m: Markup): Bytes {
    match m
    case CommentMarkup => COMMENT_HEADER
    case DeclarationMarkup => DECLARATION_HEADER
    case UnknownMarkup => UNKNOWN_HEADER
    case CDataMarkup => CDATA_HEADER
  }

  function Ending(m: Markup): Bytes {
    match m
    case CommentMarkup => COMMENT_END
    case DeclarationMarkup => DECLARATION_END
    case UnknownMarkup => UNKNOWN_END
    case CDataMarkup => CDATA_END
  }

  /** How the marks are spelled. */
  lemma {:induction false} Spelling()
    ensures COMMENT_HEADER == Ascii("<!--") && COMMENT_END == Ascii("-->")
    ensures DECLARATION_HEADER == Ascii("<?") && DECLARATION_END == Ascii("?>")
    ensures UNKNOWN_HEADER == Ascii("<!") && UNKNOWN_END == Ascii(">")
    ensures CDATA_HEADER == Ascii("<![CDATA[") && CDATA_END == Ascii("]]>")
    ensures TAG_END == Ascii(">") && SEALED_END == Ascii("/>") && [LT, SLASH] == Ascii("</")
    ensures [EQUALS, DQUOTE, APOS] == Ascii("=\"'") && BOM == Utf8.Encode(0xFEFF)
  {
  }

  // ---- The text of a piece, with what follows --------------------------------------------------

  function PutAttribute(a: RawAttribute, rest: Bytes): Bytes {
    a.name + (a.before + ([EQUALS] + (a.after + ([a.quote] + (a.raw + ([a.quote] + rest))))))
  }

  function PutAttributes(attributes: seq<RawAttribute>, rest: Bytes): Bytes {
    if attributes == [] then rest
    else attributes[0].gap + PutAttribute(attributes[0], PutAttributes(attributes[1..], rest))
  }

  /** A tag after its `<`. */
  function PutHead(t: Tag, close: Bytes, rest: Bytes): Bytes {
    t.space + ((if t.slash then [SLASH] else []) + (t.name + PutAttributes(t.attributes, t.end + (close + rest))))
  }

  function PutTag(t: Tag, close: Bytes, rest: Bytes): Bytes {
    t.gap + ([LT] + PutHead(t, close, rest))
  }

  function Put(r: Raw, rest: Bytes): Bytes {
    match r
    case RawElement(tag, kids, endTag) => PutTag(tag, TAG_END, PutAll(kids, PutTag(endTag, TAG_END, rest)))
    case RawSealed(tag) => PutTag(tag, SEALED_END, rest)
    case RawText(raw) => raw + rest
    case RawMarkup(gap, m, raw) => gap + (Header(m) + (raw + (Ending(m) + rest)))
  }

  function PutAll(rs: seq<Raw>, rest: Bytes): Bytes {
    if rs == [] then rest else Put(rs[0], PutAll(rs[1..], rest))
  }

  function PutTail(t: Tail, rest: Bytes): Bytes {
    match t
    case Blank(space) => space + rest
    case Stray(tag) => PutTag(tag, TAG_END, rest)
  }

  /** What follows the byte order mark, or the leading white space without one. */
  function PutBody(d: RawDocument, rest: Bytes): Bytes {
    PutAll(d.nodes, PutTail(d.tail, rest))
  }

  function PutDocument(d: RawDocument, rest: Bytes): Bytes {
    d.space + ((if d.bom then BOM else []) + PutBody(d, rest))
  }

  // ---- What the pieces stand for --------------------------------------------------------------

  function AttributeMeaning(o: Options, a: RawAttribute): Attribute {
    Attribute(a.name, StrValue(a.raw, Flags(o.processEntities, true, false)))
  }

  function AttributesMeaning(o: Options, attributes: seq<RawAttribute>): (r: seq<Attribute>)
    ensures |r| == |attributes|
  {
    if attributes == [] then []
    else [AttributeMeaning(o, attributes[0])] + AttributesMeaning(o, attributes[1..])
  }

  function MarkupMeaning(m: Markup, value: Bytes): Node {
    match m
    case CommentMarkup => Comment(value)
    case DeclarationMarkup => Declaration(value)
    case UnknownMarkup => Unknown(value)
    case CDataMarkup => Text(value, true)
  }

  function Meaning(o: Options, r: Raw): Node {
    match r
    case RawElement(tag, kids, _) => Element(tag.name, AttributesMeaning(o, tag.attributes), MeaningAll(o, kids))
    case RawSealed(tag) => Element(tag.name, AttributesMeaning(o, tag.attributes), [])
    case RawText(raw) =>
      Text(StrValue(raw, Flags(o.processEntities, true, o.whitespace == CollapseWhitespace)), false)
    case RawMarkup(_, m, raw) => MarkupMeaning(m, StrValue(raw, Flags(false, true, false)))
  }

  function MeaningAll(o: Options, rs: seq<Raw>): (r: seq<Node>)
    ensures |r| == |rs|
  {
    if rs == [] then [] else [Meaning(o, rs[0])] + MeaningAll(o, rs[1..])
  }

  // ---- Which pieces there are --------------------------------------------------------------------

  predicate AttributeOk(a: RawAttribute) {
    && AllWhiteSpace(a.gap) && AllWhiteSpace(a.before) && AllWhiteSpace(a.after) && IsName(a.name)
    && (a.quote == DQUOTE || a.quote == APOS) && a.quote !in a.raw && 0 !in a.raw
  }

  /** No attribute comes twice, and white space separates the first one from the name of the element. */
  predicate AttributesOk(attributes: seq<RawAttribute>) {
    && (forall i | 0 <= i < |attributes| :: AttributeOk(attributes[i]))
    && (forall i, j | 0 <= i < j < |attributes| :: attributes[i].name != attributes[j].name)
    && (attributes != [] ==> attributes[0].gap != [])
  }

  predicate TagOk(t: Tag) {
    && AllWhiteSpace(t.gap) && AllWhiteSpace(t.space) && AllWhiteSpace(t.end)
    && IsName(t.name) && AttributesOk(t.attributes)
  }

  /** The ending occurs at the end only. */
  predicate OnlyAtEnd(raw: Bytes, ending: Bytes) {
    forall j | 0 <= j < |raw| :: !(ending <= (raw + ending)[j..])
  }

  const TWO_DASHES: Bytes := [0x2d, 0x2d]
  const CDATA_MARK: Bytes := [0x5b, 0x43, 0x44, 0x41, 0x54, 0x41, 0x5b]

  predicate MarkupOk(gap: Bytes, m: Markup, raw: Bytes) {
    && AllWhiteSpace(gap) && 0 !in raw && OnlyAtEnd(raw, Ending(m))
    && (m == UnknownMarkup ==> !(TWO_DASHES <= raw) && !(CDATA_MARK <= raw))
  }

  /** How what follows begins: with text, with a tag after some white space, or not at all. */
  datatype Start = NoStart | TextStart | TagStart(gap: Bytes, slashed: bool)

  function StartOfTag(t: Tag): Start {
    TagStart(t.gap, t.slash && t.space == [])
  }

  function StartOf(r: Raw): Start {
    match r
    case RawElement(tag, _, _) => StartOfTag(tag)
    case RawSealed(tag) => StartOfTag(tag)
    case RawText(_) => TextStart
    case RawMarkup(gap, _, _) => TagStart(gap, false)
  }

  function StartOfTail(t: Tail): Start {
    match t
    case Blank(_) => NoStart
    case Stray(tag) => StartOfTag(tag)
  }

  function StartOfAll(rs: seq<Raw>, last: Start): Start {
    if rs == [] then last else StartOf(rs[0])
  }

  /** What follows begins as it should. */
  predicate Begins(s: Bytes, start: Start) {
    start.TagStart? && start.gap == [] ==>
      At(s, 0) == LT && At(s, 1) != 0 && (start.slashed <==> At(s, 1) == SLASH)
  }

  /** In pedantic mode white space between two tags, of which the second begins with `</`, is text. */
  predicate TagPlaced(o: Options, s: Start, first: bool) {
    s.TagStart? ==> !(o.whitespace == PedanticWhitespace && first && s.gap != [] && s.slashed)
  }

  /** Text runs up to the next `<`; it is not blank, except where pedantic mode keeps it. */
  predicate TextPlaced(o: Options, raw: Bytes, first: bool, next: Start) {
    && raw != [] && 0 !in raw && LT !in raw && next.TagStart? && next.gap == []
    && (AllWhiteSpace(raw) ==> o.whitespace == PedanticWhitespace && first && next.slashed)
  }

  predicate Placed(o: Options, r: Raw, first: bool, next: Start) {
    if r.RawText? then TextPlaced(o, r.raw, first, next) else TagPlaced(o, StartOf(r), first)
  }

  predicate IsDeclaration(r: Raw) {
    r.RawMarkup? && r.markup == DeclarationMarkup
  }

  /** End tags have the name of their start tag, and declarations do not stand in elements. */
  predicate RawOk(o: Options, r: Raw) {
    match r
    case RawElement(tag, kids, endTag) =>
      && TagOk(tag) && !tag.slash && TagOk(endTag) && endTag.slash && endTag.name == tag.name
      && (forall i | 0 <= i < |kids| :: !IsDeclaration(kids[i]))
      && AllOk(o, kids, true, StartOfTag(endTag))
    case RawSealed(tag) => TagOk(tag)
    case RawText(_) => true
    case RawMarkup(gap, m, raw) => MarkupOk(gap, m, raw)
  }

  /** Siblings, of which the first may be the first child of its parent; last is what follows them. */
  predicate AllOk(o: Options, rs: seq<Raw>, first: bool, last: Start) {
    if rs == [] then TagPlaced(o, last, first)
    else
      && RawOk(o, rs[0]) && Placed(o, rs[0], first, StartOfAll(rs[1..], last))
      && AllOk(o, rs[1..], false, last)
  }

  /** The number of nested elements that are not sealed. */
  function Nest(r: Raw): nat {
    if r.RawElement? then 1 + NestAll(r.kids) else 0
  }

  function NestAll(rs: seq<Raw>): (n: nat)
    ensures forall i | 0 <= i < |rs| :: Nest(rs[i]) <= n
  {
    if rs == [] then 0
    else
      var a, b := Nest(rs[0]), NestAll(rs[1..]);
      if a > b then a else b
  }

  predicate DeclarationsLead(rs: seq<Raw>) {
    forall i, j | 0 <= i < j < |rs| && IsDeclaration(rs[j]) :: IsDeclaration(rs[i])
  }

  predicate TailOk(t: Tail, rest: Bytes) {
    match t
    case Blank(space) => AllWhiteSpace(space) && At(rest, 0) == 0
    case Stray(tag) => TagOk(tag) && tag.slash
  }

  /** A document is not empty, and fewer than 499 elements are nested in each other. */
  predicate DocumentOk(o: Options, d: RawDocument, rest: Bytes) {
    && AllWhiteSpace(d.space) && TailOk(d.tail, rest)
    && AllOk(o, d.nodes, true, StartOfTail(d.tail))
    && DeclarationsLead(d.nodes) && NestAll(d.nodes) < MAX_ELEMENT_DEPTH - 1
    && var body := PutBody(d, rest); At(body, 0) != 0 && (!d.bom ==> !IsWhiteSpace(body[0]) && !(BOM <= body))
  }

  /** The text is a document, followed by rest, that stands for the nodes. */
  predicate Derives(o: Options, text: Bytes, nodes: seq<Node>, bom: bool, d: RawDocument, rest: Bytes) {
    DocumentOk(o, d, rest) && text == PutDocument(d, rest) && MeaningAll(o, d.nodes) == nodes && d.bom == bom
  }
}
