/**
 Trees with a layout: the white space that stands before each piece of markup. Both the compact
 and the indented output of the printer are layouts of a tree.
 */
module XmlLayout {
  import opened Bytes
  import opened Decoding
  import opened Scanning
  import opened Escaping
  import opened XmlParser
  import Collapsing

  datatype Laid =
    | LaidElement(gap: Bytes, name: Bytes, attributes: seq<Attribute>, kids: seq<Laid>, closeGap: Bytes)
    | LaidText(value: Bytes)
    | LaidMarkup(gap: Bytes, node: Node)

  /** The tree without its layout. */
  function Erase(l: Laid): Node {
    match l
    case LaidElement(_, name, attributes, kids, _) => Element(name, attributes, EraseAll(kids))
    case LaidText(value) => Text(value, false)
    case LaidMarkup(_, node) => node
  }

  function EraseAll(ls: seq<Laid>): (r: seq<Node>)
    ensures |r| == |ls|
  {
    if ls == [] then [] else [Erase(ls[0])] + EraseAll(ls[1..])
  }

  // ---- Text form -------------------------------------------------------------------------

  /** A string as the printer writes it. */
  function Quoted(o: Options, v: Bytes, ctx: Context): Bytes {
    if o.processEntities then Printed(v, ctx) else v
  }

  const EQUALS_QUOTE: Bytes := [EQUALS, DQUOTE]
  const SEAL: Bytes := [SLASH, GT]
  const END_TAG: Bytes := [LT, SLASH]

  function ShowAttribute(o: Options, a: Attribute, apos: bool): Bytes {
    [SPACE] + (a.name + (EQUALS_QUOTE + (Quoted(o, a.value, InAttribute(apos)) + [DQUOTE])))
  }

  function ShowAttributes(o: Options, attributes: seq<Attribute>, apos: bool): Bytes {
    if attributes == [] then []
    else ShowAttribute(o, attributes[0], apos) + ShowAttributes(o, attributes[1..], apos)
  }

  /** The header and the end of the markup that has no structure. */
  function Brackets(node: Node): (Bytes, Bytes) {
    match node
    case Comment(_) => (COMMENT_HEADER, COMMENT_END)
    case Declaration(_) => (DECLARATION_HEADER, DECLARATION_END)
    case Unknown(_) => (UNKNOWN_HEADER, UNKNOWN_END)
    case Text(_, _) => (CDATA_HEADER, CDATA_END)
    case Element(_, _, _) => ([], [])
  }

  function MarkupValue(node: Node): Bytes {
    match node
    case Element(_, _, _) => []
    case Text(value, _) => value
    case Comment(value) => value
    case Declaration(value) => value
    case Unknown(value) => value
  }

  function ShowEndTag(name: Bytes): Bytes {
    END_TAG + (name + [GT])
  }

  function ShowHead(o: Options, name: Bytes, attributes: seq<Attribute>, apos: bool): Bytes {
    [LT] + (name + ShowAttributes(o, attributes, apos))
  }

  function Show(o: Options, l: Laid, apos: bool): Bytes {
    match l
    case LaidElement(gap, name, attributes, kids, closeGap) =>
      gap + (ShowHead(o, name, attributes, apos) +
             if kids == [] then SEAL
             else [GT] + (ShowAll(o, kids, apos) + (closeGap + ShowEndTag(name))))
    case LaidText(value) => Quoted(o, value, InText)
    case LaidMarkup(gap, node) => gap + (Brackets(node).0 + (MarkupValue(node) + Brackets(node).1))
  }

  function ShowAll(o: Options, ls: seq<Laid>, apos: bool): Bytes {
    if ls == [] then [] else Show(o, ls[0], apos) + ShowAll(o, ls[1..], apos)
  }

  // ---- Trees that can be written ------------------------------------------------------------

  /** Strings that survive newline normalization and the final flush of PrintString. */
  predicate Plain(v: Bytes) {
    0 !in v && CR !in v && |v| <= INT_MAX
  }

  predicate ValidAttribute(o: Options, a: Attribute) {
    IsName(a.name) && Plain(a.value) && (o.processEntities || DQUOTE !in a.value)
  }

  predicate ValidAttributes(o: Options, attributes: seq<Attribute>) {
    && (forall i | 0 <= i < |attributes| :: ValidAttribute(o, attributes[i]))
    && (forall i, j | 0 <= i < j < |attributes| :: attributes[i].name != attributes[j].name)
  }

  predicate ValidText(o: Options, v: Bytes) {
    Plain(v) && !AllWhiteSpace(v) && (o.processEntities || LT !in v)
  }

  const DASHES: Bytes := [0x2d, 0x2d]
  const CDATA_REST: Bytes := [0x5b, 0x43, 0x44, 0x41, 0x54, 0x41, 0x5b]

  ghost predicate ValidMarkup(node: Node) {
    match node
    case Comment(value) => Plain(value) && Lacks(value, COMMENT_END)
    case Declaration(value) => Plain(value) && Lacks(value, DECLARATION_END)
    case Unknown(value) =>
      Plain(value) && Lacks(value, UNKNOWN_END) && !(DASHES <= value) && !(CDATA_REST <= value)
    case Text(value, cdata) => cdata && Plain(value) && Lacks(value, CDATA_END)
    case Element(_, _, _) => false
  }

  function GapOf(l: Laid): Bytes {
    match l
    case LaidElement(gap, _, _, _, _) => gap
    case LaidText(_) => []
    case LaidMarkup(gap, _) => gap
  }

  /** After text comes markup, without white space in between. */
  predicate NoTextAdjacent(ls: seq<Laid>, closeGap: Bytes) {
    && (forall i | 0 <= i < |ls| - 1 && ls[i].LaidText? :: !ls[i + 1].LaidText? && GapOf(ls[i + 1]) == [])
    && (ls != [] && ls[|ls| - 1].LaidText? ==> closeGap == [])
  }

  /** What can be written and read back, inside elements. */
  ghost predicate Valid(o: Options, l: Laid) {
    && AllWhiteSpace(GapOf(l))
    && match l
       case LaidElement(_, name, attributes, kids, closeGap) =>
         && IsName(name) && ValidAttributes(o, attributes)
         && AllWhiteSpace(closeGap) && NoTextAdjacent(kids, closeGap)
         && forall i | 0 <= i < |kids| :: Valid(o, kids[i]) && !Erase(kids[i]).Declaration?
       case LaidText(value) => ValidText(o, value)
       case LaidMarkup(_, node) => ValidMarkup(node)
  }

  /** The number of nested open tags. */
  function Height(l: Laid): nat {
    if l.LaidElement? && l.kids != [] then 1 + HeightAll(l.kids) else 0
  }

  function HeightAll(ls: seq<Laid>): (h: nat)
    ensures forall i | 0 <= i < |ls| :: Height(ls[i]) <= h
  {
    if ls == [] then 0
    else
      var a, b := Height(ls[0]), HeightAll(ls[1..]);
      if a > b then a else b
  }

  /** What the parser returns for a tree: in collapsing mode, text loses its surplus white space. */
  function AsRead(o: Options, node: Node): Node {
    match node
    case Element(name, attributes, children) => Element(name, attributes, AsReadAll(o, children))
    case Text(value, cdata) =>
      if o.whitespace == CollapseWhitespace && !cdata then Text(Collapsing.Collapse(value), cdata) else node
    case _ => node
  }

  function AsReadAll(o: Options, nodes: seq<Node>): seq<Node> {
    if nodes == [] then [] else [AsRead(o, nodes[0])] + AsReadAll(o, nodes[1..])
  }
}
