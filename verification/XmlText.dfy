/** What the printer writes, said of the tree alone: where tags, text and white space stand. */
module XmlText {
  import opened Bytes
  import opened Escaping
  import opened XmlParser
  import opened XmlLayout
  import opened XmlPrinter

  // ---- Tags and leaves --------------------------------------------------------------------------

  function StringText(o: Options, v: Bytes, ctx: Context): Bytes {
    if o.processEntities then Printed(v, ctx) else v
  }

  function AttributesText(o: Options, attributes: seq<Attribute>, apos: bool): Bytes {
    if attributes == [] then []
    else
      var a := attributes[0];
      Ascii(" ") + (a.name + (Ascii("=\"") + (StringText(o, a.value, InAttribute(apos)) + Ascii("\""))))
      + AttributesText(o, attributes[1..], apos)
  }

  function StartText(o: Options, name: Bytes, attributes: seq<Attribute>, apos: bool): Bytes {
    Ascii("<") + (name + AttributesText(o, attributes, apos))
  }

  function EndText(name: Bytes): Bytes {
    Ascii("</") + (name + Ascii(">"))
  }

  function LeafText(o: Options, node: Node): Bytes
    requires !node.Element?
  {
    match node
    case Text(v, cdata) => if cdata then Ascii("<![CDATA[") + (v + Ascii("]]>")) else StringText(o, v, InText)
    case Comment(v) => Ascii("<!--") + (v + Ascii("-->"))
    case Declaration(v) => Ascii("<?") + (v + Ascii("?>"))
    case Unknown(v) => Ascii("<!") + (v + Ascii(">"))
  }

  // ---- Compact text ----------------------------------------------------------------------------

  /** Tags, text and end tags, with nothing in between. */
  function Compact(o: Options, node: Node, apos: bool): Bytes {
    match node
    case Element(name, attributes, children) =>
      StartText(o, name, attributes, apos) +
      if children == [] then Ascii("/>") else Ascii(">") + (CompactAll(o, children, apos) + EndText(name))
    case _ => LeafText(o, node)
  }

  function CompactAll(o: Options, nodes: seq<Node>, apos: bool): Bytes {
    if nodes == [] then [] else Compact(o, nodes[0], apos) + CompactAll(o, nodes[1..], apos)
  }

  // ---- Indented text -----------------------------------------------------------------------------

  /** A line feed and four spaces for each level; none next to text. */
  function NewLine(quiet: bool, depth: nat): Bytes {
    if quiet then [] else [LF] + seq(4 * depth, _ => SPACE)
  }

  predicate HasText(node: Node) {
    match node
    case Element(_, _, children) => AnyHasText(children)
    case _ => node.Text?
  }

  predicate AnyHasText(nodes: seq<Node>) {
    nodes != [] && (HasText(nodes[0]) || AnyHasText(nodes[1..]))
  }

  /** Text in an element suppresses line feeds, until an element with text of its own has ended. */
  predicate QuietAfter(node: Node, depth: nat, quiet: bool) {
    match node
    case Text(_, _) => depth > 0
    case Element(_, _, _) => quiet && !HasText(node)
    case _ => quiet
  }

  predicate QuietAfterAll(nodes: seq<Node>, depth: nat, quiet: bool) {
    if nodes == [] then quiet else QuietAfterAll(nodes[1..], depth, QuietAfter(nodes[0], depth, quiet))
  }

  /** A node without the line feed before it. */
  function Content(o: Options, node: Node, apos: bool, depth: nat, quiet: bool): Bytes
    decreases node, 0
  {
    match node
    case Element(name, attributes, children) =>
      StartText(o, name, attributes, apos) +
      if children == [] then Ascii("/>")
      else
        Ascii(">") + (IndentedAll(o, children, apos, depth + 1, quiet) +
                      (NewLine(QuietAfterAll(children, depth + 1, quiet), depth) + EndText(name)))
    case _ => LeafText(o, node)
  }

  function Indented(o: Options, node: Node, apos: bool, depth: nat, quiet: bool): Bytes
    decreases node, 1
  {
    (if node.Text? then [] else NewLine(quiet, depth)) + Content(o, node, apos, depth, quiet)
  }

  function IndentedAll(o: Options, nodes: seq<Node>, apos: bool, depth: nat, quiet: bool): Bytes
    decreases nodes
  {
    if nodes == [] then []
    else
      Indented(o, nodes[0], apos, depth, quiet) +
      IndentedAll(o, nodes[1..], apos, depth, QuietAfter(nodes[0], depth, quiet))
  }

  /** The document: nothing before its first tag, and a line feed after each element. */
  function IndentedTop(o: Options, nodes: seq<Node>, apos: bool, first: bool): Bytes {
    if nodes == [] then []
    else
      var node := nodes[0];
      (if first then Content(o, node, apos, 0, false) else Indented(o, node, apos, 0, false)) +
      ((if node.Element? then [LF] else []) + IndentedTop(o, nodes[1..], apos, first && node.Text?))
  }

  // ---- The pieces are those that are written --------------------------------------------------------

  lemma {:induction false} Spelled()
    ensures Ascii("<") == [LT] && Ascii(">") == [GT] && Ascii("</") == END_TAG && Ascii("/>") == SEAL
    ensures Ascii(" ") == [SPACE] && Ascii("=\"") == EQUALS_QUOTE && Ascii("\"") == [DQUOTE]
  {
  }

  lemma {:induction false} BracketsSpelled()
    ensures Ascii("<![CDATA[") == CDATA_HEADER && Ascii("]]>") == CDATA_END
    ensures Ascii("<!--") == COMMENT_HEADER && Ascii("-->") == COMMENT_END
    ensures Ascii("<?") == DECLARATION_HEADER && Ascii("?>") == DECLARATION_END
    ensures Ascii("<!") == UNKNOWN_HEADER && Ascii(">") == UNKNOWN_END
  {
  }

  lemma {:induction false} AttributesShown(o: Options, attributes: seq<Attribute>, apos: bool)
    ensures AttributesText(o, attributes, apos) == ShowAttributes(o, attributes, apos)
  {
    hide Ascii, Printed;
    Spelled();
    if attributes != [] {
      AttributesShown(o, attributes[1..], apos);
    }
  }

  lemma {:induction false} TagsShown(o: Options, name: Bytes, attributes: seq<Attribute>, apos: bool)
    ensures StartText(o, name, attributes, apos) == ShowHead(o, name, attributes, apos)
    ensures EndText(name) == ShowEndTag(name)
  {
    hide Ascii, AttributesText, ShowAttributes;
    Spelled();
    AttributesShown(o, attributes, apos);
  }

  lemma {:induction false} LeafShown(o: Options, node: Node)
    requires !node.Element?
    ensures LeafText(o, node) ==
            if node.Text? && !node.cdata then Quoted(o, node.value, InText)
            else Brackets(node).0 + (MarkupValue(node) + Brackets(node).1)
  {
    hide Ascii, Printed;
    BracketsSpelled();
  }

  lemma {:induction false} NothingBefore(s: Bytes)
    ensures [] + s == s
  {
  }

  // ---- Compact printing ------------------------------------------------------------------------------

  lemma {:induction false} CompactShown(o: Options, node: Node, apos: bool, depth: nat, pen: Pen)
    ensures Show(o, Lay(true, node, depth, pen).0, apos) == Compact(o, node, apos)
    decreases node
  {
    hide Ascii, ShowHead, ShowEndTag, StartText, EndText, LeafText, Quoted, Spaces, LayAll;
    if node.Element? {
      Spelled();
      TagsShown(o, node.name, node.attributes, apos);
      CompactAllShown(o, node.children, apos, depth + 1, Begun(true, pen));
      NothingBefore(EndText(node.name));
      NothingBefore(Compact(o, node, apos));
    } else {
      LeafShown(o, node);
      NothingBefore(LeafText(o, node));
    }
  }

  lemma {:induction false} CompactAllShown(o: Options, nodes: seq<Node>, apos: bool, depth: nat, pen: Pen)
    ensures ShowAll(o, LayAll(true, nodes, depth, pen).0, apos) == CompactAll(o, nodes, apos)
    decreases nodes
  {
    hide Show, Lay, Compact;
    if nodes != [] {
      var (l, pen') := Lay(true, nodes[0], depth, pen);
      var tail := LayAll(true, nodes[1..], depth, pen').0;
      CompactShown(o, nodes[0], apos, depth, pen);
      CompactAllShown(o, nodes[1..], apos, depth, pen');
      assert ([l] + tail)[1..] == tail;
    }
  }

  lemma {:induction false} CompactPrinted(o: Options, nodes: seq<Node>, apos: bool, pen: Pen)
    ensures PrintAll(o, true, apos, nodes, 0, pen) == CompactAll(o, nodes, apos)
  {
    hide Show, Lay, Compact;
    if nodes != [] {
      CompactShown(o, nodes[0], apos, 0, pen);
      CompactPrinted(o, nodes[1..], apos, Lay(true, nodes[0], 0, pen).1);
      NothingBefore(CompactAll(o, nodes[1..], apos));
    }
  }

  /** In compact mode a document is its tags and text, with nothing in between. */
  lemma {:induction false} PrintsCompactly(o: Options, apos: bool, bom: bool, nodes: seq<Node>)
    ensures PrintDocument(o, true, apos, bom, nodes) == (if bom then BOM else []) + CompactAll(o, nodes, apos)
  {
    CompactPrinted(o, nodes, apos, START);
  }

  // ---- Indented printing -------------------------------------------------------------------------------

  lemma {:induction false} SpacesAre(depth: nat)
    ensures Spaces(depth) == seq(4 * depth, _ => SPACE)
  {
    if depth > 0 {
      SpacesAre(depth - 1);
      assert seq(4 * depth, _ => SPACE) == seq(4 * (depth - 1), _ => SPACE) + FOUR_SPACES;
    }
  }

  /** What the text depth of the printer is worth: it is set by text, and reset at the end of its element. */
  lemma {:induction false} PenAfter(node: Node, depth: nat, pen: Pen)
    requires -1 <= pen.textDepth < depth
    ensures var pen' := Lay(false, node, depth, pen).1;
            && -1 <= pen'.textDepth < depth
            && (pen'.textDepth >= 0 <==> QuietAfter(node, depth, pen.textDepth >= 0))
            && (!HasText(node) ==> pen'.textDepth == pen.textDepth)
            && (HasText(node) ==> pen'.textDepth == if node.Text? then depth - 1 else -1)
    decreases node
  {
    hide Spaces;
    if node.Element? {
      hide LayAll;
      PenAfterAll(node.children, depth + 1, Begun(false, pen));
    }
  }

  lemma {:induction false} PenAfterAll(nodes: seq<Node>, depth: nat, pen: Pen)
    requires -1 <= pen.textDepth < depth
    ensures var pen' := LayAll(false, nodes, depth, pen).1;
            && -1 <= pen'.textDepth < depth
            && (pen'.textDepth >= 0 <==> QuietAfterAll(nodes, depth, pen.textDepth >= 0))
            && (!AnyHasText(nodes) ==> pen'.textDepth == pen.textDepth)
            && (AnyHasText(nodes) ==> pen'.textDepth == -1 || pen'.textDepth == depth - 1)
    decreases nodes
  {
    hide Lay, HasText, QuietAfter;
    if nodes != [] {
      PenAfter(nodes[0], depth, pen);
      PenAfterAll(nodes[1..], depth, Lay(false, nodes[0], depth, pen).1);
    }
  }

  /** The line feed and the spaces are those of the layout. */
  lemma {:induction false} IndentIs(pen: Pen, depth: nat)
    requires !pen.firstElement
    ensures Indent(false, pen, depth) == NewLine(pen.textDepth >= 0, depth)
  {
    SpacesAre(depth);
  }

  lemma {:induction false} FirstIndent(pen: Pen)
    requires pen.firstElement
    ensures Indent(false, pen, 0) == []
  {
  }

  /** The layout of an element, without what stands before it. */
  lemma {:induction false} ContentShown(o: Options, node: Node, apos: bool, depth: nat, pen: Pen)
    requires -1 <= pen.textDepth && pen.textDepth < (if depth == 0 then 0 else depth)
    ensures Show(o, Lay(false, node, depth, pen).0, apos)
            == (if node.Text? then [] else Indent(false, pen, depth))
               + Content(o, node, apos, depth, pen.textDepth >= 0)
    decreases node, 0
  {
    hide Ascii, ShowHead, ShowEndTag, StartText, EndText, LeafText, Quoted, Indent, LayAll, NewLine, Spaces;
    if node.Element? {
      var pen' := Begun(false, pen);
      Spelled();
      TagsShown(o, node.name, node.attributes, apos);
      IndentedAllShown(o, node.children, apos, depth + 1, pen');
      PenAfterAll(node.children, depth + 1, pen');
      CloseGapIs(LayAll(false, node.children, depth + 1, pen').1, depth);
    } else {
      LeafShown(o, node);
      NothingBefore(LeafText(o, node));
    }
  }

  lemma {:induction false} CloseGapIs(pen: Pen, depth: nat)
    ensures (if pen.textDepth < 0 then [LF] + Spaces(depth) else []) == NewLine(pen.textDepth >= 0, depth)
  {
    SpacesAre(depth);
  }

  lemma {:induction false} StaysStarted(node: Node, depth: nat, pen: Pen)
    requires !pen.firstElement
    ensures !Lay(false, node, depth, pen).1.firstElement
  {
    LayStarted(false, node, depth, pen);
  }

  lemma {:induction false} IndentedAllShown(o: Options, nodes: seq<Node>, apos: bool, depth: nat, pen: Pen)
    requires -1 <= pen.textDepth < depth && !pen.firstElement
    ensures ShowAll(o, LayAll(false, nodes, depth, pen).0, apos)
            == IndentedAll(o, nodes, apos, depth, pen.textDepth >= 0)
    decreases nodes, 1
  {
    hide Show, Lay, Content, QuietAfter, HasText;
    if nodes != [] {
      var (l, pen') := Lay(false, nodes[0], depth, pen);
      var tail := LayAll(false, nodes[1..], depth, pen').0;
      ContentShown(o, nodes[0], apos, depth, pen);
      IndentIs(pen, depth);
      PenAfter(nodes[0], depth, pen);
      StaysStarted(nodes[0], depth, pen);
      IndentedAllShown(o, nodes[1..], apos, depth, pen');
      assert ([l] + tail)[1..] == tail;
    }
  }

  /** In the document itself, line feeds are never suppressed. */
  lemma {:induction false} TopPen(node: Node, pen: Pen)
    requires pen.textDepth == -1
    ensures var pen' := Lay(false, node, 0, pen).1;
            pen'.textDepth == -1 && pen'.firstElement == (pen.firstElement && node.Text?)
  {
    if node.Element? {
      hide LayAll;
      PenAfterAll(node.children, 1, Begun(false, pen));
      LayAllStarted(false, node.children, 1, Begun(false, pen));
    }
  }

  lemma {:induction false} TopPrinted(o: Options, nodes: seq<Node>, apos: bool, pen: Pen)
    requires pen.textDepth == -1
    ensures PrintAll(o, false, apos, nodes, 0, pen) == IndentedTop(o, nodes, apos, pen.firstElement)
  {
    hide Show, Lay, Content, Indent, NewLine;
    if nodes != [] {
      var node := nodes[0];
      ContentShown(o, node, apos, 0, pen);
      TopPen(node, pen);
      if pen.firstElement {
        FirstIndent(pen);
        NothingBefore(Content(o, node, apos, 0, false));
      } else {
        IndentIs(pen, 0);
      }
      TopPrinted(o, nodes[1..], apos, Lay(false, node, 0, pen).1);
    }
  }

  /**
   Otherwise each tag stands on a line of its own, after four spaces for each element around it, except
   the first one, and except after text in its element; and each element of the document ends a line.
   */
  lemma {:induction false} PrintsIndented(o: Options, apos: bool, bom: bool, nodes: seq<Node>)
    ensures PrintDocument(o, false, apos, bom, nodes) == (if bom then BOM else []) + IndentedTop(o, nodes, apos, true)
  {
    TopPrinted(o, nodes, apos, START);
  }

  // ---- When text keeps line feeds away ------------------------------------------------------------------

  /** The i-th node is text, and no element after it has text. */
  ghost predicate LastWords(nodes: seq<Node>, i: int) {
    && 0 <= i < |nodes| && nodes[i].Text?
    && forall j | i < j < |nodes| && nodes[j].Element? :: !HasText(nodes[j])
  }

  /** After some children no line feed comes exactly if one is text and no element after it has text. */
  lemma {:induction false} QuietExactly(nodes: seq<Node>, depth: nat, quiet: bool)
    requires depth > 0
    ensures QuietAfterAll(nodes, depth, quiet)
            <==> (exists i :: LastWords(nodes, i)) || (quiet && !AnyHasText(nodes))
    decreases nodes
  {
    hide HasText, AnyHasText;
    if nodes == [] {
      NoneHasText();
    } else {
      var node, rest := nodes[0], nodes[1..];
      assert nodes == [node] + rest;
      QuietExactly(rest, depth, QuietAfter(node, depth, quiet));
      FirstHasText(nodes);
      AnyIsSome(rest);
      if i :| LastWords(rest, i) {
        assert LastWords(nodes, i + 1) by {
          assert forall j | i + 1 < j < |nodes| :: nodes[j] == rest[j - 1];
        }
      }
      if i :| LastWords(nodes, i) {
        assert forall j | 0 <= j < |rest| :: rest[j] == nodes[j + 1];
        if i > 0 {
          assert LastWords(rest, i - 1);
        }
      }
      if node.Text? && !AnyHasText(rest) {
        assert LastWords(nodes, 0);
      }
      if node.Text? && AnyHasText(rest) && LastWords(nodes, 0) {
        TextIsLast(rest);
      }
    }
  }

  lemma {:induction false} NoneHasText()
    ensures !AnyHasText([])
  {
  }

  lemma {:induction false} FirstHasText(nodes: seq<Node>)
    requires nodes != []
    ensures AnyHasText(nodes) <==> HasText(nodes[0]) || AnyHasText(nodes[1..])
    ensures !nodes[0].Element? ==> (HasText(nodes[0]) <==> nodes[0].Text?)
  {
  }

  lemma {:induction false} AnyIsSome(nodes: seq<Node>)
    ensures AnyHasText(nodes) <==> exists i :: 0 <= i < |nodes| && HasText(nodes[i])
  {
    hide HasText;
    if nodes != [] {
      AnyIsSome(nodes[1..]);
      assert nodes == [nodes[0]] + nodes[1..];
      if i :| 0 <= i < |nodes[1..]| && HasText(nodes[1..][i]) {
        assert HasText(nodes[i + 1]);
      }
      if i :| 0 <= i < |nodes| && HasText(nodes[i]) {
        assert i > 0 ==> HasText(nodes[1..][i - 1]);
      }
    }
  }

  /** Where text occurs, but in no element, the last of it is followed by none. */
  lemma {:induction false} TextIsLast(nodes: seq<Node>)
    requires AnyHasText(nodes) && forall j | 0 <= j < |nodes| && nodes[j].Element? :: !HasText(nodes[j])
    ensures exists i :: LastWords(nodes, i)
  {
    AnyIsSome(nodes);
    hide AnyHasText;
    var i :| 0 <= i < |nodes| && HasText(nodes[i]);
    assert LastWords(nodes, i);
  }

  lemma {:induction false} IndentedSplit(o: Options, before: seq<Node>, rest: seq<Node>, apos: bool, depth: nat,
                                         quiet: bool)
    ensures IndentedAll(o, before + rest, apos, depth, quiet)
            == IndentedAll(o, before, apos, depth, quiet)
               + IndentedAll(o, rest, apos, depth, QuietAfterAll(before, depth, quiet))
    decreases before
  {
    hide Indented, QuietAfter;
    var all := before + rest;
    if before == [] {
      assert all == rest;
      NothingBefore(IndentedAll(o, rest, apos, depth, quiet));
    } else {
      assert all[0] == before[0] && all[1..] == before[1..] + rest;
      IndentedSplit(o, before[1..], rest, apos, depth, QuietAfter(before[0], depth, quiet));
    }
  }

  /**
   Where line feeds are not suppressed yet, a child that is not text stands after a line feed and four spaces
   for each level, exactly if no text stands before it, or an element after that text has text; and else right
   after what stands before it.
   */
  lemma {:induction false} NodeOnItsLine(o: Options, before: seq<Node>, node: Node, after: seq<Node>, apos: bool,
                                         depth: nat)
    requires depth > 0 && !node.Text?
    ensures var quiet := exists i :: LastWords(before, i);
            IndentedAll(o, before + ([node] + after), apos, depth, false)
            == IndentedAll(o, before, apos, depth, false)
               + (((if quiet then [] else [LF] + seq(4 * depth, _ => SPACE)) + Content(o, node, apos, depth, quiet))
                  + IndentedAll(o, after, apos, depth, QuietAfter(node, depth, quiet)))
  {
    var quiet := exists i :: LastWords(before, i);
    QuietExactly(before, depth, false);
    assert QuietAfterAll(before, depth, false) <==> quiet;
    hide Content, QuietAfterAll, LastWords, QuietAfter;
    IndentedSplit(o, before, [node] + after, apos, depth, false);
    assert ([node] + after)[0] == node && ([node] + after)[1..] == after;
  }

  /** `<a>x<b>y</b><c/></a>` is printed with a line feed before its third child, although the text stands before it. */
  lemma {:induction false} TextIsForgotten(x: Bytes, y: Bytes, b: Bytes)
    ensures var before := [Text(x, false), Element(b, [], [Text(y, false)])];
            !QuietAfterAll(before, 1, false) && QuietAfterAll(before[..1], 1, false)
  {
    var text, element := Text(x, false), Element(b, [], [Text(y, false)]);
    var before := [text, element];
    FirstHasText(element.children);
    assert HasText(element);
    hide HasText;
    assert before[..1] == [text] && [text][1..] == [] && before[1..] == [element] && [element][1..] == [];
    assert !QuietAfterAll([element], 1, true) && QuietAfterAll([], 1, true);
  }
}
