/** tinyxml2's XMLPrinter, writing to memory, in compact and in indented form. */
module XmlPrinter {
  import opened Bytes
  import opened Scanning
  import opened Escaping
  import opened XmlParser
  import opened XmlLayout
  import opened XmlRoundTrip

  // ---- Where the printer puts white space -------------------------------------------------------

  /** The printer fields that decide about white space. */
  datatype Pen = Pen(textDepth: int, firstElement: bool)

  const FOUR_SPACES: Bytes := [SPACE, SPACE, SPACE, SPACE]

  function Spaces(depth: nat): (r: Bytes)
    ensures AllWhiteSpace(r)
  {
    if depth == 0 then [] else Spaces(depth - 1) + FOUR_SPACES
  }

  /** The white space that PrepareForNewNode writes. */
  function Indent(compact: bool, pen: Pen, depth: nat): (r: Bytes)
    ensures AllWhiteSpace(r)
  {
    if compact then []
    else if pen.firstElement then Spaces(depth)
    else if pen.textDepth < 0 then [LF] + Spaces(depth)
    else []
  }

  function Begun(compact: bool, pen: Pen): Pen {
    if compact then pen else pen.(firstElement := false)
  }

  /** The layout of a node at the given depth, and the fields after it. */
  function Lay(compact: bool, node: Node, depth: nat, pen: Pen): (Laid, Pen) {
    match node
    case Element(name, attributes, children) =>
      var inner := LayAll(compact, children, depth + 1, Begun(compact, pen));
      var closeGap := if children != [] && inner.1.textDepth < 0 && !compact then [LF] + Spaces(depth) else [];
      (LaidElement(Indent(compact, pen, depth), name, attributes, inner.0, closeGap),
       if inner.1.textDepth == depth then inner.1.(textDepth := -1) else inner.1)
    case Text(value, cdata) =>
      (if cdata then LaidMarkup([], node) else LaidText(value), pen.(textDepth := depth - 1))
    case _ => (LaidMarkup(Indent(compact, pen, depth), node), Begun(compact, pen))
  }

  function LayAll(compact: bool, nodes: seq<Node>, depth: nat, pen: Pen): (r: (seq<Laid>, Pen))
    ensures |r.0| == |nodes|
  {
    if nodes == [] then ([], pen)
    else
      var head := Lay(compact, nodes[0], depth, pen);
      var tail := LayAll(compact, nodes[1..], depth, head.1);
      ([head.0] + tail.0, tail.1)
  }

  /** The layout is a layout of the tree. */
  lemma {:induction false} LayErase(compact: bool, node: Node, depth: nat, pen: Pen)
    ensures Erase(Lay(compact, node, depth, pen).0) == node
    decreases node
  {
    if node.Element? {
      LayAllErase(compact, node.children, depth + 1, Begun(compact, pen));
    }
  }

  lemma {:induction false} LayAllErase(compact: bool, nodes: seq<Node>, depth: nat, pen: Pen)
    ensures EraseAll(LayAll(compact, nodes, depth, pen).0) == nodes
    decreases nodes
  {
    if nodes != [] {
      LayErase(compact, nodes[0], depth, pen);
      LayAllErase(compact, nodes[1..], depth, Lay(compact, nodes[0], depth, pen).1);
    }
  }

  // ---- Trees that survive -------------------------------------------------------------------------

  predicate IsPlainText(node: Node) {
    node.Text? && !node.cdata
  }

  /** What the printer can write and the parser read back, inside elements. */
  ghost predicate Writable(o: Options, node: Node) {
    match node
    case Element(name, attributes, children) =>
      && IsName(name) && ValidAttributes(o, attributes)
      && (forall i | 0 <= i < |children| :: Writable(o, children[i]) && !children[i].Declaration?)
      && (forall i | 0 <= i < |children| - 1 :: !(IsPlainText(children[i]) && IsPlainText(children[i + 1])))
    case Text(value, cdata) => if cdata then ValidMarkup(node) else ValidText(o, value)
    case _ => ValidMarkup(node)
  }

  /** The number of nested open tags that a node is printed with. */
  function Nesting(node: Node): nat {
    if node.Element? && node.children != [] then 1 + NestingAll(node.children) else 0
  }

  function NestingAll(nodes: seq<Node>): (h: nat)
    ensures forall i | 0 <= i < |nodes| :: Nesting(nodes[i]) <= h
  {
    if nodes == [] then 0
    else
      var a, b := Nesting(nodes[0]), NestingAll(nodes[1..]);
      if a > b then a else b
  }

  lemma {:induction false} LayHeight(compact: bool, node: Node, depth: nat, pen: Pen)
    ensures Height(Lay(compact, node, depth, pen).0) == Nesting(node)
    decreases node
  {
    if node.Element? {
      LayAllHeight(compact, node.children, depth + 1, Begun(compact, pen));
    }
  }

  lemma {:induction false} LayAllHeight(compact: bool, nodes: seq<Node>, depth: nat, pen: Pen)
    ensures HeightAll(LayAll(compact, nodes, depth, pen).0) == NestingAll(nodes)
    decreases nodes
  {
    if nodes != [] {
      LayHeight(compact, nodes[0], depth, pen);
      LayAllHeight(compact, nodes[1..], depth, Lay(compact, nodes[0], depth, pen).1);
    }
  }

  /** Inside an element the first-node flag is no longer set, or does not matter. */
  predicate Started(compact: bool, pen: Pen) {
    compact || !pen.firstElement
  }

  lemma {:induction false} LayStarted(compact: bool, node: Node, depth: nat, pen: Pen)
    requires Started(compact, pen)
    ensures Started(compact, Lay(compact, node, depth, pen).1)
    decreases node
  {
    if node.Element? {
      LayAllStarted(compact, node.children, depth + 1, Begun(compact, pen));
    }
  }

  lemma {:induction false} LayAllStarted(compact: bool, nodes: seq<Node>, depth: nat, pen: Pen)
    requires Started(compact, pen)
    ensures Started(compact, LayAll(compact, nodes, depth, pen).1)
    decreases nodes
  {
    if nodes != [] {
      LayStarted(compact, nodes[0], depth, pen);
      LayAllStarted(compact, nodes[1..], depth, Lay(compact, nodes[0], depth, pen).1);
    }
  }

  /** The layout of a writable tree is valid: no white space is put next to text. */
  lemma {:induction false} LayValid(o: Options, compact: bool, node: Node, depth: nat, pen: Pen)
    requires Writable(o, node)
    ensures Valid(o, Lay(compact, node, depth, pen).0)
    decreases node, 1
  {
    hide ValidMarkup, ValidText, ValidAttributes;
    if node.Element? {
      hide Valid, LayAll, EraseAll, NoTextAdjacent, Indent;
      var pen' := Begun(compact, pen);
      LayAllValid(o, compact, node.children, depth + 1, pen');
      LayAllErase(compact, node.children, depth + 1, pen');
      var l := Lay(compact, node, depth, pen).0;
      CloseGapOk(compact, l.kids, LayAll(compact, node.children, depth + 1, pen').1, depth, l.closeGap);
      ElementValid(o, l, node);
    }
  }

  lemma {:induction false} CloseGapOk(compact: bool, ls: seq<Laid>, pen: Pen, depth: nat, closeGap: Bytes)
    requires NoTextAdjacent(ls, []) && Quiet(ls, pen)
    requires closeGap == if ls != [] && pen.textDepth < 0 && !compact then [LF] + Spaces(depth) else []
    ensures NoTextAdjacent(ls, closeGap) && AllWhiteSpace(closeGap)
  {
  }

  lemma {:induction false} ElementValid(o: Options, l: Laid, node: Node)
    requires l.LaidElement? && node.Element? && Writable(o, node)
    requires l.name == node.name && l.attributes == node.attributes && EraseAll(l.kids) == node.children
    requires AllWhiteSpace(l.gap) && AllWhiteSpace(l.closeGap) && NoTextAdjacent(l.kids, l.closeGap)
    requires forall i | 0 <= i < |l.kids| :: Valid(o, l.kids[i])
    ensures Valid(o, l)
  {
    hide ValidMarkup, ValidText, ValidAttributes, NoTextAdjacent;
    EraseAllAt(l.kids);
    assert forall i | 0 <= i < |l.kids| :: Erase(l.kids[i]) == node.children[i];
  }

  lemma {:induction false} EraseAllAt(ls: seq<Laid>)
    ensures forall i | 0 <= i < |ls| :: EraseAll(ls)[i] == Erase(ls[i])
  {
    if ls != [] {
      EraseAllAt(ls[1..]);
      forall i | 0 <= i < |ls| ensures EraseAll(ls)[i] == Erase(ls[i]) {
        if i > 0 {
          assert ls[1..][i - 1] == ls[i];
          assert EraseAll(ls)[i] == EraseAll(ls[1..])[i - 1];
        }
      }
    }
  }

  /** After text, the pen suppresses white space until the element ends. */
  ghost predicate Quiet(ls: seq<Laid>, pen: Pen) {
    ls != [] && ls[|ls| - 1].LaidText? ==> pen.textDepth >= 0
  }

  lemma {:induction false} NothingAdjacent()
    ensures NoTextAdjacent([], [])
  {
  }

  lemma {:induction false} MoreAdjacent(head: Laid, tail: seq<Laid>)
    requires NoTextAdjacent(tail, [])
    requires head.LaidText? && tail != [] ==> !tail[0].LaidText? && GapOf(tail[0]) == []
    ensures NoTextAdjacent([head] + tail, [])
  {
    var ls := [head] + tail;
    forall i | 0 <= i < |ls| - 1 && ls[i].LaidText?
      ensures !ls[i + 1].LaidText? && GapOf(ls[i + 1]) == []
    {
      if i > 0 {
        assert ls[i] == tail[i - 1] && ls[i + 1] == tail[i];
      }
    }
  }

  /** Text stays text, and after text there is no gap. */
  lemma {:induction false} LayFirst(compact: bool, node: Node, depth: nat, pen: Pen)
    requires depth > 0 && Started(compact, pen)
    ensures var (l, pen') := Lay(compact, node, depth, pen);
            && (l.LaidText? <==> IsPlainText(node)) && (l.LaidText? ==> pen'.textDepth >= 0)
            && (pen.textDepth >= 0 ==> GapOf(l) == [])
  {
  }

  lemma {:induction false} LayAllValid(o: Options, compact: bool, nodes: seq<Node>, depth: nat, pen: Pen)
    requires forall i | 0 <= i < |nodes| :: Writable(o, nodes[i])
    requires forall i | 0 <= i < |nodes| - 1 :: !(IsPlainText(nodes[i]) && IsPlainText(nodes[i + 1]))
    requires depth > 0 && Started(compact, pen)
    ensures var (ls, pen') := LayAll(compact, nodes, depth, pen);
            && (forall i | 0 <= i < |ls| :: Valid(o, ls[i]))
            && NoTextAdjacent(ls, []) && Quiet(ls, pen')
    ensures nodes != [] && pen.textDepth >= 0 ==> GapOf(LayAll(compact, nodes, depth, pen).0[0]) == []
    decreases nodes, 0
  {
    hide Valid, Writable, Lay, GapOf, NoTextAdjacent;
    if nodes == [] {
      NothingAdjacent();
    } else {
      var (head, pen') := Lay(compact, nodes[0], depth, pen);
      var tail := LayAll(compact, nodes[1..], depth, pen').0;
      LayFirst(compact, nodes[0], depth, pen);
      LayValid(o, compact, nodes[0], depth, pen);
      LayStarted(compact, nodes[0], depth, pen);
      LayAllValid(o, compact, nodes[1..], depth, pen');
      if |nodes| > 1 {
        assert nodes[1..][0] == nodes[1];
        LayFirst(compact, nodes[1], depth, pen');
      }
      MoreAdjacent(head, tail);
    }
  }

  // ---- Documents -----------------------------------------------------------------------------

  /** The newline after an element that is not inside another one. */
  function Trailer(compact: bool, node: Node, depth: nat): Bytes {
    if node.Element? && depth == 0 && !compact then [LF] else []
  }

  /** What is written for a list of siblings. */
  function PrintAll(o: Options, compact: bool, apos: bool, nodes: seq<Node>, depth: nat, pen: Pen): Bytes {
    if nodes == [] then []
    else
      var (l, pen') := Lay(compact, nodes[0], depth, pen);
      Show(o, l, apos) + (Trailer(compact, nodes[0], depth) + PrintAll(o, compact, apos, nodes[1..], depth, pen'))
  }

  /** Inside an element that is the text form of the layout. */
  lemma {:induction false} PrintKids(o: Options, compact: bool, apos: bool, nodes: seq<Node>, depth: nat, pen: Pen)
    requires depth > 0
    ensures PrintAll(o, compact, apos, nodes, depth, pen) == ShowAll(o, LayAll(compact, nodes, depth, pen).0, apos)
  {
    hide Lay, Show;
    if nodes != [] {
      var (l, pen') := Lay(compact, nodes[0], depth, pen);
      var tail := LayAll(compact, nodes[1..], depth, pen').0;
      PrintKids(o, compact, apos, nodes[1..], depth, pen');
      assert ([l] + tail)[1..] == tail;
      assert [] + ShowAll(o, tail, apos) == ShowAll(o, tail, apos);
    }
  }

  const START := Pen(-1, true)

  function PrintDocument(o: Options, compact: bool, apos: bool, bom: bool, nodes: seq<Node>): Bytes {
    (if bom then BOM else []) + PrintAll(o, compact, apos, nodes, 0, START)
  }

  function WithGap(gap: Bytes, l: Laid): Laid {
    match l
    case LaidElement(g, name, attributes, kids, closeGap) => LaidElement(gap + g, name, attributes, kids, closeGap)
    case LaidText(value) => l
    case LaidMarkup(g, node) => LaidMarkup(gap + g, node)
  }

  /** The top level as a layout: a trailing newline counts as white space before the next node. */
  function LayTop(compact: bool, nodes: seq<Node>, pen: Pen, pending: Bytes): (r: (seq<Laid>, Bytes))
    ensures |r.0| == |nodes|
  {
    if nodes == [] then ([], pending)
    else
      var (l, pen') := Lay(compact, nodes[0], 0, pen);
      var tail := LayTop(compact, nodes[1..], pen', Trailer(compact, nodes[0], 0));
      ([WithGap(pending, l)] + tail.0, tail.1)
  }

  lemma {:induction false} WithGapShow(o: Options, gap: Bytes, l: Laid, apos: bool)
    requires !l.LaidText?
    ensures Show(o, WithGap(gap, l), apos) == gap + Show(o, l, apos)
    ensures Erase(WithGap(gap, l)) == Erase(l) && Height(WithGap(gap, l)) == Height(l)
    ensures AllWhiteSpace(gap) && Valid(o, l) ==> Valid(o, WithGap(gap, l))
  {
    match l
    case LaidElement(g, name, attributes, kids, closeGap) =>
      var s := ShowHead(o, name, attributes, apos) +
               (if kids == [] then SEAL else [GT] + (ShowAll(o, kids, apos) + (closeGap + ShowEndTag(name))));
      assert gap + g + s == gap + (g + s);
    case LaidMarkup(g, node) =>
      var s := Brackets(node).0 + (MarkupValue(node) + Brackets(node).1);
      assert gap + g + s == gap + (g + s);
  }

  /** The top-level nodes that survive, with fewer than 499 nested open tags. */
  ghost predicate WritableTop(o: Options, nodes: seq<Node>) {
    && (forall i | 0 <= i < |nodes| :: Writable(o, nodes[i]) && !IsPlainText(nodes[i]) && Nesting(nodes[i]) < 499)
    && (forall i, j | 0 <= i < j < |nodes| && nodes[j].Declaration? :: nodes[i].Declaration?)
  }

  lemma {:induction false} LayTopValid(o: Options, compact: bool, apos: bool, nodes: seq<Node>, pen: Pen,
                                       pending: Bytes)
    requires forall i | 0 <= i < |nodes| :: Writable(o, nodes[i]) && !IsPlainText(nodes[i]) && Nesting(nodes[i]) < 499
    requires AllWhiteSpace(pending)
    ensures var (ls, tail) := LayTop(compact, nodes, pen, pending);
            && (forall i | 0 <= i < |ls| ::
                  Valid(o, ls[i]) && !ls[i].LaidText? && 1 + Height(ls[i]) < MAX_ELEMENT_DEPTH)
            && EraseAll(ls) == nodes && AllWhiteSpace(tail)
            && pending + PrintAll(o, compact, apos, nodes, 0, pen) == ShowAll(o, ls, apos) + tail
  {
    hide Writable, Valid, Show, Lay, Erase, Nesting, WithGap;
    if nodes == [] {
      assert pending + [] == [] + pending;
    } else {
      var (l, pen') := Lay(compact, nodes[0], 0, pen);
      var nl := Trailer(compact, nodes[0], 0);
      var (tail, end) := LayTop(compact, nodes[1..], pen', nl);
      LayNodeFacts(o, compact, nodes[0], pen);
      WithGapShow(o, pending, l, apos);
      WithGapKind(pending, l);
      LayTopValid(o, compact, apos, nodes[1..], pen', nl);
      var ls := [WithGap(pending, l)] + tail;
      assert ls[1..] == tail;
      var shown, more := Show(o, l, apos), PrintAll(o, compact, apos, nodes[1..], 0, pen');
      Regrouped(pending, shown, nl, more, ShowAll(o, tail, apos), end);
      assert EraseAll(ls) == [nodes[0]] + nodes[1..] == nodes;
    }
  }

  lemma {:induction false} WithGapKind(gap: Bytes, l: Laid)
    ensures WithGap(gap, l).LaidText? <==> l.LaidText?
  {
  }

  lemma {:induction false} Regrouped(pending: Bytes, shown: Bytes, nl: Bytes, more: Bytes, tail: Bytes, end: Bytes)
    requires nl + more == tail + end
    ensures pending + (shown + (nl + more)) == ((pending + shown) + tail) + end
  {
  }

  lemma {:induction false} LayNodeFacts(o: Options, compact: bool, node: Node, pen: Pen)
    requires Writable(o, node) && !IsPlainText(node)
    ensures var l := Lay(compact, node, 0, pen).0;
            Valid(o, l) && !l.LaidText? && Height(l) == Nesting(node) && Erase(l) == node
  {
    hide Writable, Valid;
    LayValid(o, compact, node, 0, pen);
    LayHeight(compact, node, 0, pen);
    LayErase(compact, node, 0, pen);
  }

  /**
   Printing a document, compactly or indented, and parsing the text returns the document. In
   collapsing mode its text comes back collapsed.
   */
  lemma {:induction false} PrintParse(o: Options, compact: bool, apos: bool, bom: bool, nodes: seq<Node>)
    requires nodes != [] && WritableTop(o, nodes)
    ensures ParseDocument(o, PrintDocument(o, compact, apos, bom, nodes)) == Document(Success, AsReadAll(o, nodes), bom)
    ensures o.whitespace != CollapseWhitespace ==> AsReadAll(o, nodes) == nodes
  {
    hide ParseDocument, Writable, Valid, Show, Erase, ShowAll, Lay;
    var (ls, tail) := LayTop(compact, nodes, START, []);
    LayTopValid(o, compact, apos, nodes, START, []);
    assert [] + PrintAll(o, compact, apos, nodes, 0, START) == PrintAll(o, compact, apos, nodes, 0, START);
    EraseAllAt(ls);
    assert DeclarationsFirst(true, [], ls) by {
      assert forall i | 0 <= i < |ls| :: Erase(ls[i]) == nodes[i];
    }
    FirstGap(compact, nodes);
    DocumentBack(o, ls, apos, bom, tail);
    if o.whitespace != CollapseWhitespace {
      AsReadAllSame(o, nodes);
    }
  }

  lemma {:induction false} FirstGap(compact: bool, nodes: seq<Node>)
    requires nodes != []
    ensures GapOf(LayTop(compact, nodes, START, []).0[0]) == []
  {
    var l := Lay(compact, nodes[0], 0, START).0;
    assert Spaces(0) == [];
    assert GapOf(l) == [];
    assert GapOf(WithGap([], l)) == [];
  }

  // ---- The printer object ------------------------------------------------------------------------

  /** The `>` that the printer still owes for an open tag. */
  function Owed(elementJustOpened: bool): Bytes {
    if elementJustOpened then [GT] else []
  }

  lemma {:induction false} Regroup(a: Bytes, b: Bytes, c: Bytes)
    ensures a + (b + c) == (a + b) + c
  {
  }

  lemma {:induction false} HeadText(b: Bytes, owed: Bytes, gap: Bytes, name: Bytes, attributes: Bytes)
    ensures b + (owed + (gap + ([LT] + name))) + attributes == b + (owed + (gap + ([LT] + (name + attributes))))
  {
  }

  /** The pieces of an element, one after the other. */
  lemma {:induction false} ElementText(b: Bytes, owed: Bytes, gap: Bytes, head: Bytes, inner: Bytes, ending: Bytes,
                                       trailer: Bytes)
    ensures b + (owed + (gap + head)) + inner + (ending + trailer)
            == b + (owed + ((gap + (head + (inner + ending))) + trailer))
  {
  }

  lemma {:induction false} OwedTag()
    ensures Owed(true) == [GT]
  {
  }

  /** What stands between the open tag and the ending of an element. */
  ghost function Inner(o: Options, compact: bool, apos: bool, children: seq<Node>, depth: nat, pen: Pen): Bytes {
    if children == [] then []
    else [GT] + ShowAll(o, LayAll(compact, children, depth + 1, Begun(compact, pen)).0, apos)
  }

  lemma {:induction false} ShowPieces(o: Options, compact: bool, apos: bool, node: Node, depth: nat, pen: Pen,
                                      ending: Bytes)
    requires node.Element?
    requires ending == if node.children == [] then SEAL
                       else Lay(compact, node, depth, pen).0.closeGap + ShowEndTag(node.name)
    ensures Show(o, Lay(compact, node, depth, pen).0, apos)
            == Indent(compact, pen, depth) + (ShowHead(o, node.name, node.attributes, apos)
               + (Inner(o, compact, apos, node.children, depth, pen) + ending))
  {
    hide ShowAll, LayAll, ShowHead, Indent, ShowEndTag, Spaces;
    if node.children == [] {
      assert [] + ending == ending;
    } else {
      var shown := ShowAll(o, LayAll(compact, node.children, depth + 1, Begun(compact, pen)).0, apos);
      Regroup([GT], shown, ending);
    }
  }

  lemma {:induction false} MarkupText(b: Bytes, owed: Bytes, gap: Bytes, open: Bytes, value: Bytes, close: Bytes)
    ensures b + (owed + gap) + open + value + close == b + (owed + (gap + (open + (value + close))))
  {
  }

  lemma {:induction false} EndTagText(b: Bytes, gap: Bytes, open: Bytes, name: Bytes, close: Bytes)
    ensures b + gap + open + name + close == b + (gap + (open + (name + close)))
  {
  }

  lemma {:induction false} NextText(b: Bytes, owed: Bytes, shown: Bytes, trailer: Bytes, more: Bytes)
    ensures b + (owed + (shown + (trailer + more))) == b + (owed + (shown + trailer)) + ([] + more)
  {
  }

  class XMLPrinter {
    const options: Options
    const compactMode: bool
    const escapeApos: bool
    var buffer: Bytes
    var stack: seq<Bytes>
    var elementJustOpened: bool
    var firstElement: bool
    var depth: nat
    var textDepth: int

    constructor (options: Options, compact: bool, escapeApos: bool)
      ensures this.options == options && compactMode == compact && this.escapeApos == escapeApos
      ensures buffer == [] && stack == [] && !elementJustOpened && depth == 0 && PenNow() == START
    {
      this.options, compactMode, this.escapeApos := options, compact, escapeApos;
      buffer, stack, elementJustOpened, firstElement, depth, textDepth := [], [], false, true, 0, -1;
    }

    ghost function PenNow(): Pen
      reads this
    {
      Pen(textDepth, firstElement)
    }

    method Write(data: Bytes)
      modifies this`buffer
      ensures buffer == old(buffer) + data
    {
      buffer := buffer + data;
    }

    method PrintSpace(depth: nat)
      modifies this`buffer
      ensures buffer == old(buffer) + Spaces(depth)
    {
      for i := 0 to depth
        invariant buffer == old(buffer) + Spaces(i)
      {
        assert old(buffer) + Spaces(i) + FOUR_SPACES == old(buffer) + (Spaces(i) + FOUR_SPACES);
        Write(FOUR_SPACES);
      }
    }

    method SealElementIfJustOpened()
      modifies this`buffer, this`elementJustOpened
      ensures !elementJustOpened && buffer == old(buffer) + Owed(old(elementJustOpened))
    {
      if !elementJustOpened {
        return;
      }
      elementJustOpened := false;
      Write([GT]);
    }

    method PrepareForNewNode()
      modifies this`buffer, this`elementJustOpened, this`firstElement
      ensures !elementJustOpened && PenNow() == Begun(compactMode, old(PenNow()))
      ensures buffer == old(buffer) + (Owed(old(elementJustOpened)) + Indent(compactMode, old(PenNow()), depth))
    {
      SealElementIfJustOpened();
      if compactMode {
        return;
      }
      if firstElement {
        PrintSpace(depth);
      } else if textDepth < 0 {
        Write([LF]);
        PrintSpace(depth);
      }
      firstElement := false;
    }

    method PrintString(s: Bytes, ctx: Context)
      modifies this`buffer
      ensures buffer == old(buffer) + Quoted(options, s, ctx)
    {
      if options.processEntities {
        var text := Escaping.PrintString(s, ctx);
        Write(text);
      } else {
        Write(s);
      }
    }

    method OpenElement(name: Bytes)
      modifies this
      ensures elementJustOpened && PenNow() == Begun(compactMode, old(PenNow()))
      ensures depth == old(depth) + 1 && stack == old(stack) + [name]
      ensures buffer == old(buffer)
              + (Owed(old(elementJustOpened)) + (Indent(compactMode, old(PenNow()), old(depth)) + ([LT] + name)))
    {
      PrepareForNewNode();
      stack := stack + [name];
      Write([LT]);
      Write(name);
      elementJustOpened := true;
      depth := depth + 1;
    }

    method PushAttribute(a: Attribute)
      requires elementJustOpened
      modifies this`buffer
      ensures buffer == old(buffer) + ShowAttribute(options, a, escapeApos)
    {
      Write([SPACE]);
      Write(a.name);
      Write(EQUALS_QUOTE);
      PrintString(a.value, InAttribute(escapeApos));
      Write([DQUOTE]);
    }

    method PushAttributes(attributes: seq<Attribute>)
      requires elementJustOpened
      modifies this`buffer
      ensures buffer == old(buffer) + ShowAttributes(options, attributes, escapeApos)
    {
      hide ShowAttribute;
      for i := 0 to |attributes|
        invariant old(buffer) + ShowAttributes(options, attributes, escapeApos)
               == buffer + ShowAttributes(options, attributes[i..], escapeApos)
      {
        ghost var a, rest := ShowAttribute(options, attributes[i], escapeApos), attributes[i + 1..];
        assert attributes[i..][1..] == rest;
        Regroup(buffer, a, ShowAttributes(options, rest, escapeApos));
        PushAttribute(attributes[i]);
      }
    }

    /** VisitEnter of an element: the open tag with its attributes, without its `>`. */
    method Enter(name: Bytes, attributes: seq<Attribute>)
      modifies this
      ensures elementJustOpened && PenNow() == Begun(compactMode, old(PenNow()))
      ensures depth == old(depth) + 1 && stack == old(stack) + [name]
      ensures buffer == old(buffer) + (Owed(old(elementJustOpened)) +
                        (Indent(compactMode, old(PenNow()), old(depth))
                          + ShowHead(options, name, attributes, escapeApos)))
    {
      hide ShowAttributes, Indent, Owed;
      OpenElement(name);
      PushAttributes(attributes);
      HeadText(old(buffer), Owed(old(elementJustOpened)), Indent(compactMode, old(PenNow()), old(depth)), name,
               ShowAttributes(options, attributes, escapeApos));
    }

    /** The line break and the indentation before an end tag. */
    ghost function EndGap(depth: nat): Bytes
      reads this
    {
      if textDepth < 0 && !compactMode then [LF] + Spaces(depth) else []
    }

    method WriteEndGap(depth: nat)
      modifies this`buffer
      ensures buffer == old(buffer) + old(EndGap(depth))
    {
      hide Spaces;
      if textDepth < 0 && !compactMode {
        ghost var b := buffer;
        Write([LF]);
        PrintSpace(depth);
        assert b + [LF] + Spaces(depth) == b + ([LF] + Spaces(depth));
      }
    }

    /** What ends an element: the seal of an empty one, or its end tag. */
    ghost function Ending(depth: nat): Bytes
      requires stack != []
      reads this
    {
      if elementJustOpened then SEAL else EndGap(depth) + ShowEndTag(stack[|stack| - 1])
    }

    method WriteEnding(depth: nat)
      requires stack != []
      modifies this`buffer
      ensures buffer == old(buffer) + old(Ending(depth))
    {
      ghost var b, gap := buffer, EndGap(depth);
      if elementJustOpened {
        Write(SEAL);
      } else {
        hide XMLPrinter.EndGap;
        var name := stack[|stack| - 1];
        WriteEndGap(depth);
        Write(END_TAG);
        Write(name);
        Write([GT]);
        EndTagText(b, gap, END_TAG, name, [GT]);
      }
    }

    method CloseElement()
      requires depth > 0 && stack != []
      modifies this
      ensures !elementJustOpened && depth == old(depth) - 1 && stack == old(stack)[..|old(stack)| - 1]
      ensures firstElement == old(firstElement) && textDepth == if old(textDepth) == depth then -1 else old(textDepth)
      ensures buffer == old(buffer) + (old(Ending(depth - 1)) + if depth == 0 && !compactMode then [LF] else [])
    {
      hide Spaces, ShowEndTag;
      WriteEnding(depth - 1);
      depth := depth - 1;
      stack := stack[..|stack| - 1];
      if textDepth == depth {
        textDepth := -1;
      }
      if depth == 0 && !compactMode {
        Write([LF]);
      }
      elementJustOpened := false;
    }

    method PushText(text: Bytes, cdata: bool)
      modifies this
      ensures !elementJustOpened && depth == old(depth) && stack == old(stack)
      ensures PenNow() == old(PenNow()).(textDepth := depth - 1)
      ensures buffer == old(buffer) + (Owed(old(elementJustOpened)) +
                        (if cdata then CDATA_HEADER + (text + CDATA_END) else Quoted(options, text, InText)))
    {
      hide Quoted;
      textDepth := depth - 1;
      SealElementIfJustOpened();
      if cdata {
        Write(CDATA_HEADER);
        Write(text);
        Write(CDATA_END);
      } else {
        PrintString(text, InText);
      }
    }

    /** PushComment, PushDeclaration and PushUnknown. */
    method PushMarkup(node: Node)
      requires !node.Element? && !node.Text?
      modifies this
      ensures !elementJustOpened && depth == old(depth) && stack == old(stack)
      ensures PenNow() == Begun(compactMode, old(PenNow()))
      ensures buffer == old(buffer) + (Owed(old(elementJustOpened)) +
                        (Indent(compactMode, old(PenNow()), depth)
                          + (Brackets(node).0 + (MarkupValue(node) + Brackets(node).1))))
    {
      hide Indent, Owed, Brackets, MarkupValue;
      PrepareForNewNode();
      Write(Brackets(node).0);
      Write(MarkupValue(node));
      Write(Brackets(node).1);
      MarkupText(old(buffer), Owed(old(elementJustOpened)), Indent(compactMode, old(PenNow()), depth),
                 Brackets(node).0, MarkupValue(node), Brackets(node).1);
    }

    /** XMLNode::Accept with the printer as visitor. */
    method Visit(node: Node)
      modifies this
      ensures !elementJustOpened && depth == old(depth) && stack == old(stack)
      ensures PenNow() == Lay(compactMode, node, depth, old(PenNow())).1
      ensures buffer == old(buffer) + (Owed(old(elementJustOpened)) +
                        (Show(options, Lay(compactMode, node, depth, old(PenNow())).0, escapeApos)
                          + Trailer(compactMode, node, depth)))
      decreases node, 0
    {
      match node
      case Element(name, attributes, children) =>
        VisitElement(name, attributes, children);
      case Text(value, cdata) =>
        PushText(value, cdata);
      case _ =>
        PushMarkup(node);
    }

    method VisitElement(name: Bytes, attributes: seq<Attribute>, children: seq<Node>)
      modifies this
      ensures !elementJustOpened && depth == old(depth) && stack == old(stack)
      ensures PenNow() == Lay(compactMode, Element(name, attributes, children), depth, old(PenNow())).1
      ensures buffer == old(buffer) + (Owed(old(elementJustOpened)) +
                        (Show(options, Lay(compactMode, Element(name, attributes, children), depth, old(PenNow())).0,
                              escapeApos)
                         + Trailer(compactMode, Element(name, attributes, children), depth)))
      decreases children, 2
    {
      hide PrintAll, LayAll, ShowAll, ShowHead, Indent, Spaces, ShowEndTag, Show, Owed;
      ghost var node := Element(name, attributes, children);
      ghost var pen, d, owed := PenNow(), depth, Owed(elementJustOpened);
      Enter(name, attributes);
      PrintKids(options, compactMode, escapeApos, children, depth, PenNow());
      VisitAll(children);
      OwedTag();
      ghost var inner := Inner(options, compactMode, escapeApos, children, d, pen);
      assert buffer == old(buffer)
             + (owed + (Indent(compactMode, pen, d) + ShowHead(options, name, attributes, escapeApos))) + inner;
      ghost var ending := Ending(d);
      CloseElement();
      ShowPieces(options, compactMode, escapeApos, node, d, pen, ending);
      ElementText(old(buffer), owed, Indent(compactMode, pen, d), ShowHead(options, name, attributes, escapeApos),
                  inner, ending, Trailer(compactMode, node, d));
    }

    /** The loop over the children of a node. */
    method VisitAll(nodes: seq<Node>)
      modifies this
      ensures elementJustOpened == (old(elementJustOpened) && nodes == []) && depth == old(depth) && stack == old(stack)
      ensures PenNow() == LayAll(compactMode, nodes, depth, old(PenNow())).1
      ensures nodes == [] ==> buffer == old(buffer)
      ensures nodes != [] ==>
                buffer == old(buffer) + (Owed(old(elementJustOpened)) +
                          PrintAll(options, compactMode, escapeApos, nodes, depth, old(PenNow())))
      decreases nodes, 1
    {
      hide Lay, Show;
      ghost var whole :=
        buffer + (Owed(elementJustOpened) + PrintAll(options, compactMode, escapeApos, nodes, depth, PenNow()));
      assert nodes[0..] == nodes;
      for i := 0 to |nodes|
        invariant elementJustOpened == (old(elementJustOpened) && i == 0) && depth == old(depth) && stack == old(stack)
        invariant i == 0 ==> buffer == old(buffer)
        invariant LayAll(compactMode, nodes, depth, old(PenNow())).1
                  == LayAll(compactMode, nodes[i..], depth, PenNow()).1
        invariant whole == buffer
                  + (Owed(elementJustOpened) + PrintAll(options, compactMode, escapeApos, nodes[i..], depth, PenNow()))
      {
        VisitNext(nodes, i);
      }
      if nodes != [] {
        assert whole == buffer + ([] + []);
      }
    }

    /** One turn of that loop. */
    method VisitNext(nodes: seq<Node>, i: nat)
      requires i < |nodes|
      modifies this
      ensures !elementJustOpened && depth == old(depth) && stack == old(stack)
      ensures LayAll(compactMode, nodes[i..], depth, old(PenNow())).1
              == LayAll(compactMode, nodes[i + 1..], depth, PenNow()).1
      ensures old(buffer) + (Owed(old(elementJustOpened))
                             + PrintAll(options, compactMode, escapeApos, nodes[i..], depth, old(PenNow())))
              == buffer + (Owed(elementJustOpened)
                           + PrintAll(options, compactMode, escapeApos, nodes[i + 1..], depth, PenNow()))
      decreases nodes, 0
    {
      hide Lay, Show, Trailer;
      ghost var b, owed, pen := buffer, Owed(elementJustOpened), PenNow();
      Visit(nodes[i]);
      assert nodes[i..][1..] == nodes[i + 1..];
      ghost var shown := Show(options, Lay(compactMode, nodes[i], depth, pen).0, escapeApos);
      ghost var trailer := Trailer(compactMode, nodes[i], depth);
      NextText(b, owed, shown, trailer, PrintAll(options, compactMode, escapeApos, nodes[i + 1..], depth, PenNow()));
    }

    /** XMLDocument::Print. */
    method Print(bom: bool, nodes: seq<Node>)
      requires buffer == [] && !elementJustOpened && depth == 0 && PenNow() == START
      modifies this
      ensures buffer == PrintDocument(options, compactMode, escapeApos, bom, nodes)
    {
      hide Show, Lay, LayAll;
      if bom {
        Write(BOM);
      }
      VisitAll(nodes);
    }
  }
}
