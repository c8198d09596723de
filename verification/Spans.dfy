/** The string spans that the parser leaves in the character buffer, to be decoded in place later. */
module Spans {
  import opened Bytes
  import opened Decoding
  import opened XmlParser

  /** A StrPair as the parser sets it: start and end of the text, and how it is to be decoded. */
  datatype Span = Span(start: nat, end: nat, flags: Flags)

  /** Between lo and hi, one after the other; the byte at the end of a span belongs to no other one. */
  ghost predicate Tidy(spans: seq<Span>, lo: int, hi: int) {
    && (forall i | 0 <= i < |spans| :: lo <= spans[i].start <= spans[i].end <= hi)
    && (forall i, j | 0 <= i < j < |spans| :: spans[i].end < spans[j].start)
  }

  ghost function SpanValue(text: Bytes, s: Span): Bytes {
    if s.start <= s.end <= |text| then StrValue(text[s.start..s.end], s.flags) else []
  }

  ghost function Shown(text: Bytes, spans: seq<Span>): seq<Bytes> {
    seq(|spans|, i requires 0 <= i < |spans| => SpanValue(text, spans[i]))
  }

  /** The strings of a tree, in the order in which they stand in the text. */
  ghost function ValuesOf(node: Node): seq<Bytes> {
    match node
    case Element(name, attributes, children) => [name] + (AttributeValues(attributes) + ValuesOfAll(children))
    case Text(value, _) => [value]
    case Comment(value) => [value]
    case Declaration(value) => [value]
    case Unknown(value) => [value]
  }

  ghost function ValuesOfAll(nodes: seq<Node>): seq<Bytes> {
    if nodes == [] then [] else ValuesOfAll(nodes[..|nodes| - 1]) + ValuesOf(nodes[|nodes| - 1])
  }

  ghost function AttributeValues(attributes: seq<Attribute>): seq<Bytes> {
    if attributes == [] then []
    else
      var last := attributes[|attributes| - 1];
      AttributeValues(attributes[..|attributes| - 1]) + [last.name, last.value]
  }

  lemma {:induction false} AttributeValuesMore(attributes: seq<Attribute>, a: Attribute)
    ensures AttributeValues(attributes + [a]) == AttributeValues(attributes) + [a.name, a.value]
  {
    assert (attributes + [a])[..|attributes|] == attributes;
  }

  lemma {:induction false} ValuesOfMore(nodes: seq<Node>, node: Node)
    ensures ValuesOfAll(nodes + [node]) == ValuesOfAll(nodes) + ValuesOf(node)
  {
    assert (nodes + [node])[..|nodes|] == nodes;
  }

  /** From before to after, spans between lo and hi have been added, and they stand for the values. */
  ghost predicate Grew(text: Bytes, before: seq<Span>, after: seq<Span>, values: seq<Bytes>, lo: int, hi: int) {
    && |before| <= |after| && after[..|before|] == before
    && Tidy(after[|before|..], lo, hi) && Shown(text, after[|before|..]) == values
  }

  lemma {:induction false} GrewNone(text: Bytes, spans: seq<Span>, lo: int, hi: int)
    ensures Grew(text, spans, spans, [], lo, hi)
  {
  }

  lemma {:induction false} GrewOne(text: Bytes, before: seq<Span>, s: Span, lo: int, hi: int)
    requires lo <= s.start <= s.end <= hi && s.end <= |text|
    ensures Grew(text, before, before + [s], [StrValue(text[s.start..s.end], s.flags)], lo, hi)
  {
    hide StrValue;
    assert (before + [s])[|before|..] == [s];
  }

  lemma {:induction false} GrewTwice(text: Bytes, a: seq<Span>, b: seq<Span>, c: seq<Span>,
                                     v: seq<Bytes>, lo: int, hi: int, v': seq<Bytes>, lo': int, hi': int)
    requires Grew(text, a, b, v, lo, hi) && Grew(text, b, c, v', lo', hi') && hi < lo' && lo <= lo' && hi <= hi'
    ensures Grew(text, a, c, v + v', lo, hi')
  {
    hide SpanValue;
    var x, y := b[|a|..], c[|b|..];
    assert c[|a|..] == x + y;
    assert c[..|a|] == c[..|b|][..|a|] == a;
    assert Shown(text, x + y) == Shown(text, x) + Shown(text, y);
  }

  lemma {:induction false} GrewWider(text: Bytes, a: seq<Span>, b: seq<Span>, v: seq<Bytes>, lo: int, hi: int,
                                     lo': int, hi': int)
    requires Grew(text, a, b, v, lo, hi) && lo' <= lo && hi <= hi'
    ensures Grew(text, a, b, v, lo', hi')
  {
  }

  lemma {:induction false} GrewFromNothing(text: Bytes, spans: seq<Span>, values: seq<Bytes>, lo: int, hi: int)
    requires Grew(text, [], spans, values, lo, hi)
    ensures Tidy(spans, lo, hi) && Shown(text, spans) == values
  {
    assert spans[0..] == spans;
  }
}
