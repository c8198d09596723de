/**
 The strings of a parsed document share the character buffer and are decoded in place when they are
 first asked for. They come out as the parser's tree has them, whatever the order of asking.
 */
module LazyStrings {
  import opened Bytes
  import opened Decoding
  import opened Spans
  import opened StrPairs
  import opened XmlParser
  import XmlDocument

  /** A C string that ends by e depends on the bytes up to e only. */
  lemma {:induction false} StringStays(b: Bytes, b': Bytes, k: nat, e: nat)
    requires k <= e < |b| == |b'| && k + |CString(b[k..])| <= e
    requires forall i | k <= i <= e :: b[i] == b'[i]
    ensures CString(b'[k..]) == CString(b[k..])
    decreases e - k
  {
    if b[k] != 0 {
      assert b[k..][1..] == b[k + 1..] && b'[k..][1..] == b'[k + 1..];
      StringStays(b, b', k + 1, e);
    }
  }

  /** The fields of a pair in buffer b: as the parser left it, or decoded in its place. */
  ghost predicate PairOk(text: Bytes, s: Span, start: nat, end: nat, flags: Flags, needsFlush: bool, b: Bytes) {
    && end == s.end && s.start <= start <= end < |b| == |text| + 1
    && if needsFlush
       then start == s.start && flags == s.flags && b[s.start..s.end] == text[s.start..s.end]
       else start + |CString(b[start..])| <= end && CString(b[start..]) == SpanValue(text, s)
  }

  /** Writing to another span leaves the pair as it should be. */
  lemma {:induction false} PairStays(text: Bytes, s: Span, start: nat, end: nat, flags: Flags, needsFlush: bool,
                                     b: Bytes, b': Bytes, k: nat, e: nat)
    requires PairOk(text, s, start, end, flags, needsFlush, b) && SameOutside(b, b', k, e) && (s.end < k || e < s.start)
    ensures PairOk(text, s, start, end, flags, needsFlush, b')
  {
    hide CString, SpanValue;
    assert forall i | s.start <= i <= s.end :: b[i] == b'[i];
    if needsFlush {
      assert b'[s.start..s.end] == b[s.start..s.end];
    } else {
      StringStays(b, b', start, end);
    }
  }

  lemma {:induction false} PairFacts(text: Bytes, s: Span, start: nat, end: nat, flags: Flags, needsFlush: bool,
                                     b: Bytes)
    requires PairOk(text, s, start, end, flags, needsFlush, b)
    ensures end == s.end && s.start <= start <= end < |b| == |text| + 1
    ensures needsFlush ==> start == s.start && StrValue(b[start..end], flags) == SpanValue(text, s)
    ensures !needsFlush ==> start + |CString(b[start..])| <= end && CString(b[start..]) == SpanValue(text, s)
  {
    hide CString, StrValue;
  }

  lemma {:induction false} PairDecoded(text: Bytes, s: Span, start: nat, end: nat, flags: Flags, b: Bytes)
    requires end == s.end && s.start <= start <= end < |b| == |text| + 1
    requires start + |CString(b[start..])| <= end && CString(b[start..]) == SpanValue(text, s)
    ensures PairOk(text, s, start, end, flags, false, b)
  {
  }

  class Strings {
    /** The text that was parsed, and the spans the parser set. */
    ghost const text: Bytes
    ghost const spans: seq<Span>
    const buffer: array<byte>
    const pairs: seq<StrPair>

    ghost predicate Good(j: nat)
      requires j < |pairs| == |spans|
      reads this, buffer, pairs[j]
    {
      var p := pairs[j];
      p.buffer == buffer && PairOk(text, spans[j], p.start, p.end, p.flags, p.needsFlush, buffer[..])
    }

    ghost predicate Valid()
      reads this, buffer, pairs
    {
      && |pairs| == |spans| && buffer.Length == |text| + 1 && Tidy(spans, 0, |text|)
      && (forall i, j | 0 <= i < j < |pairs| :: pairs[i] != pairs[j])
      && (forall j | 0 <= j < |pairs| :: Good(j))
    }

    constructor (text: Bytes, spans: seq<Span>)
      requires Tidy(spans, 0, |text|)
      ensures Valid() && fresh(buffer) && (forall p | p in pairs :: fresh(p)) && this.text == text
              && this.spans == spans
    {
      var buffer := new byte[|text| + 1](i requires 0 <= i <= |text| => if i < |text| then text[i] else 0);
      var pairs: seq<StrPair> := [];
      for i := 0 to |spans|
        invariant |pairs| == i && buffer[..] == text + [0]
        invariant forall j | 0 <= j < i ::
                    && fresh(pairs[j]) && pairs[j].needsFlush && pairs[j].buffer == buffer
                    && pairs[j].start == spans[j].start && pairs[j].end == spans[j].end
                    && pairs[j].flags == spans[j].flags
        invariant forall j, k | 0 <= j < k < i :: pairs[j] != pairs[k]
      {
        var pair := new StrPair.Set(buffer, spans[i].start, spans[i].end, spans[i].flags);
        pairs := pairs + [pair];
      }
      this.buffer, this.pairs, this.text, this.spans := buffer, pairs, text, spans;
      new;
      forall j | 0 <= j < |pairs| ensures Good(j) {
        assert buffer[..][spans[j].start..spans[j].end] == (text + [0])[spans[j].start..spans[j].end];
      }
    }

    /** XMLNode::Value and the like: the string is decoded now, or has been before. */
    method Get(i: nat) returns (p: nat)
      requires Valid() && i < |pairs|
      modifies buffer, pairs[i]
      ensures Valid() && p <= |text| && CString(buffer[p..]) == SpanValue(text, spans[i])
    {
      hide CString, SpanValue, StrValue, PairOk;
      ghost var b, q := buffer[..], pairs[i];
      ghost var start := q.start;
      assert Good(i);
      PairFacts(text, spans[i], q.start, q.end, q.flags, q.needsFlush, b);
      assert b[q.start..q.end] == buffer[q.start..q.end] && b[q.start..] == buffer[q.start..];
      pairs[i].GetStr();
      assert buffer[..][q.start..] == buffer[q.start..];
      PairDecoded(text, spans[i], q.start, q.end, q.flags, buffer[..]);
      forall j | 0 <= j < |pairs| && j != i ensures Good(j) {
        assert old(Good(j));
        ghost var r := pairs[j];
        PairStays(text, spans[j], r.start, r.end, r.flags, r.needsFlush, b, buffer[..], start, q.end);
      }
      assert Good(i);
      p := pairs[i].start;
    }
  }

  /**
   XMLDocument::Parse on the buffer, and then the strings: if the text is a document, asking for the
   i-th string, at any time and in any order, yields the i-th string of the tree.
   */
  method Load(options: Options, text: Bytes) returns (document: XmlDocument.XMLDocument, strings: Option<Strings>)
    ensures document.options == options && document.text == text
    ensures Document(document.errorID, document.children, document.hasBom) == ParseDocument(options, text)
    ensures strings.Some? <==> ParseDocument(options, text).error == Success
    ensures strings.Some? ==>
              var values, all := ValuesOfAll(ParseDocument(options, text).children), strings.value;
              && all.Valid() && all.text == text && |all.spans| == |values|
              && forall i | 0 <= i < |values| :: SpanValue(text, all.spans[i]) == values[i]
  {
    hide ValuesOfAll, SpanValue, ParseDocument;
    document := new XmlDocument.XMLDocument(options, text);
    document.Parse();
    if document.errorID != Success {
      return document, None;
    }
    var all := new Strings(text, document.spans);
    assert forall i | 0 <= i < |all.spans| :: Shown(text, document.spans)[i] == SpanValue(text, all.spans[i]);
    strings := Some(all);
  }
}
